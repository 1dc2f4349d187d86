/** Request payloads of the controller actions, after the framework has parsed them.
    A field the request leaves out is `None`; a tri-state field (`Option<Option<T>>`)
    tells an absent key (`None`) from an explicit null (`Some(None)`). */
module Requests {
  import opened Common
  import opened Schema

  /** An uploaded file; `valid` is the outcome of the file-content rules
      (`image|mimes:...|max:...`), which inspect the bytes. */
  datatype Upload = Upload(valid: bool)

  /** One entry of the `specifications` array of a car request. */
  datatype SpecInput = SpecInput(
    key: Option<string>,
    specLabel: Option<string>,
    specValue: Option<string>,
    unit: Option<string>,
    category: Option<string>,
    sortOrder: Option<int>)

  /** The body of `POST /cars`. A null in a nullable column is the same as leaving
      it out, except for `currency`, whose column is NOT NULL. */
  datatype CarInput = CarInput(
    brandId: Option<int>,
    name: Option<string>,
    status: Option<string>,
    text: map<TextField, string>,
    ints: map<IntField, int>,
    price: Option<int>,
    currency: Option<Option<string>>,
    vin: Option<string>,
    isFeatured: Option<bool>,
    images: seq<Upload>,
    specs: seq<SpecInput>)

  /** The body of `PUT /cars/{id}`: every key optional, nullable ones may be null. */
  datatype CarPatch = CarPatch(
    brandId: Option<int>,
    name: Option<string>,
    status: Option<string>,
    text: map<TextField, Option<string>>,
    ints: map<IntField, Option<int>>,
    price: Option<Option<int>>,
    currency: Option<Option<string>>,
    vin: Option<Option<string>>,
    isFeatured: Option<bool>)

  /** The `image_type` key of `POST /cars/{id}/images`. */
  datatype TypeField = TypeAbsent | TypeNull | TypeGiven(imageType: string)

  /** The `logo` key of a brand request. */
  datatype LogoField = LogoAbsent | LogoNull | LogoFile(file: Upload)

  /** The body of `POST /brands`. */
  datatype BrandInput = BrandInput(
    name: Option<string>,
    description: Option<string>,
    logo: LogoField,
    isActive: Option<bool>)

  /** The body of `PUT /brands/{id}`. */
  datatype BrandPatch = BrandPatch(
    name: Option<string>,
    description: Option<Option<string>>,
    logo: LogoField,
    isActive: Option<bool>)

  /** The query string of `GET /cars` (filters only). */
  datatype CarQuery = CarQuery(
    brandId: Option<int>,
    status: Option<string>,
    isFeatured: Option<bool>,
    minPrice: Option<int>,
    maxPrice: Option<int>,
    search: Option<string>)
}
