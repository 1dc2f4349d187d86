/** The four tables of the catalog (brands, cars, car_images, car_specifications):
    row shapes, column defaults, unique columns and foreign keys. */
module Schema {
  import opened Common

  const STATUS_AVAILABLE := "available"
  const STATUS_SOLD := "sold"
  const STATUS_RESERVED := "reserved"
  const STATUSES: set<string> := {STATUS_AVAILABLE, STATUS_SOLD, STATUS_RESERVED}

  const DEFAULT_CURRENCY := "USD"
  const DEFAULT_IMAGE_TYPE := "gallery"
  const IMAGE_TYPES: set<string> := {"gallery", "interior", "exterior", "main"}

  /** A row of `brands`. `logo` is a path in the blob store. */
  datatype Brand = Brand(
    id: nat,
    name: string,
    slug: string,
    description: Option<string>,
    logo: Option<string>,
    isActive: bool)

  /** The nullable text columns of `cars` that the controllers write. */
  datatype TextField =
    | Description | RegistrationYear | BodyType | Engine | FuelType
    | Transmission | Acceleration | ColorExterior | ColorInterior

  /** The nullable integer columns of `cars` that the controllers write. */
  datatype IntField = Mileage | PowerHp | PowerKw | VMax | Doors | Seats

  /** A row of `cars`. A nullable text or integer column is absent from `text` or
      `ints` when it holds null. `price` is the decimal column in hundredths.
      `deleted` is the soft-delete marker (`deleted_at` is not null). */
  datatype Car = Car(
    id: nat,
    brandId: nat,
    name: string,
    slug: string,
    status: string,
    text: map<TextField, string>,
    ints: map<IntField, int>,
    price: Option<int>,
    currency: string,
    vin: Option<string>,
    isFeatured: bool,
    viewCount: nat,
    deleted: bool)

  /** A row of `car_images`. */
  datatype CarImage = CarImage(
    id: nat,
    carId: nat,
    imagePath: string,
    imageType: string,
    sortOrder: int,
    isPrimary: bool)

  /** A row of `car_specifications`. */
  datatype CarSpec = CarSpec(
    id: nat,
    carId: nat,
    specKey: string,
    specLabel: string,
    specValue: string,
    specUnit: Option<string>,
    specCategory: Option<string>,
    sortOrder: int)

  function BrandIds(brands: seq<Brand>): set<nat> {
    set b | b in brands :: b.id
  }

  /** Ids of every car row, soft-deleted ones included: the rows a foreign key can reference. */
  function CarIds(cars: seq<Car>): set<nat> {
    set c | c in cars :: c.id
  }

  /** `brands`: id is the primary key, `slug` is unique. `name` carries no schema-level
      constraint. Every id is below the next auto-increment value. */
  ghost predicate BrandsOk(brands: seq<Brand>, nextId: nat) {
    && (forall b :: b in brands ==> b.id < nextId)
    && (forall a, b :: a in brands && b in brands && a.id == b.id ==> a == b)
    && (forall a, b :: a in brands && b in brands && a.slug == b.slug ==> a == b)
  }

  /** `cars`: primary key, unique `slug` and unique nullable `vin` over every row,
      soft-deleted rows included; `brand_id` references a brand. */
  ghost predicate CarsOk(cars: seq<Car>, brands: seq<Brand>, nextId: nat) {
    && (forall c :: c in cars ==> c.id < nextId && c.brandId in BrandIds(brands))
    && (forall a, b :: a in cars && b in cars && a.id == b.id ==> a == b)
    && (forall a, b :: a in cars && b in cars && a.slug == b.slug ==> a == b)
    && (forall a, b :: a in cars && b in cars && a.vin.Some? && a.vin == b.vin ==> a == b)
  }

  /** At most one primary image per car. */
  ghost predicate OnePrimaryPerCar(images: seq<CarImage>) {
    forall a, b :: a in images && b in images && a.carId == b.carId && a.isPrimary && b.isPrimary ==> a == b
  }

  /** The images of one car have pairwise distinct `sort_order` values. */
  ghost predicate DistinctOrders(images: seq<CarImage>) {
    forall a, b :: a in images && b in images && a.carId == b.carId && a.sortOrder == b.sortOrder ==> a == b
  }

  /** `car_images`: primary key, `car_id` references a car, and the two invariants
      the controllers keep procedurally. */
  ghost predicate ImagesOk(images: seq<CarImage>, cars: seq<Car>, nextId: nat) {
    && (forall i :: i in images ==> i.id < nextId && i.carId in CarIds(cars))
    && (forall a, b :: a in images && b in images && a.id == b.id ==> a == b)
    && OnePrimaryPerCar(images)
    && DistinctOrders(images)
  }

  /** `car_specifications`: primary key, `car_id` references a car. */
  ghost predicate SpecsOk(specs: seq<CarSpec>, cars: seq<Car>, nextId: nat) {
    && (forall s :: s in specs ==> s.id < nextId && s.carId in CarIds(cars))
    && (forall a, b :: a in specs && b in specs && a.id == b.id ==> a == b)
  }

  /** Removing rows whose car still exists keeps the `car_images` invariants. */
  lemma ImagesOkSub(images: seq<CarImage>, sub: seq<CarImage>, cars: seq<Car>, cars2: seq<Car>, next: nat)
    requires ImagesOk(images, cars, next)
    requires forall x :: x in sub ==> x in images && x.carId in CarIds(cars2)
    ensures ImagesOk(sub, cars2, next)
  {
  }

  /** Removing rows whose car still exists keeps the `car_specifications` constraints. */
  lemma SpecsOkSub(specs: seq<CarSpec>, sub: seq<CarSpec>, cars: seq<Car>, cars2: seq<Car>, next: nat)
    requires SpecsOk(specs, cars, next)
    requires forall x :: x in sub ==> x in specs && x.carId in CarIds(cars2)
    ensures SpecsOk(sub, cars2, next)
  {
  }
}
