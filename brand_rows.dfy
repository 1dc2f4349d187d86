/** What the brand controller's actions do to the rows of the catalog, as values:
    validation, the listing and detail queries, and the proofs that writes keep the
    tables' constraints, the cascade of a brand delete included. */
module BrandRows {
  import opened Common
  import opened Seqs
  import opened Schema
  import opened Requests
  import CarModel
  import BrandModel

  // ---------------------------------------------------------------- validation

  /** `unique:brands[,name,except]`: no brand other than `except` has this name. */
  predicate NameFree(brands: seq<Brand>, name: string, except: Option<int>) {
    forall b | b in brands :: b.name == name ==> except == Some(b.id)
  }

  /** `required|string|max:255|unique`. */
  predicate NameValid(brands: seq<Brand>, name: string, except: Option<int>) {
    name != "" && |name| <= 255 && NameFree(brands, name, except)
  }

  /** `nullable|image|mimes:...|max:2048`. */
  predicate LogoValid(logo: LogoField) {
    logo.LogoFile? ==> logo.file.valid
  }

  predicate StoreBrandValid(brands: seq<Brand>, inp: BrandInput) {
    inp.name.Some? && NameValid(brands, inp.name.value, None) && LogoValid(inp.logo)
  }

  predicate UpdateBrandValid(brands: seq<Brand>, id: int, p: BrandPatch) {
    (p.name.Some? ==> NameValid(brands, p.name.value, Some(id))) && LogoValid(p.logo)
  }

  /** A brand other than `except` already holds this slug: writing it violates the
      unique index on `brands.slug`. */
  predicate BrandSlugTaken(brands: seq<Brand>, s: string, except: Option<int>) {
    exists b | b in brands :: b.slug == s && except != Some(b.id)
  }

  // ---------------------------------------------------------------- writes

  /** `Brand::find(id)`. */
  function FindBrand(brands: seq<Brand>, id: int): (r: Option<Brand>)
    ensures r.Some? ==> r.value in brands && r.value.id == id
    ensures r.None? ==> forall b :: b in brands ==> b.id != id
  {
    First(brands, (b: Brand) => b.id == id)
  }

  /** The row `Brand::create` inserts: `is_active` defaults to true, the logo is the
      stored path when a file came with the request. */
  function NewBrand(id: nat, inp: BrandInput, logo: Option<string>, slug: string -> string): (r: Brand)
    requires inp.name.Some?
    ensures r.id == id && r.name == inp.name.value && r.slug == slug(inp.name.value)
    ensures r.description == inp.description && r.logo == logo
    ensures r.isActive == inp.isActive.GetOr(true)
  {
    BrandModel.SetName(Brand(id, "", "", inp.description, logo, inp.isActive.GetOr(true)), inp.name.value, slug)
  }

  /** `$brand->update($data)`: supplied keys overwrite, a name rewrites the slug, a
      null logo clears the column, a new file sets it to `stored`. */
  function ApplyBrandPatch(b: Brand, p: BrandPatch, stored: string, slug: string -> string): (r: Brand)
    ensures r.id == b.id
    ensures p.name.Some? ==> r.name == p.name.value && r.slug == slug(p.name.value)
    ensures p.name.None? ==> r.name == b.name && r.slug == b.slug
    ensures r.description == p.description.GetOr(b.description)
    ensures r.isActive == p.isActive.GetOr(b.isActive)
    ensures p.logo.LogoAbsent? ==> r.logo == b.logo
    ensures p.logo.LogoNull? ==> r.logo.None?
    ensures p.logo.LogoFile? ==> r.logo == Some(stored)
  {
    var named := if p.name.Some? then BrandModel.SetName(b, p.name.value, slug) else b;
    named.(
      description := p.description.GetOr(b.description),
      isActive := p.isActive.GetOr(b.isActive),
      logo := match p.logo
        case LogoAbsent => b.logo
        case LogoNull => None
        case LogoFile(_) => Some(stored))
  }

  lemma BrandIdsAppend(brands: seq<Brand>, b: Brand)
    ensures BrandIds(brands + [b]) == BrandIds(brands) + {b.id}
  {
    assert forall x :: x in brands + [b] <==> x in brands || x == b;
  }

  /** Appending a brand with a fresh id and an unused slug keeps the constraints. */
  lemma StoreBrandOk(brands: seq<Brand>, cars: seq<Car>, nb: nat, nc: nat, b: Brand)
    requires BrandsOk(brands, nb) && CarsOk(cars, brands, nc)
    requires b.id == nb && !BrandSlugTaken(brands, b.slug, None)
    ensures BrandsOk(brands + [b], nb + 1) && CarsOk(cars, brands + [b], nc)
  {
    BrandIdsAppend(brands, b);
  }

  /** Rewriting one brand row in place, with a slug no other brand holds, keeps the
      constraints and the set of brand ids. */
  lemma UpdateBrandOk(brands: seq<Brand>, cars: seq<Car>, nb: nat, nc: nat, b: Brand, nb2: Brand)
    requires BrandsOk(brands, nb) && CarsOk(cars, brands, nc)
    requires b in brands && nb2.id == b.id
    requires nb2.slug == b.slug || !BrandSlugTaken(brands, nb2.slug, Some(b.id))
    ensures var r := UpdateWhere(brands, (x: Brand) => x.id == b.id, (x: Brand) => nb2);
      && BrandsOk(r, nb) && CarsOk(cars, r, nc) && BrandIds(r) == BrandIds(brands)
  {
    var sel := (x: Brand) => x.id == b.id;
    var f := (x: Brand) => nb2;
    var r := UpdateWhere(brands, sel, f);
    forall x | x in r
      ensures x == nb2 || (x in brands && x.id != b.id)
    {
      var i :| 0 <= i < |r| && r[i] == x;
      assert brands[i] in brands;
    }
    forall x | x in BrandIds(brands) ensures x in BrandIds(r) {
      var i :| 0 <= i < |brands| && brands[i].id == x;
      assert r[i] in r;
    }
  }

  // ---------------------------------------------------------------- destroy

  /** Ids of the car rows (soft-deleted ones included) that a brand delete cascades to. */
  function CarIdsOfBrand(cars: seq<Car>, brandId: nat): set<nat> {
    set c | c in cars && c.brandId == brandId :: c.id
  }

  /** Deleting a brand row removes, through the cascading foreign keys, its cars and
      their images and specifications; what remains satisfies every constraint and
      references nothing removed. */
  lemma CascadeOk(brands: seq<Brand>, cars: seq<Car>, images: seq<CarImage>, specs: seq<CarSpec>,
                  nb: nat, nc: nat, ni: nat, ns: nat, id: nat)
    requires BrandsOk(brands, nb) && CarsOk(cars, brands, nc)
    requires ImagesOk(images, cars, ni) && SpecsOk(specs, cars, ns)
    ensures var gone := CarIdsOfBrand(cars, id);
      var brands2 := Filter(brands, (b: Brand) => b.id != id);
      var cars2 := Filter(cars, (c: Car) => c.brandId != id);
      && BrandsOk(brands2, nb)
      && CarsOk(cars2, brands2, nc)
      && ImagesOk(Filter(images, (x: CarImage) => x.carId !in gone), cars2, ni)
      && SpecsOk(Filter(specs, (x: CarSpec) => x.carId !in gone), cars2, ns)
  {
    var gone := CarIdsOfBrand(cars, id);
    var brands2 := Filter(brands, (b: Brand) => b.id != id);
    var cars2 := Filter(cars, (c: Car) => c.brandId != id);
    assert CarsOk(cars2, brands2, nc) by {
      forall c | c in cars2 ensures c.brandId in BrandIds(brands2) {
        var b :| b in brands && b.id == c.brandId;
        assert b in brands2;
      }
    }
    var images2 := Filter(images, (x: CarImage) => x.carId !in gone);
    forall x | x in images2 ensures x in images && x.carId in CarIds(cars2) {
      var c :| c in cars && c.id == x.carId;
      assert c in cars2;
    }
    ImagesOkSub(images, images2, cars, cars2, ni);
    var specs2 := Filter(specs, (x: CarSpec) => x.carId !in gone);
    forall x | x in specs2 ensures x in specs && x.carId in CarIds(cars2) {
      var c :| c in cars && c.id == x.carId;
      assert c in cars2;
    }
    SpecsOkSub(specs, specs2, cars, cars2, ns);
  }

  // ---------------------------------------------------------------- queries

  /** A brand of the listing with its `cars_count`. */
  datatype BrandListing = BrandListing(brand: Brand, carsCount: nat)

  /** `withCount('cars')`: the relation runs through the soft-delete scope, so only
      cars that are not deleted are counted. */
  function CarsCount(cars: seq<Car>, brandId: nat): nat {
    |CarModel.ByBrand(cars, brandId)|
  }

  const ByName := (a: BrandListing, b: BrandListing) => LexLeq(a.brand.name, b.brand.name)

  lemma ByNameIsTotalPreorder()
    ensures TotalPreorder(ByName)
  {
    forall a: BrandListing, b: BrandListing
      ensures ByName(a, b) || ByName(b, a)
    {
      LexLeqTotal(a.brand.name, b.brand.name);
    }
    forall a: BrandListing, b: BrandListing, c: BrandListing | ByName(a, b) && ByName(b, c)
      ensures ByName(a, c)
    {
      LexLeqTransitive(a.brand.name, b.brand.name, c.brand.name);
    }
  }

  function Annotated(brands: seq<Brand>, cars: seq<Car>): (r: seq<BrandListing>)
    ensures |r| == |brands|
  {
    seq(|brands|, i requires 0 <= i < |brands| => BrandListing(brands[i], CarsCount(cars, brands[i].id)))
  }

  /** `index`: every brand once, each with its car count, ordered by name. */
  function Listing(brands: seq<Brand>, cars: seq<Car>): (r: seq<BrandListing>)
    ensures SortedBy(r, ByName)
    ensures multiset(r) == multiset(Annotated(brands, cars))
    ensures forall x :: x in r <==> x.brand in brands && x.carsCount == CarsCount(cars, x.brand.id)
  {
    ByNameIsTotalPreorder();
    var a := Annotated(brands, cars);
    SortBySorted(a, ByName);
    var r := SortBy(a, ByName);
    assert forall x :: x in r <==> x in multiset(r);
    assert forall x :: x in a <==> x in multiset(a);
    forall x: BrandListing | x.brand in brands && x.carsCount == CarsCount(cars, x.brand.id)
      ensures x in a
    {
      var i :| 0 <= i < |brands| && brands[i] == x.brand;
      assert a[i] == x;
    }
    r
  }

  /** A brand with the cars its detail page embeds. */
  datatype BrandDetail = BrandDetail(brand: Brand, cars: seq<Car>)

  /** `show`: the brand with exactly its available cars (deleted cars hidden), or
      nothing for an unknown id. */
  function ShowBrand(brands: seq<Brand>, cars: seq<Car>, id: int): (r: Option<BrandDetail>)
    ensures r.None? <==> forall b :: b in brands ==> b.id != id
    ensures r.Some? ==> r.value.brand in brands && r.value.brand.id == id
    ensures r.Some? ==> forall c :: c in r.value.cars <==>
              c in cars && !c.deleted && c.brandId == id && c.status == STATUS_AVAILABLE
  {
    match FindBrand(brands, id)
    case None => None
    case Some(b) => Some(BrandDetail(b, Filter(CarModel.Available(cars), (c: Car) => c.brandId == b.id)))
  }
}
