/** What the car controller's actions do to the rows of the car tables, as values:
    the validation rules, the rows each action writes, and the proofs that every
    action keeps the tables' invariants. */
module CarRows {
  import opened Common
  import opened Seqs
  import opened Schema
  import opened Requests
  import CarModel

  // ---------------------------------------------------------------- validation

  /** `min:0` on the counters, `min:2|max:5` on doors, `min:2|max:9` on seats. */
  predicate IntInRange(f: IntField, v: int) {
    match f
    case Doors => 2 <= v <= 5
    case Seats => 2 <= v <= 9
    case _ => 0 <= v
  }

  /** `unique:cars,vin[,except]`: no row (soft-deleted ones included) other than the
      one with id `except` holds this vin. */
  predicate VinFree(cars: seq<Car>, vin: string, except: Option<int>) {
    forall c | c in cars :: c.vin == Some(vin) ==> except == Some(c.id)
  }

  /** A row other than the one with id `except` already holds this slug, so writing
      it violates the unique index on `cars.slug`. */
  predicate SlugTaken(cars: seq<Car>, s: string, except: Option<int>) {
    exists c | c in cars :: c.slug == s && except != Some(c.id)
  }

  /** The validation rules of `store`; a failure answers 422 before any write. */
  predicate StoreInputValid(brands: seq<Brand>, cars: seq<Car>, inp: CarInput) {
    && inp.brandId.Some? && inp.brandId.value in BrandIds(brands)
    && inp.name.Some? && inp.name.value != "" && |inp.name.value| <= 255
    && inp.status.Some? && inp.status.value in STATUSES
    && (forall f | f in inp.ints :: IntInRange(f, inp.ints[f]))
    && (inp.price.Some? ==> inp.price.value >= 0)
    && (inp.currency.Some? && inp.currency.value.Some? ==> |inp.currency.value.value| <= 3)
    && (inp.vin.Some? ==> VinFree(cars, inp.vin.value, None))
    && (forall u | u in inp.images :: u.valid)
  }

  /** The validation rules of `update` (every key `sometimes`). */
  predicate UpdateValid(brands: seq<Brand>, cars: seq<Car>, id: int, p: CarPatch) {
    && (p.brandId.Some? ==> p.brandId.value in BrandIds(brands))
    && (p.name.Some? ==> p.name.value != "" && |p.name.value| <= 255)
    && (p.status.Some? ==> p.status.value in STATUSES)
    && (forall f | f in p.ints && p.ints[f].Some? :: IntInRange(f, p.ints[f].value))
    && (p.price.Some? && p.price.value.Some? ==> p.price.value.value >= 0)
    && (p.currency.Some? && p.currency.value.Some? ==> |p.currency.value.value| <= 3)
    && (p.vin.Some? && p.vin.value.Some? ==> VinFree(cars, p.vin.value.value, Some(id)))
  }

  // ---------------------------------------------------------------- store

  /** The row `Car::create` inserts: the validated fields, the slug of the name and
      the column defaults for what the request left out. */
  function NewCar(id: nat, inp: CarInput, slug: string -> string): (r: Car)
    requires inp.brandId.Some? && inp.brandId.value >= 0 && inp.name.Some? && inp.status.Some?
    requires inp.currency != Some(None)
    ensures r.id == id && r.brandId == inp.brandId.value && r.status == inp.status.value
    ensures r.name == inp.name.value && r.slug == slug(inp.name.value)
    ensures r.vin == inp.vin && r.text == inp.text && r.ints == inp.ints && r.price == inp.price
    ensures inp.currency.None? ==> r.currency == DEFAULT_CURRENCY
    ensures inp.currency.Some? ==> r.currency == inp.currency.value.value
    ensures r.isFeatured == inp.isFeatured.GetOr(false)
    ensures r.viewCount == 0 && !r.deleted
  {
    var unnamed := Car(id, inp.brandId.value, "", "", inp.status.value, inp.text, inp.ints, inp.price,
                       if inp.currency.Some? then inp.currency.value.value else DEFAULT_CURRENCY,
                       inp.vin, inp.isFeatured.GetOr(false), 0, false);
    CarModel.SetName(unnamed, inp.name.value, slug)
  }

  /** Which write of `store` throws, if any. Writes are numbered 0 (the car row),
      1 + i (the file and row of image i) and 1 + n + j (the row of specification j),
      where n is the number of images. The car insert itself throws when the slug is
      already taken or currency is an explicit null; `failAt` stands for any other
      database write that throws (the file of every upload before it is assumed
      stored). */
  function StoreFailure(cars: seq<Car>, inp: CarInput, slug: string -> string, failAt: Option<nat>): (r: Option<nat>)
    requires inp.name.Some?
    ensures r.Some? ==> r.value <= |inp.images| + |inp.specs|
    ensures SlugTaken(cars, slug(inp.name.value), None) ==> r == Some(0)
    ensures inp.currency == Some(None) ==> r == Some(0)
    ensures failAt.Some? && failAt.value <= |inp.images| + |inp.specs| ==> r.Some? && r.value <= failAt.value
    ensures r.Some? && r.value > 0 ==> r == failAt
    ensures r.None? <==> && !SlugTaken(cars, slug(inp.name.value), None) && inp.currency != Some(None)
                         && !(failAt.Some? && failAt.value <= |inp.images| + |inp.specs|)
    ensures !SlugTaken(cars, slug(inp.name.value), None) && inp.currency != Some(None) ==>
              r == (if failAt.Some? && failAt.value <= |inp.images| + |inp.specs| then failAt else None)
  {
    if SlugTaken(cars, slug(inp.name.value), None) || inp.currency == Some(None) then Some(0)
    else if failAt.Some? && failAt.value <= |inp.images| + |inp.specs| then failAt
    else None
  }

  /** The row `store` writes for the image at `index` of the upload list. */
  function StoredImageRow(id: nat, carId: nat, path: string, index: nat): CarImage {
    CarImage(id, carId, path, "gallery", index, index == 0)
  }

  function StoredImageRows(carId: nat, firstId: nat, paths: seq<string>): (r: seq<CarImage>)
    ensures |r| == |paths|
  {
    seq(|paths|, i requires 0 <= i < |paths| => StoredImageRow(firstId + i, carId, paths[i], i))
  }

  /** The row `store` writes for one entry of `specifications`: key, label and value
      default to "", unit and category to null, sort_order to 0. */
  function SpecRow(id: nat, carId: nat, s: SpecInput): CarSpec {
    CarSpec(id, carId, s.key.GetOr(""), s.specLabel.GetOr(""), s.specValue.GetOr(""),
            s.unit, s.category, s.sortOrder.GetOr(0))
  }

  function StoredSpecRows(carId: nat, firstId: nat, specs: seq<SpecInput>): (r: seq<CarSpec>)
    ensures |r| == |specs|
  {
    seq(|specs|, i requires 0 <= i < |specs| => SpecRow(firstId + i, carId, specs[i]))
  }

  lemma StoredImageRowsSnoc(carId: nat, firstId: nat, paths: seq<string>, i: nat)
    requires i < |paths|
    ensures StoredImageRows(carId, firstId, paths[..i + 1])
         == StoredImageRows(carId, firstId, paths[..i]) + [StoredImageRow(firstId + i, carId, paths[i], i)]
  {
  }

  lemma StoredSpecRowsSnoc(carId: nat, firstId: nat, specs: seq<SpecInput>, j: nat)
    requires j < |specs|
    ensures StoredSpecRows(carId, firstId, specs[..j + 1])
         == StoredSpecRows(carId, firstId, specs[..j]) + [SpecRow(firstId + j, carId, specs[j])]
  {
  }

  /** A new car with at least one upload has exactly one primary image, the first,
      and the primary-image accessor returns it. */
  lemma StoredImagesPrimary(images: seq<CarImage>, carId: nat, firstId: nat, paths: seq<string>)
    requires forall x :: x in images ==> x.carId != carId
    requires |paths| > 0
    ensures var rows := StoredImageRows(carId, firstId, paths);
      && (forall x :: x in images + rows && x.carId == carId && x.isPrimary <==> x == rows[0])
      && CarModel.PrimaryImage(images + rows, carId) == Some(rows[0])
  {
    var rows := StoredImageRows(carId, firstId, paths);
    forall x | x in images + rows && x.carId == carId && x.isPrimary
      ensures x == rows[0]
    {
      assert x in rows;
      var k :| 0 <= k < |rows| && rows[k] == x;
      assert k == 0;
    }
    assert rows[0] in images + rows;
  }

  /** Selecting the new car's specification rows from the table after the append
      gives back exactly the appended rows. */
  lemma SelectAppendedSpecs(specs: seq<CarSpec>, rows: seq<CarSpec>, carId: nat)
    requires forall s :: s in specs ==> s.carId != carId
    requires forall s :: s in rows ==> s.carId == carId
    ensures Filter(specs + rows, CarModel.SpecOf(carId)) == rows
  {
    var mine := CarModel.SpecOf(carId);
    FilterAppend(specs, rows, mine);
    FilterNone(specs, mine);
    FilterAll(rows, mine);
    assert [] + rows == rows;
  }

  /** The specifications relation of the new car returns exactly the rows `store`
      wrote, in ascending `sort_order`. */
  lemma StoredSpecsAreTheCarsSpecs(specs: seq<CarSpec>, carId: nat, firstId: nat, inputs: seq<SpecInput>)
    requires forall s :: s in specs ==> s.carId != carId
    ensures multiset(CarModel.SpecificationsOf(specs + StoredSpecRows(carId, firstId, inputs), carId))
         == multiset(StoredSpecRows(carId, firstId, inputs))
  {
    var rows := StoredSpecRows(carId, firstId, inputs);
    forall s | s in rows
      ensures s.carId == carId
    {
      var k :| 0 <= k < |rows| && rows[k] == s;
    }
    SelectAppendedSpecs(specs, rows, carId);
  }

  lemma CarIdsAppend(cars: seq<Car>, c: Car)
    ensures CarIds(cars + [c]) == CarIds(cars) + {c.id}
  {
    assert forall x :: x in cars + [c] <==> x in cars || x == c;
  }

  /** Appending the row `store` inserts keeps the `cars` constraints. */
  lemma CarsOkAfterStore(cars: seq<Car>, brands: seq<Brand>, c: Car)
    requires CarsOk(cars, brands, c.id)
    requires c.brandId in BrandIds(brands)
    requires !SlugTaken(cars, c.slug, None)
    requires c.vin.Some? ==> VinFree(cars, c.vin.value, None)
    ensures CarsOk(cars + [c], brands, c.id + 1)
  {
  }

  /** Appending image rows keeps ids unique when the new ids are unique and above
      every existing id. */
  lemma AppendUniqueIds(images: seq<CarImage>, rows: seq<CarImage>, lo: nat)
    requires forall a, b :: a in images && b in images && a.id == b.id ==> a == b
    requires forall a, b :: a in rows && b in rows && a.id == b.id ==> a == b
    requires forall x :: x in images ==> x.id < lo
    requires forall x :: x in rows ==> x.id >= lo
    ensures forall a, b :: a in images + rows && b in images + rows && a.id == b.id ==> a == b
  {
  }

  /** Appending image rows keeps one primary image per car when no car gets a
      second one. */
  lemma AppendOnePrimary(images: seq<CarImage>, rows: seq<CarImage>)
    requires OnePrimaryPerCar(images) && OnePrimaryPerCar(rows)
    requires forall x, y :: x in images && y in rows && x.carId == y.carId ==> !(x.isPrimary && y.isPrimary)
    ensures OnePrimaryPerCar(images + rows)
  {
  }

  /** Appending image rows keeps sort orders distinct per car when the new rows of
      a car come after its existing ones. */
  lemma AppendDistinctOrders(images: seq<CarImage>, rows: seq<CarImage>)
    requires DistinctOrders(images) && DistinctOrders(rows)
    requires forall x, y :: x in images && y in rows && x.carId == y.carId ==> x.sortOrder < y.sortOrder
    ensures DistinctOrders(images + rows)
  {
  }

  /** The image rows `store` writes have consecutive fresh ids, belong to the new
      car, and carry distinct sort orders and a single primary flag. */
  lemma StoredImageRowsOk(carId: nat, firstId: nat, paths: seq<string>)
    ensures var rows := StoredImageRows(carId, firstId, paths);
      && (forall x :: x in rows ==> x.carId == carId && firstId <= x.id < firstId + |paths|)
      && (forall a, b :: a in rows && b in rows && a.id == b.id ==> a == b)
      && OnePrimaryPerCar(rows) && DistinctOrders(rows)
  {
    var rows := StoredImageRows(carId, firstId, paths);
    forall x | x in rows
      ensures exists k :: 0 <= k < |rows| && x == rows[k] && x.id == firstId + k && x.sortOrder == k && (x.isPrimary <==> k == 0)
    {
    }
  }

  /** The image rows `store` writes for a fresh car keep the `car_images` invariants. */
  lemma ImagesOkAfterStore(images: seq<CarImage>, cars: seq<Car>, c: Car, firstId: nat, paths: seq<string>)
    requires ImagesOk(images, cars, firstId)
    requires forall x :: x in cars ==> x.id < c.id
    ensures ImagesOk(images + StoredImageRows(c.id, firstId, paths), cars + [c], firstId + |paths|)
  {
    var rows := StoredImageRows(c.id, firstId, paths);
    CarIdsAppend(cars, c);
    StoredImageRowsOk(c.id, firstId, paths);
    assert forall x :: x in images ==> x.carId != c.id;
    AppendUniqueIds(images, rows, firstId);
    AppendOnePrimary(images, rows);
    AppendDistinctOrders(images, rows);
    assert forall x :: x in images + rows <==> x in images || x in rows;
  }

  /** The specification rows `store` writes have consecutive fresh ids and belong
      to the new car. */
  lemma StoredSpecRowsOk(carId: nat, firstId: nat, inputs: seq<SpecInput>)
    ensures var rows := StoredSpecRows(carId, firstId, inputs);
      && (forall x :: x in rows ==> x.carId == carId && firstId <= x.id < firstId + |inputs|)
      && (forall a, b :: a in rows && b in rows && a.id == b.id ==> a == b)
  {
    var rows := StoredSpecRows(carId, firstId, inputs);
    forall x | x in rows
      ensures exists k :: 0 <= k < |rows| && x == rows[k] && x.id == firstId + k
    {
    }
  }

  /** The specification rows `store` writes for a fresh car keep the
      `car_specifications` constraints. */
  lemma SpecsOkAfterStore(specs: seq<CarSpec>, cars: seq<Car>, c: Car, firstId: nat, inputs: seq<SpecInput>)
    requires SpecsOk(specs, cars, firstId)
    ensures SpecsOk(specs + StoredSpecRows(c.id, firstId, inputs), cars + [c], firstId + |inputs|)
  {
    var rows := StoredSpecRows(c.id, firstId, inputs);
    CarIdsAppend(cars, c);
    StoredSpecRowsOk(c.id, firstId, inputs);
    assert forall x :: x in specs + rows <==> x in specs || x in rows;
  }

  // ---------------------------------------------------------------- row edits

  /** A row of `UpdateWhere(s, p, f)` is a row of `s`, edited when it matched. */
  lemma UpdateWhereMember<T>(s: seq<T>, p: T -> bool, f: T -> T, x: T)
    requires x in UpdateWhere(s, p, f)
    ensures exists y :: y in s && x == (if p(y) then f(y) else y)
  {
    var i :| 0 <= i < |s| && UpdateWhere(s, p, f)[i] == x;
    assert s[i] in s;
  }

  /** Editing car rows in place without touching their id keeps the set of ids. */
  lemma CarIdsUpdateWhere(cars: seq<Car>, p: Car -> bool, f: Car -> Car)
    requires forall c :: c in cars && p(c) ==> f(c).id == c.id
    ensures CarIds(UpdateWhere(cars, p, f)) == CarIds(cars)
  {
    var r := UpdateWhere(cars, p, f);
    forall x | x in CarIds(r) ensures x in CarIds(cars) {
      var c :| c in r && c.id == x;
      UpdateWhereMember(cars, p, f, c);
    }
    forall x | x in CarIds(cars) ensures x in CarIds(r) {
      var i :| 0 <= i < |cars| && cars[i].id == x;
      assert r[i] in r;
    }
  }

  /** Editing car rows in place without touching id, slug, vin or brand keeps the
      `cars` constraints. */
  lemma CarsOkUpdateWhere(cars: seq<Car>, brands: seq<Brand>, next: nat, p: Car -> bool, f: Car -> Car)
    requires CarsOk(cars, brands, next)
    requires forall c :: c in cars ==> f(c).id == c.id && f(c).slug == c.slug && f(c).vin == c.vin && f(c).brandId == c.brandId
    ensures CarsOk(UpdateWhere(cars, p, f), brands, next)
  {
    var r := UpdateWhere(cars, p, f);
    forall x | x in r
      ensures x.id < next && x.brandId in BrandIds(brands)
    {
      var i :| 0 <= i < |r| && r[i] == x;
      assert cars[i] in cars;
    }
    forall a, b | a in r && b in r && (a.id == b.id || a.slug == b.slug || (a.vin.Some? && a.vin == b.vin))
      ensures a == b
    {
      var i :| 0 <= i < |r| && r[i] == a;
      var j :| 0 <= j < |r| && r[j] == b;
      assert cars[i] in cars && cars[j] in cars;
    }
  }

  /** An edit of one car that keeps its id, slug, vin and brand keeps the `cars`
      constraints (the soft delete and the view counter). */
  lemma CarsOkAfterEdit(cars: seq<Car>, brands: seq<Brand>, next: nat, id: int, f: Car -> Car)
    requires CarsOk(cars, brands, next)
    requires forall c :: c in cars ==> f(c).id == c.id && f(c).slug == c.slug && f(c).vin == c.vin && f(c).brandId == c.brandId
    ensures CarsOk(UpdateWhere(cars, (c: Car) => c.id == id, f), brands, next)
    ensures CarIds(UpdateWhere(cars, (c: Car) => c.id == id, f)) == CarIds(cars)
  {
    var p := (c: Car) => c.id == id;
    CarIdsUpdateWhere(cars, p, f);
    CarsOkUpdateWhere(cars, brands, next, p, f);
  }

  // ---------------------------------------------------------------- update

  /** `$car->update($validated)`: the supplied keys overwrite their columns (a name
      also rewrites the slug), everything else stays. */
  function ApplyPatch(c: Car, p: CarPatch, slug: string -> string): (r: Car)
    requires p.brandId.Some? ==> p.brandId.value >= 0
    requires p.currency != Some(None)
    ensures r.id == c.id && r.viewCount == c.viewCount && r.deleted == c.deleted
    ensures p.name.Some? ==> r.name == p.name.value && r.slug == slug(p.name.value)
    ensures p.name.None? ==> r.name == c.name && r.slug == c.slug
    ensures r.brandId == (if p.brandId.Some? then p.brandId.value else c.brandId)
    ensures r.status == p.status.GetOr(c.status) && r.isFeatured == p.isFeatured.GetOr(c.isFeatured)
    ensures r.text == Patch(c.text, p.text) && r.ints == Patch(c.ints, p.ints)
    ensures r.price == p.price.GetOr(c.price) && r.vin == p.vin.GetOr(c.vin)
    ensures r.currency == (if p.currency.Some? then p.currency.value.value else c.currency)
  {
    var named := if p.name.Some? then CarModel.SetName(c, p.name.value, slug) else c;
    named.(
      brandId := if p.brandId.Some? then p.brandId.value else c.brandId,
      status := p.status.GetOr(c.status),
      text := Patch(c.text, p.text),
      ints := Patch(c.ints, p.ints),
      price := p.price.GetOr(c.price),
      currency := if p.currency.Some? then p.currency.value.value else c.currency,
      vin := p.vin.GetOr(c.vin),
      isFeatured := p.isFeatured.GetOr(c.isFeatured))
  }

  /** An update that supplies no key leaves the row as it was. */
  lemma EmptyPatchKeepsRow(c: Car, slug: string -> string)
    ensures ApplyPatch(c, CarPatch(None, None, None, map[], map[], None, None, None, None), slug) == c
  {
    var r := ApplyPatch(c, CarPatch(None, None, None, map[], map[], None, None, None, None), slug);
    assert r.text == c.text;
    assert r.ints == c.ints;
  }

  /** The row write of `update` throws: the new slug is taken by another row, or
      currency is an explicit null for its NOT NULL column. */
  predicate UpdateFails(cars: seq<Car>, id: int, p: CarPatch, slug: string -> string) {
    p.currency == Some(None) || (p.name.Some? && SlugTaken(cars, slug(p.name.value), Some(id)))
  }

  /** A validated update that does not throw keeps the `cars` constraints and the
      set of car ids. */
  lemma CarsOkAfterUpdate(cars: seq<Car>, brands: seq<Brand>, next: nat, car: Car, p: CarPatch, slug: string -> string)
    requires CarsOk(cars, brands, next)
    requires car in cars
    requires UpdateValid(brands, cars, car.id, p)
    requires !UpdateFails(cars, car.id, p, slug)
    ensures p.brandId.Some? ==> p.brandId.value >= 0
    ensures CarsOk(UpdateWhere(cars, (c: Car) => c.id == car.id, (c: Car) => ApplyPatch(c, p, slug)), brands, next)
    ensures CarIds(UpdateWhere(cars, (c: Car) => c.id == car.id, (c: Car) => ApplyPatch(c, p, slug))) == CarIds(cars)
  {
    var sel := (c: Car) => c.id == car.id;
    var f := (c: Car) => ApplyPatch(c, p, slug);
    var r := UpdateWhere(cars, sel, f);
    var nc := ApplyPatch(car, p, slug);
    CarIdsUpdateWhere(cars, sel, f);
    forall x | x in r
      ensures x == nc || (x in cars && x.id != car.id)
    {
      UpdateWhereMember(cars, sel, f, x);
    }
  }

  // ---------------------------------------------------------------- destroy

  /** The blob paths of some image rows. */
  function PathsOf(images: seq<CarImage>): set<string> {
    if images == [] then {} else PathsOf(images[..|images| - 1]) + {images[|images| - 1].imagePath}
  }

  /** The ids of some image rows. */
  function IdsOf(images: seq<CarImage>): (r: set<nat>)
    ensures forall x :: x in images ==> x.id in r
  {
    set x | x in images :: x.id
  }

  /** The image rows whose id is not in `ids`. */
  function WithoutIds(images: seq<CarImage>, ids: set<nat>): (r: seq<CarImage>)
    ensures forall x :: x in r <==> x in images && x.id !in ids
  {
    Filter(images, (x: CarImage) => x.id !in ids)
  }

  /** `where('id', '!=', id)` on image rows. */
  function OtherThan(id: nat): CarImage -> bool {
    (x: CarImage) => x.id != id
  }

  /** `images` after deleting, one `DELETE ... WHERE id = ?` at a time, the rows of `targets`. */
  function DeleteAll(images: seq<CarImage>, targets: seq<CarImage>): seq<CarImage>
  {
    if targets == [] then images
    else
      var last := targets[|targets| - 1];
      Filter(DeleteAll(images, targets[..|targets| - 1]), OtherThan(last.id))
  }

  /** One more step of the delete loop over `targets`. */
  lemma DeleteAllStep(images: seq<CarImage>, targets: seq<CarImage>, k: nat)
    requires k < |targets|
    ensures DeleteAll(images, targets[..k + 1]) == Filter(DeleteAll(images, targets[..k]), OtherThan(targets[k].id))
    ensures PathsOf(targets[..k + 1]) == PathsOf(targets[..k]) + {targets[k].imagePath}
  {
    assert targets[..k + 1][..k] == targets[..k];
  }

  /** Deleting rows one by one by id leaves the rows whose id is none of theirs. */
  lemma {:induction false} DeleteAllIsWithoutIds(images: seq<CarImage>, targets: seq<CarImage>)
    ensures DeleteAll(images, targets) == WithoutIds(images, IdsOf(targets))
  {
    if targets == [] {
      FilterAll(images, (x: CarImage) => x.id !in IdsOf(targets));
    } else {
      var init, last := targets[..|targets| - 1], targets[|targets| - 1];
      assert targets == init + [last];
      IdsOfSnoc(init, last);
      DeleteAllIsWithoutIds(images, init);
      FilterFilter(images, (x: CarImage) => x.id !in IdsOf(init), OtherThan(last.id),
                   (x: CarImage) => x.id !in IdsOf(targets));
    }
  }

  /** Deleting, by id, every image of a car leaves exactly the images of the other
      cars (ids are unique, so no other row shares a deleted id). */
  lemma DeleteAllOfCar(images: seq<CarImage>, carId: int)
    requires forall a, b :: a in images && b in images && a.id == b.id ==> a == b
    ensures DeleteAll(images, Filter(images, (x: CarImage) => x.carId == carId))
         == Filter(images, (x: CarImage) => x.carId != carId)
  {
    var mine := Filter(images, (x: CarImage) => x.carId == carId);
    DeleteAllIsWithoutIds(images, mine);
    forall x | x in images
      ensures (x.id !in IdsOf(mine)) == (x.carId != carId)
    {
      if x.carId == carId {
        assert x in mine;
      }
    }
    FilterCongruent(images, (x: CarImage) => x.id !in IdsOf(mine), (x: CarImage) => x.carId != carId);
  }

  lemma IdsOfSnoc(images: seq<CarImage>, x: CarImage)
    ensures IdsOf(images + [x]) == IdsOf(images) + {x.id}
  {
    assert forall y :: y in images + [x] <==> y in images || y == x;
  }

  /** `destroy` keeps every constraint: the car row is soft-deleted, so rows that
      still reference it stay valid, and its images and specifications are gone. */
  lemma DestroyOk(brands: seq<Brand>, cars: seq<Car>, images: seq<CarImage>, specs: seq<CarSpec>,
                  nc: nat, ni: nat, ns: nat, id: int)
    requires CarsOk(cars, brands, nc) && ImagesOk(images, cars, ni) && SpecsOk(specs, cars, ns)
    ensures var cars2 := UpdateWhere(cars, (c: Car) => c.id == id, (c: Car) => c.(deleted := true));
      && CarsOk(cars2, brands, nc)
      && CarIds(cars2) == CarIds(cars)
      && ImagesOk(Filter(images, (x: CarImage) => x.carId != id), cars2, ni)
      && SpecsOk(Filter(specs, (s: CarSpec) => s.carId != id), cars2, ns)
  {
    var cars2 := UpdateWhere(cars, (c: Car) => c.id == id, (c: Car) => c.(deleted := true));
    CarsOkAfterEdit(cars, brands, nc, id, (c: Car) => c.(deleted := true));
    ImagesOkSub(images, Filter(images, (x: CarImage) => x.carId != id), cars, cars2, ni);
    SpecsOkSub(specs, Filter(specs, (s: CarSpec) => s.carId != id), cars, cars2, ns);
  }

  // ---------------------------------------------------------------- images

  /** `$car->images()->max('sort_order')`: none when the car has no image. */
  function MaxOrder(images: seq<CarImage>, carId: int): (m: Option<int>)
    ensures m.None? <==> forall x :: x in images ==> x.carId != carId
    ensures m.Some? ==> exists x :: x in images && x.carId == carId && x.sortOrder == m.value
    ensures forall x :: x in images && x.carId == carId ==> m.Some? && x.sortOrder <= m.value
  {
    if images == [] then None
    else
      assert forall x :: x in images <==> x == images[0] || x in images[1..];
      match MaxOrder(images[1..], carId)
      case None => if images[0].carId == carId then Some(images[0].sortOrder) else None
      case Some(k) => if images[0].carId == carId && images[0].sortOrder > k then Some(images[0].sortOrder) else Some(k)
  }

  /** The validation rules of `addImages`: at least one upload, every upload an
      accepted image, a given type one of the four image types. */
  predicate AddImagesValid(files: seq<Upload>, imageType: TypeField) {
    && |files| > 0
    && (forall u | u in files :: u.valid)
    && (imageType.TypeGiven? ==> imageType.imageType in IMAGE_TYPES)
  }

  /** `$request->get('image_type', 'gallery')`. */
  function ImageTypeOf(imageType: TypeField): string {
    if imageType.TypeGiven? then imageType.imageType else DEFAULT_IMAGE_TYPE
  }

  /** Which upload of `addImages` throws after its file was stored, if any: an explicit
      null type fails the first row insert (the column is NOT NULL); `failAt` stands
      for any other row insert that throws (its file already stored). */
  function AddFailure(imageType: TypeField, failAt: Option<nat>, n: nat): (r: Option<nat>)
    ensures r.Some? ==> r.value < n || (imageType.TypeNull? && r.value == 0)
    ensures imageType.TypeNull? ==> r == Some(0)
    ensures !imageType.TypeNull? ==> r == (if failAt.Some? && failAt.value < n then failAt else None)
  {
    if imageType.TypeNull? then Some(0)
    else if failAt.Some? && failAt.value < n then failAt
    else None
  }

  /** The rows `addImages` writes: the k-th upload gets `sort_order = m + k + 1`
      and is never primary. */
  function AddedImageRows(carId: nat, firstId: nat, imageType: string, m: int, paths: seq<string>): (r: seq<CarImage>)
    ensures |r| == |paths|
  {
    seq(|paths|, k requires 0 <= k < |paths| => CarImage(firstId + k, carId, paths[k], imageType, m + k + 1, false))
  }

  /** Any prefix of the rows `addImages` writes has consecutive fresh ids, belongs to
      the car, has no primary image and orders every row after `m`. */
  lemma AddedImageRowsOk(carId: nat, firstId: nat, imageType: string, m: int, paths: seq<string>, k: nat)
    requires k <= |paths|
    ensures var rows := AddedImageRows(carId, firstId, imageType, m, paths);
      && (forall y :: y in rows ==> y.sortOrder > m)
      && (forall y :: y in rows[..k] ==> y.carId == carId && !y.isPrimary && firstId <= y.id < firstId + k)
      && (forall a, b :: a in rows[..k] && b in rows[..k] && a.id == b.id ==> a == b)
      && OnePrimaryPerCar(rows[..k]) && DistinctOrders(rows[..k])
  {
    var rows := AddedImageRows(carId, firstId, imageType, m, paths);
    forall y | y in rows
      ensures exists j :: 0 <= j < |rows| && y == rows[j] && y.id == firstId + j && y.sortOrder == m + j + 1
    {
    }
    forall y | y in rows[..k]
      ensures exists j :: 0 <= j < k && y == rows[j] && y.id == firstId + j && y.sortOrder == m + j + 1
    {
    }
  }

  /** The rows `addImages` writes, taken in any prefix (the loop can stop part way),
      come after every image the car already has and keep the `car_images` invariants. */
  lemma AddedImagesOk(images: seq<CarImage>, cars: seq<Car>, carId: nat, firstId: nat, imageType: string,
                      paths: seq<string>, k: nat)
    requires ImagesOk(images, cars, firstId)
    requires carId in CarIds(cars)
    requires k <= |paths|
    ensures var rows := AddedImageRows(carId, firstId, imageType, MaxOrder(images, carId).GetOr(-1), paths);
      && (forall x, y :: x in images && x.carId == carId && y in rows ==> x.sortOrder < y.sortOrder)
      && ImagesOk(images + rows[..k], cars, firstId + k)
  {
    var m := MaxOrder(images, carId).GetOr(-1);
    var rows := AddedImageRows(carId, firstId, imageType, m, paths);
    var added := rows[..k];
    AddedImageRowsOk(carId, firstId, imageType, m, paths, k);
    assert forall y :: y in added ==> y in rows;
    AppendUniqueIds(images, added, firstId);
    AppendOnePrimary(images, added);
    AppendDistinctOrders(images, added);
    assert forall x :: x in images + added <==> x in images || x in added;
  }

  /** `Car::images()->find($imageId)` and `CarImage::where('car_id', ..)->find(..)`:
      the image with that id, provided it belongs to that car. */
  function FindImage(images: seq<CarImage>, carId: int, imageId: int): (r: Option<CarImage>)
    ensures r.Some? ==> r.value in images && r.value.carId == carId && r.value.id == imageId
    ensures r.None? ==> forall x :: x in images ==> !(x.carId == carId && x.id == imageId)
  {
    First(images, (x: CarImage) => x.carId == carId && x.id == imageId)
  }

  /** `$car->images()->update(['is_primary' => false])`. */
  function ClearPrimary(images: seq<CarImage>, carId: int): (r: seq<CarImage>)
    ensures |r| == |images|
  {
    UpdateWhere(images, (x: CarImage) => x.carId == carId, (x: CarImage) => x.(isPrimary := false))
  }

  /** `$image->update(['is_primary' => true])`. */
  function MarkPrimary(images: seq<CarImage>, imageId: int): (r: seq<CarImage>)
    ensures |r| == |images|
  {
    UpdateWhere(images, (x: CarImage) => x.id == imageId, (x: CarImage) => x.(isPrimary := true))
  }

  /** The clearing step alone: the car is left with no primary image, every other
      car's images are untouched, and the invariants hold. */
  lemma ClearPrimaryOk(images: seq<CarImage>, cars: seq<Car>, next: nat, carId: nat)
    requires ImagesOk(images, cars, next)
    ensures var r := ClearPrimary(images, carId);
      && ImagesOk(r, cars, next)
      && (forall x :: x in r && x.carId == carId ==> !x.isPrimary)
      && (forall i :: 0 <= i < |images| && images[i].carId != carId ==> r[i] == images[i])
      && (forall i :: 0 <= i < |images| ==> r[i].(isPrimary := images[i].isPrimary) == images[i])
  {
    var r := ClearPrimary(images, carId);
    EditKeepsImagesOk(images, (x: CarImage) => x.carId == carId, (x: CarImage) => x.(isPrimary := false), cars, next);
    forall x | x in r && x.carId == carId
      ensures !x.isPrimary
    {
      var i :| 0 <= i < |r| && r[i] == x;
    }
  }

  /** An `UPDATE ... WHERE` on image rows that keeps each row's id, car and sort
      order and never sets a primary flag keeps the `car_images` invariants. */
  lemma EditKeepsImagesOk(images: seq<CarImage>, p: CarImage -> bool, g: CarImage -> CarImage, cars: seq<Car>, next: nat)
    requires ImagesOk(images, cars, next)
    requires forall x :: g(x).id == x.id && g(x).carId == x.carId && g(x).sortOrder == x.sortOrder
    requires forall x :: g(x).isPrimary ==> x.isPrimary
    ensures ImagesOk(UpdateWhere(images, p, g), cars, next)
  {
    EditKeepsKeys(images, p, g, cars, next);
    EditKeepsFlags(images, p, g);
  }

  lemma EditKeepsKeys(images: seq<CarImage>, p: CarImage -> bool, g: CarImage -> CarImage, cars: seq<Car>, next: nat)
    requires forall i :: i in images ==> i.id < next && i.carId in CarIds(cars)
    requires forall a, b :: a in images && b in images && a.id == b.id ==> a == b
    requires forall x :: g(x).id == x.id && g(x).carId == x.carId
    ensures var r := UpdateWhere(images, p, g);
      && (forall i :: i in r ==> i.id < next && i.carId in CarIds(cars))
      && (forall a, b :: a in r && b in r && a.id == b.id ==> a == b)
  {
    var r := UpdateWhere(images, p, g);
    forall x | x in r
      ensures exists y :: y in images && x == (if p(y) then g(y) else y)
    {
      UpdateWhereMember(images, p, g, x);
    }
  }

  lemma EditKeepsFlags(images: seq<CarImage>, p: CarImage -> bool, g: CarImage -> CarImage)
    requires OnePrimaryPerCar(images) && DistinctOrders(images)
    requires forall x :: g(x).carId == x.carId && g(x).sortOrder == x.sortOrder
    requires forall x :: g(x).isPrimary ==> x.isPrimary
    ensures var r := UpdateWhere(images, p, g);
      OnePrimaryPerCar(r) && DistinctOrders(r)
  {
    var r := UpdateWhere(images, p, g);
    forall x | x in r
      ensures exists y :: y in images && x == (if p(y) then g(y) else y)
    {
      UpdateWhereMember(images, p, g, x);
    }
  }

  /** Setting the flag on the one row with the target's id. */
  lemma MarkPrimaryMembers(c: seq<CarImage>, target: CarImage)
    requires target in c
    requires forall a, b :: a in c && b in c && a.id == b.id ==> a == b
    ensures var r := MarkPrimary(c, target.id);
      && target.(isPrimary := true) in r
      && (forall x :: x in r ==> x == target.(isPrimary := true) || (x in c && x.id != target.id))
      && (forall i :: 0 <= i < |c| && c[i].carId != target.carId ==> r[i] == c[i])
  {
    var r := MarkPrimary(c, target.id);
    var ti :| 0 <= ti < |c| && c[ti] == target;
    assert r[ti] == target.(isPrimary := true);
    forall x | x in r
      ensures x == target.(isPrimary := true) || (x in c && x.id != target.id)
    {
      var i :| 0 <= i < |r| && r[i] == x;
      assert c[i] in c;
    }
    forall i | 0 <= i < |c| && c[i].carId != target.carId
      ensures r[i] == c[i]
    {
      assert c[i] in c;
    }
  }

  lemma MarkPrimaryKeepsOrders(c: seq<CarImage>, target: CarImage)
    requires target in c
    requires forall a, b :: a in c && b in c && a.id == b.id ==> a == b
    requires DistinctOrders(c)
    ensures DistinctOrders(MarkPrimary(c, target.id))
  {
    MarkPrimaryMembers(c, target);
    var r := MarkPrimary(c, target.id);
    var t := target.(isPrimary := true);
    forall a, b | a in r && b in r && a.carId == b.carId && a.sortOrder == b.sortOrder
      ensures a == b
    {
      if a != t && b != t {
        assert a in c && b in c;
      }
    }
  }

  lemma MarkPrimaryFlags(c: seq<CarImage>, target: CarImage)
    requires target in c
    requires forall a, b :: a in c && b in c && a.id == b.id ==> a == b
    requires OnePrimaryPerCar(c)
    requires forall x :: x in c && x.carId == target.carId ==> !x.isPrimary
    ensures var r := MarkPrimary(c, target.id);
      && OnePrimaryPerCar(r)
      && (forall x :: x in r && x.carId == target.carId ==> (x.isPrimary <==> x.id == target.id))
  {
    MarkPrimaryMembers(c, target);
    var r := MarkPrimary(c, target.id);
    var t := target.(isPrimary := true);
    forall a, b | a in r && b in r && a.carId == b.carId && a.isPrimary && b.isPrimary
      ensures a == b
    {
      if a != t && b != t {
        assert a in c && b in c;
      }
    }
  }

  /** Setting the flag on an image of a car that has no primary image keeps the
      invariants and makes it the car's only primary image. */
  lemma MarkPrimaryOk(c: seq<CarImage>, cars: seq<Car>, next: nat, target: CarImage)
    requires ImagesOk(c, cars, next)
    requires target in c
    requires forall x :: x in c && x.carId == target.carId ==> !x.isPrimary
    ensures var r := MarkPrimary(c, target.id);
      && ImagesOk(r, cars, next)
      && (forall x :: x in r && x.carId == target.carId ==> (x.isPrimary <==> x.id == target.id))
  {
    MarkPrimaryMembers(c, target);
    MarkPrimaryKeepsOrders(c, target);
    MarkPrimaryFlags(c, target);
  }

  /** Clear-then-set on an image of the car: afterwards the target is the car's one
      and only primary image, images of other cars are untouched, and the invariants hold. */
  lemma SetPrimaryOk(images: seq<CarImage>, cars: seq<Car>, next: nat, carId: nat, target: CarImage)
    requires ImagesOk(images, cars, next)
    requires target in ClearPrimary(images, carId) && target.carId == carId
    ensures var r := MarkPrimary(ClearPrimary(images, carId), target.id);
      && ImagesOk(r, cars, next)
      && target.(isPrimary := true) in r
      && (forall x :: x in r && x.carId == carId ==> (x.isPrimary <==> x.id == target.id))
      && (forall i :: 0 <= i < |images| && images[i].carId != carId ==> r[i] == images[i])
  {
    var c := ClearPrimary(images, carId);
    ClearPrimaryOk(images, cars, next, carId);
    MarkPrimaryMembers(c, target);
    MarkPrimaryOk(c, cars, next, target);
  }

  /** `deleteImage` drops exactly the found row. */
  lemma DeleteImageDropsOnlyTarget(images: seq<CarImage>, cars: seq<Car>, next: nat, target: CarImage)
    requires ImagesOk(images, cars, next)
    requires target in images
    ensures var r := Filter(images, (x: CarImage) => x.id != target.id);
      && (forall x :: x in r <==> x in images && x != target)
      && ImagesOk(r, cars, next)
  {
  }

  // ---------------------------------------------------------------- index

  /** The `search` filter: name, description or body type contains the term. A null
      column never matches. */
  predicate SearchHit(c: Car, term: string) {
    || Contains(c.name, term)
    || (Description in c.text && Contains(c.text[Description], term))
    || (BodyType in c.text && Contains(c.text[BodyType], term))
  }

  /** The `where` clauses `index` adds for the filters the query string supplies.
      A price bound never matches a car whose price is null. */
  predicate Matches(q: CarQuery, c: Car) {
    && (q.brandId.Some? ==> c.brandId == q.brandId.value)
    && (q.status.Some? ==> c.status == q.status.value)
    && (q.isFeatured.Some? ==> c.isFeatured == q.isFeatured.value)
    && (q.minPrice.Some? ==> c.price.Some? && c.price.value >= q.minPrice.value)
    && (q.maxPrice.Some? ==> c.price.Some? && c.price.value <= q.maxPrice.value)
    && (q.search.Some? ==> SearchHit(c, q.search.value))
  }
}
