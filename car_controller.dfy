/** The actions of the car controller, as methods on the catalog store. Each returns
    the HTTP status it answers with and states the whole new state of the store;
    every action keeps the store's invariants. */
module CarController {
  import opened Common
  import opened Seqs
  import opened Schema
  import opened Requests
  import opened CarRows
  import CarModel
  import Catalog

  /** `POST /cars`. Validation failures answer 422 before any write. Otherwise, in one
      transaction, the car row is inserted, then for each upload its file is stored
      and its image row inserted, then a row per specification. A write that throws
      (`StoreFailure`) rolls the tables back and answers 500, but files already
      stored stay on the disk. `paths` are the names the disk gives the uploads. */
  method Store(db: Catalog.Store, inp: CarInput, paths: seq<string>, failAt: Option<nat>)
    returns (status: int, carId: Option<nat>)
    requires db.Valid()
    requires |paths| == |inp.images|
    modifies db
    ensures db.Valid()
    ensures !StoreInputValid(old(db.brands), old(db.cars), inp) ==>
      status == 422 && carId.None? && unchanged(db)
    ensures (StoreInputValid(old(db.brands), old(db.cars), inp)
             && StoreFailure(old(db.cars), inp, db.slug, failAt).Some?) ==>
      var k := StoreFailure(old(db.cars), inp, db.slug, failAt).value;
      && status == 500 && carId.None?
      && db.brands == old(db.brands) && db.cars == old(db.cars)
      && db.images == old(db.images) && db.specs == old(db.specs)
      && db.nextBrandId == old(db.nextBrandId) && db.nextCarId == old(db.nextCarId)
      && db.nextImageId == old(db.nextImageId) && db.nextSpecId == old(db.nextSpecId)
      && db.blobs == old(db.blobs) + SetOf(paths[..Min(k, |paths|)])
    ensures (StoreInputValid(old(db.brands), old(db.cars), inp)
             && StoreFailure(old(db.cars), inp, db.slug, failAt).None?) ==>
      && status == 201 && carId == Some(old(db.nextCarId))
      && db.brands == old(db.brands)
      && db.cars == old(db.cars) + [NewCar(old(db.nextCarId), inp, db.slug)]
      && db.images == old(db.images) + StoredImageRows(old(db.nextCarId), old(db.nextImageId), paths)
      && db.specs == old(db.specs) + StoredSpecRows(old(db.nextCarId), old(db.nextSpecId), inp.specs)
      && db.nextBrandId == old(db.nextBrandId) && db.nextCarId == old(db.nextCarId) + 1
      && db.nextImageId == old(db.nextImageId) + |paths|
      && db.nextSpecId == old(db.nextSpecId) + |inp.specs|
      && db.blobs == old(db.blobs) + SetOf(paths)
  {
    if !StoreInputValid(db.brands, db.cars, inp) {
      return 422, None;
    }
    var fail := StoreFailure(db.cars, inp, db.slug, failAt);
    var brands0, cars0, images0, specs0 := db.brands, db.cars, db.images, db.specs;
    var nb0, nc0, ni0, ns0 := db.nextBrandId, db.nextCarId, db.nextImageId, db.nextSpecId;
    if fail == Some(0) {
      assert SetOf(paths[..Min(0, |paths|)]) == {};
      return 500, None;
    }
    var car := NewCar(nc0, inp, db.slug);
    db.cars, db.nextCarId := cars0 + [car], nc0 + 1;

    var ok := WriteImages(db, nc0, paths, fail);
    if !ok {
      assert Min(fail.value, |paths|) == fail.value;
      db.Put(brands0, cars0, images0, specs0, db.blobs, nb0, nc0, ni0, ns0);
      return 500, None;
    }
    ok := WriteSpecs(db, nc0, inp.specs, fail, 1 + |paths|);
    if !ok {
      assert paths[..Min(fail.value, |paths|)] == paths;
      db.Put(brands0, cars0, images0, specs0, db.blobs, nb0, nc0, ni0, ns0);
      return 500, None;
    }
    CarsOkAfterStore(cars0, brands0, car);
    ImagesOkAfterStore(images0, cars0, car, ni0, paths);
    SpecsOkAfterStore(specs0, cars0, car, ns0, inp.specs);
    db.Put(brands0, cars0 + [car], images0 + StoredImageRows(nc0, ni0, paths), specs0 + StoredSpecRows(nc0, ns0, inp.specs),
           db.blobs, nb0, nc0 + 1, ni0 + |paths|, ns0 + |inp.specs|);
    return 201, Some(nc0);
  }

  /** The upload loop of `store`: upload `i` stores its file, then inserts its row;
      write `1 + i` is the one that throws when `fail` says so, after its file is
      stored. `ok` is false when the loop stopped there. */
  method WriteImages(db: Catalog.Store, carId: nat, paths: seq<string>, fail: Option<nat>) returns (ok: bool)
    modifies db
    ensures ok <==> !(fail.Some? && 1 <= fail.value <= |paths|)
    ensures db.brands == old(db.brands) && db.cars == old(db.cars) && db.specs == old(db.specs)
    ensures db.nextBrandId == old(db.nextBrandId) && db.nextCarId == old(db.nextCarId)
    ensures db.nextSpecId == old(db.nextSpecId)
    ensures ok ==>
      && db.images == old(db.images) + StoredImageRows(carId, old(db.nextImageId), paths)
      && db.nextImageId == old(db.nextImageId) + |paths|
      && db.blobs == old(db.blobs) + SetOf(paths)
    ensures !ok ==> db.blobs == old(db.blobs) + SetOf(paths[..fail.value])
    ensures !ok ==>
      && db.images == old(db.images) + StoredImageRows(carId, old(db.nextImageId), paths[..fail.value - 1])
      && db.nextImageId == old(db.nextImageId) + fail.value - 1
  {
    var images0, ni0 := db.images, db.nextImageId;
    var i := 0;
    while i < |paths|
      invariant 0 <= i <= |paths|
      invariant db.images == images0 + StoredImageRows(carId, ni0, paths[..i]) && db.nextImageId == ni0 + i
      invariant db.blobs == old(db.blobs) + SetOf(paths[..i])
      invariant db.brands == old(db.brands) && db.cars == old(db.cars) && db.specs == old(db.specs)
      invariant db.nextBrandId == old(db.nextBrandId) && db.nextCarId == old(db.nextCarId)
      invariant db.nextSpecId == old(db.nextSpecId)
      invariant !(fail.Some? && 1 <= fail.value <= i)
    {
      assert paths[..i + 1] == paths[..i] + [paths[i]];
      db.blobs := db.blobs + {paths[i]};
      if fail == Some(1 + i) {
        return false;
      }
      StoredImageRowsSnoc(carId, ni0, paths, i);
      db.images := db.images + [StoredImageRow(ni0 + i, carId, paths[i], i)];
      db.nextImageId := db.nextImageId + 1;
      i := i + 1;
    }
    assert paths[..i] == paths;
    return true;
  }

  /** The specification loop of `store`: entry `j` is write `first + j`, which throws
      when `fail` says so. `ok` is false when the loop stopped there. */
  method WriteSpecs(db: Catalog.Store, carId: nat, specs: seq<SpecInput>, fail: Option<nat>, first: nat)
    returns (ok: bool)
    modifies db
    ensures ok <==> !(fail.Some? && first <= fail.value < first + |specs|)
    ensures db.brands == old(db.brands) && db.cars == old(db.cars) && db.images == old(db.images)
    ensures db.nextBrandId == old(db.nextBrandId) && db.nextCarId == old(db.nextCarId)
    ensures db.nextImageId == old(db.nextImageId) && db.blobs == old(db.blobs)
    ensures ok ==>
      && db.specs == old(db.specs) + StoredSpecRows(carId, old(db.nextSpecId), specs)
      && db.nextSpecId == old(db.nextSpecId) + |specs|
    ensures !ok ==>
      && db.specs == old(db.specs) + StoredSpecRows(carId, old(db.nextSpecId), specs[..fail.value - first])
      && db.nextSpecId == old(db.nextSpecId) + fail.value - first
  {
    var specs0, ns0 := db.specs, db.nextSpecId;
    var j := 0;
    while j < |specs|
      invariant 0 <= j <= |specs|
      invariant db.specs == specs0 + StoredSpecRows(carId, ns0, specs[..j]) && db.nextSpecId == ns0 + j
      invariant db.brands == old(db.brands) && db.cars == old(db.cars) && db.images == old(db.images)
      invariant db.nextBrandId == old(db.nextBrandId) && db.nextCarId == old(db.nextCarId)
      invariant db.nextImageId == old(db.nextImageId) && db.blobs == old(db.blobs)
      invariant !(fail.Some? && first <= fail.value < first + j)
    {
      if fail == Some(first + j) {
        return false;
      }
      StoredSpecRowsSnoc(carId, ns0, specs, j);
      db.specs := db.specs + [SpecRow(ns0 + j, carId, specs[j])];
      db.nextSpecId := db.nextSpecId + 1;
      j := j + 1;
    }
    assert specs[..j] == specs;
    return true;
  }

  /** `PUT /cars/{id}`: 404 for an unknown or deleted car, 422 on a validation
      failure, 500 when the row write throws (nothing is written), otherwise the
      supplied columns of that one row are overwritten. Images and specifications
      are never touched. `rejected` stands for any other rejection of the row write
      by the database (a value too long for its column, a price out of range for
      its decimal column); there is no handler, so it answers 500. */
  method Update(db: Catalog.Store, id: int, p: CarPatch, rejected: bool) returns (status: int)
    requires db.Valid()
    modifies db
    ensures db.Valid()
    ensures CarModel.FindCar(old(db.cars), id).None? ==> status == 404 && unchanged(db)
    ensures CarModel.FindCar(old(db.cars), id).Some? && !UpdateValid(old(db.brands), old(db.cars), id, p) ==>
      status == 422 && unchanged(db)
    ensures (CarModel.FindCar(old(db.cars), id).Some? && UpdateValid(old(db.brands), old(db.cars), id, p)
             && (UpdateFails(old(db.cars), id, p, db.slug) || rejected)) ==>
      status == 500 && unchanged(db)
    ensures (CarModel.FindCar(old(db.cars), id).Some? && UpdateValid(old(db.brands), old(db.cars), id, p)
             && !UpdateFails(old(db.cars), id, p, db.slug) && !rejected) ==>
      && status == 200
      && (p.brandId.Some? ==> p.brandId.value >= 0)
      && db.cars == UpdateWhere(old(db.cars), (c: Car) => c.id == id, (c: Car) => ApplyPatch(c, p, db.slug))
      && db.brands == old(db.brands) && db.images == old(db.images) && db.specs == old(db.specs)
      && db.nextBrandId == old(db.nextBrandId) && db.nextCarId == old(db.nextCarId)
      && db.nextImageId == old(db.nextImageId) && db.nextSpecId == old(db.nextSpecId)
      && db.blobs == old(db.blobs)
  {
    var found := CarModel.FindCar(db.cars, id);
    if found.None? {
      return 404;
    }
    if !UpdateValid(db.brands, db.cars, id, p) {
      return 422;
    }
    if UpdateFails(db.cars, id, p, db.slug) || rejected {
      return 500;
    }
    CarsOkAfterUpdate(db.cars, db.brands, db.nextCarId, found.value, p, db.slug);
    var cars := UpdateWhere(db.cars, (c: Car) => c.id == id, (c: Car) => ApplyPatch(c, p, db.slug));
    db.Put(db.brands, cars, db.images, db.specs, db.blobs, db.nextBrandId, db.nextCarId, db.nextImageId, db.nextSpecId);
    return 200;
  }

  /** `DELETE /cars/{id}`: 404 for an unknown or deleted car. Otherwise each image of
      the car has its file deleted from the disk and its row deleted, the car's
      specifications are deleted, and the car row is soft-deleted. */
  method Destroy(db: Catalog.Store, id: int) returns (status: int)
    requires db.Valid()
    modifies db
    ensures db.Valid()
    ensures CarModel.FindCar(old(db.cars), id).None? ==> status == 404 && unchanged(db)
    ensures CarModel.FindCar(old(db.cars), id).Some? ==>
      && status == 200
      && db.cars == UpdateWhere(old(db.cars), (c: Car) => c.id == id, (c: Car) => c.(deleted := true))
      && db.images == Filter(old(db.images), (x: CarImage) => x.carId != id)
      && db.specs == Filter(old(db.specs), (s: CarSpec) => s.carId != id)
      && db.blobs == old(db.blobs) - PathsOf(Filter(old(db.images), (x: CarImage) => x.carId == id))
      && db.brands == old(db.brands)
      && db.nextBrandId == old(db.nextBrandId) && db.nextCarId == old(db.nextCarId)
      && db.nextImageId == old(db.nextImageId) && db.nextSpecId == old(db.nextSpecId)
  {
    var found := CarModel.FindCar(db.cars, id);
    if found.None? {
      return 404;
    }
    var images, blobs := DeleteImagesOf(db.images, db.blobs, id);
    var specs := Filter(db.specs, (s: CarSpec) => s.carId != id);
    var cars := UpdateWhere(db.cars, (c: Car) => c.id == id, (c: Car) => c.(deleted := true));
    DestroyOk(db.brands, db.cars, db.images, db.specs, db.nextCarId, db.nextImageId, db.nextSpecId, id);
    db.Put(db.brands, cars, images, specs, blobs, db.nextBrandId, db.nextCarId, db.nextImageId, db.nextSpecId);
    return 200;
  }

  /** The loop of `destroy` over the car's images, on the image table and the disk:
      each file is deleted from the disk, then its row. */
  method DeleteImagesOf(images0: seq<CarImage>, blobs0: set<string>, id: int)
    returns (images: seq<CarImage>, blobs: set<string>)
    requires forall a, b :: a in images0 && b in images0 && a.id == b.id ==> a == b
    ensures images == Filter(images0, (x: CarImage) => x.carId != id)
    ensures blobs == blobs0 - PathsOf(Filter(images0, (x: CarImage) => x.carId == id))
  {
    var mine := Filter(images0, (x: CarImage) => x.carId == id);
    images, blobs := images0, blobs0;
    var k := 0;
    while k < |mine|
      invariant 0 <= k <= |mine|
      invariant images == DeleteAll(images0, mine[..k])
      invariant blobs == blobs0 - PathsOf(mine[..k])
    {
      var target := mine[k];
      DeleteAllStep(images0, mine, k);
      blobs := blobs - {target.imagePath};
      images := Filter(images, OtherThan(target.id));
      k := k + 1;
    }
    assert mine[..k] == mine;
    DeleteAllOfCar(images0, id);
  }

  /** `GET /cars/{id}`: 404 for an unknown or deleted car; otherwise its view counter
      goes up by one and the car is returned with its images (table order) and its
      specifications (by `sort_order`). */
  method Show(db: Catalog.Store, id: int)
    returns (status: int, car: Option<Car>, images: seq<CarImage>, specs: seq<CarSpec>)
    requires db.Valid()
    modifies db
    ensures db.Valid()
    ensures CarModel.FindCar(old(db.cars), id).None? ==>
      status == 404 && car.None? && images == [] && specs == [] && unchanged(db)
    ensures CarModel.FindCar(old(db.cars), id).Some? ==>
      var c := CarModel.FindCar(old(db.cars), id).value;
      && status == 200
      && car == Some(CarModel.IncrementViewCount(c))
      && images == Filter(db.images, (x: CarImage) => x.carId == id)
      && specs == CarModel.SpecificationsOf(db.specs, c.id)
      && db.cars == UpdateWhere(old(db.cars), (x: Car) => x.id == id, CarModel.IncrementViewCount)
      && db.brands == old(db.brands) && db.images == old(db.images) && db.specs == old(db.specs)
      && db.blobs == old(db.blobs) && db.nextImageId == old(db.nextImageId)
      && db.nextBrandId == old(db.nextBrandId) && db.nextCarId == old(db.nextCarId)
      && db.nextSpecId == old(db.nextSpecId)
  {
    var found := CarModel.FindCar(db.cars, id);
    if found.None? {
      return 404, None, [], [];
    }
    var c := found.value;
    images := Filter(db.images, (x: CarImage) => x.carId == id);
    specs := CarModel.SpecificationsOf(db.specs, c.id);
    var cars := UpdateWhere(db.cars, (x: Car) => x.id == id, CarModel.IncrementViewCount);
    CarsOkAfterEdit(db.cars, db.brands, db.nextCarId, id, CarModel.IncrementViewCount);
    ImagesOkSub(db.images, db.images, db.cars, cars, db.nextImageId);
    SpecsOkSub(db.specs, db.specs, db.cars, cars, db.nextSpecId);
    db.Put(db.brands, cars, db.images, db.specs, db.blobs, db.nextBrandId, db.nextCarId, db.nextImageId, db.nextSpecId);
    return 200, Some(CarModel.IncrementViewCount(c)), images, specs;
  }

  /** `GET /cars`: the cars that are not deleted and pass every filter the query
      string supplies (one query whose `where` clauses are those filters). */
  function Index(cars: seq<Car>, q: CarQuery): (r: seq<Car>)
    ensures forall c :: c in r <==> c in cars && !c.deleted && Matches(q, c)
    ensures |r| <= |cars|
  {
    Filter(cars, (c: Car) => !c.deleted && Matches(q, c))
  }

  /** An empty `search` term (`LIKE '%%'`) matches every car: the listing is the
      one without the search filter. */
  lemma EmptySearchKeepsIndex(cars: seq<Car>, q: CarQuery)
    requires q.search == Some("")
    ensures Index(cars, q) == Index(cars, q.(search := None))
  {
    var q0 := q.(search := None);
    forall c | c in cars
      ensures Matches(q, c) == Matches(q0, c)
    {
      ContainsEmpty(c.name);
    }
    var withSearch := (c: Car) => !c.deleted && Matches(q, c);
    var without := (c: Car) => !c.deleted && Matches(q0, c);
    FilterCongruent(cars, withSearch, without);
    assert Index(cars, q) == Filter(cars, withSearch);
    assert Index(cars, q0) == Filter(cars, without);
  }

  /** `POST /cars/{id}/images`: 404 for an unknown or deleted car, 422 on a validation
      failure. Otherwise each upload stores its file, then inserts a row placed after
      every image the car already has. There is no transaction: a write that throws
      (`AddFailure`) answers 500 and leaves the files and rows written before it. */
  method AddImages(db: Catalog.Store, carId: int, files: seq<Upload>, imageType: TypeField,
                   paths: seq<string>, failAt: Option<nat>)
    returns (status: int, added: seq<CarImage>)
    requires db.Valid()
    requires |paths| == |files|
    modifies db
    ensures db.Valid()
    ensures CarModel.FindCar(old(db.cars), carId).None? ==> status == 404 && added == [] && unchanged(db)
    ensures CarModel.FindCar(old(db.cars), carId).Some? && !AddImagesValid(files, imageType) ==>
      status == 422 && added == [] && unchanged(db)
    ensures CarModel.FindCar(old(db.cars), carId).Some? && AddImagesValid(files, imageType) ==>
      var c := CarModel.FindCar(old(db.cars), carId).value;
      var rows := AddedImageRows(c.id, old(db.nextImageId), ImageTypeOf(imageType),
                                 MaxOrder(old(db.images), c.id).GetOr(-1), paths);
      var fail := AddFailure(imageType, failAt, |paths|);
      var k := if fail.Some? then fail.value else |paths|;
      && k < |paths| + (if fail.Some? then 0 else 1)
      && status == (if fail.Some? then 500 else 201)
      && added == (if fail.Some? then [] else rows)
      && db.images == old(db.images) + rows[..k]
      && db.nextImageId == old(db.nextImageId) + k
      && db.blobs == old(db.blobs) + SetOf(paths[..(if fail.Some? then k + 1 else k)])
      && db.brands == old(db.brands) && db.cars == old(db.cars) && db.specs == old(db.specs)
      && db.nextBrandId == old(db.nextBrandId) && db.nextCarId == old(db.nextCarId)
      && db.nextSpecId == old(db.nextSpecId)
  {
    var found := CarModel.FindCar(db.cars, carId);
    if found.None? {
      return 404, [];
    }
    if !AddImagesValid(files, imageType) {
      return 422, [];
    }
    var c := found.value;
    var fail := AddFailure(imageType, failAt, |paths|);
    var images0, blobs0, ni0 := db.images, db.blobs, db.nextImageId;
    var rows := AddedImageRows(c.id, ni0, ImageTypeOf(imageType), MaxOrder(images0, c.id).GetOr(-1), paths);
    var images, blobs, k := UploadImages(images0, blobs0, rows, paths, fail);
    AddedImagesOk(images0, db.cars, c.id, ni0, ImageTypeOf(imageType), paths, k);
    db.Put(db.brands, db.cars, images, db.specs, blobs, db.nextBrandId, db.nextCarId, ni0 + k, db.nextSpecId);
    if fail.Some? {
      return 500, [];
    }
    return 201, rows;
  }

  /** The upload loop of `addImages`, on the image table and the disk: upload `i`
      stores its file, then inserts `rows[i]`; when `fail` is `Some(i)` that insert
      throws and the loop stops. `k` is the number of rows inserted. */
  method UploadImages(images0: seq<CarImage>, blobs0: set<string>, rows: seq<CarImage>, paths: seq<string>,
                      fail: Option<nat>)
    returns (images: seq<CarImage>, blobs: set<string>, k: nat)
    requires |rows| == |paths|
    ensures k == (if fail.Some? && fail.value < |paths| then fail.value else |paths|)
    ensures images == images0 + rows[..k]
    ensures blobs == blobs0 + SetOf(paths[..if fail.Some? && fail.value < |paths| then k + 1 else k])
  {
    images, blobs := images0, blobs0;
    var i := 0;
    while i < |paths|
      invariant 0 <= i <= |paths|
      invariant images == images0 + rows[..i]
      invariant blobs == blobs0 + SetOf(paths[..i])
      invariant fail.Some? ==> fail.value >= i
    {
      assert paths[..i + 1] == paths[..i] + [paths[i]];
      blobs := blobs + {paths[i]};
      if fail == Some(i) {
        return images, blobs, i;
      }
      assert rows[..i + 1] == rows[..i] + [rows[i]];
      images := images + [rows[i]];
      i := i + 1;
    }
    return images, blobs, i;
  }

  /** `DELETE /cars/{carId}/images/{imageId}`: 404 unless that image belongs to that
      car; otherwise its file is deleted from the disk and its row deleted. */
  method DeleteImage(db: Catalog.Store, carId: int, imageId: int) returns (status: int)
    requires db.Valid()
    modifies db
    ensures db.Valid()
    ensures FindImage(old(db.images), carId, imageId).None? ==> status == 404 && unchanged(db)
    ensures FindImage(old(db.images), carId, imageId).Some? ==>
      var t := FindImage(old(db.images), carId, imageId).value;
      && status == 200
      && db.images == Filter(old(db.images), (x: CarImage) => x.id != t.id)
      && db.blobs == old(db.blobs) - {t.imagePath}
      && db.brands == old(db.brands) && db.cars == old(db.cars) && db.specs == old(db.specs)
      && db.nextBrandId == old(db.nextBrandId) && db.nextCarId == old(db.nextCarId)
      && db.nextImageId == old(db.nextImageId) && db.nextSpecId == old(db.nextSpecId)
  {
    var found := FindImage(db.images, carId, imageId);
    if found.None? {
      return 404;
    }
    var t := found.value;
    var images := Filter(db.images, (x: CarImage) => x.id != t.id);
    DeleteImageDropsOnlyTarget(db.images, db.cars, db.nextImageId, t);
    db.Put(db.brands, db.cars, images, db.specs, db.blobs - {t.imagePath}, db.nextBrandId, db.nextCarId, db.nextImageId, db.nextSpecId);
    return 200;
  }

  /** `PUT /cars/{carId}/images/{imageId}/primary`: 404 for an unknown or deleted car.
      Otherwise every image of the car loses the primary flag; then, if the image
      belongs to the car, it alone gets the flag (200), else 404 with the flags
      already cleared. */
  method SetPrimaryImage(db: Catalog.Store, carId: int, imageId: int)
    returns (status: int, image: Option<CarImage>)
    requires db.Valid()
    modifies db
    ensures db.Valid()
    ensures CarModel.FindCar(old(db.cars), carId).None? ==> status == 404 && image.None? && unchanged(db)
    ensures CarModel.FindCar(old(db.cars), carId).Some? ==>
      var cleared := ClearPrimary(old(db.images), carId);
      && (FindImage(cleared, carId, imageId).None? ==>
            status == 404 && image.None? && db.images == cleared)
      && (FindImage(cleared, carId, imageId).Some? ==>
            && status == 200
            && image == Some(FindImage(cleared, carId, imageId).value.(isPrimary := true))
            && db.images == MarkPrimary(cleared, imageId))
      && db.brands == old(db.brands) && db.cars == old(db.cars) && db.specs == old(db.specs)
      && db.blobs == old(db.blobs)
      && db.nextBrandId == old(db.nextBrandId) && db.nextCarId == old(db.nextCarId)
      && db.nextImageId == old(db.nextImageId) && db.nextSpecId == old(db.nextSpecId)
  {
    var found := CarModel.FindCar(db.cars, carId);
    if found.None? {
      return 404, None;
    }
    var c := found.value;
    var cleared := ClearPrimary(db.images, carId);
    ClearPrimaryOk(db.images, db.cars, db.nextImageId, c.id);
    var target := FindImage(cleared, carId, imageId);
    if target.None? {
      db.Put(db.brands, db.cars, cleared, db.specs, db.blobs, db.nextBrandId, db.nextCarId, db.nextImageId, db.nextSpecId);
      return 404, None;
    }
    var t := target.value;
    SetPrimaryOk(db.images, db.cars, db.nextImageId, c.id, t);
    db.Put(db.brands, db.cars, MarkPrimary(cleared, imageId), db.specs, db.blobs, db.nextBrandId, db.nextCarId, db.nextImageId, db.nextSpecId);
    return 200, Some(t.(isPrimary := true));
  }
}
