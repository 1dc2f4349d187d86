/** The writing actions of the brand controller, as methods on the catalog store.
    None of them runs in a transaction: a file stored or deleted before a write
    that throws stays stored or deleted. The listing and the detail page are the
    functions `BrandRows.Listing` and `BrandRows.ShowBrand`. */
module BrandController {
  import opened Common
  import opened Seqs
  import opened Schema
  import opened Requests
  import opened BrandRows
  import Catalog

  /** The logo column `store` writes: the stored path when a file came with the
      request, null otherwise. */
  function StoredLogo(logo: LogoField, path: string): (r: Option<string>)
    ensures r.Some? <==> logo.LogoFile?
    ensures r.Some? ==> r.value == path
  {
    if logo.LogoFile? then Some(path) else None
  }

  /** `POST /brands`: 422 on a validation failure. Otherwise a logo file is stored
      under `path`, then the row is inserted; the insert throws (500) when another
      brand already holds the slug of the name, or when the database rejects the row
      for another reason (`rejected`: a description too long for its column), and
      the stored file stays. */
  method Store(db: Catalog.Store, inp: BrandInput, path: string, rejected: bool)
    returns (status: int, brandId: Option<nat>)
    requires db.Valid()
    modifies db
    ensures db.Valid()
    ensures !StoreBrandValid(old(db.brands), inp) ==> status == 422 && brandId.None? && unchanged(db)
    ensures StoreBrandValid(old(db.brands), inp) ==>
      var b := NewBrand(old(db.nextBrandId), inp, StoredLogo(inp.logo, path), db.slug);
      && db.blobs == old(db.blobs) + (if inp.logo.LogoFile? then {path} else {})
      && db.cars == old(db.cars) && db.images == old(db.images) && db.specs == old(db.specs)
      && db.nextCarId == old(db.nextCarId) && db.nextImageId == old(db.nextImageId)
      && db.nextSpecId == old(db.nextSpecId)
      && (BrandSlugTaken(old(db.brands), b.slug, None) || rejected ==>
            status == 500 && brandId.None?
            && db.brands == old(db.brands) && db.nextBrandId == old(db.nextBrandId))
      && (!BrandSlugTaken(old(db.brands), b.slug, None) && !rejected ==>
            status == 201 && brandId == Some(b.id)
            && db.brands == old(db.brands) + [b] && db.nextBrandId == old(db.nextBrandId) + 1)
  {
    if !StoreBrandValid(db.brands, inp) {
      return 422, None;
    }
    var blobs := db.blobs;
    if inp.logo.LogoFile? {
      blobs := blobs + {path};
    }
    var b := NewBrand(db.nextBrandId, inp, StoredLogo(inp.logo, path), db.slug);
    if BrandSlugTaken(db.brands, b.slug, None) || rejected {
      db.Put(db.brands, db.cars, db.images, db.specs, blobs,
             db.nextBrandId, db.nextCarId, db.nextImageId, db.nextSpecId);
      return 500, None;
    }
    StoreBrandOk(db.brands, db.cars, db.nextBrandId, db.nextCarId, b);
    db.Put(db.brands + [b], db.cars, db.images, db.specs, blobs,
           db.nextBrandId + 1, db.nextCarId, db.nextImageId, db.nextSpecId);
    return 201, Some(b.id);
  }

  /** The disk after `update` replaces a logo: the old file is deleted when the
      column is truthy and the file exists, then the new file is stored. */
  function ReplacedLogo(blobs: set<string>, old_logo: Option<string>, path: string): (r: set<string>)
    ensures path in r
    ensures forall f :: f in r && f != path ==> f in blobs && !(Truthy(old_logo) && f == old_logo.value)
    ensures forall f :: f in blobs && !(Truthy(old_logo) && f == old_logo.value) ==> f in r
  {
    (if Truthy(old_logo) && old_logo.value in blobs then blobs - {old_logo.value} else blobs) + {path}
  }

  /** `PUT /brands/{id}`: 404 for an unknown brand, 422 on a validation failure.
      With a new logo file the old file is deleted and the new one stored under
      `path`, before the row is written. The write throws (500) when the new name's
      slug is held by another brand, or when the database rejects the row for another
      reason (`rejected`); otherwise the supplied fields overwrite the row. */
  method Update(db: Catalog.Store, id: int, p: BrandPatch, path: string, rejected: bool) returns (status: int)
    requires db.Valid()
    modifies db
    ensures db.Valid()
    ensures FindBrand(old(db.brands), id).None? ==> status == 404 && unchanged(db)
    ensures FindBrand(old(db.brands), id).Some? && !UpdateBrandValid(old(db.brands), id, p) ==>
      status == 422 && unchanged(db)
    ensures FindBrand(old(db.brands), id).Some? && UpdateBrandValid(old(db.brands), id, p) ==>
      var b := FindBrand(old(db.brands), id).value;
      var b2 := ApplyBrandPatch(b, p, path, db.slug);
      && db.blobs == (if p.logo.LogoFile? then ReplacedLogo(old(db.blobs), b.logo, path) else old(db.blobs))
      && db.cars == old(db.cars) && db.images == old(db.images) && db.specs == old(db.specs)
      && db.nextBrandId == old(db.nextBrandId) && db.nextCarId == old(db.nextCarId)
      && db.nextImageId == old(db.nextImageId) && db.nextSpecId == old(db.nextSpecId)
      && ((p.name.Some? && BrandSlugTaken(old(db.brands), b2.slug, Some(id))) || rejected ==>
            status == 500 && db.brands == old(db.brands))
      && (!(p.name.Some? && BrandSlugTaken(old(db.brands), b2.slug, Some(id))) && !rejected ==>
            status == 200 && db.brands == UpdateWhere(old(db.brands), (x: Brand) => x.id == id, (x: Brand) => b2))
  {
    var found := FindBrand(db.brands, id);
    if found.None? {
      return 404;
    }
    if !UpdateBrandValid(db.brands, id, p) {
      return 422;
    }
    var b := found.value;
    var blobs := db.blobs;
    if p.logo.LogoFile? {
      if Truthy(b.logo) && b.logo.value in blobs {
        blobs := blobs - {b.logo.value};
      }
      blobs := blobs + {path};
    }
    var b2 := ApplyBrandPatch(b, p, path, db.slug);
    if (p.name.Some? && BrandSlugTaken(db.brands, b2.slug, Some(id))) || rejected {
      db.Put(db.brands, db.cars, db.images, db.specs, blobs,
             db.nextBrandId, db.nextCarId, db.nextImageId, db.nextSpecId);
      return 500;
    }
    UpdateBrandOk(db.brands, db.cars, db.nextBrandId, db.nextCarId, b, b2);
    db.Put(UpdateWhere(db.brands, (x: Brand) => x.id == id, (x: Brand) => b2), db.cars, db.images, db.specs, blobs,
           db.nextBrandId, db.nextCarId, db.nextImageId, db.nextSpecId);
    return 200;
  }

  /** The disk after `destroy`: the logo file is deleted when the column is truthy
      and the file exists; deleting a missing file would change nothing either. */
  function DeletedLogo(blobs: set<string>, logo: Option<string>): (r: set<string>)
    ensures r == blobs - (if Truthy(logo) then {logo.value} else {})
  {
    if Truthy(logo) && logo.value in blobs then blobs - {logo.value} else blobs
  }

  /** `DELETE /brands/{id}`: 404 for an unknown brand. Otherwise the logo file is
      deleted when the column is truthy and the file exists, and the row is deleted;
      the foreign keys cascade to every car of the brand (soft-deleted ones
      included) and to their images and specifications. The image files of those
      cars stay on the disk. */
  method Destroy(db: Catalog.Store, id: int) returns (status: int)
    requires db.Valid()
    modifies db
    ensures db.Valid()
    ensures FindBrand(old(db.brands), id).None? ==> status == 404 && unchanged(db)
    ensures FindBrand(old(db.brands), id).Some? ==>
      var b := FindBrand(old(db.brands), id).value;
      var gone := CarIdsOfBrand(old(db.cars), b.id);
      && status == 200
      && db.brands == Filter(old(db.brands), (x: Brand) => x.id != b.id)
      && db.cars == Filter(old(db.cars), (c: Car) => c.brandId != b.id)
      && db.images == Filter(old(db.images), (x: CarImage) => x.carId !in gone)
      && db.specs == Filter(old(db.specs), (x: CarSpec) => x.carId !in gone)
      && db.blobs == old(db.blobs) - (if Truthy(b.logo) then {b.logo.value} else {})
      && db.nextBrandId == old(db.nextBrandId) && db.nextCarId == old(db.nextCarId)
      && db.nextImageId == old(db.nextImageId) && db.nextSpecId == old(db.nextSpecId)
  {
    var found := FindBrand(db.brands, id);
    if found.None? {
      return 404;
    }
    var b := found.value;
    var blobs := DeletedLogo(db.blobs, b.logo);
    var gone := CarIdsOfBrand(db.cars, b.id);
    var brands := Filter(db.brands, (x: Brand) => x.id != b.id);
    var cars := Filter(db.cars, (c: Car) => c.brandId != b.id);
    var images := Filter(db.images, (x: CarImage) => x.carId !in gone);
    var specs := Filter(db.specs, (x: CarSpec) => x.carId !in gone);
    CascadeOk(db.brands, db.cars, db.images, db.specs, db.nextBrandId, db.nextCarId, db.nextImageId, db.nextSpecId, b.id);
    db.Put(brands, cars, images, specs, blobs, db.nextBrandId, db.nextCarId, db.nextImageId, db.nextSpecId);
    return 200;
  }
}
