# Mansory catalog backend: a Dafny model of the car and brand core

This project models the catalog backend of the Mansory site. It is a Laravel
application with four tables:

- `brands`;
- `cars`, which are soft-deleted;
- `car_images`, which hold stored picture files;
- `car_specifications`.

Admin-only routes change these tables and the public disk. The model covers:

- the two controllers that read and write the tables (`CarController`, `BrandController`);
- the Eloquent models they use: the `name` mutators, the scopes, the accessors and the ordered `specifications` relation;
- the admin gate (`AdminMiddleware`);
- the migration's constraints.

Each table is a sequence of rows, held together with the auto-increment
counters and the set of file paths on the public disk in the class `Catalog.Store`.

- **Car actions** are methods on the store. Each one states its HTTP status and the whole new state.
- **The store invariant** is `Catalog.Store.Valid`. It covers:
  - primary keys;
  - the unique `slug` and `vin` columns;
  - the foreign keys;
  - at most one primary image per car;
  - distinct image `sort_order` values per car.

  Every action keeps it.
- **Row computations** live in `CarRows` and `BrandRows`. These are the rows an action writes and the proofs that they keep the invariant.
- **Loops stay loops:**
  - the upload and specification loops of `store`;
  - the image-deletion loop of `destroy`;
  - the upload loop of `addImages`.

  Each is proved against a function of its inputs.

Behaviour of the code worth knowing, all of it stated in the model:

- **Store, specification rows:**
  - `sort_order` comes from the input and defaults to 0, whatever the entry's position in the list;
  - `spec_key`, `spec_label` and `spec_value` default to "";
  - `spec_unit` and `spec_category` default to null.
- **Store, write order:** images are written before specifications.
- **Update:** `update` never touches specifications. It only overwrites the supplied columns of the car row.
- **Destroy:** car `destroy` runs without a transaction.
- **Brand delete:** cascades through the foreign keys to the brand's cars and to their images and specifications. The image files of those cars stay on the disk.
- **`cars_count`:** counts only cars that are not soft-deleted, because the relation goes through the soft-delete scope.
- **Errors that are not validation errors:** these answer 500, after validation passed:
  - a slug that another row already holds;
  - an explicit null for `currency` on a car, which is a NOT NULL column;
  - an explicit null `image_type` when adding images, also a NOT NULL column.

  In `store`, the 500 comes after a rollback that keeps the files already stored. In the brand actions there is no transaction, so a stored logo stays.
- **`setPrimaryImage`:** clears every primary flag of the car before it looks the image up. An unknown image id therefore answers 404 and leaves the car with no primary image.

Environment inputs are parameters of the methods:

- the paths the disk gives to uploaded files;
- the slug function (`Str::slug`), a field of the store;
- the database write that throws in `store` or `addImages`, if any (`failAt`); the file of each upload up to that point is assumed stored;
- whether the database rejects the row write of a car or brand update, or of a brand insert, for a reason the model does not compute, such as a value too long for its column (`rejected`).

## Model

| member | source | states |
|---|---|---|
| AdminGate.Handle | app/Http/Middleware/AdminMiddleware.php:11-30 | 401 exactly when there is no user, 403 exactly when the role is not "admin", and otherwise the next handler's response unchanged |
| Catalog.Store.constructor | database/migrations/2026_01_20_152647_create_cars_and_related_tables.php:11-84 | the migrated database is four empty tables with counters at 1, and it satisfies every constraint |
| BrandModel.SetName | app/Models/Brand.php:45-49 | assigning a name sets the slug to the slug of that name and changes no other column |
| BrandModel.LogoUrl | app/Models/Brand.php:30-36 | no URL exactly when the logo is falsy; otherwise "storage/" followed by the logo path |
| BrandModel.Active | app/Models/Brand.php:52-55 | exactly the active brands |
| CarModel.SetName | app/Models/Car.php:84-88 | assigning a name sets the slug to the slug of that name and changes no other column |
| CarModel.IncrementViewCount | app/Models/Car.php:107-110 | the view count goes up by one and nothing else changes |
| CarModel.Visible | app/Models/Car.php:12 | a car query sees exactly the rows that are not soft-deleted |
| CarModel.FindCar | app/Http/Controllers/Api/CarController.php:196-203 | `Car::find` returns a visible row with that id, or none exactly when every row with that id is soft-deleted |
| CarModel.Available | app/Models/Car.php:91-94 | exactly the visible cars whose status is "available" |
| CarModel.Featured | app/Models/Car.php:96-99 | exactly the visible featured cars |
| CarModel.ByBrand | app/Models/Car.php:101-104 | exactly the visible cars of that brand |
| CarModel.PrimaryImage | app/Models/Car.php:72-76 | a flagged image of the car when one exists, else some image of the car; none exactly when the car has no image |
| CarModel.PrimaryImageIsTheFlagged | app/Models/Car.php:72-76 | with one primary image per car, the accessor returns exactly that image |
| CarModel.SpecificationsOf | app/Models/Car.php:66-69 | the car's specification rows, each exactly once, sorted by `sort_order` |
| CarImageModel.Primary | app/Models/CarImage.php:44-47 | exactly the primary images |
| CarImageModel.Gallery | app/Models/CarImage.php:49-52 | the gallery images, each exactly once, sorted by `sort_order` |
| CarImageModel.ByType | app/Models/CarImage.php:54-57 | the images of the given type, each exactly once, sorted by `sort_order` |
| CarImageModel.GalleryIsByType | app/Models/CarImage.php:49-57 | the gallery scope is the type scope for "gallery" |
| CarSpecModel.FormattedValue | app/Models/CarSpecification.php:33-39 | the value alone exactly when the unit is falsy; otherwise the value, a space and the unit |
| CarSpecModel.ZeroUnitIsDropped | app/Models/CarSpecification.php:35-37 | a unit of "0" is dropped, as PHP treats it as false |
| CarSpecModel.ByCategory | app/Models/CarSpecification.php:42-45 | the rows of that category (null selects null), each exactly once, sorted by `sort_order` |
| CarRows.NewCar | app/Http/Controllers/Api/CarController.php:133-142 | the inserted row carries the validated fields (a supplied currency and `is_featured` included) and the slug of the name, defaults currency to "USD" and `is_featured` to false, has view count 0, and is not deleted |
| CarRows.StoreFailure | app/Http/Controllers/Api/CarController.php:131-190 | a taken slug or a null currency fails the car insert itself; otherwise the failure is exactly the write `failAt` names, when it is in range; nothing fails exactly when the slug is free, the currency is not null and no write throws |
| CarRows.StoredImagesPrimary | app/Http/Controllers/Api/CarController.php:145-157 | after `store` with uploads, the first upload is the car's only primary image, and the accessor returns it |
| CarRows.StoredImageRowsOk | app/Http/Controllers/Api/CarController.php:149-155 | the image rows of `store` have consecutive fresh ids, belong to the car, have distinct orders and at most one primary flag |
| CarRows.StoredSpecsAreTheCarsSpecs | app/Http/Controllers/Api/CarController.php:160-172 | the new car's `specifications` relation returns exactly the rows `store` wrote |
| CarRows.StoredSpecRowsOk | app/Http/Controllers/Api/CarController.php:162-170 | the specification rows of `store` have consecutive fresh ids and belong to the car |
| CarRows.CarsOkAfterStore | app/Http/Controllers/Api/CarController.php:142 | inserting a car with a known brand, a free slug and a free vin keeps the `cars` constraints |
| CarRows.ImagesOkAfterStore | app/Http/Controllers/Api/CarController.php:145-157 | the image rows of `store` keep the `car_images` invariants |
| CarRows.SpecsOkAfterStore | app/Http/Controllers/Api/CarController.php:160-172 | the specification rows of `store` keep the `car_specifications` constraints |
| CarRows.ApplyPatch | app/Http/Controllers/Api/CarController.php:237 | each supplied key overwrites its column, a new name rewrites the slug, and id, view count and deletion stay |
| CarRows.EmptyPatchKeepsRow | app/Http/Controllers/Api/CarController.php:237 | an update with no keys leaves the row unchanged |
| CarRows.CarsOkAfterUpdate | app/Http/Controllers/Api/CarController.php:205-237 | a validated update that does not throw keeps the `cars` constraints and the set of car ids |
| CarRows.CarsOkAfterEdit | app/Http/Controllers/Api/CarController.php:268 | an edit of one car that keeps id, slug, vin and brand (soft delete, view counter) keeps the `cars` constraints and ids |
| CarRows.DeleteAllIsWithoutIds | app/Http/Controllers/Api/CarController.php:259-262 | deleting rows one at a time by id leaves exactly the rows whose id is none of theirs |
| CarRows.DeleteAllOfCar | app/Http/Controllers/Api/CarController.php:259-262 | deleting every image of a car by id leaves exactly the other cars' images |
| CarRows.DestroyOk | app/Http/Controllers/Api/CarController.php:258-268 | soft-deleting the car and deleting its images and specifications keeps every constraint and the set of car ids |
| CarRows.MaxOrder | app/Http/Controllers/Api/CarController.php:303 | none exactly when the car has no image; otherwise the largest `sort_order` among its images, attained by one of them |
| CarRows.AddFailure | app/Http/Controllers/Api/CarController.php:302-317 | an explicit null type fails the first insert; otherwise the failing upload is `failAt` when it is in range |
| CarRows.AddedImageRowsOk | app/Http/Controllers/Api/CarController.php:308-314 | every prefix of the rows `addImages` writes has fresh ids, no primary flag, and orders above the previous maximum |
| CarRows.AddedImagesOk | app/Http/Controllers/Api/CarController.php:303-317 | new images come after every existing image of the car, and any prefix of them keeps the `car_images` invariants |
| CarRows.FindImage | app/Http/Controllers/Api/CarController.php:329 | the image with that id when it belongs to that car, none exactly when no such row exists |
| CarRows.ClearPrimaryOk | app/Http/Controllers/Api/CarController.php:359 | clearing leaves the car with no primary image, changes only the flags of that car's rows, and keeps the invariants |
| CarRows.EditKeepsImagesOk | app/Http/Controllers/Api/CarController.php:359 | an image update that keeps ids, cars and orders and sets no flag keeps the `car_images` invariants |
| CarRows.MarkPrimaryOk | app/Http/Controllers/Api/CarController.php:370 | flagging an image of a car with no primary image makes it the car's only primary image and keeps the invariants |
| CarRows.SetPrimaryOk | app/Http/Controllers/Api/CarController.php:358-370 | after clear-then-set, the target is the car's one primary image, other cars' images are untouched, and the invariants hold |
| CarRows.DeleteImageDropsOnlyTarget | app/Http/Controllers/Api/CarController.php:338-339 | deleting the image drops exactly that row and keeps the invariants |
| CarController.Store | app/Http/Controllers/Api/CarController.php:94-191 | 422 with nothing written; 500 with the tables rolled back and the already-stored files kept; or 201 with the car, its image rows and its specification rows appended |
| CarController.WriteImages | app/Http/Controllers/Api/CarController.php:145-157 | the upload loop stores each file, then appends its row; on failure it stops after the failing upload's file, with exactly the rows and ids of the uploads before it |
| CarController.WriteSpecs | app/Http/Controllers/Api/CarController.php:160-172 | the specification loop appends one row per entry; on failure it stops at the failing entry, with exactly the rows and ids of the entries before it |
| CarController.Update | app/Http/Controllers/Api/CarController.php:194-244 | 404, 422, or 500 with nothing written (a taken slug, a null currency, or any other rejection of the row write); otherwise 200 with only that car row patched |
| CarController.Destroy | app/Http/Controllers/Api/CarController.php:247-274 | 404 with nothing written; otherwise the car is soft-deleted, its images and specifications deleted, and its files removed from the disk |
| CarController.DeleteImagesOf | app/Http/Controllers/Api/CarController.php:259-262 | the loop leaves exactly the other cars' images and removes exactly the car's image files |
| CarController.Show | app/Http/Controllers/Api/CarController.php:72-91 | 404 for an unknown or deleted car; otherwise its view count goes up by one, and it is returned with its images and sorted specifications |
| CarController.Index | app/Http/Controllers/Api/CarController.php:17-59 | exactly the visible cars that pass every supplied filter |
| CarController.EmptySearchKeepsIndex | app/Http/Controllers/Api/CarController.php:47-54 | an empty search term matches every car, so the listing equals the one without the search filter |
| CarController.AddImages | app/Http/Controllers/Api/CarController.php:277-324 | 404 or 422 with nothing written; otherwise the rows and files written up to the failing upload stay (500), or every upload is added (201) |
| CarController.UploadImages | app/Http/Controllers/Api/CarController.php:305-317 | the loop appends the first k rows and stores k files, plus the failing upload's file |
| CarController.DeleteImage | app/Http/Controllers/Api/CarController.php:327-345 | 404 unless the image belongs to the car; otherwise exactly that row and its file are deleted |
| CarController.SetPrimaryImage | app/Http/Controllers/Api/CarController.php:348-377 | 404 for an unknown car; otherwise the car's flags are cleared, then the image alone gets the flag (200), or 404 with the flags already cleared |
| BrandRows.FindBrand | app/Http/Controllers/Api/BrandController.php:144 | the brand with that id, none exactly when no row has it |
| BrandRows.NewBrand | app/Http/Controllers/Api/BrandController.php:105-112 | the inserted brand has the name, the slug of the name, the description, the stored logo and the supplied `is_active` (true when absent) |
| BrandRows.ApplyBrandPatch | app/Http/Controllers/Api/BrandController.php:167-178 | supplied keys overwrite, a name rewrites the slug, a null logo clears the column, and a file sets it to the stored path |
| BrandRows.StoreBrandOk | app/Http/Controllers/Api/BrandController.php:112 | inserting a brand with a fresh id and a free slug keeps the constraints |
| BrandRows.UpdateBrandOk | app/Http/Controllers/Api/BrandController.php:178 | rewriting one brand with a free slug keeps the constraints and the set of brand ids |
| BrandRows.CascadeOk | database/migrations/2026_01_20_152647_create_cars_and_related_tables.php:23-76 | deleting a brand and cascading to its cars, their images and their specifications leaves tables that satisfy every constraint |
| BrandRows.ByNameIsTotalPreorder | app/Http/Controllers/Api/BrandController.php:26 | ordering by name is a total preorder |
| BrandRows.Listing | app/Http/Controllers/Api/BrandController.php:23-33 | every brand exactly once, with the count of its visible cars, sorted by name |
| BrandRows.ShowBrand | app/Http/Controllers/Api/BrandController.php:51-68 | none exactly for an unknown id; otherwise the brand with exactly its visible available cars |
| BrandController.StoredLogo | app/Http/Controllers/Api/BrandController.php:107-110 | the logo column holds the stored path exactly when a file came with the request |
| BrandController.Store | app/Http/Controllers/Api/BrandController.php:89-119 | 422 with nothing written; otherwise the logo file is stored and the brand inserted (201), or the insert fails on a taken slug or another rejection of the row (500) and the file stays |
| BrandController.ReplacedLogo | app/Http/Controllers/Api/BrandController.php:169-176 | the new file is on the disk, the old truthy logo is gone, and every other file stays |
| BrandController.Update | app/Http/Controllers/Api/BrandController.php:142-185 | 404 or 422 with nothing written; otherwise the logo is replaced on the disk, then the row is patched (200), or the write fails on a taken slug or another rejection of the row (500), with the disk already changed |
| BrandController.DeletedLogo | app/Http/Controllers/Api/BrandController.php:210-212 | the disk loses exactly the truthy logo path |
| BrandController.Destroy | app/Http/Controllers/Api/BrandController.php:198-220 | 404 with nothing written; otherwise the logo file and the brand go, and the cascade removes its cars and their images and specifications |

## Left out

- Pagination, `sort_by`/`sort_order` and the eager-loaded brand and (at most five) images of `index`: the listing is modelled as the set of matching rows, without their order or pages.
- Search (`LIKE '%term%'`, `CarRows.SearchHit`): the model matches case-sensitively and reads `%` and `_` in the term literally. Wildcard semantics are not modelled.
- String collation: every string comparison is exact code-point comparison, whereas the database's default collation (`utf8mb4_unicode_ci`) ignores case and accents. This affects:
  - `BrandRows.Listing`: `ORDER BY name` puts "Zeta" before "apple" in the model;
  - `BrandRows.NameFree`: in the model, storing brand "smart" after "Smart" passes validation and then fails with 500 on the slug, where the source answers 422;
  - `CarRows.VinFree`: VINs "abc1" and "ABC1" are both accepted in the model;
  - the `status` filter of `CarRows.Matches` and the unique slug checks `CarRows.SlugTaken` and `BrandRows.BrandSlugTaken`.
- Response bodies: the actions return statuses, ids and rows. The JSON envelope, messages and eager-loaded relations (`load(['brand', 'images', 'specifications'])`, the images embedded in brand `show`) are not modelled.
- `price` is an integer number of hundredths. Decimal rounding, `number_format` and `formatted_price` are not modelled.
- `meta_title`, `meta_description` and the timestamps are not modelled, because no modelled action reads them.
- `asset()`, `Storage::url` and `url()` prepend a host. The model stops at the relative "storage/" path. `image_url` and `full_image_url` are not modelled.
- `Str::slug` is a parameter of the store, and the paths the disk assigns to uploads are parameters of the actions. File contents are reduced to an "accepted image" flag (`Upload.valid`).
- Type-level validation failures (a non-integer `mileage`, a non-array `images`) are outside the input types; only the range, length, membership and uniqueness rules are modelled.
- 32-bit overflow of the integer columns and ids is not modelled: integers are unbounded.
- InnoDB does not give back auto-increment ids after a rollback. The model restores the counters, which can only reuse ids no committed row ever held.
- Concurrency: each action runs alone on the store. Races between `setPrimaryImage` calls are not modelled.
- CarController.Destroy, CarController.DeleteImage, CarController.Show, CarController.SetPrimaryImage and BrandController.Destroy have no failure path: a database or disk error in their writes (which would answer 500 with the writes before it kept) is not modelled.
- CarController.Store, CarController.WriteImages, CarController.AddImages and CarController.UploadImages: a failing disk write (`$image->store`) is not modelled. The file of every upload up to and including the one whose row insert fails is assumed stored, so the model cannot express a failure that leaves the file missing.
- CarController.Update, BrandController.Store and BrandController.Update do not compute which values the database rejects (column lengths, the range of `decimal(12,2)`, the size of a TEXT column). The `rejected` parameter stands for that outcome.
- CarController.Store: uploads are a list keyed 0..n-1, as a client sends them with `images[]`. Explicit array keys (`images[3]`, `images[7]`) are not modelled. With such keys the source takes the key as `sort_order`, and makes an image primary only when its key is 0.
- CarController.AddImages: uploads are a list keyed 0..n-1, as with `store`. With explicit keys the source computes `sort_order` as the previous maximum + key + 1, and a non-numeric key makes that sum throw. Neither is modelled.
- Authentication (`AuthController`, JWT), routing, seeders, CORS configuration and the OpenAPI annotations are not part of this model.
