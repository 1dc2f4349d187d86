/** The catalog's persistent state: the four tables, their auto-increment counters,
    the public disk's set of stored file paths, and the slug function (`Str::slug`,
    a library call the model takes as given). */
module Catalog {
  import opened Schema

  class Store {
    var brands: seq<Brand>
    var cars: seq<Car>
    var images: seq<CarImage>
    var specs: seq<CarSpec>
    var nextBrandId: nat
    var nextCarId: nat
    var nextImageId: nat
    var nextSpecId: nat
    var blobs: set<string>
    const slug: string -> string

    /** Every schema constraint and every invariant the controllers keep. */
    ghost predicate Valid()
      reads this
    {
      && BrandsOk(brands, nextBrandId)
      && CarsOk(cars, brands, nextCarId)
      && ImagesOk(images, cars, nextImageId)
      && SpecsOk(specs, cars, nextSpecId)
    }

    /** Replaces the whole state by values that satisfy every constraint. The
        controllers compute each action's effect on values, then write it here. */
    method Put(brands: seq<Brand>, cars: seq<Car>, images: seq<CarImage>, specs: seq<CarSpec>, blobs: set<string>,
               nextBrandId: nat, nextCarId: nat, nextImageId: nat, nextSpecId: nat)
      requires BrandsOk(brands, nextBrandId) && CarsOk(cars, brands, nextCarId)
      requires ImagesOk(images, cars, nextImageId) && SpecsOk(specs, cars, nextSpecId)
      modifies this
      ensures Valid()
      ensures this.brands == brands && this.cars == cars && this.images == images && this.specs == specs
      ensures this.blobs == blobs
      ensures this.nextBrandId == nextBrandId && this.nextCarId == nextCarId
      ensures this.nextImageId == nextImageId && this.nextSpecId == nextSpecId
    {
      this.brands, this.cars, this.images, this.specs, this.blobs := brands, cars, images, specs, blobs;
      this.nextBrandId, this.nextCarId, this.nextImageId, this.nextSpecId := nextBrandId, nextCarId, nextImageId, nextSpecId;
    }

    /** Empty tables after the migration; ids start at 1. */
    constructor (slug: string -> string)
      ensures Valid() && this.slug == slug
      ensures brands == [] && cars == [] && images == [] && specs == [] && blobs == {}
      ensures nextBrandId == 1 && nextCarId == 1 && nextImageId == 1 && nextSpecId == 1
    {
      brands, cars, images, specs := [], [], [], [];
      nextBrandId, nextCarId, nextImageId, nextSpecId := 1, 1, 1, 1;
      blobs := {};
      this.slug := slug;
    }
  }
}
