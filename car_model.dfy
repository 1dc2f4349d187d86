/** The `Car` model: the name mutator, the query scopes, the primary-image
    accessor, the view counter and the ordered `specifications` relation. */
module CarModel {
  import opened Common
  import opened Seqs
  import opened Schema
  import CarSpecModel

  /** Assigning `name` writes the slug derived from it in the same write. */
  function SetName(c: Car, name: string, slug: string -> string): (r: Car)
    ensures r.name == name && r.slug == slug(name)
    ensures r.(name := c.name, slug := c.slug) == c
  {
    c.(name := name, slug := slug(name))
  }

  /** `incrementViewCount`: one more view, nothing else changes. */
  function IncrementViewCount(c: Car): (r: Car)
    ensures r.viewCount == c.viewCount + 1
    ensures r.(viewCount := c.viewCount) == c
  {
    c.(viewCount := c.viewCount + 1)
  }

  /** Rows a `Car` query can see: the soft-delete scope hides deleted rows. */
  function Visible(cars: seq<Car>): (r: seq<Car>)
    ensures forall c :: c in r <==> c in cars && !c.deleted
  {
    Filter(cars, (c: Car) => !c.deleted)
  }

  /** `Car::find(id)`: the visible car with that id, if any. */
  function FindCar(cars: seq<Car>, id: int): (r: Option<Car>)
    ensures r.Some? ==> r.value in cars && r.value.id == id && !r.value.deleted
    ensures r.None? ==> forall c :: c in cars && c.id == id ==> c.deleted
  {
    First(cars, (c: Car) => c.id == id && !c.deleted)
  }

  /** `available()` scope. */
  function Available(cars: seq<Car>): (r: seq<Car>)
    ensures forall c :: c in r <==> c in cars && !c.deleted && c.status == STATUS_AVAILABLE
  {
    Filter(cars, (c: Car) => !c.deleted && c.status == STATUS_AVAILABLE)
  }

  /** `featured()` scope. */
  function Featured(cars: seq<Car>): (r: seq<Car>)
    ensures forall c :: c in r <==> c in cars && !c.deleted && c.isFeatured
  {
    Filter(cars, (c: Car) => !c.deleted && c.isFeatured)
  }

  /** `byBrand(b)` scope. */
  function ByBrand(cars: seq<Car>, brandId: int): (r: seq<Car>)
    ensures forall c :: c in r <==> c in cars && !c.deleted && c.brandId == brandId
  {
    Filter(cars, (c: Car) => !c.deleted && c.brandId == brandId)
  }

  /** The `primary_image` accessor: the first primary image of the car, else its
      first image, else none. */
  function PrimaryImage(images: seq<CarImage>, carId: nat): (r: Option<CarImage>)
    ensures (exists i :: i in images && i.carId == carId && i.isPrimary) ==>
              r.Some? && r.value in images && r.value.carId == carId && r.value.isPrimary
    ensures (exists i :: i in images && i.carId == carId) <==> r.Some?
    ensures r.Some? ==> r.value in images && r.value.carId == carId
  {
    match First(images, (i: CarImage) => i.carId == carId && i.isPrimary)
    case Some(i) => Some(i)
    case None => First(images, (i: CarImage) => i.carId == carId)
  }

  /** With at most one primary image per car, the accessor returns exactly the
      car's primary image whenever it has one. */
  lemma PrimaryImageIsTheFlagged(images: seq<CarImage>, carId: nat, p: CarImage)
    requires OnePrimaryPerCar(images)
    requires p in images && p.carId == carId && p.isPrimary
    ensures PrimaryImage(images, carId) == Some(p)
  {
  }

  /** `where('car_id', carId)` on specification rows. */
  function SpecOf(carId: nat): CarSpec -> bool {
    (s: CarSpec) => s.carId == carId
  }

  /** The `specifications` relation: the car's specification rows in ascending
      `sort_order`. */
  function SpecificationsOf(specs: seq<CarSpec>, carId: nat): (r: seq<CarSpec>)
    ensures SortedBy(r, CarSpecModel.BySpecOrder)
    ensures multiset(r) == multiset(Filter(specs, SpecOf(carId)))
    ensures forall s :: s in r <==> s in specs && s.carId == carId
  {
    assert TotalPreorder(CarSpecModel.BySpecOrder);
    SortedWhere(specs, SpecOf(carId), CarSpecModel.BySpecOrder)
  }
}
