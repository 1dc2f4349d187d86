/** The `CarImage` model: its query scopes. `is_primary` is a boolean and
    `sort_order` an integer by the types of `Schema.CarImage`. */
module CarImageModel {
  import opened Seqs
  import opened Schema

  /** `orderBy('sort_order')` on image rows. */
  const ByImageOrder := (a: CarImage, b: CarImage) => a.sortOrder <= b.sortOrder

  /** `primary()` scope. */
  function Primary(images: seq<CarImage>): (r: seq<CarImage>)
    ensures forall i :: i in r <==> i in images && i.isPrimary
  {
    Filter(images, (i: CarImage) => i.isPrimary)
  }

  /** `gallery()` scope: gallery images in ascending `sort_order`. */
  function Gallery(images: seq<CarImage>): (r: seq<CarImage>)
    ensures SortedBy(r, ByImageOrder)
    ensures multiset(r) == multiset(Filter(images, (i: CarImage) => i.imageType == "gallery"))
    ensures forall i :: i in r <==> i in images && i.imageType == DEFAULT_IMAGE_TYPE
  {
    assert TotalPreorder(ByImageOrder);
    SortedWhere(images, (i: CarImage) => i.imageType == "gallery", ByImageOrder)
  }

  /** `byType(t)` scope: images of type `t` in ascending `sort_order`. */
  function ByType(images: seq<CarImage>, t: string): (r: seq<CarImage>)
    ensures SortedBy(r, ByImageOrder)
    ensures multiset(r) == multiset(Filter(images, (i: CarImage) => i.imageType == t))
    ensures forall i :: i in r <==> i in images && i.imageType == t
  {
    assert TotalPreorder(ByImageOrder);
    SortedWhere(images, (i: CarImage) => i.imageType == t, ByImageOrder)
  }

  /** The gallery scope is the type scope for "gallery". */
  lemma GalleryIsByType(images: seq<CarImage>)
    ensures Gallery(images) == ByType(images, "gallery")
  {
  }
}
