/** The `CarSpecification` model: the formatted value and the category scope. */
module CarSpecModel {
  import opened Common
  import opened Seqs
  import opened Schema

  /** `formatted_value`: the value, followed by a space and the unit when the unit
      is truthy in PHP's sense (null, "" and "0" are not). */
  function FormattedValue(s: CarSpec): (r: string)
    ensures s.specValue <= r
    ensures r == s.specValue <==> !Truthy(s.specUnit)
    ensures Truthy(s.specUnit) ==> r[|s.specValue|..] == " " + s.specUnit.value
  {
    if Truthy(s.specUnit) then s.specValue + " " + s.specUnit.value else s.specValue
  }

  /** A unit of "0" is treated as no unit. */
  lemma ZeroUnitIsDropped(s: CarSpec)
    requires s.specUnit == Some("0")
    ensures FormattedValue(s) == s.specValue
  {
  }

  /** `orderBy('sort_order')` on specification rows. */
  const BySpecOrder := (a: CarSpec, b: CarSpec) => a.sortOrder <= b.sortOrder

  /** `byCategory(c)` scope: the rows whose category equals `c` (a null `c` selects
      the rows with a null category), in ascending `sort_order`. */
  function ByCategory(specs: seq<CarSpec>, category: Option<string>): (r: seq<CarSpec>)
    ensures SortedBy(r, BySpecOrder)
    ensures multiset(r) == multiset(Filter(specs, (s: CarSpec) => s.specCategory == category))
    ensures forall s :: s in r <==> s in specs && s.specCategory == category
  {
    assert TotalPreorder(BySpecOrder);
    SortedWhere(specs, (s: CarSpec) => s.specCategory == category, BySpecOrder)
  }
}
