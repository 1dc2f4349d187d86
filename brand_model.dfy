/** The `Brand` model: the name mutator, the logo URL accessor and the `active` scope. */
module BrandModel {
  import opened Common
  import opened Seqs
  import opened Schema

  /** Assigning `name` writes the slug derived from it in the same write. */
  function SetName(b: Brand, name: string, slug: string -> string): (r: Brand)
    ensures r.name == name && r.slug == slug(name)
    ensures r.(name := b.name, slug := b.slug) == b
  {
    b.(name := name, slug := slug(name))
  }

  /** `logo_url`: none for a falsy logo, otherwise built from "storage/" + logo
      (the host prefix `asset()` adds is not part of this model). */
  function LogoUrl(b: Brand): (r: Option<string>)
    ensures r.None? <==> !Truthy(b.logo)
    ensures r.Some? ==> "storage/" <= r.value && r.value[|"storage/"|..] == b.logo.value
  {
    if Truthy(b.logo) then Some("storage/" + b.logo.value) else None
  }

  /** `active()` scope. */
  function Active(brands: seq<Brand>): (r: seq<Brand>)
    ensures forall b :: b in r <==> b in brands && b.isActive
  {
    Filter(brands, (b: Brand) => b.isActive)
  }
}
