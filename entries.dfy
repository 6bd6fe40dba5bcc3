/** The raw feed entry as the feed parser exposes it, with an explicit
    optional-field schema in place of attribute probing. */
module Entries {
  import opened Text

  /** One element of `media_thumbnail`, `media_content` or `links`: a
      string-keyed dictionary. */
  type Dict = map<string, string>

  /** `d.get(key)` */
  function Get(d: Dict, key: string): (r: Option<string>)
    ensures r.Some? <==> key in d
    ensures r.Some? ==> r.value == d[key]
  {
    if key in d then Some(d[key]) else None
  }

  /** A feed entry. The scalar fields are absent (`None`) or present with a
      possibly empty value, as `entry.get` distinguishes the two; an absent
      list field and an empty one behave the same everywhere, so both are `[]`. */
  datatype Entry = Entry(
    title: Option<string>,
    link: Option<string>,
    summary: Option<string>,
    published: Option<string>,
    updated: Option<string>,
    mediaThumbnail: seq<Dict>,
    mediaContent: seq<Dict>,
    links: seq<Dict>)
}
