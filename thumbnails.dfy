/** `extract_thumbnail`: the first image URL found among an entry's
    image-bearing fields, tried in a fixed order of priority. */
module Thumbnails {
  import opened Text
  import opened Entries

  /** The index of the first element of `xs` that satisfies `p`: the `for …
      if …: return` loops of the source. */
  function FirstWhere<T>(xs: seq<T>, p: T -> bool): (r: Option<nat>)
    ensures r.Some? ==> r.value < |xs| && p(xs[r.value])
    ensures r.Some? ==> forall k :: 0 <= k < r.value ==> !p(xs[k])
    ensures r.None? ==> forall k :: 0 <= k < |xs| ==> !p(xs[k])
  {
    if xs == [] then None
    else if p(xs[0]) then Some(0)
    else match FirstWhere(xs[1..], p)
      case Some(k) => Some(k + 1)
      case None => None
  }

  /** The first element satisfying `p` is the one `FirstWhere` reports. */
  lemma FirstWhereAt<T>(xs: seq<T>, p: T -> bool, k: nat)
    requires k < |xs| && p(xs[k])
    requires forall k' :: 0 <= k' < k ==> !p(xs[k'])
    ensures FirstWhere(xs, p) == Some(k)
  {
  }

  /** When no element satisfies `p`, `FirstWhere` reports none. */
  lemma FirstWhereNone<T>(xs: seq<T>, p: T -> bool)
    requires forall k :: 0 <= k < |xs| ==> !p(xs[k])
    ensures FirstWhere(xs, p) == None
  {
  }

  /** `'url' in thumb` */
  predicate HasUrl(d: Dict)
    ensures HasUrl(d) <==> Get(d, "url").Some?
  {
    "url" in d
  }

  /** `content.get('medium') == 'image' and 'url' in content` */
  predicate IsImageContent(d: Dict)
    ensures IsImageContent(d) <==> "medium" in d && d["medium"] == "image" && "url" in d
  {
    Get(d, "medium") == Some("image") && "url" in d
  }

  /** `link.get('type', '').startswith('image')` */
  predicate IsImageLink(d: Dict)
    ensures IsImageLink(d) <==> "type" in d && |d["type"]| >= 5 && d["type"][..5] == "image"
  {
    "image" <= Get(d, "type").GetOr("")
  }

  const IMG_OPEN: string := "<img"
  const SRC_OPEN: string := "src=\""

  /** Where a run of `[^">]` starting at `k` ends. */
  function CaptureEnd(s: string, k: nat): (e: nat)
    requires k <= |s|
    ensures k <= e <= |s|
    ensures forall m :: k <= m < e ==> s[m] != '"' && s[m] != '>'
    ensures e == |s| || s[e] == '"' || s[e] == '>'
    decreases |s| - k
  {
    if k == |s| || s[k] == '"' || s[k] == '>' then k else CaptureEnd(s, k + 1)
  }

  /** `src="([^">]+)"` matches at `j`: the capture group is the whole run of
      `[^">]` after the opening quote (a shorter one would be followed by a
      character other than `"`), it is not empty, and a `"` closes it. */
  predicate SrcAt(s: string, j: nat) {
    OccursAt(s, SRC_OPEN, j)
    && var e := CaptureEnd(s, j + |SRC_OPEN|); j + |SRC_OPEN| < e < |s| && s[e] == '"'
  }

  /** The captured `src` value of a match of `src="…"` at `j`. */
  function Capture(s: string, j: nat): string
    requires SrcAt(s, j)
  {
    s[j + |SRC_OPEN|..CaptureEnd(s, j + |SRC_OPEN|)]
  }

  /** `<img[^>]+src="([^">]+)"` matches at `i`, with `[^>]+` ending at `j`. */
  predicate ImgMatch(s: string, i: nat, j: nat) {
    OccursAt(s, IMG_OPEN, i) && i + |IMG_OPEN| < j && SrcAt(s, j)
    && (forall m :: i + |IMG_OPEN| <= m < j ==> s[m] != '>')
  }

  /** The largest `j` in `(lo, hi]` at which `src="…"` matches: greedy `[^>]+`
      gives back characters one at a time, so the last candidate is tried first. */
  function LastSrc(s: string, lo: nat, hi: nat): (r: Option<nat>)
    ensures r.Some? ==> lo < r.value <= hi && SrcAt(s, r.value)
    ensures r.Some? ==> forall m :: r.value < m <= hi ==> !SrcAt(s, m)
    ensures r.None? ==> forall m :: lo < m <= hi ==> !SrcAt(s, m)
    decreases hi
  {
    if hi <= lo then None
    else if SrcAt(s, hi) then Some(hi)
    else LastSrc(s, lo, hi - 1)
  }

  /** The match the regular expression engine finds when it starts at `i`. */
  function MatchAt(s: string, i: nat): (r: Option<nat>)
    ensures r.Some? ==> ImgMatch(s, i, r.value)
    ensures r.Some? ==> forall j :: r.value < j ==> !ImgMatch(s, i, j)
    ensures r.None? ==> forall j :: !ImgMatch(s, i, j)
  {
    if OccursAt(s, IMG_OPEN, i) then
      var hi := NotGtEnd(s, i + |IMG_OPEN|);
      LastSrc(s, i + |IMG_OPEN|, hi)
    else None
  }

  /** `re.search` from position `start`: the leftmost start of a match. */
  function FindImg(s: string, start: nat): (r: Option<(nat, nat)>)
    ensures r.Some? ==> start <= r.value.0 && ImgMatch(s, r.value.0, r.value.1)
    ensures r.Some? ==> forall j :: r.value.1 < j ==> !ImgMatch(s, r.value.0, j)
    ensures r.Some? ==> forall i, j :: start <= i < r.value.0 ==> !ImgMatch(s, i, j)
    ensures r.None? ==> forall i, j :: start <= i ==> !ImgMatch(s, i, j)
    decreases |s| - start
  {
    if start >= |s| then None
    else match MatchAt(s, start)
      case Some(j) => Some((start, j))
      case None => FindImg(s, start + 1)
  }

  /** `re.search(r'<img[^>]+src="([^">]+)"', summary).group(1)`, or `None`
      when there is no match. */
  function SearchImg(s: string): (r: Option<string>)
    ensures r.Some? <==> exists i, j :: ImgMatch(s, i, j)
    ensures r.Some? ==> |r.value| > 0 && '"' !in r.value && '>' !in r.value
    ensures r.Some? ==> (exists i, j :: ImgMatch(s, i, j)
                           && (forall i', j' :: i' < i ==> !ImgMatch(s, i', j'))
                           && (forall j' :: j < j' ==> !ImgMatch(s, i, j'))
                           && r.value == Capture(s, j))
  {
    match FindImg(s, 0)
    case Some((i, j)) => Some(Capture(s, j))
    case None => None
  }

  /** `extract_thumbnail(entry)`: a URL found is the `url` of a thumbnail, the
      `url` of image content, the `href` of an image link or the capture of
      an `<img>` in the summary. */
  function ExtractThumbnail(e: Entry): (r: Option<string>)
    ensures r.Some? ==>
              (exists k :: 0 <= k < |e.mediaThumbnail| && HasUrl(e.mediaThumbnail[k]) && r.value == e.mediaThumbnail[k]["url"])
              || (exists k :: 0 <= k < |e.mediaContent| && IsImageContent(e.mediaContent[k]) && r.value == e.mediaContent[k]["url"])
              || (exists k :: 0 <= k < |e.links| && IsImageLink(e.links[k]) && Get(e.links[k], "href") == r)
              || (e.summary.Some? && SearchImg(e.summary.value) == r)
  {
    match FirstWhere(e.mediaThumbnail, HasUrl)
    case Some(k) => Some(e.mediaThumbnail[k]["url"])
    case None =>
      match FirstWhere(e.mediaContent, IsImageContent)
      case Some(k) => Some(e.mediaContent[k]["url"])
      case None =>
        match FirstWhere(e.links, IsImageLink)
        case Some(k) => Get(e.links[k], "href")
        case None =>
          if e.summary.Some? && e.summary.value != [] then SearchImg(e.summary.value) else None
  }

  /** The first thumbnail with a `url` wins over every other source. */
  lemma ThumbnailFirst(e: Entry, k: nat)
    requires k < |e.mediaThumbnail| && HasUrl(e.mediaThumbnail[k])
    requires forall k' :: 0 <= k' < k ==> !HasUrl(e.mediaThumbnail[k'])
    ensures ExtractThumbnail(e) == Some(e.mediaThumbnail[k]["url"])
  {
    FirstWhereAt(e.mediaThumbnail, HasUrl, k);
  }

  /** Without a usable thumbnail, the first image media content wins. */
  lemma ContentSecond(e: Entry, k: nat)
    requires forall t :: 0 <= t < |e.mediaThumbnail| ==> !HasUrl(e.mediaThumbnail[t])
    requires k < |e.mediaContent| && IsImageContent(e.mediaContent[k])
    requires forall k' :: 0 <= k' < k ==> !IsImageContent(e.mediaContent[k'])
    ensures ExtractThumbnail(e) == Some(e.mediaContent[k]["url"])
  {
    FirstWhereNone(e.mediaThumbnail, HasUrl);
    FirstWhereAt(e.mediaContent, IsImageContent, k);
  }

  /** Next comes the first image-typed link, whose `href` is returned even
      when it is absent: the summary is then never consulted. */
  lemma LinkThird(e: Entry, k: nat)
    requires forall t :: 0 <= t < |e.mediaThumbnail| ==> !HasUrl(e.mediaThumbnail[t])
    requires forall c :: 0 <= c < |e.mediaContent| ==> !IsImageContent(e.mediaContent[c])
    requires k < |e.links| && IsImageLink(e.links[k])
    requires forall k' :: 0 <= k' < k ==> !IsImageLink(e.links[k'])
    ensures ExtractThumbnail(e) == Get(e.links[k], "href")
  {
    FirstWhereNone(e.mediaThumbnail, HasUrl);
    FirstWhereNone(e.mediaContent, IsImageContent);
    FirstWhereAt(e.links, IsImageLink, k);
  }

  /** Only when no list field matches is an `<img>` in the summary used. */
  lemma SummaryLast(e: Entry)
    requires forall t :: 0 <= t < |e.mediaThumbnail| ==> !HasUrl(e.mediaThumbnail[t])
    requires forall c :: 0 <= c < |e.mediaContent| ==> !IsImageContent(e.mediaContent[c])
    requires forall l :: 0 <= l < |e.links| ==> !IsImageLink(e.links[l])
    ensures e.summary.Some? && e.summary.value != [] ==> ExtractThumbnail(e) == SearchImg(e.summary.value)
    ensures e.summary.None? || e.summary.value == [] ==> ExtractThumbnail(e) == None
  {
    FirstWhereNone(e.mediaThumbnail, HasUrl);
    FirstWhereNone(e.mediaContent, IsImageContent);
    FirstWhereNone(e.links, IsImageLink);
  }

  /** No thumbnail exactly when no source yields one, counting an image link
      without `href` as yielding none. */
  lemma NoThumbnailIff(e: Entry)
    ensures ExtractThumbnail(e) == None <==>
              (forall t :: 0 <= t < |e.mediaThumbnail| ==> !HasUrl(e.mediaThumbnail[t]))
              && (forall c :: 0 <= c < |e.mediaContent| ==> !IsImageContent(e.mediaContent[c]))
              && ((exists l :: 0 <= l < |e.links| && IsImageLink(e.links[l]) && "href" !in e.links[l]
                               && forall l' :: 0 <= l' < l ==> !IsImageLink(e.links[l']))
                  || ((forall l :: 0 <= l < |e.links| ==> !IsImageLink(e.links[l]))
                      && (e.summary.None? || e.summary.value == []
                          || forall i, j :: !ImgMatch(e.summary.value, i, j))))
  {
    match FirstWhere(e.mediaThumbnail, HasUrl)
    case Some(k) =>
    case None =>
      match FirstWhere(e.mediaContent, IsImageContent)
      case Some(k) =>
      case None =>
        match FirstWhere(e.links, IsImageLink)
        case Some(k) =>
        case None =>
  }
}
