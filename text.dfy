/** Shared string vocabulary: optional values, Python's notion of whitespace,
    `str.strip()`, and the scans the regular expressions of the pipeline perform. */
module Text {

  datatype Option<+T> = None | Some(value: T) {
    /** `x or default` / `dict.get(key, default)` */
    function GetOr(default: T): T {
      match this
      case Some(v) => v
      case None => default
    }
  }

  /** Characters for which Python's `str.isspace()` holds; the same set is
      matched by `\s` in a `str` pattern of the `re` module. */
  predicate IsSpace(c: char) {
    ('\t' <= c <= '\r') || ('\U{1c}' <= c <= '\U{1f}') || c == ' '
    || c == '\U{85}' || c == '\U{a0}' || c == '\U{1680}'
    || ('\U{2000}' <= c <= '\U{200a}') || c == '\U{2028}' || c == '\U{2029}'
    || c == '\U{202f}' || c == '\U{205f}' || c == '\U{3000}'
  }

  /** `\d`, restricted to the ASCII digits */
  predicate IsDigit(c: char) {
    '0' <= c <= '9'
  }

  ghost predicate AllSpace(s: string) {
    forall k :: 0 <= k < |s| ==> IsSpace(s[k])
  }

  /** The first index at or after `k` that does not hold whitespace, or
      `|s|`: where a run matched by `\s*` starting at `k` ends. */
  function SpanEnd(s: string, k: nat): (e: nat)
    requires k <= |s|
    ensures k <= e <= |s|
    ensures forall m :: k <= m < e ==> IsSpace(s[m])
    ensures e == |s| || !IsSpace(s[e])
    decreases |s| - k
  {
    if k == |s| || !IsSpace(s[k]) then k else SpanEnd(s, k + 1)
  }

  /** The start of the run of whitespace that ends at `k`. */
  function SpanStart(s: string, k: nat): (e: nat)
    requires k <= |s|
    ensures e <= k
    ensures forall m :: e <= m < k ==> IsSpace(s[m])
    ensures e == 0 || !IsSpace(s[e - 1])
  {
    if k == 0 || !IsSpace(s[k - 1]) then k else SpanStart(s, k - 1)
  }

  /** How many whitespace characters `str.lstrip()` cuts. */
  function LeadingSpace(s: string): nat {
    SpanEnd(s, 0)
  }

  /** `str.strip()`: the infix that starts after the leading whitespace and
      neither starts nor ends with whitespace, with only whitespace cut on
      either side. */
  function Strip(s: string): (r: string)
    ensures r == [] || (!IsSpace(r[0]) && !IsSpace(r[|r| - 1]))
    ensures LeadingSpace(s) + |r| <= |s| && r == s[LeadingSpace(s)..LeadingSpace(s) + |r|]
    ensures forall k :: 0 <= k < LeadingSpace(s) ==> IsSpace(s[k])
    ensures forall k :: LeadingSpace(s) + |r| <= k < |s| ==> IsSpace(s[k])
  {
    var i := SpanEnd(s, 0);
    var j := SpanStart(s, |s|);
    if i < j then s[i..j]
    else
      assert i == |s|;
      []
  }

  lemma StripOfStripped(s: string)
    requires s == [] || (!IsSpace(s[0]) && !IsSpace(s[|s| - 1]))
    ensures Strip(s) == s
  {
  }

  lemma AppendAssoc<T>(a: seq<T>, b: seq<T>, c: seq<T>)
    ensures (a + b) + c == a + (b + c)
  {
  }

  /** The index of the first '>' at or after `k`, or `|s|` when there is none:
      where a run matched by `[^>]*` starting at `k` ends. */
  function NotGtEnd(s: string, k: nat): (e: nat)
    requires k <= |s|
    ensures k <= e <= |s|
    ensures forall m :: k <= m < e ==> s[m] != '>'
    ensures e == |s| || s[e] == '>'
    decreases |s| - k
  {
    if k == |s| || s[k] == '>' then k else NotGtEnd(s, k + 1)
  }

  /** `pat` occurs in `s` at index `m` */
  predicate OccursAt(s: string, pat: string, m: nat) {
    m + |pat| <= |s| && s[m..m + |pat|] == pat
  }

  /** The first index at or after `k` where `pat` occurs, if any. */
  function Find(s: string, pat: string, k: nat): (r: Option<nat>)
    requires k <= |s|
    ensures r.Some? ==> k <= r.value && OccursAt(s, pat, r.value)
    ensures forall m :: k <= m && (r.None? || m < r.value) ==> !OccursAt(s, pat, m)
    decreases |s| - k
  {
    if OccursAt(s, pat, k) then Some(k)
    else if k == |s| then None
    else Find(s, pat, k + 1)
  }
}
