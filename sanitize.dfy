/** `clean_description`: from an HTML summary to plain, single-spaced text.
    Each regular-expression substitution of the source is a function here that
    scans its input from the left as `re.sub` does. */
module Sanitize {
  import opened Text

  function Opener(tag: string): string {
    "<" + tag
  }

  function Closer(tag: string): string {
    "</" + tag + ">"
  }

  /** The length of a match of `<TAG[^>]*>.*?</TAG>` (with `re.DOTALL`) at the
      start of `s`, if there is one: the opening tag runs to the first `>`,
      and the non-greedy body stops at the first closing tag after it. */
  function BlockLen(s: string, tag: string): (r: Option<nat>)
    ensures r.Some? ==> |Opener(tag)| < r.value <= |s|
  {
    if !OccursAt(s, Opener(tag), 0) then None
    else
      var g := NotGtEnd(s, |Opener(tag)|);
      if g == |s| then None
      else match Find(s, Closer(tag), g + 1)
        case Some(k) => Some(k + |Closer(tag)|)
        case None => None
  }

  /** `re.sub(r'<TAG[^>]*>.*?</TAG>', '', s, flags=re.DOTALL)`: never longer than its input. */
  function RemoveBlocks(s: string, tag: string): (r: string)
    ensures |r| <= |s|
    decreases |s|
  {
    if s == [] then []
    else match BlockLen(s, tag)
      case Some(n) => RemoveBlocks(s[n..], tag)
      case None => [s[0]] + RemoveBlocks(s[1..], tag)
  }

  /** Text in which the opening `<TAG` never occurs is left as it is. */
  lemma {:induction false} RemoveBlocksNoOpener(s: string, tag: string)
    requires forall m :: 0 <= m < |s| ==> !OccursAt(s, Opener(tag), m)
    ensures RemoveBlocks(s, tag) == s
    decreases |s|
  {
    if s != [] {
      assert !OccursAt(s, Opener(tag), 0);
      forall m | 0 <= m < |s[1..]| ensures !OccursAt(s[1..], Opener(tag), m) {
        assert !OccursAt(s, Opener(tag), m + 1);
        if m + |Opener(tag)| <= |s[1..]| {
          assert s[1..][m..m + |Opener(tag)|] == s[m + 1..m + 1 + |Opener(tag)|];
        }
      }
      RemoveBlocksNoOpener(s[1..], tag);
    }
  }

  /** Text without `<` before the rest is kept, and the rest is handled alone. */
  lemma {:induction false} RemoveBlocksPlain(p: string, t: string, tag: string)
    requires '<' !in p
    ensures RemoveBlocks(p + t, tag) == p + RemoveBlocks(t, tag)
  {
    if p == [] {
      assert p + t == t;
    } else {
      var s := p + t;
      assert s[0] == p[0] && s[0] != '<';
      assert !OccursAt(s, Opener(tag), 0);
      assert s[1..] == p[1..] + t;
      RemoveBlocksPlain(p[1..], t, tag);
    }
  }

  /** A search for `pat` from `from` that passes no character equal to the
      first of `pat` before an occurrence at `k` finds that occurrence. */
  lemma FindFirst(s: string, pat: string, from: nat, k: nat)
    requires from <= k && OccursAt(s, pat, k) && pat != []
    requires forall m :: from <= m < k ==> s[m] != pat[0]
    ensures Find(s, pat, from) == Some(k)
  {
    forall m | from <= m < k ensures !OccursAt(s, pat, m) {
      if m + |pat| <= |s| {
        assert s[m..m + |pat|][0] == s[m];
      }
    }
  }

  /** The opening tag of a block ends at the first `>`. */
  lemma OpenerEnd(s: string, o: string, attrs: string)
    requires '>' !in attrs && |o| + |attrs| < |s|
    requires s[|o|..|o| + |attrs|] == attrs && s[|o| + |attrs|] == '>'
    ensures NotGtEnd(s, |o|) == |o| + |attrs|
  {
    assert forall m :: |o| <= m < |o| + |attrs| ==> s[m] == attrs[m - |o|];
  }

  /** A whole block, opening tag, body and closing tag, is removed: the
      body is anything up to the first closing tag, which ends the match. */
  lemma RemoveBlocksWhole(attrs: string, body: string, t: string, tag: string)
    requires '>' !in attrs && Find(body + Closer(tag), Closer(tag), 0) == Some(|body|)
    ensures RemoveBlocks(Opener(tag) + attrs + ">" + body + Closer(tag) + t, tag) == RemoveBlocks(t, tag)
  {
    var o, c := Opener(tag), Closer(tag);
    var head, u := o + attrs + ">", body + c;
    var s := head + u + t;
    AppendAssoc(head, body, c);
    assert s == o + attrs + ">" + body + c + t;
    BlockLayout(s, o, attrs, u, t);
    assert FirstFrom(u, c, 0, |body|);
    var g := |o| + |attrs|;
    ShapeOf(s, tag, attrs, u, |body|);
    BlockAt(s, tag, g, g + 1 + |body|, g + 1 + |u|);
  }

  /** The parts of an opener, its attributes, `>`, a body and the rest, as
      slices of their concatenation. */
  lemma BlockLayout(s: string, o: string, attrs: string, u: string, t: string)
    requires s == o + attrs + ">" + u + t
    ensures s[0..|o|] == o && s[|o|..|o| + |attrs|] == attrs && s[|o| + |attrs|] == '>'
    ensures s[|o| + |attrs| + 1..|o| + |attrs| + 1 + |u|] == u
    ensures s[|o| + |attrs| + 1 + |u|..] == t
  {
    var head := o + attrs + ">";
    Slices3(head, u, t);
    Slices3(o, attrs, ">");
    assert s[..|head|] == head;
    assert s[0..|o|] == head[..|o|];
    assert s[|o|..|o| + |attrs|] == head[|o|..|o| + |attrs|];
    assert s[|o| + |attrs|] == head[|o| + |attrs|];
  }

  /** `pat` occurs at `b` in `u` and nowhere from `from` up to `b`. */
  predicate FirstFrom(u: string, pat: string, from: nat, b: nat) {
    from <= b && OccursAt(u, pat, b) && forall m :: from <= m < b ==> !OccursAt(u, pat, m)
  }

  /** Where the opener's `>` and the closing tag of such a text are. */
  lemma ShapeOf(s: string, tag: string, attrs: string, u: string, b: nat)
    requires '>' !in attrs && FirstFrom(u, Closer(tag), 0, b)
    requires |Opener(tag)| + |attrs| + 1 + |u| <= |s|
    requires s[0..|Opener(tag)|] == Opener(tag)
    requires s[|Opener(tag)|..|Opener(tag)| + |attrs|] == attrs
    requires s[|Opener(tag)| + |attrs|] == '>'
    requires s[|Opener(tag)| + |attrs| + 1..|Opener(tag)| + |attrs| + 1 + |u|] == u
    ensures BlockShape(s, tag, |Opener(tag)| + |attrs|, |Opener(tag)| + |attrs| + 1 + b)
  {
    var o := Opener(tag);
    var g := |o| + |attrs|;
    assert OccursAt(s, o, 0);
    OpenerEnd(s, o, attrs);
    FindInInfix(s, g + 1, u, Closer(tag), b);
  }

  /** The three parts of a concatenation, as slices of it. */
  lemma Slices3(x: string, y: string, z: string)
    ensures (x + y + z)[..|x|] == x
    ensures (x + y + z)[|x|..|x| + |y|] == y
    ensures (x + y + z)[|x| + |y|..] == z
  {
  }

  /** A first occurrence inside an infix that starts at `p` is the first
      occurrence in the whole text from `p` on. */
  lemma FindInInfix(s: string, p: nat, u: string, pat: string, r: nat)
    requires p + |u| <= |s| && s[p..p + |u|] == u && FirstFrom(u, pat, 0, r)
    ensures FirstFrom(s, pat, p, p + r)
  {
    forall m | p <= m < p + r ensures !OccursAt(s, pat, m) {
      OccursShift(s, p, u, pat, m - p);
    }
    OccursShift(s, p, u, pat, r);
  }

  /** Occurrences inside an infix of `s` are occurrences in the infix. */
  lemma OccursShift(s: string, p: nat, u: string, pat: string, j: nat)
    requires p + |u| <= |s| && s[p..p + |u|] == u && j + |pat| <= |u|
    ensures OccursAt(s, pat, p + j) <==> OccursAt(u, pat, j)
  {
    var x, y := s[p + j..p + j + |pat|], u[j..j + |pat|];
    forall d | 0 <= d < |pat| ensures x[d] == y[d] {
      assert s[p..p + |u|][j + d] == s[p + j + d];
    }
    assert x == y;
  }

  /** The first occurrence at or after `from` is the one `Find` reports. */
  lemma FindAt(s: string, pat: string, from: nat, k: nat)
    requires FirstFrom(s, pat, from, k)
    ensures Find(s, pat, from) == Some(k)
  {
  }

  /** A block at the start of `s`: its opener's `>` is at `g`, and the
      first closing tag after it at `k`. */
  predicate BlockShape(s: string, tag: string, g: nat, k: nat) {
    OccursAt(s, Opener(tag), 0) && |Opener(tag)| <= g < |s|
    && NotGtEnd(s, |Opener(tag)|) == g
    && FirstFrom(s, Closer(tag), g + 1, k)
  }

  /** A search from `from` where `pat` no longer fits finds nothing. */
  lemma FindNone(s: string, pat: string, from: nat)
    requires from <= |s| < from + |pat|
    ensures Find(s, pat, from) == None
  {
  }

  /** How a block found at the start is removed. */
  lemma BlockAt(s: string, tag: string, g: nat, k: nat, e: nat)
    requires BlockShape(s, tag, g, k) && e == k + |Closer(tag)|
    ensures BlockLen(s, tag) == Some(e)
    ensures RemoveBlocks(s, tag) == RemoveBlocks(s[e..], tag)
  {
    FindAt(s, Closer(tag), g + 1, k);
  }

  /** The length of a match of `<[^>]+>` at the start of `s`, or 0. */
  function TagLen(s: string): (n: nat)
    ensures n <= |s|
    ensures n > 0 <==> exists q :: TagAt(s, 0, q)
    ensures n > 0 ==> TagAt(s, 0, n - 1)
  {
    if s != [] && s[0] == '<' then
      var g := NotGtEnd(s, 1);
      if 1 < g < |s| then
        assert TagAt(s, 0, g);
        g + 1
      else 0
    else 0
  }

  /** `re.sub(r'<[^>]+>', '', s)`: never longer than its input. */
  function StripTags(s: string): (r: string)
    ensures |r| <= |s|
    decreases |s|
  {
    if s == [] then []
    else if TagLen(s) > 0 then StripTags(s[TagLen(s)..])
    else [s[0]] + StripTags(s[1..])
  }

  /** `StripTags` introduces no character that its input lacks. */
  lemma {:induction false} StripTagsOnlyDeletes(s: string, c: char)
    requires c !in s
    ensures c !in StripTags(s)
    decreases |s|
  {
    if s != [] {
      if TagLen(s) > 0 {
        assert c !in s[TagLen(s)..];
        StripTagsOnlyDeletes(s[TagLen(s)..], c);
      } else {
        assert c !in s[1..];
        StripTagsOnlyDeletes(s[1..], c);
      }
    }
  }

  /** `<` + one or more characters other than `>` + `>` occurs from `p` to `q`. */
  predicate TagAt(s: string, p: nat, q: nat) {
    p + 1 < q < |s| && s[p] == '<' && s[q] == '>'
    && forall k :: p < k < q ==> s[k] != '>'
  }

  ghost predicate NoTag(s: string) {
    forall p: nat, q: nat :: !TagAt(s, p, q)
  }

  lemma NoTagTail(s: string)
    requires s != [] && NoTag(s)
    ensures NoTag(s[1..])
  {
    forall p: nat, q: nat ensures !TagAt(s[1..], p, q) {
      TagShift(s, p, q);
    }
  }

  /** A tag in the tail of `s` is a tag of `s`, one position later. */
  lemma TagShift(s: string, p: nat, q: nat)
    requires s != []
    ensures TagAt(s[1..], p, q) ==> TagAt(s, p + 1, q + 1)
  {
    if TagAt(s[1..], p, q) {
      forall k | p + 1 < k < q + 1 ensures s[k] != '>' {
        assert s[k] == s[1..][k - 1];
      }
    }
  }

  /** A string that starts with a character other than `<` and has no tag in
      its tail has no tag at all. */
  lemma NoTagCons(c: char, r: string)
    requires NoTag(r)
    requires c != '<' || (r != [] && r[0] == '>') || '>' !in r
    ensures NoTag([c] + r)
  {
    var s := [c] + r;
    forall p: nat, q: nat ensures !TagAt(s, p, q) {
      if p == 0 {
        if 0 < q < |s| { assert s[q] == r[q - 1]; }
        if 1 < |s| { assert s[1] == r[0]; }
      } else if p + 1 < q < |s| {
        assert forall k :: p - 1 < k < q - 1 ==> r[k] == s[k + 1];
        assert !TagAt(r, p - 1, q - 1);
      }
    }
  }

  /** After line 76 of the source no tag is left. */
  lemma {:induction false} StripTagsNoTag(s: string)
    ensures NoTag(StripTags(s))
    decreases |s|
  {
    if s == [] {
    } else if TagLen(s) > 0 {
      StripTagsNoTag(s[TagLen(s)..]);
    } else {
      var r := StripTags(s[1..]);
      StripTagsNoTag(s[1..]);
      if s[0] == '<' {
        var g := NotGtEnd(s, 1);
        if g < |s| {
          assert g == 1 && s[1..][0] == '>';
          assert TagLen(s[1..]) == 0;
          assert r == [s[1]] + StripTags(s[2..]) by { assert s[1..][1..] == s[2..]; }
        } else {
          assert '>' !in s[1..] by {
            forall m | 0 <= m < |s[1..]| ensures s[1..][m] != '>' { assert s[m + 1] != '>'; }
          }
          StripTagsOnlyDeletes(s[1..], '>');
        }
      }
      NoTagCons(s[0], r);
    }
  }

  /** Text with no tag is left as it is, so `StripTags` is idempotent. */
  lemma {:induction false} StripTagsFixpoint(s: string)
    requires NoTag(s)
    ensures StripTags(s) == s
    decreases |s|
  {
    if s != [] {
      NoTagTail(s);
      StripTagsFixpoint(s[1..]);
    }
  }

  lemma StripTagsIdempotent(s: string)
    ensures StripTags(StripTags(s)) == StripTags(s)
  {
    StripTagsNoTag(s);
    StripTagsFixpoint(StripTags(s));
  }

  /** Text without `<` passes through `StripTags` unchanged in front of the rest. */
  lemma {:induction false} StripTagsPlain(p: string, t: string)
    requires '<' !in p
    ensures StripTags(p + t) == p + StripTags(t)
  {
    if p == [] {
      assert p + t == t;
    } else {
      assert (p + t)[0] == p[0] && (p + t)[1..] == p[1..] + t;
      StripTagsPlain(p[1..], t);
    }
  }

  /** A tag is removed whole. */
  lemma StripTagsTag(inner: string, t: string)
    requires inner != [] && '>' !in inner
    ensures StripTags("<" + inner + ">" + t) == StripTags(t)
  {
    var s := "<" + inner + ">" + t;
    assert forall m :: 1 <= m <= |inner| ==> s[m] == inner[m - 1];
    assert s[|inner| + 1] == '>';
    assert NotGtEnd(s, 1) == |inner| + 1;
    assert s[|inner| + 2..] == t;
  }

  /** The characters of `s` other than whitespace, in order. */
  function NonSpace(s: string): string {
    if s == [] then [] else (if IsSpace(s[0]) then [] else [s[0]]) + NonSpace(s[1..])
  }

  lemma {:induction false} NonSpaceAppend(a: string, b: string)
    ensures NonSpace(a + b) == NonSpace(a) + NonSpace(b)
  {
    if a == [] {
      assert a + b == b;
    } else {
      assert (a + b)[0] == a[0] && (a + b)[1..] == a[1..] + b;
      NonSpaceAppend(a[1..], b);
    }
  }

  lemma {:induction false} NonSpaceAllSpace(s: string)
    requires AllSpace(s)
    ensures NonSpace(s) == []
  {
    if s != [] {
      NonSpaceAllSpace(s[1..]);
    }
  }

  lemma NonSpaceLeading(s: string)
    ensures NonSpace(s[LeadingSpace(s)..]) == NonSpace(s)
  {
    var n := LeadingSpace(s);
    assert s == s[..n] + s[n..];
    assert AllSpace(s[..n]);
    NonSpaceAppend(s[..n], s[n..]);
    NonSpaceAllSpace(s[..n]);
  }

  /** No two whitespace characters in a row. */
  ghost predicate SingleSpaced(s: string) {
    forall k :: 0 <= k < |s| - 1 ==> !(IsSpace(s[k]) && IsSpace(s[k + 1]))
  }

  /** Every whitespace character is a plain space. */
  ghost predicate BlankSpaces(s: string) {
    forall k :: 0 <= k < |s| && IsSpace(s[k]) ==> s[k] == ' '
  }

  /** `re.sub(r'\s+', ' ', s)`: every run of whitespace becomes one space and
      nothing else changes. */
  function CollapseSpace(s: string): (r: string)
    ensures r == [] <==> s == []
    ensures r != [] ==> (IsSpace(r[0]) <==> IsSpace(s[0]))
    decreases |s|
  {
    if s == [] then []
    else if IsSpace(s[0]) then [' '] + CollapseSpace(s[LeadingSpace(s)..])
    else [s[0]] + CollapseSpace(s[1..])
  }

  /** No whitespace run survives, and the one character left of it is ' '. */
  lemma {:induction false} CollapseSpaceSpacing(s: string)
    ensures SingleSpaced(CollapseSpace(s)) && BlankSpaces(CollapseSpace(s))
    decreases |s|
  {
    if s != [] {
      var tail := if IsSpace(s[0]) then s[LeadingSpace(s)..] else s[1..];
      var c := CollapseSpace(tail);
      var r := CollapseSpace(s);
      CollapseSpaceSpacing(tail);
      assert r == [r[0]] + c;
      assert forall k :: 1 <= k < |r| ==> r[k] == c[k - 1];
      assert IsSpace(r[0]) ==> c == [] || !IsSpace(c[0]);
    }
  }

  /** Collapsing keeps every character other than whitespace, in order. */
  lemma {:induction false} CollapseSpaceNonSpace(s: string)
    ensures NonSpace(CollapseSpace(s)) == NonSpace(s)
    decreases |s|
  {
    if s != [] {
      if IsSpace(s[0]) {
        var t := s[LeadingSpace(s)..];
        NonSpaceLeading(s);
        CollapseSpaceNonSpace(t);
        NonSpaceAppend([' '], CollapseSpace(t));
      } else {
        CollapseSpaceNonSpace(s[1..]);
        NonSpaceAppend([s[0]], CollapseSpace(s[1..]));
      }
    }
  }

  /** The whitespace run at the start of `a + t` is the one of `a` when `a`
      ends on something else. */
  lemma LeadingSpaceAppend(a: string, t: string)
    requires a != [] && !IsSpace(a[|a| - 1])
    ensures LeadingSpace(a + t) == LeadingSpace(a) < |a|
  {
    var e, e' := LeadingSpace(a), LeadingSpace(a + t);
    assert forall m :: 0 <= m < |a| ==> (a + t)[m] == a[m];
    assert e < |a|;
    assert e' <= e;
  }

  /** Text that ends on a character other than whitespace collapses on its
      own: no run straddles the seam. */
  lemma {:induction false} CollapseSpaceAppend(a: string, t: string)
    requires a == [] || !IsSpace(a[|a| - 1])
    ensures CollapseSpace(a + t) == CollapseSpace(a) + CollapseSpace(t)
    decreases |a|
  {
    if a == [] {
      assert a + t == t;
    } else if IsSpace(a[0]) {
      var n := LeadingSpace(a);
      LeadingSpaceAppend(a, t);
      assert n > 0;
      assert (a + t)[0] == a[0];
      assert (a + t)[n..] == a[n..] + t;
      CollapseSpaceAppend(a[n..], t);
      AppendAssoc([' '], CollapseSpace(a[n..]), CollapseSpace(t));
    } else {
      assert (a + t)[0] == a[0] && (a + t)[1..] == a[1..] + t;
      CollapseSpaceAppend(a[1..], t);
      AppendAssoc([a[0]], CollapseSpace(a[1..]), CollapseSpace(t));
    }
  }

  /** A whole run of whitespace, however long and of whatever characters,
      becomes the one character ' '. */
  lemma CollapseSpaceRun(w: string, b: string)
    requires w != [] && AllSpace(w) && (b == [] || !IsSpace(b[0]))
    ensures CollapseSpace(w + b) == " " + CollapseSpace(b)
  {
    var s := w + b;
    var e := LeadingSpace(s);
    assert forall m :: 0 <= m < |w| ==> s[m] == w[m];
    assert b != [] ==> s[|w|] == b[0];
    assert e >= |w|;
    assert s[0] == w[0];
    assert s[|w|..] == b;
  }

  /** Two words separated by any run of whitespace come out separated by
      exactly one space. */
  lemma NormalizeJoin(a: string, w: string, b: string)
    requires a != [] && Normalized(a) && b != [] && Normalized(b)
    requires w != [] && AllSpace(w)
    ensures Normalize(a + w + b) == a + " " + b
  {
    assert a + w + b == a + (w + b);
    CollapseSpaceAppend(a, w + b);
    CollapseSpaceRun(w, b);
    CollapseSpaceFixpoint(a);
    CollapseSpaceFixpoint(b);
    AppendAssoc(a, " ", b);
    var r := a + " " + b;
    assert r[0] == a[0] && r[|r| - 1] == b[|b| - 1];
    StripOfStripped(r);
  }

  /** Trimmed on both sides, single-spaced, and spaced only with ' '. */
  ghost predicate Normalized(s: string) {
    (s == [] || (!IsSpace(s[0]) && !IsSpace(s[|s| - 1]))) && SingleSpaced(s) && BlankSpaces(s)
  }

  /** `str.strip()` cuts only whitespace, so it keeps single spacing and
      every non-whitespace character. */
  lemma StripKeeps(c: string)
    ensures SingleSpaced(c) && BlankSpaces(c) ==> Normalized(Strip(c))
    ensures NonSpace(Strip(c)) == NonSpace(c)
  {
    var r := Strip(c);
    var i := LeadingSpace(c);
    assert AllSpace(c[..i]) && AllSpace(c[i + |r|..]);
    StripKeepsSpacing(c, r, i);
    StripKeepsNonSpace(c, r, i);
  }

  lemma StripKeepsSpacing(c: string, r: string, i: nat)
    requires i + |r| <= |c| && r == c[i..i + |r|]
    ensures SingleSpaced(c) ==> SingleSpaced(r)
    ensures BlankSpaces(c) ==> BlankSpaces(r)
  {
    assert forall k :: 0 <= k < |r| ==> r[k] == c[i + k];
  }

  lemma StripKeepsNonSpace(c: string, r: string, i: nat)
    requires i + |r| <= |c| && r == c[i..i + |r|]
    requires AllSpace(c[..i]) && AllSpace(c[i + |r|..])
    ensures NonSpace(r) == NonSpace(c)
  {
    assert c == c[..i] + r + c[i + |r|..];
    NonSpaceAppend(c[..i] + r, c[i + |r|..]);
    NonSpaceAppend(c[..i], r);
    NonSpaceAllSpace(c[..i]);
    NonSpaceAllSpace(c[i + |r|..]);
  }

  /** `re.sub(r'\s+', ' ', text).strip()`: the output is normalized and keeps
      every other character of the input, in order. */
  function Normalize(s: string): (r: string)
    ensures Normalized(r)
    ensures NonSpace(r) == NonSpace(s)
  {
    CollapseSpaceSpacing(s);
    CollapseSpaceNonSpace(s);
    StripKeeps(CollapseSpace(s));
    Strip(CollapseSpace(s))
  }

  lemma {:induction false} CollapseSpaceFixpoint(s: string)
    requires SingleSpaced(s) && BlankSpaces(s)
    ensures CollapseSpace(s) == s
    decreases |s|
  {
    if s != [] {
      assert SingleSpaced(s[1..]) && BlankSpaces(s[1..]) by {
        assert forall k :: 0 <= k < |s[1..]| ==> s[1..][k] == s[k + 1];
      }
      if IsSpace(s[0]) {
        assert s[0] == ' ';
        assert s[1..] == [] || !IsSpace(s[1]);
        assert SpanEnd(s, 1) == 1 && LeadingSpace(s) == 1;
      }
      CollapseSpaceFixpoint(s[1..]);
    }
  }

  /** Normalized text is a fixed point, so `Normalize` is idempotent. */
  lemma NormalizeFixpoint(s: string)
    requires Normalized(s)
    ensures Normalize(s) == s
  {
    CollapseSpaceFixpoint(s);
    StripOfStripped(s);
  }

  lemma NormalizeIdempotent(s: string)
    ensures Normalize(Normalize(s)) == Normalize(s)
  {
    NormalizeFixpoint(Normalize(s));
  }

  /** Lines 74-76: script blocks, then style blocks, then every remaining tag
      are removed; no tag is left in the result. */
  function Unmark(text: string): (r: string)
    ensures NoTag(r)
    ensures |r| <= |text|
  {
    StripTagsNoTag(RemoveBlocks(RemoveBlocks(text, "script"), "style"));
    StripTags(RemoveBlocks(RemoveBlocks(text, "script"), "style"))
  }

  /** `clean_description(text)`, with `html.unescape` as the opaque `unescape`. */
  function CleanDescription(text: string, unescape: string -> string): (r: string)
    ensures text == [] ==> r == []
    ensures Normalized(r)
  {
    if text == [] then [] else Normalize(unescape(Unmark(text)))
  }

  /** Skipping one character at which no block starts: no opener, or an
      opener that is never closed. */
  lemma RemoveBlocksSkip(s: string, tag: string)
    requires s != [] && BlockLen(s, tag).None?
    ensures RemoveBlocks(s, tag) == [s[0]] + RemoveBlocks(s[1..], tag)
  {
  }

  /** A string whose second character differs from the tag's first does not
      start a block. */
  lemma NoOpenerAt(s: string, tag: string)
    requires tag != [] && |s| >= 2 && s[1] != tag[0]
    ensures !OccursAt(s, Opener(tag), 0)
  {
    if |Opener(tag)| <= |s| {
      assert s[..|Opener(tag)|][1] == s[1];
      assert Opener(tag)[1] == tag[0];
    }
  }

  /** A character at which no block starts is kept, with the text after it
      up to the next `<`. */
  lemma RemoveBlocksNonOpener(x: string, t: string, tag: string)
    requires x != [] && BlockLen(x + t, tag).None? && '<' !in x[1..]
    ensures RemoveBlocks(x + t, tag) == x + RemoveBlocks(t, tag)
  {
    var s, r := x + t, RemoveBlocks(t, tag);
    RemoveBlocksSkip(s, tag);
    assert s[1..] == x[1..] + t;
    RemoveBlocksPlain(x[1..], t, tag);
    assert RemoveBlocks(s[1..], tag) == x[1..] + r;
    AppendAssoc([s[0]], x[1..], r);
    assert [s[0]] + x[1..] == x;
  }

  lemma ExampleCloseHasNoBlock(tag: string)
    requires tag != [] && tag[0] == 's'
    ensures RemoveBlocks("</b>", tag) == "</b>"
  {
    assert "</b>" + [] == "</b>";
    NoOpenerAt("</b>", tag);
    RemoveBlocksNonOpener("</b>", [], tag);
    assert "</b>" + [] == "</b>";
  }

  lemma ExampleTailHasNoBlock(tag: string)
    requires tag != [] && tag[0] == 's'
    ensures RemoveBlocks("<b>World" + "</b>", tag) == "<b>World" + "</b>"
  {
    NoOpenerAt("<b>World" + "</b>", tag);
    RemoveBlocksNonOpener("<b>World", "</b>", tag);
    ExampleCloseHasNoBlock(tag);
  }

  /** `<span>` shares the first letter of `style` and is still kept. */
  lemma ExampleSpanKept()
    ensures RemoveBlocks("<span>x", "style") == "<span>x"
  {
    var s := "<span>x";
    assert s[..|Opener("style")|][2] == 'p' != Opener("style")[2];
    assert s + [] == s;
    RemoveBlocksNonOpener(s, [], "style");
  }

  /** An opener that is never closed starts no block and is kept. */
  lemma ExampleUnclosedKept()
    ensures RemoveBlocks("<script>x", "script") == "<script>x"
  {
    var s, c := "<script>x", Closer("script");
    assert NotGtEnd(s, |Opener("script")|) == 7;
    FindNone(s, c, 8);
    assert s + [] == s;
    RemoveBlocksNonOpener(s, [], "script");
  }

  /** Neither `<script` nor `<style` occurs in `Hello <b>World</b>`. */
  lemma ExampleHasNoBlock(tag: string)
    requires tag != [] && tag[0] == 's'
    ensures RemoveBlocks("Hello " + ("<b>World" + "</b>"), tag) == "Hello " + ("<b>World" + "</b>")
  {
    RemoveBlocksPlain("Hello ", "<b>World" + "</b>", tag);
    ExampleTailHasNoBlock(tag);
  }

  /** A tag at the start is removed whole. */
  lemma StripTagsLeading(s: string)
    requires TagLen(s) > 0
    ensures StripTags(s) == StripTags(s[TagLen(s)..])
  {
  }

  lemma ExampleCloseTag()
    ensures StripTags("</b>") == []
  {
    var v := "</b>";
    assert v[1] == '/' && v[2] == 'b' && v[3] == '>';
    assert TagLen(v) == 4;
    StripTagsLeading(v);
    assert v[4..] == [];
  }

  lemma ExampleBoldTags()
    ensures StripTags("<b>World" + "</b>") == "World"
  {
    var u := "<b>World" + "</b>";
    assert u[1] == 'b' && u[2] == '>';
    assert TagLen(u) == 3;
    assert u[3..] == "World" + "</b>";
    StripTagsLeading(u);
    StripTagsPlain("World", "</b>");
    ExampleCloseTag();
    assert "World" + [] == "World";
  }

  lemma ExampleTags()
    ensures StripTags("Hello " + ("<b>World" + "</b>")) == "Hello " + "World"
  {
    StripTagsPlain("Hello ", "<b>World" + "</b>");
    ExampleBoldTags();
  }

  /** A script block and its content disappear before the tags are stripped:
      `<script>x</script>Hello <b>World</b>` hands `Hello World` to `unescape`. */
  lemma CleanScriptExample(unescape: string -> string)
    ensures Unmark("<script>x</script>" + ("Hello " + ("<b>World" + "</b>"))) == "Hello " + "World"
    ensures CleanDescription("<script>x</script>" + ("Hello " + ("<b>World" + "</b>")), unescape)
            == Normalize(unescape("Hello " + "World"))
  {
    var t := "Hello " + ("<b>World" + "</b>");
    assert "<script>x</script>" == Opener("script") + [] + ">" + "x" + Closer("script");
    assert "<script>x</script>" + t == Opener("script") + [] + ">" + "x" + Closer("script") + t;
    assert ("x" + Closer("script"))[1..] == Closer("script");
    FindFirst("x" + Closer("script"), Closer("script"), 0, 1);
    RemoveBlocksWhole([], "x", t, "script");
    ExampleHasNoBlock("script");
    ExampleHasNoBlock("style");
    ExampleTags();
  }
}
