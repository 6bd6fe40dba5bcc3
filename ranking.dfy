/** The ranking part of `save_articles`: an in-place, stable sort of the
    articles from newest to oldest by their re-parsed date, a cap at fifty,
    and the output record. */
module Ranking {
  import opened Text
  import opened Dates
  import opened Feeds

  /** `key=lambda x: parse_date(x['pubDate'])` */
  function Key(a: Article, now: int, cal: Calendar): Timestamp {
    ParseDate(a.pubDate, now, cal)
  }

  /** All keys are aware or all are naive: no comparison between two of them
      can raise. The sort is stated for any key function; `save_articles`
      uses `Key`. */
  predicate SameAwareness(s: seq<Article>, key: Article -> Timestamp) {
    forall k :: 0 <= k < |s| ==> key(s[k]).aware == key(s[0]).aware
  }

  /** Newest first. */
  predicate SortedDesc(s: seq<Article>, key: Article -> Timestamp) {
    forall i, j :: 0 <= i < j < |s| ==> key(s[i]).instant >= key(s[j]).instant
  }

  /** Places `x`, which came after every element of `t`, behind all the
      elements of `t` whose key is not older than its own. */
  function InsertDesc(t: seq<Article>, x: Article, key: Article -> Timestamp): seq<Article>
    decreases |t|
  {
    if t == [] then [x]
    else if key(t[|t| - 1]).instant < key(x).instant then
      InsertDesc(t[..|t| - 1], x, key) + [t[|t| - 1]]
    else t + [x]
  }

  /** What `sort(key=…, reverse=True)` leaves when no comparison raises. */
  function SortDesc(s: seq<Article>, key: Article -> Timestamp): seq<Article> {
    if s == [] then [] else InsertDesc(SortDesc(s[..|s| - 1], key), s[|s| - 1], key)
  }

  /** The articles whose key has the instant `v`, in their order. */
  function Ties(s: seq<Article>, v: int, key: Article -> Timestamp): seq<Article> {
    if s == [] then []
    else Ties(s[..|s| - 1], v, key)
         + (if key(s[|s| - 1]).instant == v then [s[|s| - 1]] else [])
  }

  lemma {:induction false} InsertDescPermutation(t: seq<Article>, x: Article, key: Article -> Timestamp)
    ensures multiset(InsertDesc(t, x, key)) == multiset(t) + multiset{x}
    decreases |t|
  {
    if t != [] && key(t[|t| - 1]).instant < key(x).instant {
      InsertDescPermutation(t[..|t| - 1], x, key);
      assert t == t[..|t| - 1] + [t[|t| - 1]];
    }
  }

  lemma {:induction false} SortDescPermutation(s: seq<Article>, key: Article -> Timestamp)
    ensures multiset(SortDesc(s, key)) == multiset(s)
    ensures |SortDesc(s, key)| == |s|
  {
    if s != [] {
      SortDescPermutation(s[..|s| - 1], key);
      InsertDescPermutation(SortDesc(s[..|s| - 1], key), s[|s| - 1], key);
      assert s == s[..|s| - 1] + [s[|s| - 1]];
      assert |multiset(SortDesc(s, key))| == |multiset(s)|;
    }
  }

  lemma {:induction false} InsertDescSorted(t: seq<Article>, x: Article, key: Article -> Timestamp)
    requires SortedDesc(t, key)
    ensures SortedDesc(InsertDesc(t, x, key), key)
    decreases |t|
  {
    if t != [] && key(t[|t| - 1]).instant < key(x).instant {
      var init, last := t[..|t| - 1], t[|t| - 1];
      InsertDescSorted(init, x, key);
      InsertDescPermutation(init, x, key);
      var r := InsertDesc(init, x, key);
      forall k | 0 <= k < |r|
        ensures key(r[k]).instant >= key(last).instant
      {
        assert r[k] in multiset(init) + multiset{x};
        if r[k] != x {
          var m :| 0 <= m < |init| && init[m] == r[k];
        }
      }
    }
  }

  lemma {:induction false} SortDescSorted(s: seq<Article>, key: Article -> Timestamp)
    ensures SortedDesc(SortDesc(s, key), key)
  {
    if s != [] {
      SortDescSorted(s[..|s| - 1], key);
      InsertDescSorted(SortDesc(s[..|s| - 1], key), s[|s| - 1], key);
    }
  }

  lemma {:induction false} TiesAppend(a: seq<Article>, b: seq<Article>, v: int, key: Article -> Timestamp)
    ensures Ties(a + b, v, key) == Ties(a, v, key) + Ties(b, v, key)
    decreases |b|
  {
    if b == [] {
      assert a + b == a;
    } else {
      var b', y := b[..|b| - 1], b[|b| - 1];
      assert (a + b)[..|a + b| - 1] == a + b';
      assert (a + b)[|a + b| - 1] == y;
      TiesAppend(a, b', v, key);
      AppendAssoc(Ties(a, v, key), Ties(b', v, key), Ties([y], v, key));
      assert [y][..0] == [];
    }
  }

  lemma TiesOne(x: Article, v: int, key: Article -> Timestamp)
    ensures Ties([x], v, key) == if key(x).instant == v then [x] else []
  {
    assert [x][..0] == [];
  }

  lemma {:induction false} InsertDescTies(t: seq<Article>, x: Article, v: int, key: Article -> Timestamp)
    ensures Ties(InsertDesc(t, x, key), v, key) == Ties(t + [x], v, key)
    decreases |t|
  {
    if t != [] && key(t[|t| - 1]).instant < key(x).instant {
      var init, last := t[..|t| - 1], t[|t| - 1];
      var a, tx, tl := Ties(init, v, key), Ties([x], v, key), Ties([last], v, key);
      TiesOne(x, v, key);
      TiesOne(last, v, key);
      assert t == init + [last];
      calc {
        Ties(InsertDesc(t, x, key), v, key);
        Ties(InsertDesc(init, x, key) + [last], v, key);
        { TiesAppend(InsertDesc(init, x, key), [last], v, key); }
        Ties(InsertDesc(init, x, key), v, key) + tl;
        { InsertDescTies(init, x, v, key); }
        Ties(init + [x], v, key) + tl;
        { TiesAppend(init, [x], v, key); }
        a + tx + tl;
        { TiesSwap(a, tx, tl); }
        a + tl + tx;
        { TiesAppend(init, [last], v, key); }
        Ties(t, v, key) + tx;
        { TiesAppend(t, [x], v, key); }
        Ties(t + [x], v, key);
      }
    }
  }

  lemma TiesSwap(a: seq<Article>, b: seq<Article>, c: seq<Article>)
    requires b == [] || c == []
    ensures a + b + c == a + c + b
  {
    if b == [] {
      assert a + b == a && c + b == c;
    } else {
      assert a + c == a && b + c == b;
    }
  }

  /** Stability: the articles sharing a date keep their original order. */
  lemma {:induction false} SortDescStable(s: seq<Article>, v: int, key: Article -> Timestamp)
    ensures Ties(SortDesc(s, key), v, key) == Ties(s, v, key)
  {
    if s != [] {
      var init, last := s[..|s| - 1], s[|s| - 1];
      SortDescStable(init, v, key);
      InsertDescTies(SortDesc(init, key), last, v, key);
      TiesAppend(SortDesc(init, key), [last], v, key);
      assert [last][..0] == [];
    }
  }

  /** Sorting what is already in order changes nothing. */
  lemma {:induction false} SortDescOfSorted(s: seq<Article>, key: Article -> Timestamp)
    requires SortedDesc(s, key)
    ensures SortDesc(s, key) == s
  {
    if s != [] {
      var init := s[..|s| - 1];
      assert SortedDesc(init, key);
      SortDescOfSorted(init, key);
      assert s == init + [s[|s| - 1]];
      if init != [] {
        assert init[|init| - 1] == s[|s| - 2];
      }
    }
  }

  /** Where the comparisons of one insertion let `x` settle: behind every
      element of `t` not older than it, ahead of the older ones. */
  lemma {:induction false} InsertDescAt(t: seq<Article>, x: Article, j: nat, key: Article -> Timestamp)
    requires j <= |t|
    requires forall k :: j <= k < |t| ==> key(t[k]).instant < key(x).instant
    requires j == 0 || key(t[j - 1]).instant >= key(x).instant
    ensures InsertDesc(t, x, key) == t[..j] + [x] + t[j..]
    decreases |t|
  {
    if j == |t| {
      assert t[..j] == t && t[j..] == [];
    } else {
      var init, last := t[..|t| - 1], t[|t| - 1];
      assert key(last).instant < key(x).instant;
      assert forall k :: j <= k < |init| ==> init[k] == t[k];
      assert j > 0 ==> init[j - 1] == t[j - 1];
      InsertDescAt(init, x, j, key);
      assert init[..j] == t[..j];
      assert init[j..] + [last] == t[j..];
      AppendAssoc(t[..j] + [x], init[j..], [last]);
    }
  }

  /** Three articles dated the first, the third and the second of a month
      come out newest first. */
  lemma SortDescExample(a: Article, b: Article, c: Article, key: Article -> Timestamp)
    requires key(a).instant < key(c).instant < key(b).instant
    ensures SortDesc([a, b, c], key) == [b, c, a]
  {
    assert [a, b, c][..2] == [a, b] && [a, b][..1] == [a] && [a][..0] == [];
    assert SortDesc([a], key) == [a];
    assert [a][0] == a;
    assert InsertDesc([a], b, key) == InsertDesc([], b, key) + [a];
    assert SortDesc([a, b], key) == [b, a];
    assert [b, a][..1] == [b] && [b, a][1] == a && [b][..0] == [] && [b][0] == b;
    assert InsertDesc([b, a], c, key) == InsertDesc([b], c, key) + [a];
    assert InsertDesc([b], c, key) == [b, c];
  }

  /** The cap of line 145. */
  const MAX_ARTICLES: nat := 50

  function Min(a: nat, b: nat): nat {
    if a <= b then a else b
  }

  /** The articles written when sorting succeeds. */
  function Rank(s: seq<Article>, key: Article -> Timestamp): (r: seq<Article>)
  {
    SortDescPermutation(s, key);
    SortDesc(s, key)[..Min(|s|, MAX_ARTICLES)]
  }

  /** At most fifty articles, the newest ones, newest first, each one taken
      from the input. */
  lemma RankProperties(s: seq<Article>, key: Article -> Timestamp)
    ensures |Rank(s, key)| == Min(|s|, MAX_ARTICLES)
    ensures SortedDesc(Rank(s, key), key)
    ensures multiset(Rank(s, key)) <= multiset(s)
    ensures forall y, z :: y in Rank(s, key) && z in multiset(s) - multiset(Rank(s, key))
              ==> key(y).instant >= key(z).instant
  {
    var sorted := SortDesc(s, key);
    SortDescPermutation(s, key);
    SortDescSorted(s, key);
    var n := Min(|s|, MAX_ARTICLES);
    RankSplit(sorted, n);
    forall y, z | y in Rank(s, key) && z in multiset(s) - multiset(Rank(s, key))
      ensures key(y).instant >= key(z).instant
    {
      RankNewer(sorted, n, y, z, key);
    }
  }

  lemma RankSplit(sorted: seq<Article>, n: nat)
    requires n <= |sorted|
    ensures multiset(sorted) == multiset(sorted[..n]) + multiset(sorted[n..])
  {
    assert sorted == sorted[..n] + sorted[n..];
  }

  /** A kept article is no older than a dropped one. */
  lemma RankNewer(sorted: seq<Article>, n: nat, y: Article, z: Article, key: Article -> Timestamp)
    requires n <= |sorted| && SortedDesc(sorted, key)
    requires y in sorted[..n] && z in multiset(sorted[n..])
    ensures key(y).instant >= key(z).instant
  {
    var p :| 0 <= p < n && sorted[p] == y;
    var q :| 0 <= q < |sorted| - n && sorted[n..][q] == z;
    assert sorted[n + q] == z;
  }

  /** Ranking a ranking changes nothing. */
  lemma RankIdempotent(s: seq<Article>, key: Article -> Timestamp)
    ensures Rank(Rank(s, key), key) == Rank(s, key)
  {
    RankProperties(s, key);
    var r := Rank(s, key);
    SortDescOfSorted(r, key);
    assert r[..Min(|r|, MAX_ARTICLES)] == r;
  }

  /** One pass of the insertion sort: `a[i]` moves left past every element
      of the sorted prefix `t` whose key is older than its own. A raised
      comparison ends the pass at once; `w` is the index in `t` of the last
      key compared. */
  method InsertStep(a: array<Article>, i: nat, key: Article -> Timestamp, ghost t: seq<Article>)
    returns (sortError: bool, ghost w: int, ghost p: nat)
    requires i < a.Length && a[..i] == t
    modifies a
    ensures forall k :: i < k < a.Length ==> a[k] == old(a[k])
    ensures sortError ==> 0 <= w < i && key(t[w]).aware != key(old(a[i])).aware
    ensures !sortError ==> a[..i + 1] == InsertDesc(t, old(a[i]), key)
    ensures !sortError && i > 0 ==> 0 <= w < i && key(t[w]).aware == key(old(a[i])).aware
    ensures p <= i && a[..i + 1] == t[..p] + [old(a[i])] + t[p..]
  {
    var x := a[i];
    var j := i;
    w := -1;
    sortError := false;
    while j > 0
      invariant 0 <= j <= i
      invariant forall k :: 0 <= k < j ==> a[k] == t[k]
      invariant a[j] == x
      invariant forall k :: j < k <= i ==> a[k] == t[k - 1]
      invariant forall k :: i < k < a.Length ==> a[k] == old(a[k])
      invariant forall k :: j <= k < i ==> key(t[k]).instant < key(x).instant
      invariant j < i ==> 0 <= w < i && key(t[w]).aware == key(x).aware
    {
      match Less(key(a[j - 1]), key(x)) {
        case TypeError =>
          w := j - 1;
          sortError := true;
          Shifted(a[..], i, t, x, j);
          p := j;
          return;
        case Compared(older) =>
          w := j - 1;
          if !older {
            break;
          }
      }
      a[j - 1], a[j] := a[j], a[j - 1];
      j := j - 1;
    }
    Settled(a[..], i, t, x, j, key);
    p := j;
  }

  /** Partway through a pass, the array holds `t` with `x` moved to `j`. */
  lemma Shifted(arr: seq<Article>, i: nat, t: seq<Article>, x: Article, j: nat)
    requires j <= i < |arr| && |t| == i
    requires forall k :: 0 <= k < j ==> arr[k] == t[k]
    requires arr[j] == x
    requires forall k :: j < k <= i ==> arr[k] == t[k - 1]
    ensures arr[..i + 1] == t[..j] + [x] + t[j..]
  {
  }

  /** The array after a pass that stopped at `j` holds the insertion. */
  lemma Settled(arr: seq<Article>, i: nat, t: seq<Article>, x: Article, j: nat, key: Article -> Timestamp)
    requires j <= i < |arr| && |t| == i
    requires forall k :: 0 <= k < j ==> arr[k] == t[k]
    requires arr[j] == x
    requires forall k :: j < k <= i ==> arr[k] == t[k - 1]
    requires forall k :: j <= k < i ==> key(t[k]).instant < key(x).instant
    requires j == 0 || key(t[j - 1]).instant >= key(x).instant
    ensures arr[..i + 1] == InsertDesc(t, x, key)
    ensures arr[..i + 1] == t[..j] + [x] + t[j..]
  {
    InsertDescAt(t, x, j, key);
    Shifted(arr, i, t, x, j);
  }

  /** `articles.sort(key=…, reverse=True)` as an insertion sort that compares
      keys with `<`. A comparison of a naive key with an aware one raises,
      which ends the sort. */
  method SortByDate(a: array<Article>, key: Article -> Timestamp) returns (sortError: bool)
    modifies a
    ensures sortError <==> !SameAwareness(old(a[..]), key)
    ensures !sortError ==> a[..] == SortDesc(old(a[..]), key)
    ensures multiset(a[..]) == multiset(old(a[..]))
  {
    ghost var s := a[..];
    sortError := false;
    var i := 0;
    while i < a.Length
      invariant 0 <= i <= a.Length
      invariant forall k :: i <= k < a.Length ==> a[k] == s[k]
      invariant a[..i] == SortDesc(s[..i], key)
      invariant SameAwareness(s[..i], key)
    {
      ghost var t := SortDesc(s[..i], key);
      SortDescPermutation(s[..i], key);
      ghost var w, p;
      sortError, w, p := InsertStep(a, i, key, t);
      if sortError {
        MixedAwareness(s, i, t, w, key);
        PassPermutes(a[..], s, i, t, p);
        return;
      }
      assert s[..i + 1][..i] == s[..i];
      SameAwarenessExtend(s, i, t, w, key);
      i := i + 1;
    }
    assert a[..] == a[..i] && s == s[..i];
    SortDescPermutation(s, key);
  }

  /** A pass that stopped early leaves a permutation of the input: the
      prefix it worked on is one, and the rest is untouched. */
  lemma PassPermutes(arr: seq<Article>, s: seq<Article>, i: nat, t: seq<Article>, p: nat)
    requires i < |arr| == |s| && p <= |t|
    requires multiset(t) == multiset(s[..i])
    requires arr[..i + 1] == t[..p] + [s[i]] + t[p..]
    requires forall k :: i < k < |s| ==> arr[k] == s[k]
    ensures multiset(arr) == multiset(s)
  {
    assert t == t[..p] + t[p..];
    assert s[..i + 1] == s[..i] + [s[i]];
    assert arr == arr[..i + 1] + arr[i + 1..];
    assert s == s[..i + 1] + s[i + 1..];
    assert arr[i + 1..] == s[i + 1..];
  }

  /** A comparison that raises shows two keys of different awareness. */
  lemma MixedAwareness(s: seq<Article>, i: nat, t: seq<Article>, m: nat, key: Article -> Timestamp)
    requires i < |s| && t == SortDesc(s[..i], key) && m < |t|
    requires key(t[m]).aware != key(s[i]).aware
    ensures !SameAwareness(s, key)
  {
    SortDescPermutation(s[..i], key);
    assert t[m] in multiset(s[..i]);
    var p :| 0 <= p < i && s[..i][p] == t[m];
    assert s[p] == t[m];
  }

  /** After comparing `s[i]` with an earlier key without an error, the
      prefix up to `s[i]` still has one awareness. */
  lemma SameAwarenessExtend(s: seq<Article>, i: nat, t: seq<Article>, w: int, key: Article -> Timestamp)
    requires i < |s| && t == SortDesc(s[..i], key) && SameAwareness(s[..i], key)
    requires i > 0 ==> 0 <= w < |t| && key(t[w]).aware == key(s[i]).aware
    ensures SameAwareness(s[..i + 1], key)
  {
    if i > 0 {
      SortDescPermutation(s[..i], key);
      assert t[w] in multiset(s[..i]);
      var p :| 0 <= p < i && s[..i][p] == t[w];
      forall k | 0 <= k <= i
        ensures key(s[k]).aware == key(s[i]).aware
      {
        if k < i {
          assert s[k] == s[..i][k];
        }
      }
    }
  }

  /** The record written to the output file. */
  datatype Output = Output(generatedAt: string, articleCount: nat, articles: seq<Article>)

  /** `save_articles(articles)` up to the point where the record is built;
      `clock` is the reading used by the re-parsed dates and by
      `generated_at`. A sort error is reported and the articles are written
      in whatever order the sort left them. */
  method SaveArticles(articles: array<Article>, clock: Clock, cal: Calendar) returns (output: Option<Output>)
    modifies articles
    ensures articles.Length == 0 ==> output.None?
    ensures articles.Length > 0 ==>
              (output.Some?
               && output.value.generatedAt == clock.nowIso
               && |output.value.articles| == Min(articles.Length, MAX_ARTICLES)
               && output.value.articleCount == |output.value.articles|
               && output.value.articles == articles[..output.value.articleCount])
    ensures SameAwareness(old(articles[..]), a => Key(a, clock.now, cal)) ==>
              articles[..] == SortDesc(old(articles[..]), a => Key(a, clock.now, cal))
    ensures articles.Length > 0 && SameAwareness(old(articles[..]), a => Key(a, clock.now, cal)) ==>
              output.Some? && output.value.articles == Rank(old(articles[..]), a => Key(a, clock.now, cal))
    ensures output.Some? ==> multiset(output.value.articles) <= multiset(old(articles[..]))
  {
    if articles.Length == 0 {
      return None;
    }
    var sortError := SortByDate(articles, a => Key(a, clock.now, cal));
    var kept := articles[..Min(articles.Length, MAX_ARTICLES)];
    PrefixIncluded(articles[..], |kept|);
    output := Some(Output(clock.nowIso, |kept|, kept));
  }

  lemma PrefixIncluded(s: seq<Article>, n: nat)
    requires n <= |s|
    ensures multiset(s[..n]) <= multiset(s)
  {
    assert s == s[..n] + s[n..];
  }

  /** What the aggregation loop returns always sorts without an error:
      every date in it parses to an aware value. */
  lemma AggregateSorts(sources: seq<Source>, fetchClock: Clock, lib: Library, now: int)
    ensures SameAwareness(Aggregate(sources, fetchClock, lib), a => Key(a, now, lib.cal))
  {
    AggregateAware(sources, fetchClock, lib, now);
    var s := Aggregate(sources, fetchClock, lib);
    forall k | 0 <= k < |s|
      ensures Key(s[k], now, lib.cal).aware == Key(s[0], now, lib.cal).aware
    {
      assert s[k] in s && s[0] in s;
    }
  }
}
