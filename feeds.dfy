/** `fetch_feeds`: the aggregation loop over every configured source and each
    of its entries. The network fetch is an input: per source, either a
    failure or the list of entries the feed parser produced. */
module Feeds {
  import opened Text
  import opened Dates
  import opened Entries
  import opened Thumbnails
  import opened Sanitize

  /** One article record as it is written to the output. */
  datatype Article = Article(
    title: string,
    link: string,
    description: string,
    pubDate: string,
    source: string,
    thumbnail: Option<string>)

  /** The outcome of `feedparser.parse(url)` for one source: an exception
      escaping the per-source `try`, or the entries. */
  datatype Fetched = FetchFailed | Fetched(entries: seq<Entry>)

  /** A configured feed (its `name`) together with what fetching it gave. */
  datatype Source = Source(name: string, fetched: Fetched)

  /** A reading of `datetime.now(timezone.utc)`: its instant in microseconds
      and the text `isoformat()` renders for it. */
  datatype Clock = Clock(now: int, nowIso: string)

  /** The library functions the pipeline calls and the model does not define. */
  datatype Library = Library(cal: Calendar, unescape: string -> string)

  /** `timedelta(days=5)` in microseconds */
  const FIVE_DAYS: int := 5 * 24 * 60 * 60 * 1_000_000

  /** `five_days_ago` */
  function Cutoff(clock: Clock): (t: Timestamp)
    ensures t.aware && t.instant == clock.now - FIVE_DAYS
  {
    Timestamp(clock.now - FIVE_DAYS, true)
  }

  /** `entry.get('published') or entry.get('updated') or <now>.isoformat()`:
      `or` passes over an absent and an empty value alike. */
  function RawDate(e: Entry, nowIso: string): (r: string)
    ensures e.published.Some? && e.published.value != [] ==> r == e.published.value
    ensures (e.published.None? || e.published.value == []) && e.updated.Some? && e.updated.value != []
            ==> r == e.updated.value
    ensures (e.published.None? || e.published.value == []) && (e.updated.None? || e.updated.value == [])
            ==> r == nowIso
  {
    if e.published.Some? && e.published.value != [] then e.published.value
    else if e.updated.Some? && e.updated.value != [] then e.updated.value
    else nowIso
  }

  /** The article dictionary built for a kept entry. */
  function Build(name: string, e: Entry, clock: Clock, lib: Library): (a: Article)
    ensures a.source == name && a.pubDate == RawDate(e, clock.nowIso)
    ensures a.title == (if e.title.Some? then e.title.value else "No title")
    ensures a.link == (if e.link.Some? then e.link.value else "#")
    ensures a.thumbnail == ExtractThumbnail(e)
    ensures a.description == CleanDescription(e.summary.GetOr(""), lib.unescape)
    ensures Normalized(a.description)
    ensures e.summary.None? || e.summary.value == [] ==> a.description == []
  {
    Article(
      e.title.GetOr("No title"),
      e.link.GetOr("#"),
      CleanDescription(e.summary.GetOr(""), lib.unescape),
      RawDate(e, clock.nowIso),
      name,
      ExtractThumbnail(e))
  }

  /** The entry's date, parsed, is aware and no earlier than five days before
      now: exactly the entries that reach the `append`. A naive date makes
      the comparison raise, and the handler skips the entry. */
  predicate Recent(e: Entry, clock: Clock, lib: Library)
    ensures Recent(e, clock, lib) <==>
              Less(ParseDate(RawDate(e, clock.nowIso), clock.now, lib.cal), Cutoff(clock)) == Compared(false)
  {
    var t := ParseDate(RawDate(e, clock.nowIso), clock.now, lib.cal);
    t.aware && t.instant >= clock.now - FIVE_DAYS
  }

  /** What one entry contributes: its article, or nothing. */
  function EntryArticles(name: string, e: Entry, clock: Clock, lib: Library): (r: seq<Article>)
    ensures |r| <= 1
    ensures r != [] <==> Less(ParseDate(RawDate(e, clock.nowIso), clock.now, lib.cal), Cutoff(clock)) == Compared(false)
    ensures r != [] ==> r[0].source == name && r[0].pubDate == RawDate(e, clock.nowIso) && r[0].thumbnail == ExtractThumbnail(e)
  {
    if Recent(e, clock, lib) then [Build(name, e, clock, lib)] else []
  }

  /** What the entries of one source contribute, in order: at most one
      article per entry. */
  function SourceArticles(name: string, es: seq<Entry>, clock: Clock, lib: Library): (r: seq<Article>)
    ensures |r| <= |es|
  {
    if es == [] then []
    else SourceArticles(name, es[..|es| - 1], clock, lib) + EntryArticles(name, es[|es| - 1], clock, lib)
  }

  /** What one source contributes: nothing when its fetch failed. */
  function Contribution(s: Source, clock: Clock, lib: Library): (r: seq<Article>)
    ensures s.fetched.FetchFailed? ==> r == []
    ensures s.fetched.Fetched? ==> |r| <= |s.fetched.entries|
  {
    match s.fetched
    case FetchFailed => []
    case Fetched(es) => SourceArticles(s.name, es, clock, lib)
  }

  /** How many entries the fetched sources hold. */
  function EntryCount(sources: seq<Source>): nat {
    if sources == [] then 0
    else EntryCount(sources[..|sources| - 1])
         + (match sources[|sources| - 1].fetched
            case FetchFailed => 0
            case Fetched(es) => |es|)
  }

  /** The list `fetch_feeds` returns, as a function of the fetch results: at
      most one article per fetched entry. */
  function Aggregate(sources: seq<Source>, clock: Clock, lib: Library): (r: seq<Article>)
    ensures |r| <= EntryCount(sources)
  {
    if sources == [] then []
    else Aggregate(sources[..|sources| - 1], clock, lib) + Contribution(sources[|sources| - 1], clock, lib)
  }

  /** The body of the per-entry `try` block: the article the entry yields,
      or `None` when it is skipped, either by the `continue` of the cutoff or
      by the handler that catches the comparison's `TypeError`. */
  method ProcessEntry(name: string, entry: Entry, fiveDaysAgo: Timestamp, clock: Clock, lib: Library)
    returns (article: Option<Article>)
    requires fiveDaysAgo == Cutoff(clock)
    ensures article.Some? <==> Recent(entry, clock, lib)
    ensures article.Some? ==> article.value == Build(name, entry, clock, lib)
  {
    var pubDateStr := RawDate(entry, clock.nowIso);
    var pubDate := ParseDate(pubDateStr, clock.now, lib.cal);
    match Less(pubDate, fiveDaysAgo) {
      case TypeError =>
        article := None;
      case Compared(older) =>
        if older {
          article := None;
        } else {
          var imageUrl := ExtractThumbnail(entry);
          article := Some(Article(
            entry.title.GetOr("No title"),
            entry.link.GetOr("#"),
            CleanDescription(entry.summary.GetOr(""), lib.unescape),
            pubDateStr,
            name,
            imageUrl));
        }
    }
  }

  /** The body of the per-source `try` block once the feed is parsed: every
      entry is processed in turn, its article appended to `allArticles`,
      and `count` is the number appended. */
  method FetchSource(name: string, entries: seq<Entry>, fiveDaysAgo: Timestamp, clock: Clock, lib: Library,
                     allArticles: seq<Article>)
    returns (allArticles': seq<Article>, count: nat)
    requires fiveDaysAgo == Cutoff(clock)
    ensures allArticles' == allArticles + SourceArticles(name, entries, clock, lib)
    ensures count == |SourceArticles(name, entries, clock, lib)|
  {
    allArticles' := allArticles;
    count := 0;
    var j := 0;
    assert entries[..0] == [];
    while j < |entries|
      invariant 0 <= j <= |entries|
      invariant allArticles' == allArticles + SourceArticles(name, entries[..j], clock, lib)
      invariant count == |SourceArticles(name, entries[..j], clock, lib)|
    {
      var article := ProcessEntry(name, entries[j], fiveDaysAgo, clock, lib);
      ghost var done, step := SourceArticles(name, entries[..j], clock, lib), EntryArticles(name, entries[j], clock, lib);
      ProcessedArticles(name, entries[j], clock, lib, article);
      SourceArticlesStep(name, entries, j, clock, lib);
      AppendAssoc(allArticles, done, step);
      if article.Some? {
        allArticles' := allArticles' + [article.value];
        count := count + 1;
      } else {
        assert allArticles' + step == allArticles';
      }
      assert allArticles' == allArticles + SourceArticles(name, entries[..j + 1], clock, lib);
      j := j + 1;
    }
    assert entries[..j] == entries;
  }

  /** `fetch_feeds()`, with one reading of the clock for the whole call. */
  method FetchFeeds(sources: seq<Source>, clock: Clock, lib: Library) returns (allArticles: seq<Article>)
    ensures allArticles == Aggregate(sources, clock, lib)
  {
    allArticles := [];
    var fiveDaysAgo := Cutoff(clock);
    var i := 0;
    while i < |sources|
      invariant 0 <= i <= |sources|
      invariant allArticles == Aggregate(sources[..i], clock, lib)
    {
      var name := sources[i].name;
      assert sources[..i + 1][..i] == sources[..i];
      assert Aggregate(sources[..i + 1], clock, lib) == allArticles + Contribution(sources[i], clock, lib);
      match sources[i].fetched {
        case FetchFailed =>
          // the source's handler: report and go on with the next source
          assert allArticles + [] == allArticles;
        case Fetched(entries) =>
          var count;
          allArticles, count := FetchSource(name, entries, fiveDaysAgo, clock, lib, allArticles);
      }
      i := i + 1;
    }
    assert sources[..i] == sources;
  }

  lemma {:induction false} SourceArticlesAppend(name: string, a: seq<Entry>, b: seq<Entry>, clock: Clock, lib: Library)
    ensures SourceArticles(name, a + b, clock, lib)
            == SourceArticles(name, a, clock, lib) + SourceArticles(name, b, clock, lib)
  {
    if b == [] {
      assert a + b == a;
    } else {
      var b', x := b[..|b| - 1], b[|b| - 1];
      assert (a + b)[..|a + b| - 1] == a + b';
      assert (a + b)[|a + b| - 1] == x;
      SourceArticlesAppend(name, a, b', clock, lib);
      AppendAssoc(SourceArticles(name, a, clock, lib), SourceArticles(name, b', clock, lib), EntryArticles(name, x, clock, lib));
    }
  }

  /** Sources contribute independently, in configuration order. */
  lemma {:induction false} AggregateAppend(a: seq<Source>, b: seq<Source>, clock: Clock, lib: Library)
    ensures Aggregate(a + b, clock, lib) == Aggregate(a, clock, lib) + Aggregate(b, clock, lib)
  {
    if b == [] {
      assert a + b == a;
    } else {
      var b', x := b[..|b| - 1], b[|b| - 1];
      assert (a + b)[..|a + b| - 1] == a + b';
      assert (a + b)[|a + b| - 1] == x;
      AggregateAppend(a, b', clock, lib);
      AppendAssoc(Aggregate(a, clock, lib), Aggregate(b', clock, lib), Contribution(x, clock, lib));
    }
  }

  /** The result is the articles of source 0, then of source 1, and so on. */
  lemma AggregateSplit(sources: seq<Source>, i: nat, clock: Clock, lib: Library)
    requires i < |sources|
    ensures Aggregate(sources, clock, lib)
            == Aggregate(sources[..i], clock, lib) + Contribution(sources[i], clock, lib)
               + Aggregate(sources[i + 1..], clock, lib)
  {
    assert sources == sources[..i] + ([sources[i]] + sources[i + 1..]);
    AggregateAppend(sources[..i], [sources[i]] + sources[i + 1..], clock, lib);
    AggregateAppend([sources[i]], sources[i + 1..], clock, lib);
    assert ([sources[i]] + sources[i + 1..])[..1] == [sources[i]];
    assert Aggregate([sources[i]], clock, lib) == Contribution(sources[i], clock, lib) by {
      assert [sources[i]][..0] == [];
    }
  }

  /** A source whose fetch fails changes nothing for the others: the result
      is the one without that source. */
  lemma FailedSourceSkipped(sources: seq<Source>, i: nat, clock: Clock, lib: Library)
    requires i < |sources| && sources[i].fetched.FetchFailed?
    ensures Aggregate(sources, clock, lib)
            == Aggregate(sources[..i] + sources[i + 1..], clock, lib)
  {
    AggregateSplit(sources, i, clock, lib);
    AggregateAppend(sources[..i], sources[i + 1..], clock, lib);
  }

  /** What `ProcessEntry` returns is what the entry contributes. */
  lemma ProcessedArticles(name: string, e: Entry, clock: Clock, lib: Library, article: Option<Article>)
    requires article.Some? <==> Recent(e, clock, lib)
    requires article.Some? ==> article.value == Build(name, e, clock, lib)
    ensures EntryArticles(name, e, clock, lib) == (if article.Some? then [article.value] else [])
  {
  }

  lemma SourceArticlesStep(name: string, es: seq<Entry>, j: nat, clock: Clock, lib: Library)
    requires j < |es|
    ensures SourceArticles(name, es[..j + 1], clock, lib)
            == SourceArticles(name, es[..j], clock, lib) + EntryArticles(name, es[j], clock, lib)
  {
    assert es[..j + 1][..j] == es[..j];
  }

  lemma SourceArticlesOne(name: string, e: Entry, clock: Clock, lib: Library)
    ensures SourceArticles(name, [e], clock, lib) == EntryArticles(name, e, clock, lib)
  {
    assert [e][..0] == [];
  }

  /** The entries before `k`, entry `k` and the entries after it contribute
      in that order. */
  lemma SourceArticlesSplit(name: string, es: seq<Entry>, k: nat, clock: Clock, lib: Library)
    requires k < |es|
    ensures SourceArticles(name, es, clock, lib)
            == SourceArticles(name, es[..k], clock, lib) + EntryArticles(name, es[k], clock, lib)
               + SourceArticles(name, es[k + 1..], clock, lib)
  {
    var pre, x, post := es[..k], es[k], es[k + 1..];
    assert es == pre + ([x] + post);
    SourceArticlesAppend(name, pre, [x] + post, clock, lib);
    SourceArticlesAppend(name, [x], post, clock, lib);
    SourceArticlesOne(name, x, clock, lib);
    AppendAssoc(SourceArticles(name, pre, clock, lib), EntryArticles(name, x, clock, lib), SourceArticles(name, post, clock, lib));
  }

  /** An entry that is not kept, whether too old or with a date that cannot
      be compared, changes nothing for the other entries. */
  lemma DroppedEntrySkipped(name: string, es: seq<Entry>, k: nat, clock: Clock, lib: Library)
    requires k < |es| && !Recent(es[k], clock, lib)
    ensures SourceArticles(name, es, clock, lib)
            == SourceArticles(name, es[..k] + es[k + 1..], clock, lib)
  {
    SourceArticlesSplit(name, es, k, clock, lib);
    SourceArticlesAppend(name, es[..k], es[k + 1..], clock, lib);
  }

  /** A kept entry yields its article at its own place. */
  lemma KeptEntryBuilt(name: string, es: seq<Entry>, k: nat, clock: Clock, lib: Library)
    requires k < |es| && Recent(es[k], clock, lib)
    ensures SourceArticles(name, es, clock, lib)
            == SourceArticles(name, es[..k], clock, lib) + [Build(name, es[k], clock, lib)]
               + SourceArticles(name, es[k + 1..], clock, lib)
  {
    SourceArticlesSplit(name, es, k, clock, lib);
  }

  /** Every article of a source comes from one of its recent entries. */
  lemma {:induction false} SourceArticlesFrom(name: string, es: seq<Entry>, clock: Clock, lib: Library, a: Article)
    requires a in SourceArticles(name, es, clock, lib)
    ensures exists k :: 0 <= k < |es| && Recent(es[k], clock, lib) && a == Build(name, es[k], clock, lib)
  {
    var init := es[..|es| - 1];
    if a in SourceArticles(name, init, clock, lib) {
      SourceArticlesFrom(name, init, clock, lib, a);
      var k :| 0 <= k < |init| && Recent(init[k], clock, lib) && a == Build(name, init[k], clock, lib);
      assert es[k] == init[k];
    } else {
      assert a in EntryArticles(name, es[|es| - 1], clock, lib);
    }
  }

  /** Every article comes from a recent entry of a source that was fetched,
      carries that source's name and takes the entry's raw date string. */
  lemma {:induction false} AggregateFrom(sources: seq<Source>, clock: Clock, lib: Library, a: Article)
    requires a in Aggregate(sources, clock, lib)
    ensures exists i, k :: 0 <= i < |sources| && sources[i].fetched.Fetched?
              && 0 <= k < |sources[i].fetched.entries|
              && Recent(sources[i].fetched.entries[k], clock, lib)
              && a == Build(sources[i].name, sources[i].fetched.entries[k], clock, lib)
  {
    var init := sources[..|sources| - 1];
    if a in Aggregate(init, clock, lib) {
      AggregateFrom(init, clock, lib, a);
      var i, k :| 0 <= i < |init| && init[i].fetched.Fetched?
                  && 0 <= k < |init[i].fetched.entries|
                  && Recent(init[i].fetched.entries[k], clock, lib)
                  && a == Build(init[i].name, init[i].fetched.entries[k], clock, lib);
      assert sources[i] == init[i];
    } else {
      var s := sources[|sources| - 1];
      SourceArticlesFrom(s.name, s.fetched.entries, clock, lib, a);
    }
  }

  /** Conversely, every recent entry of a fetched source is in the result. */
  lemma AggregateHas(sources: seq<Source>, i: nat, k: nat, clock: Clock, lib: Library)
    requires i < |sources| && sources[i].fetched.Fetched? && k < |sources[i].fetched.entries|
    requires Recent(sources[i].fetched.entries[k], clock, lib)
    ensures Build(sources[i].name, sources[i].fetched.entries[k], clock, lib) in Aggregate(sources, clock, lib)
  {
    AggregateSplit(sources, i, clock, lib);
    KeptEntryBuilt(sources[i].name, sources[i].fetched.entries, k, clock, lib);
  }

  /** The date of every article parses to an aware value, whatever the clock
      reads when it is parsed again. */
  lemma AggregateAware(sources: seq<Source>, clock: Clock, lib: Library, now: int)
    ensures forall a :: a in Aggregate(sources, clock, lib) ==> ParseDate(a.pubDate, now, lib.cal).aware
  {
    forall a | a in Aggregate(sources, clock, lib)
      ensures ParseDate(a.pubDate, now, lib.cal).aware
    {
      AggregateFrom(sources, clock, lib, a);
      AwarenessIgnoresClock(a.pubDate, clock.now, now, lib.cal);
    }
  }

  /** An entry without a date is kept when the ISO parser reads back what
      `isoformat()` wrote for the clock. */
  lemma UndatedEntryKept(e: Entry, clock: Clock, lib: Library)
    requires e.published.None? || e.published.value == []
    requires e.updated.None? || e.updated.value == []
    requires 'T' in clock.nowIso && lib.cal.fromIsoFormat(ReplaceZ(clock.nowIso)) == Some(Now(clock.now))
    ensures Recent(e, clock, lib)
  {
    assert RawDate(e, clock.nowIso) == clock.nowIso;
    IsoFirst(clock.nowIso, clock.now, lib.cal, Now(clock.now));
  }

  /** A date that only the RFC-822-style format reads is naive, so comparing
      it with the aware cutoff raises and the entry is skipped, however recent
      the date it names. */
  lemma RfcDatedEntryDropped(name: string, e: Entry, clock: Clock, lib: Library, wall: int)
    requires RawDate(e, clock.nowIso) != []
    requires 'T' !in RawDate(e, clock.nowIso) || lib.cal.fromIsoFormat(ReplaceZ(RawDate(e, clock.nowIso))).None?
    requires lib.cal.strptime(StripZone(Strip(RawDate(e, clock.nowIso))), RfcFormat) == Some(wall)
    ensures !Recent(e, clock, lib)
    ensures EntryArticles(name, e, clock, lib) == []
  {
    RfcSecond(RawDate(e, clock.nowIso), clock.now, lib.cal, wall);
  }
}
