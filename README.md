# MMA news feed pipeline, modelled in Dafny

`fetch_feeds.py` collects MMA news from a fixed list of RSS/Atom feeds. It
keeps the entries published in the last five days and turns each into an
article record. The article has a title, link, plain-text description, raw
date string, source name and thumbnail. The script then sorts the articles
newest first, keeps fifty and builds the output record with `generated_at`
and `article_count`. This project models that pipeline and proves what it
promises.

- `text.dfy` (`Text`) holds shared definitions: `Option`, Python's set of
  whitespace characters (`str.isspace`, `\s`), `str.strip` as two index
  scans, and the substring scans the regular expressions perform.
- `dates.dfy` (`Dates`) models `parse_date`. `Timestamp` is an instant
  together with an aware/naive tag. The two library parsers are the
  abstract partial functions of a `Calendar`. `Less` gives Python's `<` on
  datetimes, including the `TypeError` when a naive value is compared with
  an aware one.
- `entries.dfy` (`Entries`) is the feed entry, with an explicit schema of
  optional fields.
- `thumbnails.dfy` (`Thumbnails`) models `extract_thumbnail`. This
  includes an exact model of what `re.search` returns for
  `<img[^>]+src="([^">]+)"`: the leftmost start, and the last `src=`
  candidate that the greedy `[^>]+` gives back.
- `sanitize.dfy` (`Sanitize`) models `clean_description`. It is the
  composition of the non-greedy block removal for `script` and `style`,
  tag stripping, `html.unescape` (a parameter), whitespace collapsing and
  `strip`.
- `feeds.dfy` (`Feeds`) models `fetch_feeds`.
  - `FetchFeeds` keeps the source's nested loops and their `append` and
    `count`.
  - `FetchSource` is the body of the per-source `try`, and `ProcessEntry`
    the body of the per-entry `try`.
  - The methods are proved equal to the functional description
    `Aggregate`, and the lemmas are about `Aggregate`.
  - The network fetch is an input: for each configured source, either a
    failure or the list of entries the feed parser produced.
- `ranking.dfy` (`Ranking`) models the sort, cap and output part of
  `save_articles`.
  - `SortByDate` sorts an `array` in place: an insertion sort comparing
    keys with `Less`.
  - It is proved to produce `SortDesc`, the stable descending order, when
    no comparison raises.
  - `SaveArticles` caps the result at 50 and builds the `Output` record.

Two consequences of `fetch_feeds.py` that the model makes explicit:

- A date read by `strptime` (line 34 or 39) is naive. Comparing it with
  the aware `five_days_ago` at line 106 raises `TypeError`, and the handler
  at line 121 skips the entry (`Feeds.RfcDatedEntryDropped`).
- When the sort at line 140 raises, the handler at line 141 only reports
  it. The list keeps whatever order the sort had reached, and lines
  145-151 go on with that list.

Time is in microseconds. `fetch_feeds` and `save_articles` each take
their own `Clock`, one reading per call: `now` is the instant, and
`nowIso` is uninterpreted text that stands for its `isoformat()`. The
model does not tie `nowIso` to `now`, so a lemma that needs the ISO text
to parse back to the instant takes that as a hypothesis
(`Feeds.UndatedEntryKept`).

## Model

| member | source | states |
|---|---|---|
| Dates.Less | fetch_feeds.py:106 | comparing a naive and an aware datetime raises `TypeError`; otherwise `<` compares the instants |
| Dates.ReplaceZ | fetch_feeds.py:28 | a single `Z` becomes `+00:00` and any other single character stays; the result has no `Z`, is the input when it has none, and contains `T` exactly when the input does |
| Dates.ReplaceZAppend | fetch_feeds.py:28 | the replacement distributes over concatenation (it replaces every `Z`, character by character) |
| Dates.StripZone | fetch_feeds.py:33 | `re.sub(r'\s[+-]\d{4}$', '', …)` returns its input, or its input without one whitespace+sign+four-digit zone at the end or just before a final newline |
| Dates.StripZoneStripped | fetch_feeds.py:33 | on stripped text the substitution of `\s[+-]\d{4}$` removes exactly a trailing space+sign+four digits, and otherwise changes nothing |
| Dates.StripZoneRemovesZone | fetch_feeds.py:33 | any text followed by a zone loses exactly the zone |
| Dates.Prefix19 | fetch_feeds.py:39 | `date_str[:19]` is the prefix of length min(19, n) |
| Dates.ParseDate | fetch_feeds.py:21-43 | total; empty input gives now (aware); an aware result is now or the ISO parse of a string containing `T`; a naive result comes from one of the three parsers |
| Dates.IsoOnlyWithT | fetch_feeds.py:27-28 | without `T` the ISO parser has no influence on the result |
| Dates.IsoFirst | fetch_feeds.py:26-28 | a successful ISO parse of the `Z`-replaced text is the result |
| Dates.RfcSecond | fetch_feeds.py:32-34 | if ISO is not tried or fails, a successful RFC-822 parse of the stripped, zone-less text gives the naive result |
| Dates.NumericThird | fetch_feeds.py:38-39 | if both earlier attempts fail, a successful parse of the first 19 characters gives the naive result |
| Dates.NowWhenAllFail | fetch_feeds.py:43 | if all three attempts fail, the result is now |
| Dates.AwarenessIgnoresClock | fetch_feeds.py:21-43 | whether the result is aware does not depend on the clock, and the result changes with the clock only when it is the fallback |
| Text.Strip | fetch_feeds.py:33 | `str.strip` removes only whitespace, from both ends, and leaves neither end on whitespace |
| Text.StripOfStripped | fetch_feeds.py:80 | stripping stripped text changes nothing |
| Entries.Get | fetch_feeds.py:54 | `dict.get` is present exactly when the key is, with the key's value |
| Thumbnails.HasUrl | fetch_feeds.py:49 | `'url' in thumb` holds exactly when `thumb.get('url')` is present |
| Thumbnails.IsImageContent | fetch_feeds.py:54 | `medium` is present and equal to `image`, and `url` is present |
| Thumbnails.IsImageLink | fetch_feeds.py:59 | `type` is present and its first five characters are `image` (an absent `type` reads as `''`) |
| Thumbnails.FirstWhere | fetch_feeds.py:48-50 | the first index satisfying the test, with every earlier one failing; none when no element passes |
| Thumbnails.CaptureEnd | fetch_feeds.py:63 | the maximal run of `[^">]` from a position |
| Thumbnails.LastSrc | fetch_feeds.py:63 | the largest candidate position of `src="…"` in a range; none after it matches |
| Thumbnails.MatchAt | fetch_feeds.py:63 | the match found from an `<img` position is a match, and no later end of `[^>]+` matches |
| Thumbnails.FindImg | fetch_feeds.py:63 | the leftmost start of a match at or after a position, or none from there |
| Thumbnails.SearchImg | fetch_feeds.py:63-65 | a capture exists exactly when some match exists; it is group 1 of the leftmost match, at the last `src="` that the greedy `[^>]+` can reach, and it is non-empty and holds no `"` or `>` |
| Thumbnails.ExtractThumbnail | fetch_feeds.py:45-67 | a result is the `url` of a thumbnail that has one, the `url` of image media content, the `href` of an image link, or the `<img>` capture of the summary |
| Thumbnails.ThumbnailFirst | fetch_feeds.py:47-50 | the first `media_thumbnail` with a `url` is the result, whatever else the entry has |
| Thumbnails.ContentSecond | fetch_feeds.py:52-55 | with no usable thumbnail, the first `media_content` with `medium == 'image'` and a `url` is the result |
| Thumbnails.LinkThird | fetch_feeds.py:57-60 | next, the first link whose type starts with `image` gives its `href`, even when that is absent |
| Thumbnails.SummaryLast | fetch_feeds.py:62-67 | only when no list field matches is a non-empty summary searched; otherwise the result is `None` |
| Thumbnails.NoThumbnailIff | fetch_feeds.py:45-67 | the result is `None` exactly when no thumbnail or image content qualifies, and either the first image link lacks `href`, or there is no image link and no `<img>` match in the summary |
| Sanitize.BlockLen | fetch_feeds.py:74-75 | a block match at the start is longer than its opener and fits in the text |
| Sanitize.RemoveBlocks | fetch_feeds.py:74-75 | the substitution never makes the text longer |
| Sanitize.RemoveBlocksNoOpener | fetch_feeds.py:74-75 | text in which `<script` (or `<style`) never occurs is unchanged |
| Sanitize.RemoveBlocksPlain | fetch_feeds.py:74-75 | text without `<` is kept, and the rest is handled on its own |
| Sanitize.RemoveBlocksWhole | fetch_feeds.py:74-75 | an opener, attributes without `>`, any body up to the first closing tag, and that closing tag are removed together |
| Sanitize.BlockAt | fetch_feeds.py:74-75 | a block at the start ends at the first closing tag after the opener's `>` (non-greedy, across newlines) |
| Sanitize.RemoveBlocksSkip | fetch_feeds.py:74-75 | a character at which no block starts (no opening tag there, or one never closed) is kept, and removal goes on from the next character |
| Sanitize.RemoveBlocksNonOpener | fetch_feeds.py:74-75 | a character at which no block starts is kept, together with the text after it up to the next `<`; this covers `<span>` under the `style` pattern and an unclosed `<script>` |
| Sanitize.ExampleSpanKept | fetch_feeds.py:74-75 | `<span>x` is left alone by the `style` pattern |
| Sanitize.ExampleUnclosedKept | fetch_feeds.py:74-75 | an opening `<script>` with no closing tag is left alone |
| Sanitize.TagLen | fetch_feeds.py:76 | positive exactly when a `<[^>]+>` match starts at 0, and then the length of that match |
| Sanitize.StripTags | fetch_feeds.py:76 | the substitution never makes the text longer |
| Sanitize.StripTagsOnlyDeletes | fetch_feeds.py:76 | no character is introduced |
| Sanitize.StripTagsNoTag | fetch_feeds.py:76 | after tag stripping no `<` + one or more non-`>` + `>` remains |
| Sanitize.StripTagsFixpoint | fetch_feeds.py:76 | text without a tag is unchanged |
| Sanitize.StripTagsIdempotent | fetch_feeds.py:76 | stripping twice is stripping once |
| Sanitize.StripTagsPlain | fetch_feeds.py:76 | text without `<` is kept in front of the stripped rest |
| Sanitize.StripTagsTag | fetch_feeds.py:76 | a tag is removed whole |
| Sanitize.StripTagsLeading | fetch_feeds.py:76 | a tag at the start is removed and the rest is stripped |
| Sanitize.Unmark | fetch_feeds.py:74-76 | after lines 74-76 no tag remains and nothing has grown |
| Sanitize.CollapseSpace | fetch_feeds.py:80 | for `re.sub(r'\s+', ' ', …)`, the result is empty exactly when the input is, and it starts on whitespace exactly when the input does; `CollapseSpaceRun` and `CollapseSpaceAppend` state that each run becomes one `' '` |
| Sanitize.CollapseSpaceSpacing | fetch_feeds.py:80 | after collapsing no two whitespace characters are adjacent, and each one left is `' '` |
| Sanitize.CollapseSpaceAppend | fetch_feeds.py:80 | text split after a non-whitespace character collapses part by part |
| Sanitize.CollapseSpaceRun | fetch_feeds.py:80 | a run of whitespace followed by non-whitespace or the end becomes exactly one `' '` |
| Sanitize.LeadingSpaceAppend | fetch_feeds.py:80 | the leading whitespace run of text that ends on non-whitespace ends inside it, whatever follows |
| Sanitize.CollapseSpaceNonSpace | fetch_feeds.py:80 | collapsing keeps every other character, in order |
| Sanitize.CollapseSpaceFixpoint | fetch_feeds.py:80 | single-spaced text with only `' '` as whitespace is unchanged |
| Sanitize.NonSpaceAppend | fetch_feeds.py:80 | the non-whitespace characters of a concatenation are those of its parts |
| Sanitize.StripKeeps | fetch_feeds.py:80 | `strip` keeps single spacing and every non-whitespace character |
| Sanitize.Normalize | fetch_feeds.py:80 | the result neither starts nor ends with whitespace, has no two adjacent whitespace characters, uses only `' '`, and keeps every other character in order; `NormalizeJoin` states that words stay separated by one `' '` |
| Sanitize.NormalizeJoin | fetch_feeds.py:80 | two non-empty normalized texts around any non-empty run of whitespace come out joined by exactly one `' '` |
| Sanitize.NormalizeFixpoint | fetch_feeds.py:80 | normalized text is unchanged |
| Sanitize.NormalizeIdempotent | fetch_feeds.py:80 | normalizing twice is normalizing once |
| Sanitize.CleanDescription | fetch_feeds.py:69-81 | empty input gives `""`; every output is trimmed and single-spaced, whatever `html.unescape` returns |
| Sanitize.ExampleHasNoBlock | fetch_feeds.py:74-75 | neither block pattern matches in `Hello <b>World</b>` |
| Sanitize.ExampleTags | fetch_feeds.py:76 | tag stripping turns `Hello <b>World</b>` into `Hello World` |
| Sanitize.CleanScriptExample | fetch_feeds.py:69-81 | `<script>x</script>Hello <b>World</b>` loses the script block and the tags, giving `Hello World` before unescaping; the description is that text unescaped and normalized |
| Feeds.Cutoff | fetch_feeds.py:86 | `five_days_ago` is aware and five days before now |
| Feeds.RawDate | fetch_feeds.py:102 | `published` if non-empty, else `updated` if non-empty, else the ISO text of now |
| Feeds.Build | fetch_feeds.py:109-118 | source is the configured name, pubDate the raw string, title and link default to `No title` and `#`, the thumbnail is the extracted one, the description is `clean_description` of the summary (or of `''`), normalized and empty for an absent or empty summary |
| Feeds.Recent | fetch_feeds.py:103-107 | an entry is kept exactly when `pub_date < five_days_ago` evaluates to `False`, neither raising nor holding |
| Feeds.ProcessEntry | fetch_feeds.py:101-123 | an article comes out exactly when the parsed date is aware and not before the cutoff; the article is the one built from the entry |
| Feeds.FetchSource | fetch_feeds.py:99-120 | appends exactly the source's contribution to the list, and `count` is the number appended |
| Feeds.FetchFeeds | fetch_feeds.py:83-131 | the returned list is `Aggregate` of the fetch results |
| Feeds.EntryArticles | fetch_feeds.py:101-123 | one entry yields at most one article, and one exactly when `pub_date < five_days_ago` evaluates to `False`; that article carries the source name, the raw date string and the extracted thumbnail |
| Feeds.Contribution | fetch_feeds.py:93-129 | a source whose fetch failed (lines 127-129) contributes nothing; a fetched one at most one article per entry |
| Feeds.ProcessedArticles | fetch_feeds.py:101-123 | the article `ProcessEntry` returns, or its absence, is exactly what the entry contributes |
| Feeds.SourceArticles | fetch_feeds.py:100-123 | a source yields at most one article per entry |
| Feeds.Aggregate | fetch_feeds.py:83-131 | the whole run yields at most one article per entry of a fetched source |
| Feeds.SourceArticlesAppend | fetch_feeds.py:100-123 | the entries of a source contribute independently, in order |
| Feeds.AggregateAppend | fetch_feeds.py:88-129 | sources contribute independently, in configuration order |
| Feeds.AggregateSplit | fetch_feeds.py:88-129 | the result is the articles of the earlier sources, then this source's, then the later ones' |
| Feeds.FailedSourceSkipped | fetch_feeds.py:127-129 | a source whose fetch fails leaves the result as if it were not configured |
| Feeds.SourceArticlesSplit | fetch_feeds.py:100-123 | the entries before one entry, that entry and the entries after it contribute in order |
| Feeds.DroppedEntrySkipped | fetch_feeds.py:106-107 | an entry that is too old or whose comparison raises leaves the other entries' articles as if it were absent |
| Feeds.KeptEntryBuilt | fetch_feeds.py:109-120 | a kept entry yields its built article at its own place |
| Feeds.SourceArticlesFrom | fetch_feeds.py:100-120 | every article of a source comes from one of its recent entries |
| Feeds.AggregateFrom | fetch_feeds.py:88-131 | every article was built from a recent entry of a fetched source, with that source's name |
| Feeds.AggregateHas | fetch_feeds.py:88-131 | every recent entry of a fetched source yields an article in the result |
| Feeds.AggregateAware | fetch_feeds.py:103-107 | every article's date re-parses to an aware value, for any clock reading |
| Feeds.UndatedEntryKept | fetch_feeds.py:102-107 | an entry without a date is kept when the ISO parser reads back the text of now |
| Feeds.RfcDatedEntryDropped | fetch_feeds.py:101-123 | an entry whose date only the RFC-822-style format reads is skipped, because the comparison raises |
| Ranking.Key | fetch_feeds.py:140 | the sort key is `parse_date(x['pubDate'])`; `AggregateSorts` proves it aware for every article `fetch_feeds` returns |
| Ranking.InsertDesc | fetch_feeds.py:140 | one insertion of the stable descending sort; `InsertDescAt`, `InsertDescSorted`, `InsertDescTies` and `InsertDescPermutation` state its result |
| Ranking.SortDesc | fetch_feeds.py:140 | the stable descending order by key; `SortDescSorted`, `SortDescPermutation` and `SortDescStable` state it |
| Ranking.Rank | fetch_feeds.py:140-145 | the sorted list cut to fifty; `RankProperties` and `RankIdempotent` state it |
| Ranking.InsertDescPermutation | fetch_feeds.py:140 | one insertion step permutes |
| Ranking.SortDescPermutation | fetch_feeds.py:140 | the sorted list is a permutation of the input |
| Ranking.InsertDescSorted | fetch_feeds.py:140 | inserting into a descending list keeps it descending |
| Ranking.SortDescSorted | fetch_feeds.py:140 | the sorted list is non-increasing by the key |
| Ranking.TiesAppend | fetch_feeds.py:140 | the articles sharing a date are those of both parts, in order |
| Ranking.InsertDescTies | fetch_feeds.py:140 | an insertion keeps the inserted article behind the articles of the same date |
| Ranking.SortDescStable | fetch_feeds.py:140 | articles sharing a date keep their original relative order |
| Ranking.SortDescOfSorted | fetch_feeds.py:140 | sorting an already sorted list changes nothing |
| Ranking.SortDescExample | fetch_feeds.py:140 | dates of the 1st, 3rd and 2nd come out as 3rd, 2nd, 1st |
| Ranking.InsertDescAt | fetch_feeds.py:140 | an insertion places the article behind every article that is not older, and ahead of the older ones |
| Ranking.RankProperties | fetch_feeds.py:140-145 | min(n, 50) articles, newest first, each from the input, none older than an article dropped by the cap |
| Ranking.RankIdempotent | fetch_feeds.py:140-145 | ranking a ranked list changes nothing |
| Ranking.InsertStep | fetch_feeds.py:140 | one pass of the in-place sort: the prefix becomes the insertion of the next article, or the pass stops at a comparison that raises; either way the prefix is the earlier articles with the next one placed among them |
| Ranking.Shifted | fetch_feeds.py:140 | an array prefix shifted right by one from a position, with the new article there, is the insertion at that position |
| Ranking.Settled | fetch_feeds.py:140 | a pass that stopped below every newer article leaves the insertion of `InsertDesc` |
| Ranking.PassPermutes | fetch_feeds.py:140-142 | the array after a pass, even one stopped by a raising comparison, is a permutation of the input |
| Ranking.SortByDate | fetch_feeds.py:139-142 | the sort raises exactly when the keys are not all of one awareness; the array is always a permutation of the input, and without an error it holds the stable descending order |
| Ranking.MixedAwareness | fetch_feeds.py:140-142 | a comparison that raises exhibits two keys of different awareness |
| Ranking.SameAwarenessExtend | fetch_feeds.py:140 | a comparison that does not raise extends the prefix of one awareness |
| Ranking.PrefixIncluded | fetch_feeds.py:145 | `articles[:50]` holds only articles of the list |
| Ranking.SaveArticles | fetch_feeds.py:133-151 | no output for no articles; otherwise `generated_at` is now, at most fifty articles, `article_count` equals their number, the written articles are always drawn from the input, and with keys of one awareness they are the ranked input |
| Ranking.AggregateSorts | fetch_feeds.py:140 | the list `fetch_feeds` returns always sorts without a `TypeError` |

## Left out

- The network fetch (`feedparser.parse`) is an input. Each source is a
  failure or an entry list. The `bozo` warning and all `print` logging are
  not modelled.
- Creating the `docs` directory, opening the file, `json.dump` and the
  handler of the final `try` are not modelled. The model stops at the
  `output` record. The record has no JSON serialisation.
- The `RSS_FEEDS` constants (lines 13-19) are data and are not modelled.
  The sources are a parameter.
- `datetime.now` is a parameter: one `Clock` per call of `fetch_feeds`
  and one per call of `save_articles`. Within a call the source reads the
  clock separately at lines 24, 43, 86, 102 and 148. `nowIso` is not
  derived from `now`.
- `datetime.fromisoformat` and `datetime.strptime` are abstract partial
  functions. Only the order of the attempts, the `Z` replacement, the zone
  stripping and the 19-character prefix are modelled.
- `html.unescape` is an abstract function. Nothing is proved about the
  text it returns beyond what the later normalization guarantees.
- `\d` is modelled as the ASCII digits only. Python's `\d` also matches
  other Unicode decimal digits.
- Entry fields that are not strings are not modelled. Neither are
  exceptions raised inside an entry other than the `TypeError` of the date
  comparison. The per-entry handler is modelled only for that one.
- `hasattr` and an empty list are not distinguished. An absent list field
  and an empty one behave the same in the source.
- Ranking.SortByDate does not model CPython's timsort. It uses an
  insertion sort comparing the same keys with `<`. Both raise exactly when
  keys of both awarenesses are present: a comparison sort must compare
  neighbours of the final order. Without an error, both produce the same
  stable descending order. After an error, the order CPython leaves the
  list in is implementation-defined. The model leaves whatever order its
  own sort reached, which is proved to be a permutation of the input.
- Ranking.SaveArticles states the order of the written articles only when
  the keys share one awareness. Its keys all use the one clock reading of
  its call. In the source, `list.sort` computes each key once per element,
  in list order, before it reverses the list, and `parse_date` reads the
  clock at lines 24 and 43.
  - Take a `pubDate` of `Tue, 14 Oct 2026 10:00:00 GMT`. The `T` of `Tue`
    sends it to `fromisoformat`, which fails. Neither `strptime` format
    reads it, so `parse_date` returns now, and line 106 keeps the article.
  - At sort time each such article gets its own clock reading as its key,
    and a later element gets a later reading. Several of them can
    therefore come out in reverse list order.
  - In the model they share one key, so they tie and keep their list order.
