/** `parse_date`: a fallback chain from a raw feed date string to a timestamp.
    The calendar parsers of Python's `datetime` are not modelled; they are the
    two abstract partial functions of a `Calendar`. */
module Dates {
  import opened Text

  /** A `datetime`: an instant (microseconds since the epoch; for a naive value,
      its wall-clock reading taken as if it were UTC) and whether it carries a
      time zone. */
  datatype Timestamp = Timestamp(instant: int, aware: bool)

  /** The two `strptime` formats the chain tries. */
  datatype Format =
    | RfcFormat      // '%a, %d %b %Y %H:%M:%S'
    | NumericFormat  // '%Y-%m-%d %H:%M:%S'

  /** The library parsers: `datetime.fromisoformat` (aware exactly when the
      text carries an offset) and `datetime.strptime`, which with these
      formats (no `%z`) always yields a naive value, so only its wall-clock
      reading is returned. `None` stands for the `ValueError` they raise. */
  datatype Calendar = Calendar(
    fromIsoFormat: string -> Option<Timestamp>,
    strptime: (string, Format) -> Option<int>)

  /** `datetime.now(timezone.utc)` */
  function Now(now: int): Timestamp {
    Timestamp(now, true)
  }

  /** The outcome of `a < b` on two datetimes: Python refuses to order a
      naive value against an aware one. */
  datatype Comparison = Compared(less: bool) | TypeError

  function Less(a: Timestamp, b: Timestamp): (r: Comparison)
    ensures r.TypeError? <==> a.aware != b.aware
    ensures r.Compared? ==> (r.less <==> a.instant < b.instant)
  {
    if a.aware != b.aware then TypeError else Compared(a.instant < b.instant)
  }

  /** `s.replace('Z', '+00:00')` */
  function ReplaceZ(s: string): (r: string)
    ensures 'Z' !in r
    ensures 'Z' !in s ==> r == s
    ensures 'T' in r <==> 'T' in s
    ensures |s| == 1 ==> r == (if s[0] == 'Z' then "+00:00" else s)
  {
    if s == [] then []
    else (if s[0] == 'Z' then "+00:00" else [s[0]]) + ReplaceZ(s[1..])
  }

  lemma {:induction false} ReplaceZAppend(a: string, b: string)
    ensures ReplaceZ(a + b) == ReplaceZ(a) + ReplaceZ(b)
  {
    if a == [] {
      assert a + b == b;
    } else {
      assert (a + b)[0] == a[0] && (a + b)[1..] == a[1..] + b;
      ReplaceZAppend(a[1..], b);
    }
  }

  /** A match of `\s[+-]\d{4}`: whitespace, a sign, four digits. */
  predicate IsZone(z: string) {
    |z| == 6 && IsSpace(z[0]) && z[1] in "+-"
    && IsDigit(z[2]) && IsDigit(z[3]) && IsDigit(z[4]) && IsDigit(z[5])
  }

  /** `re.sub(r'\s[+-]\d{4}$', '', t)`. `$` matches at the very end or just
      before a final newline; as a zone ends in a digit, at most one of the two
      positions can match. */
  function StripZone(t: string): (r: string)
    ensures r == t || exists z :: IsZone(z) && (t == r + z || (r != [] && r[|r| - 1] == '\n' && t == r[..|r| - 1] + z + "\n"))
  {
    if |t| >= 6 && IsZone(t[|t| - 6..]) then t[..|t| - 6]
    else if |t| >= 7 && t[|t| - 1] == '\n' && IsZone(t[|t| - 7..|t| - 1]) then t[..|t| - 7] + "\n"
    else t
  }

  /** On stripped text (what `parse_date` hands it) `StripZone` removes
      exactly a trailing zone and nothing else. */
  lemma StripZoneStripped(t: string)
    requires t == [] || !IsSpace(t[|t| - 1])
    ensures |t| >= 6 && IsZone(t[|t| - 6..]) ==> StripZone(t) == t[..|t| - 6]
    ensures !(|t| >= 6 && IsZone(t[|t| - 6..])) ==> StripZone(t) == t
  {
  }

  lemma StripZoneRemovesZone(r: string, z: string)
    requires IsZone(z)
    ensures StripZone(r + z) == r
  {
    assert (r + z)[|r + z| - 6..] == z;
    assert (r + z)[..|r + z| - 6] == r;
  }

  /** `date_str[:19]` */
  function Prefix19(s: string): (r: string)
    ensures |r| <= 19 && |r| <= |s| && r == s[..|r|]
    ensures |s| >= 19 ==> |r| == 19
    ensures |s| < 19 ==> r == s
  {
    if |s| <= 19 then s else s[..19]
  }

  /** `parse_date(date_str)`: never fails. Empty input and a failure of all
      three attempts both give the current (aware) time. */
  function ParseDate(s: string, now: int, cal: Calendar): (r: Timestamp)
    ensures s == [] ==> r == Now(now)
    ensures r.aware ==> r == Now(now) || ('T' in s && cal.fromIsoFormat(ReplaceZ(s)) == Some(r))
    ensures !r.aware ==>
              ('T' in s && cal.fromIsoFormat(ReplaceZ(s)) == Some(r))
              || cal.strptime(StripZone(Strip(s)), RfcFormat) == Some(r.instant)
              || cal.strptime(Prefix19(s), NumericFormat) == Some(r.instant)
  {
    if s == [] then Now(now)
    else if 'T' in s && cal.fromIsoFormat(ReplaceZ(s)).Some? then cal.fromIsoFormat(ReplaceZ(s)).value
    else match cal.strptime(StripZone(Strip(s)), RfcFormat)
      case Some(wall) => Timestamp(wall, false)
      case None =>
        match cal.strptime(Prefix19(s), NumericFormat)
        case Some(wall) => Timestamp(wall, false)
        case None => Now(now)
  }

  /** The ISO parser is consulted only when the string contains 'T'. */
  lemma IsoOnlyWithT(s: string, now: int, cal: Calendar, cal': Calendar)
    requires 'T' !in s && cal.strptime == cal'.strptime
    ensures ParseDate(s, now, cal) == ParseDate(s, now, cal')
  {
  }

  /** The attempts come in order: a successful ISO parse wins over both
      `strptime` formats, and the RFC format wins over the numeric one. */
  lemma IsoFirst(s: string, now: int, cal: Calendar, t: Timestamp)
    requires 'T' in s && cal.fromIsoFormat(ReplaceZ(s)) == Some(t)
    ensures ParseDate(s, now, cal) == t
  {
  }

  lemma RfcSecond(s: string, now: int, cal: Calendar, wall: int)
    requires s != [] && ('T' !in s || cal.fromIsoFormat(ReplaceZ(s)).None?)
    requires cal.strptime(StripZone(Strip(s)), RfcFormat) == Some(wall)
    ensures ParseDate(s, now, cal) == Timestamp(wall, false)
  {
  }

  lemma NumericThird(s: string, now: int, cal: Calendar, wall: int)
    requires s != [] && ('T' !in s || cal.fromIsoFormat(ReplaceZ(s)).None?)
    requires cal.strptime(StripZone(Strip(s)), RfcFormat).None?
    requires cal.strptime(Prefix19(s), NumericFormat) == Some(wall)
    ensures ParseDate(s, now, cal) == Timestamp(wall, false)
  {
  }

  lemma NowWhenAllFail(s: string, now: int, cal: Calendar)
    requires 'T' !in s || cal.fromIsoFormat(ReplaceZ(s)).None?
    requires cal.strptime(StripZone(Strip(s)), RfcFormat).None?
    requires cal.strptime(Prefix19(s), NumericFormat).None?
    ensures ParseDate(s, now, cal) == Now(now)
  {
  }

  /** Whether the result is aware does not depend on the clock reading, and
      neither does the result itself unless it is the fallback. */
  lemma AwarenessIgnoresClock(s: string, now: int, now': int, cal: Calendar)
    ensures ParseDate(s, now, cal).aware == ParseDate(s, now', cal).aware
    ensures ParseDate(s, now, cal) == Now(now) || ParseDate(s, now, cal) == ParseDate(s, now', cal)
  {
  }
}
