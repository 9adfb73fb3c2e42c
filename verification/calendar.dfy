/** Python `datetime.date` values as (year, month, day) triples: Gregorian
    validity, the order `sorted` and `>=` use, and the `%Y-%m-%d` format. */
module Calendar {
  import opened Wrappers
  import opened Text

  datatype Date = Date(year: int, month: int, day: int)

  /** `datetime.MINYEAR` and `datetime.MAXYEAR`. */
  const MinYear := 1
  const MaxYear := 9999

  predicate IsLeapYear(y: int) {
    y % 4 == 0 && (y % 100 != 0 || y % 400 == 0)
  }

  function DaysInMonth(y: int, m: int): (n: int)
    requires 1 <= m <= 12
    ensures 28 <= n <= 31
    ensures m == 2 ==> (n == 29 <==> IsLeapYear(y))
  {
    if m == 2 then (if IsLeapYear(y) then 29 else 28)
    else if m == 4 || m == 6 || m == 9 || m == 11 then 30
    else 31
  }

  /** The triples `datetime(year, month, day)` accepts without raising. */
  predicate ValidDate(d: Date) {
    && MinYear <= d.year <= MaxYear
    && 1 <= d.month <= 12
    && 1 <= d.day <= DaysInMonth(d.year, d.month)
  }

  /** `datetime(y, m, d)` inside `try ... except: None`: an impossible
      calendar date gives no date instead of an error. */
  function MakeDate(y: int, m: int, d: int): (r: Option<Date>)
    ensures r.Some? <==> ValidDate(Date(y, m, d))
    ensures r.Some? ==> r.value == Date(y, m, d)
  {
    if ValidDate(Date(y, m, d)) then Some(Date(y, m, d)) else None
  }

  /** Chronological order of dates, as Python compares them. */
  predicate Before(a: Date, b: Date) {
    || a.year < b.year
    || (a.year == b.year && a.month < b.month)
    || (a.year == b.year && a.month == b.month && a.day < b.day)
  }

  predicate NotAfter(a: Date, b: Date) {
    a == b || Before(a, b)
  }

  lemma BeforeIsStrictTotalOrder(a: Date, b: Date, c: Date)
    ensures !Before(a, a)
    ensures Before(a, b) && Before(b, c) ==> Before(a, c)
    ensures a != b ==> (Before(a, b) <==> !Before(b, a))
  {
  }

  /** A string spelling a date as `YYYY-MM-DD` with zero padding. */
  predicate IsoShaped(s: string) {
    && |s| == 10
    && IsDigitString(s[0..4]) && s[4] == '-'
    && IsDigitString(s[5..7]) && s[7] == '-'
    && IsDigitString(s[8..10])
  }

  /** `datetime.strptime(s, "%Y-%m-%d")` inside `try ... except: None`,
      for the zero-padded spelling. */
  function ParseIsoDate(s: string): (r: Option<Date>)
    ensures r.Some? ==> IsoShaped(s) && ValidDate(r.value)
  {
    if IsoShaped(s) then
      MakeDate(DigitsValue(s[0..4]), DigitsValue(s[5..7]), DigitsValue(s[8..10]))
    else None
  }

  /** The zero-padded `YYYY-MM-DD` spelling of a date. */
  function FormatIsoDate(d: Date): (s: string)
    requires ValidDate(d)
    ensures IsoShaped(s)
  {
    var s := PadDigits(d.year, 4) + "-" + PadDigits(d.month, 2) + "-" + PadDigits(d.day, 2);
    assert s[0..4] == PadDigits(d.year, 4);
    assert s[5..7] == PadDigits(d.month, 2);
    assert s[8..10] == PadDigits(d.day, 2);
    s
  }

  /** Reading back a formatted date gives the date. */
  lemma IsoRoundTrip(d: Date)
    requires ValidDate(d)
    ensures ParseIsoDate(FormatIsoDate(d)) == Some(d)
  {
    var s := FormatIsoDate(d);
    assert s[0..4] == PadDigits(d.year, 4);
    assert s[5..7] == PadDigits(d.month, 2);
    assert s[8..10] == PadDigits(d.day, 2);
  }

  /** Every string the parser accepts is the formatted spelling of what it
      reads, so parsing and formatting are inverse bijections. */
  lemma IsoParseCanonical(s: string)
    requires ParseIsoDate(s).Some?
    ensures FormatIsoDate(ParseIsoDate(s).value) == s
  {
    PadDigitsOfValue(s[0..4]);
    PadDigitsOfValue(s[5..7]);
    PadDigitsOfValue(s[8..10]);
    assert s == s[0..4] + "-" + s[5..7] + "-" + s[8..10];
  }

  /** `date_str[:10]` parsed as above when `date_str` is non-empty
      (an empty string is falsy and leaves the date absent). */
  function IsoPrefixDate(ds: string): (r: Option<Date>)
    ensures r.Some? ==> |ds| >= 10 && ParseIsoDate(ds[..10]) == r
  {
    if ds == [] then None
    else
      var prefix := ds[..if |ds| < 10 then |ds| else 10];
      assert ParseIsoDate(prefix).Some? ==> |prefix| == 10 && prefix == ds[..10];
      ParseIsoDate(prefix)
  }

  /** A timestamp that starts with a formatted date yields that date,
      whatever follows it (`2024-03-05T10:00:00Z` gives 5 March 2024). */
  lemma IsoPrefixOfTimestamp(d: Date, rest: string)
    requires ValidDate(d)
    ensures IsoPrefixDate(FormatIsoDate(d) + rest) == Some(d)
  {
    var s := FormatIsoDate(d) + rest;
    assert s[..10] == FormatIsoDate(d);
    IsoRoundTrip(d);
  }
}
