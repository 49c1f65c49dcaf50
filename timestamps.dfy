/** Capture times as the importer handles them: UTC calendar tuples compared
    with time.Time.After, and formatted with the layout "2006-01-02". */
module Timestamps {
  import opened Text

  /** A UTC instant to the second (exiftool reports seconds only). */
  datatype Time = Time(year: int, month: nat, day: nat, hour: nat, minute: nat, second: nat)

  /** The calendar date a post carries. */
  datatype Date = Date(year: int, month: nat, day: nat)

  function DateOf(t: Time): Date {
    Date(t.year, t.month, t.day)
  }

  /** Go's time.Date(1970, 0, 0, 0, 0, 0, 0, time.UTC): month 0 and day 0
      normalise to 30 November 1969, midnight. */
  const Sentinel: Time := Time(1969, 11, 30, 0, 0, 0)

  /** a.After(b): a is strictly later than b. For normalised UTC times the
      instant order is the lexicographic order of the calendar fields. */
  predicate After(a: Time, b: Time) {
    if a.year != b.year then a.year > b.year
    else if a.month != b.month then a.month > b.month
    else if a.day != b.day then a.day > b.day
    else if a.hour != b.hour then a.hour > b.hour
    else if a.minute != b.minute then a.minute > b.minute
    else a.second > b.second
  }

  /** After is a strict total order: irreflexive, transitive, and any two
      distinct times are ordered one way or the other, never both. */
  lemma AfterIsStrictTotalOrder(a: Time, b: Time, c: Time)
    ensures !After(a, a)
    ensures After(a, b) && After(b, c) ==> After(a, c)
    ensures a != b <==> After(a, b) || After(b, a)
    ensures !(After(a, b) && After(b, a))
  {
  }

  function DigitChar(d: nat): (c: char)
    requires d < 10
    ensures '0' <= c <= '9'
  {
    ('0' as int + d) as char
  }

  function Pow10(n: nat): (r: nat)
    ensures r >= 1
  {
    if n == 0 then 1 else 10 * Pow10(n - 1)
  }

  /** Decimal digits of n, left-padded with zeros to at least `width`
      characters, as Go's appendInt(b, n, width) writes them. */
  function Digits(n: nat, width: nat): (s: string)
    ensures |s| >= 1
    ensures forall i :: 0 <= i < |s| ==> '0' <= s[i] <= '9'
    decreases n, width
  {
    if n < 10 && width <= 1 then [DigitChar(n)]
    else Digits(n / 10, if width == 0 then 0 else width - 1) + [DigitChar(n % 10)]
  }

  /** The number a string of decimal digits denotes. */
  function ValueOf(s: string): int
  {
    if s == [] then 0 else 10 * ValueOf(s[..|s| - 1]) + (s[|s| - 1] as int - '0' as int)
  }

  /** A number below 10^width is written in exactly `width` digits, and
      reading those digits back gives the number. */
  lemma {:induction false} DigitsRoundTrip(n: nat, width: nat)
    requires width >= 1 && n < Pow10(width)
    ensures |Digits(n, width)| == width
    ensures ValueOf(Digits(n, width)) == n
  {
    if n < 10 && width <= 1 {
    } else {
      assert Pow10(width) == 10 * Pow10(width - 1);
      assert width >= 2 by {
        assert Pow10(0) == 1;
      }
      var q, d := n / 10, n % 10;
      assert n == 10 * q + d && 0 <= d < 10;
      assert q < Pow10(width - 1);
      var prefix := Digits(q, width - 1);
      var s := Digits(n, width);
      assert s == prefix + [DigitChar(d)];
      DigitsRoundTrip(q, width - 1);
      assert s[..|s| - 1] == prefix;
      assert s[|s| - 1] as int - '0' as int == d;
      assert ValueOf(s) == 10 * ValueOf(prefix) + d;
    }
  }

  /** time.Time.Format("2006-01-02"): a four-digit year (with a leading '-'
      before the year's magnitude when negative), two-digit month and day. */
  function FormatDate(t: Time): string {
    (if t.year < 0 then "-" else "")
    + Digits(if t.year < 0 then -t.year else t.year, 4)
    + "-" + Digits(t.month, 2) + "-" + Digits(t.day, 2)
  }

  /** A formatted date holds only digits and '-'. */
  lemma FormatDateCharacters(t: Time)
    ensures forall i :: 0 <= i < |FormatDate(t)| ==> FormatDate(t)[i] == '-' || '0' <= FormatDate(t)[i] <= '9'
  {
  }

  predicate AllDigits(s: string) {
    forall i :: 0 <= i < |s| ==> '0' <= s[i] <= '9'
  }

  /** Reads a date written as exactly YYYY-MM-DD; anything else is None. */
  function ParseDate(s: string): (r: Option<Date>)
    ensures r.Some? ==> |s| == 10 && 0 <= r.value.year <= 9999 && r.value.month <= 99 && r.value.day <= 99
  {
    if |s| == 10 && s[4] == '-' && s[7] == '-'
       && AllDigits(s[..4]) && AllDigits(s[5..7]) && AllDigits(s[8..])
    then
      ValueBounds(s[..4]);
      ValueBounds(s[5..7]);
      ValueBounds(s[8..]);
      Some(Date(ValueOf(s[..4]), ValueOf(s[5..7]), ValueOf(s[8..])))
    else None
  }

  lemma {:induction false} ValueBounds(s: string)
    requires AllDigits(s)
    ensures 0 <= ValueOf(s) < Pow10(|s|)
  {
    if s != [] {
      ValueBounds(s[..|s| - 1]);
    }
  }

  /** The dates a post can carry for years 0 to 9999 are written in ten
      characters and parse back to the same year, month and day. */
  lemma FormatDateRoundTrip(t: Time)
    requires 0 <= t.year <= 9999 && t.month <= 99 && t.day <= 99
    ensures |FormatDate(t)| == 10
    ensures ParseDate(FormatDate(t)) == Some(DateOf(t))
  {
    var y, m, d := Digits(t.year, 4), Digits(t.month, 2), Digits(t.day, 2);
    FieldDigits(t.year, 4);
    FieldDigits(t.month, 2);
    FieldDigits(t.day, 2);
    assert FormatDate(t) == y + "-" + m + "-" + d by {
      assert "" + y == y;
    }
    ParseFields(y, m, d);
  }

  /** A field below 10^width is written in `width` digits that read back as
      the field (width 2 or 4). */
  lemma FieldDigits(n: nat, width: nat)
    requires width == 2 || width == 4
    requires if width == 2 then n <= 99 else n <= 9999
    ensures |Digits(n, width)| == width && ValueOf(Digits(n, width)) == n
  {
    assert Pow10(4) == 10000 && Pow10(2) == 100 by {
      assert Pow10(1) == 10;
    }
    DigitsRoundTrip(n, width);
  }

  /** Four digits, '-', two digits, '-', two digits parse to their values. */
  lemma ParseFields(y: string, m: string, d: string)
    requires |y| == 4 && |m| == 2 && |d| == 2
    requires AllDigits(y) && AllDigits(m) && AllDigits(d)
    ensures |y + "-" + m + "-" + d| == 10
    ensures var r := ParseDate(y + "-" + m + "-" + d);
            r.Some? && r.value.year == ValueOf(y) && r.value.month == ValueOf(m) && r.value.day == ValueOf(d)
  {
    var s := y + "-" + m + "-" + d;
    assert s[4] == '-' && s[7] == '-';
    assert s[..4] == y && s[5..7] == m && s[8..] == d;
    assert AllDigits(s[..4]) && AllDigits(s[5..7]) && AllDigits(s[8..]);
  }

  /** The sentinel prints as the date every post gets when no photo was
      accepted. */
  lemma SentinelDate()
    ensures FormatDate(Sentinel) == "1969-11-30"
  {
    assert Digits(1, 1) == "1";
    assert Digits(19, 2) == "19";
    assert Digits(196, 3) == "196";
    assert Digits(1969, 4) == "1969";
    assert Digits(11, 2) == "11";
    assert Digits(30, 2) == "30";
  }
}
