/**
 * A concrete date recogniser for `YYYY-MM-DD` tokens, the year-month-day
 * format the figure names use. The grammar itself takes the date parser as a
 * parameter; this one is used for worked examples.
 */
module IsoDates {
  import opened Results
  import opened Strings
  import opened FileKeys

  predicate IsLeapYear(y: int)
  {
    y % 4 == 0 && (y % 100 != 0 || y % 400 == 0)
  }

  function DaysInMonth(y: int, m: int): int
  {
    if m == 2 then (if IsLeapYear(y) then 29 else 28)
    else if m == 4 || m == 6 || m == 9 || m == 11 then 30
    else 31
  }

  /** A date that exists and whose year has four digits. */
  predicate ValidDate(d: Date)
  {
    0 <= d.year <= 9999 && 1 <= d.month <= 12 && 1 <= d.day <= DaysInMonth(d.year, d.month)
  }

  /** `YYYY-MM-DD` with a month and a day that exist in that year. */
  function ParseIsoDate(t: string): (r: Option<Date>)
    ensures r.Some? ==> ValidDate(r.value)
    ensures r.Some? ==> ParseInt(t).None?
  {
    if |t| == 10 && t[4] == '-' && t[7] == '-' && AllDigits(t[..4]) && AllDigits(t[5..7]) && AllDigits(t[8..]) then
      assert !AllDigits(t) by { assert !IsDigit(t[4]); }
      assert IsDigit(t[0]) by { assert t[..4][0] == t[0]; }
      var d := Date(DigitsValue(t[..4]), DigitsValue(t[5..7]), DigitsValue(t[8..]));
      if 1 <= d.month <= 12 && 1 <= d.day <= DaysInMonth(d.year, d.month) then
        assert d.year <= 9999 by { DigitsBound(t[..4]); }
        Some(d)
      else None
    else None
  }

  lemma {:induction false} DigitsBound(ds: string)
    requires AllDigits(ds)
    ensures DigitsValue(ds) < Pow10(|ds|)
  {
    if |ds| > 0 {
      DigitsBound(ds[..|ds| - 1]);
    }
  }

  function Pow10(n: nat): nat
  {
    if n == 0 then 1 else 10 * Pow10(n - 1)
  }

  function Digit(n: nat): char
    requires n < 10
  {
    ('0' as int + n) as char
  }

  /** Zero-padded two-digit text. */
  function Pad2(n: nat): (s: string)
    requires n < 100
    ensures AllDigits(s) && DigitsValue(s) == n
  {
    var s := [Digit(n / 10), Digit(n % 10)];
    assert s[..1] == [Digit(n / 10)];
    assert s[..1][..0] == [];
    assert DigitsValue(s[..1]) == n / 10;
    assert DigitsValue(s) == 10 * (n / 10) + n % 10;
    s
  }

  /** Zero-padded four-digit text. */
  function Pad4(n: nat): (s: string)
    requires n < 10000
    ensures |s| == 4 && AllDigits(s) && DigitsValue(s) == n
  {
    var hi := Pad2(n / 100);
    var lo := Pad2(n % 100);
    var s := hi + lo;
    assert s[..3] == hi + [lo[0]];
    assert s[..3][..2] == hi;
    assert lo[..1] == [lo[0]];
    assert lo[..1][..0] == [];
    s
  }

  /** The `YYYY-MM-DD` text of a date. */
  function FormatIsoDate(d: Date): (t: string)
    requires ValidDate(d)
    ensures |t| == 10
  {
    Pad4(d.year) + "-" + Pad2(d.month) + "-" + Pad2(d.day)
  }

  /** Formatting a valid date and parsing the text back gives the same date. */
  lemma ParseFormatIsoDate(d: Date)
    requires ValidDate(d)
    ensures ParseIsoDate(FormatIsoDate(d)) == Some(d)
  {
    var t := FormatIsoDate(d);
    assert t[..4] == Pad4(d.year);
    assert t[5..7] == Pad2(d.month);
    assert t[8..] == Pad2(d.day);
  }
}
