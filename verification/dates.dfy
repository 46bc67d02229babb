/**
 * Calendar dates as Go's `time.Parse` and `Time.Format` treat them under the
 * layout "2006-01-02": the `full-date` production of section 5.6 of RFC 3339
 * (four-digit year, two-digit month, two-digit day, separated by '-'), with
 * the day-of-month limits of section 5.7 of RFC 3339, leap years included.
 */
module Dates {
  import opened Wrappers
  import Strconv

  datatype Date = Date(year: int, month: int, day: int)

  /** Proleptic Gregorian leap years. */
  predicate IsLeap(year: int) {
    year % 4 == 0 && (year % 100 != 0 || year % 400 == 0)
  }

  /** Number of days in `month` (1..12) of `year`. */
  function DaysIn(month: int, year: int): (n: int)
    requires 1 <= month <= 12
    ensures 28 <= n <= 31
  {
    if month == 2 then (if IsLeap(year) then 29 else 28)
    else if month == 4 || month == 6 || month == 9 || month == 11 then 30
    else 31
  }

  /** A day that exists on the calendar; every `time.Time` denotes one. */
  predicate Valid(d: Date) {
    1 <= d.month <= 12 && 1 <= d.day <= DaysIn(d.month, d.year)
  }

  function D(c: char): nat
    requires Strconv.IsDigit(c)
  {
    Strconv.DigitValue(c)
  }

  /** Go's `appendInt(x, 2)` for 0 <= x < 100: two digits, zero-padded. */
  function Pad2(n: nat): (s: string)
    requires n < 100
    ensures |s| == 2 && Strconv.IsDigit(s[0]) && Strconv.IsDigit(s[1])
    ensures D(s[0]) * 10 + D(s[1]) == n
  {
    [Strconv.DigitChar(n / 10), Strconv.DigitChar(n % 10)]
  }

  /** Go's `appendInt(x, 4)`: a '-' for negative years, then at least four digits. */
  function FormatYear(year: int): string
  {
    var u: nat := if year < 0 then -year else year;
    var digits := if u < 10000 then
        [Strconv.DigitChar(u / 1000), Strconv.DigitChar(u / 100 % 10),
         Strconv.DigitChar(u / 10 % 10), Strconv.DigitChar(u % 10)]
      else Strconv.NatToDecimal(u);
    if year < 0 then "-" + digits else digits
  }

  /** `Time.Format("2006-01-02")`. */
  function Format(d: Date): string
    requires Valid(d)
  {
    FormatYear(d.year) + "-" + Pad2(d.month) + "-" + Pad2(d.day)
  }

  /** The shape `DDDD-DD-DD` that the layout demands, character by character. */
  predicate Shaped(s: string) {
    && |s| == 10
    && s[4] == '-' && s[7] == '-'
    && (forall i :: 0 <= i < 10 && i != 4 && i != 7 ==> Strconv.IsDigit(s[i]))
  }

  /** `time.Parse("2006-01-02", s)`: the date it denotes, or the reason it is refused. */
  function Parse(s: string): (r: Result<Date, string>)
    ensures r.Ok? ==> Valid(r.value) && 0 <= r.value.year <= 9999
  {
    if !Shaped(s) then Err("cannot parse")
    else
      var year := D(s[0]) * 1000 + D(s[1]) * 100 + D(s[2]) * 10 + D(s[3]);
      var month := D(s[5]) * 10 + D(s[6]);
      var day := D(s[8]) * 10 + D(s[9]);
      if month < 1 || 12 < month then Err("month out of range")
      else if day < 1 || day > DaysIn(month, year) then Err("day out of range")
      else Ok(Date(year, month, day))
  }

  lemma DigitCharValue(c: char)
    requires Strconv.IsDigit(c)
    ensures Strconv.DigitChar(D(c)) == c
  {
  }

  lemma Split4(a: nat, b: nat, c: nat, d: nat)
    requires a < 10 && b < 10 && c < 10 && d < 10
    ensures var n := a * 1000 + b * 100 + c * 10 + d;
      n / 1000 == a && n / 100 % 10 == b && n / 10 % 10 == c && n % 10 == d
  {
    var n := a * 1000 + b * 100 + c * 10 + d;
    assert n / 10 == a * 100 + b * 10 + c;
    assert n / 100 == a * 10 + b;
    assert n / 1000 == a;
  }

  /** Four digits read as a year are printed back as the same four digits. */
  lemma FormatYearDigits(s: string)
    requires |s| == 4 && forall i :: 0 <= i < 4 ==> Strconv.IsDigit(s[i])
    ensures FormatYear(D(s[0]) * 1000 + D(s[1]) * 100 + D(s[2]) * 10 + D(s[3])) == s
  {
    Split4(D(s[0]), D(s[1]), D(s[2]), D(s[3]));
    DigitCharValue(s[0]);
    DigitCharValue(s[1]);
    DigitCharValue(s[2]);
    DigitCharValue(s[3]);
  }

  /** Two digits read as a number are printed back as the same two digits. */
  lemma Pad2Digits(a: char, b: char)
    requires Strconv.IsDigit(a) && Strconv.IsDigit(b)
    ensures Pad2(D(a) * 10 + D(b)) == [a, b]
  {
    DigitCharValue(a);
    DigitCharValue(b);
  }

  /** A year printed in four digits is read back as the same year. */
  lemma YearDigits(year: int)
    requires 0 <= year <= 9999
    ensures var t := FormatYear(year);
      |t| == 4 && (forall i :: 0 <= i < 4 ==> Strconv.IsDigit(t[i]))
      && D(t[0]) * 1000 + D(t[1]) * 100 + D(t[2]) * 10 + D(t[3]) == year
  {
    var t := FormatYear(year);
    assert D(t[0]) == year / 1000 && D(t[1]) == year / 100 % 10;
    assert D(t[2]) == year / 10 % 10 && D(t[3]) == year % 10;
    assert year == (year / 10) * 10 + year % 10;
    assert year / 10 == (year / 100) * 10 + year / 10 % 10;
    assert year / 100 == (year / 1000) * 10 + year / 100 % 10;
  }

  /** Formatting a parsed date gives back exactly the parsed text. */
  lemma FormatParse(s: string)
    requires Parse(s).Ok?
    ensures Format(Parse(s).value) == s
  {
    var d := Parse(s).value;
    FormatYearDigits(s[0..4]);
    Pad2Digits(s[5], s[6]);
    Pad2Digits(s[8], s[9]);
    assert s == s[0..4] + "-" + [s[5], s[6]] + "-" + [s[8], s[9]];
  }

  /** Every valid date with a four-digit year is parsed back from its formatted text. */
  lemma ParseFormat(d: Date)
    requires Valid(d) && 0 <= d.year <= 9999
    ensures Parse(Format(d)) == Ok(d)
  {
    var t := Format(d);
    var y, m, dd := FormatYear(d.year), Pad2(d.month), Pad2(d.day);
    YearDigits(d.year);
    assert t == y + "-" + m + "-" + dd;
    assert t[0] == y[0] && t[1] == y[1] && t[2] == y[2] && t[3] == y[3];
    assert t[5] == m[0] && t[6] == m[1] && t[8] == dd[0] && t[9] == dd[1];
    assert Shaped(t);
  }

  /** A parsed day is never past the end of its month: "2023-02-29" is refused, "2024-02-29"
      is accepted, as is "2000-02-29"; "1900-02-29" is refused. */
  lemma LeapDayExamples()
    ensures Parse("2023-02-29").Err?
    ensures Parse("2024-02-29") == Ok(Date(2024, 2, 29))
    ensures Parse("2000-02-29") == Ok(Date(2000, 2, 29))
    ensures Parse("1900-02-29").Err?
  {
    assert Shaped("2023-02-29");
    assert Shaped("2024-02-29");
    assert Shaped("2000-02-29");
    assert Shaped("1900-02-29");
  }
}
