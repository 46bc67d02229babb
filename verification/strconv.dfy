/**
 * Go's `strconv.Atoi` on a 64-bit platform, and its inverse `strconv.Itoa`.
 *
 * Atoi accepts an optional sign followed by one or more ASCII decimal digits
 * (no underscores, no spaces).  Its int result is meaningful even on error:
 * 0 after a syntax error, and the int64 bound on the side of its sign after a
 * range error.  Digits are consumed left to right and an overflow of the
 * unsigned 64-bit accumulator is reported as a range error as soon as it
 * happens, before any later non-digit is seen.
 */
module Strconv {

  const MaxInt64: int := 0x7fff_ffff_ffff_ffff
  const MinInt64: int := -0x8000_0000_0000_0000
  const MaxUint64: int := 0xffff_ffff_ffff_ffff

  datatype NumError = ErrSyntax | ErrRange

  /** The pair `(int, error)` that Atoi returns; `err == NoError` is Go's nil error. */
  datatype Parsed = Parsed(value: int, err: NumErrorOption)

  datatype NumErrorOption = NoError | Failed(e: NumError)

  predicate IsDigit(c: char) {
    '0' <= c <= '9'
  }

  predicate AllDigits(s: string) {
    forall i :: 0 <= i < |s| ==> IsDigit(s[i])
  }

  function DigitValue(c: char): nat
    requires IsDigit(c)
  {
    c as int - '0' as int
  }

  function DigitChar(d: nat): (c: char)
    requires d < 10
    ensures IsDigit(c) && DigitValue(c) == d
  {
    ('0' as int + d) as char
  }

  /** The number a string of decimal digits denotes (most significant first). */
  function DigitsValue(s: string): nat
    requires AllDigits(s)
  {
    if |s| == 0 then 0
    else DigitsValue(s[..|s| - 1]) * 10 + DigitValue(s[|s| - 1])
  }

  /** Length of the longest prefix of `s` made only of digits. */
  function LeadingDigits(s: string): (k: nat)
    ensures k <= |s|
    ensures AllDigits(s[..k])
    ensures k < |s| ==> !IsDigit(s[k])
  {
    if |s| == 0 || !IsDigit(s[0]) then 0
    else
      var k := 1 + LeadingDigits(s[1..]);
      assert s[..k] == [s[0]] + s[1..][..k - 1];
      k
  }

  /** Optional leading sign: whether it is '-', and the rest of the string. */
  function SplitSign(s: string): (bool, string)
  {
    if |s| > 0 && (s[0] == '+' || s[0] == '-') then (s[0] == '-', s[1..]) else (false, s)
  }

  function Atoi(s: string): Parsed
  {
    var (neg, digits) := SplitSign(s);
    var k := LeadingDigits(digits);
    if |digits| == 0 then Parsed(0, Failed(ErrSyntax))
    else if DigitsValue(digits[..k]) > MaxUint64 then
      Parsed(if neg then MinInt64 else MaxInt64, Failed(ErrRange))
    else if k < |digits| then Parsed(0, Failed(ErrSyntax))
    else
      assert digits[..k] == digits;
      var m: int := DigitsValue(digits);
      if !neg && m > MaxInt64 then Parsed(MaxInt64, Failed(ErrRange))
      else if neg && m > -MinInt64 then Parsed(MinInt64, Failed(ErrRange))
      else Parsed(if neg then -m else m, NoError)
  }

  /** The strings Atoi accepts without error: sign, digits, and a value in the int64 range. */
  predicate IsDecimalInt64(s: string) {
    var (neg, digits) := SplitSign(s);
    && |digits| > 0
    && AllDigits(digits)
    && var m: int := DigitsValue(digits);
       MinInt64 <= (if neg then -m else m) <= MaxInt64
  }

  /** The value denoted by a string accepted by `IsDecimalInt64`. */
  function DecimalValue(s: string): int
    requires IsDecimalInt64(s)
  {
    var (neg, digits) := SplitSign(s);
    var m: int := DigitsValue(digits);
    if neg then -m else m
  }

  /** A range error: after the sign, the run of leading digits is non-empty and denotes a
      magnitude outside the int64 range for that sign, and either it is the whole rest of the
      string or it already overflows 64 unsigned bits (so later characters are never seen). */
  predicate OutOfRange(s: string) {
    var (neg, digits) := SplitSign(s);
    var k := LeadingDigits(digits);
    var m: int := DigitsValue(digits[..k]);
    && k > 0
    && (if neg then m > -MinInt64 else m > MaxInt64)
    && (k == |digits| || m > MaxUint64)
  }

  /** The int64 bound on the side of the numeral's sign. */
  function SignedBound(s: string): int {
    if SplitSign(s).0 then MinInt64 else MaxInt64
  }

  /** Atoi succeeds exactly on signed decimal numerals in the int64 range, with their value;
      it fails with a range error exactly when `OutOfRange`, giving the bound of the numeral's
      sign, and with a syntax error otherwise, giving 0. */
  lemma AtoiSpec(s: string)
    ensures Atoi(s).err == NoError <==> IsDecimalInt64(s)
    ensures IsDecimalInt64(s) ==> Atoi(s).value == DecimalValue(s)
    ensures Atoi(s).err == Failed(ErrRange) <==> OutOfRange(s)
    ensures Atoi(s).err == Failed(ErrSyntax) <==> !IsDecimalInt64(s) && !OutOfRange(s)
    ensures Atoi(s).err == Failed(ErrSyntax) ==> Atoi(s).value == 0
    ensures Atoi(s).err == Failed(ErrRange) ==> Atoi(s).value == SignedBound(s)
  {
    var (neg, digits) := SplitSign(s);
    var k := LeadingDigits(digits);
    if AllDigits(digits) {
      AllDigitsRun(digits);
      assert digits[..k] == digits;
    }
  }

  lemma AllDigitsRun(s: string)
    requires AllDigits(s)
    ensures LeadingDigits(s) == |s|
  {
  }

  /** `strconv.Itoa` restricted to naturals: decimal digits without leading zeros. */
  function NatToDecimal(n: nat): (s: string)
    ensures |s| > 0 && AllDigits(s)
  {
    if n < 10 then [DigitChar(n)]
    else NatToDecimal(n / 10) + [DigitChar(n % 10)]
  }

  /** `strconv.Itoa`. */
  function Itoa(n: int): string
  {
    if n < 0 then "-" + NatToDecimal(-n) else NatToDecimal(n)
  }

  lemma {:induction false} NatToDecimalValue(n: nat)
    ensures DigitsValue(NatToDecimal(n)) == n
  {
    var s := NatToDecimal(n);
    if n >= 10 {
      NatToDecimalValue(n / 10);
      assert s[..|s| - 1] == NatToDecimal(n / 10);
    }
  }

  /** Itoa and Atoi are inverse on the int64 range. */
  lemma ItoaAtoi(n: int)
    requires MinInt64 <= n <= MaxInt64
    ensures Atoi(Itoa(n)) == Parsed(n, NoError)
  {
    var s := Itoa(n);
    if n < 0 {
      NatToDecimalValue(-n);
      assert SplitSign(s) == (true, NatToDecimal(-n));
    } else {
      NatToDecimalValue(n);
      var d := NatToDecimal(n);
      assert IsDigit(d[0]);
      assert SplitSign(s) == (false, d);
    }
    AtoiSpec(s);
  }
}
