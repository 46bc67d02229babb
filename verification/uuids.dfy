/**
 * UUIDs as 16 bytes, with the canonical 36-character text form of section 3
 * of RFC 4122: 8-4-4-4-12 hexadecimal digits separated by '-'.  Parsing
 * accepts hexadecimal digits of either case; `String` always writes lower case.
 */
module Uuids {
  import opened Wrappers
  import opened Bytes

  type Uuid = s: seq<byte> | |s| == 16 witness [0, 0, 0, 0, 0, 0, 0, 0, 0, 0, 0, 0, 0, 0, 0, 0]

  /** `uuid.Nil`, the all-zero UUID. */
  const Nil: Uuid := [0, 0, 0, 0, 0, 0, 0, 0, 0, 0, 0, 0, 0, 0, 0, 0]

  predicate IsHex(c: char) {
    ('0' <= c <= '9') || ('a' <= c <= 'f') || ('A' <= c <= 'F')
  }

  predicate IsLowerHex(c: char) {
    ('0' <= c <= '9') || ('a' <= c <= 'f')
  }

  function HexValue(c: char): (v: nat)
    requires IsHex(c)
    ensures v < 16
  {
    if '0' <= c <= '9' then c as int - '0' as int
    else if 'a' <= c <= 'f' then c as int - 'a' as int + 10
    else c as int - 'A' as int + 10
  }

  function HexDigit(v: nat): (c: char)
    requires v < 16
    ensures IsLowerHex(c) && IsHex(c) && HexValue(c) == v
  {
    if v < 10 then ('0' as int + v) as char else ('a' as int + v - 10) as char
  }

  /** Two lower-case hexadecimal digits per byte, most significant nibble first. */
  function EncodeHex(bs: seq<byte>): (s: string)
    ensures |s| == 2 * |bs|
    ensures forall i :: 0 <= i < |s| ==> IsLowerHex(s[i])
  {
    if |bs| == 0 then ""
    else [HexDigit(bs[0] as nat / 16), HexDigit(bs[0] as nat % 16)] + EncodeHex(bs[1..])
  }

  /** Reads pairs of hexadecimal digits of either case as bytes; fails on any other character
      or an odd length. */
  function DecodeHex(s: string): (r: Option<seq<byte>>)
    ensures r.Some? ==> 2 * |r.value| == |s|
  {
    if |s| == 0 then Some([])
    else if |s| == 1 || !IsHex(s[0]) || !IsHex(s[1]) then None
    else
      match DecodeHex(s[2..])
      case None => None
      case Some(rest) => Some([(HexValue(s[0]) * 16 + HexValue(s[1])) as byte] + rest)
  }

  /** Decoding undoes encoding. */
  lemma {:induction false} DecodeEncodeHex(bs: seq<byte>)
    ensures DecodeHex(EncodeHex(bs)) == Some(bs)
  {
    if |bs| > 0 {
      var s := EncodeHex(bs);
      assert s[2..] == EncodeHex(bs[1..]);
      DecodeEncodeHex(bs[1..]);
      assert bs == [bs[0]] + bs[1..];
    }
  }

  /** Encoding undoes decoding when the text was already lower case. */
  lemma {:induction false} EncodeDecodeHex(s: string)
    requires forall i :: 0 <= i < |s| ==> IsLowerHex(s[i])
    requires DecodeHex(s).Some?
    ensures EncodeHex(DecodeHex(s).value) == s
  {
    if |s| > 0 {
      EncodeDecodeHex(s[2..]);
      var b := (HexValue(s[0]) * 16 + HexValue(s[1])) as byte;
      assert HexDigit(b as nat / 16) == s[0];
      assert HexDigit(b as nat % 16) == s[1];
      assert DecodeHex(s).value[1..] == DecodeHex(s[2..]).value;
      assert s == [s[0], s[1]] + s[2..];
    }
  }

  /** The positions of the four separators of the 36-character form. */
  predicate DashesAt(s: string)
    requires |s| == 36
  {
    s[8] == '-' && s[13] == '-' && s[18] == '-' && s[23] == '-'
  }

  /** The 32 hexadecimal digits of a 36-character form, separators removed. */
  function HexDigits(s: string): string
    requires |s| == 36
  {
    s[0..8] + s[9..13] + s[14..18] + s[19..23] + s[24..36]
  }

  /** `uuid.Parse` on the 36-character form. */
  function Parse(s: string): (r: Option<Uuid>)
  {
    if |s| != 36 || !DashesAt(s) then None
    else
      match DecodeHex(HexDigits(s))
      case None => None
      case Some(bs) => Some(bs)
  }

  /** Inserts the four separators into 32 hexadecimal digits. */
  function Assemble(h: string): (s: string)
    requires |h| == 32
    ensures |s| == 36 && DashesAt(s)
  {
    h[0..8] + "-" + h[8..12] + "-" + h[12..16] + "-" + h[16..20] + "-" + h[20..32]
  }

  lemma HexDigitsAssemble(h: string)
    requires |h| == 32
    ensures HexDigits(Assemble(h)) == h
  {
    var s := Assemble(h);
    assert s[0..8] == h[0..8];
    assert s[9..13] == h[8..12];
    assert s[14..18] == h[12..16];
    assert s[19..23] == h[16..20];
    assert s[24..36] == h[20..32];
    assert h == h[0..8] + h[8..12] + h[12..16] + h[16..20] + h[20..32];
  }

  lemma AssembleHexDigits(s: string)
    requires |s| == 36 && DashesAt(s)
    ensures Assemble(HexDigits(s)) == s
  {
    var h := HexDigits(s);
    assert h[0..8] == s[0..8];
    assert h[8..12] == s[9..13];
    assert h[12..16] == s[14..18];
    assert h[16..20] == s[19..23];
    assert h[20..32] == s[24..36];
    assert s == s[0..8] + [s[8]] + s[9..13] + [s[13]] + s[14..18] + [s[18]] + s[19..23] + [s[23]] + s[24..36];
  }

  /** `UUID.String`: lower-case 8-4-4-4-12 form. */
  function String(u: Uuid): (s: string)
    ensures |s| == 36
  {
    Assemble(EncodeHex(u))
  }

  /** Every UUID survives printing and parsing back. */
  lemma ParseString(u: Uuid)
    ensures Parse(String(u)) == Some(u)
  {
    HexDigitsAssemble(EncodeHex(u));
    DecodeEncodeHex(u);
  }

  /** A lower-case canonical string that parses prints back to itself. */
  lemma StringParse(s: string)
    requires Parse(s).Some?
    requires forall i :: 0 <= i < |s| && i !in {8, 13, 18, 23} ==> IsLowerHex(s[i])
    ensures String(Parse(s).value) == s
  {
    var h := HexDigits(s);
    forall i | 0 <= i < |h|
      ensures IsLowerHex(h[i])
    {
      if i < 8 { assert h[i] == s[i]; }
      else if i < 12 { assert h[i] == s[i + 1]; }
      else if i < 16 { assert h[i] == s[i + 2]; }
      else if i < 20 { assert h[i] == s[i + 3]; }
      else { assert h[i] == s[i + 4]; }
    }
    EncodeDecodeHex(h);
    AssembleHexDigits(s);
  }

  /** The big-endian value of a byte string; on 16-byte UUIDs its order is the byte-wise
      (memcmp) order that the database uses to sort uuid columns. */
  function BytesValue(bs: seq<byte>): nat
  {
    if |bs| == 0 then 0 else BytesValue(bs[..|bs| - 1]) * 256 + bs[|bs| - 1] as nat
  }

  /** Byte strings of one length have distinct values, so ordering by value is strict on
      distinct UUIDs. */
  lemma {:induction false} BytesValueInjective(a: seq<byte>, b: seq<byte>)
    requires |a| == |b|
    requires BytesValue(a) == BytesValue(b)
    ensures a == b
  {
    if |a| > 0 {
      var a', b' := a[..|a| - 1], b[..|b| - 1];
      assert BytesValue(a) == BytesValue(a') * 256 + a[|a| - 1] as nat;
      assert BytesValue(b) == BytesValue(b') * 256 + b[|b| - 1] as nat;
      assert BytesValue(a') == BytesValue(b') && a[|a| - 1] == b[|b| - 1];
      BytesValueInjective(a', b');
      assert a == a' + [a[|a| - 1]];
      assert b == b' + [b[|b| - 1]];
    }
  }
}
