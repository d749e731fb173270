/**
 * The UTF-8 byte syntax of section 4 of RFC 3629. Rust's `String::from_utf8`
 * accepts exactly the byte strings this syntax derives, so it is the check
 * applied to every string field of a track blob.
 */
module Utf8 {
  import opened Common

  /** UTF8-tail = %x80-BF */
  predicate IsTail(b: byte) {
    0x80 <= b <= 0xBF
  }

  /**
   * The number of bytes of the UTF8-char that starts `s`, or 0 when `s` does
   * not start with one (the four alternatives of the RFC 3629 grammar).
   */
  function CharWidth(s: Bytes): (w: nat)
    ensures w <= |s| && w <= 4
  {
    if |s| == 0 then 0
    else if s[0] <= 0x7F then 1
    else if 0xC2 <= s[0] <= 0xDF then
      if |s| >= 2 && IsTail(s[1]) then 2 else 0
    else if s[0] == 0xE0 then
      if |s| >= 3 && 0xA0 <= s[1] <= 0xBF && IsTail(s[2]) then 3 else 0
    else if 0xE1 <= s[0] <= 0xEC || 0xEE <= s[0] <= 0xEF then
      if |s| >= 3 && IsTail(s[1]) && IsTail(s[2]) then 3 else 0
    else if s[0] == 0xED then
      if |s| >= 3 && 0x80 <= s[1] <= 0x9F && IsTail(s[2]) then 3 else 0
    else if s[0] == 0xF0 then
      if |s| >= 4 && 0x90 <= s[1] <= 0xBF && IsTail(s[2]) && IsTail(s[3]) then 4 else 0
    else if 0xF1 <= s[0] <= 0xF3 then
      if |s| >= 4 && IsTail(s[1]) && IsTail(s[2]) && IsTail(s[3]) then 4 else 0
    else if s[0] == 0xF4 then
      if |s| >= 4 && 0x80 <= s[1] <= 0x8F && IsTail(s[2]) && IsTail(s[3]) then 4 else 0
    else 0
  }

  /** UTF8-octets = *( UTF8-char ) */
  predicate ValidUtf8(s: Bytes)
    decreases |s|
  {
    s == [] || (CharWidth(s) > 0 && ValidUtf8(s[CharWidth(s)..]))
  }

  /** A Unicode scalar value: a code point that is not a surrogate. */
  predicate IsScalar(cp: nat) {
    cp <= 0x10_FFFF && !(0xD800 <= cp <= 0xDFFF)
  }

  /** The UTF-8 encoding of one scalar value (the table in section 3 of RFC 3629). */
  function EncodeScalar(cp: nat): (s: Bytes)
    requires IsScalar(cp)
  {
    if cp < 0x80 then
      [cp as byte]
    else if cp < 0x800 then
      [(0xC0 + cp / 0x40) as byte, (0x80 + cp % 0x40) as byte]
    else if cp < 0x1_0000 then
      [(0xE0 + cp / 0x1000) as byte, (0x80 + cp / 0x40 % 0x40) as byte, (0x80 + cp % 0x40) as byte]
    else
      [(0xF0 + cp / 0x4_0000) as byte, (0x80 + cp / 0x1000 % 0x40) as byte,
       (0x80 + cp / 0x40 % 0x40) as byte, (0x80 + cp % 0x40) as byte]
  }

  /** The scalar value of the UTF8-char that starts `s`. */
  function DecodeChar(s: Bytes): nat
    requires CharWidth(s) > 0
  {
    var w := CharWidth(s);
    if w == 1 then s[0] as nat
    else if w == 2 then (s[0] as nat - 0xC0) * 0x40 + (s[1] as nat - 0x80)
    else if w == 3 then
      (s[0] as nat - 0xE0) * 0x1000 + (s[1] as nat - 0x80) * 0x40 + (s[2] as nat - 0x80)
    else
      (s[0] as nat - 0xF0) * 0x4_0000 + (s[1] as nat - 0x80) * 0x1000
        + (s[2] as nat - 0x80) * 0x40 + (s[3] as nat - 0x80)
  }

  /** Every scalar value encodes to exactly one well-formed UTF8-char. */
  lemma EncodeScalarWellFormed(cp: nat)
    requires IsScalar(cp)
    ensures CharWidth(EncodeScalar(cp)) == |EncodeScalar(cp)|
    ensures ValidUtf8(EncodeScalar(cp))
    ensures DecodeChar(EncodeScalar(cp)) == cp
  {
    var s := EncodeScalar(cp);
    if cp < 0x80 {
    } else if cp < 0x800 {
      EncodeTwoWellFormed(cp);
    } else if cp < 0x1_0000 {
      EncodeThreeWellFormed(cp);
    } else {
      EncodeFourWellFormed(cp);
    }
    assert s[CharWidth(s)..] == [];
  }

  lemma EncodeTwoWellFormed(cp: nat)
    requires 0x80 <= cp < 0x800
    ensures CharWidth(EncodeScalar(cp)) == 2 && DecodeChar(EncodeScalar(cp)) == cp
  {
    assert 2 <= cp / 0x40 < 0x20;
  }

  lemma EncodeThreeWellFormed(cp: nat)
    requires 0x800 <= cp < 0x1_0000 && IsScalar(cp)
    ensures CharWidth(EncodeScalar(cp)) == 3 && DecodeChar(EncodeScalar(cp)) == cp
  {
    var hi, mid := cp / 0x1000, cp / 0x40 % 0x40;
    assert cp == hi * 0x1000 + mid * 0x40 + cp % 0x40;
    assert hi == 0 ==> mid >= 0x20;
    assert hi == 0xD ==> mid < 0x20;
  }

  lemma EncodeFourWellFormed(cp: nat)
    requires 0x1_0000 <= cp && IsScalar(cp)
    ensures CharWidth(EncodeScalar(cp)) == 4 && DecodeChar(EncodeScalar(cp)) == cp
  {
    var hi, mid := cp / 0x4_0000, cp / 0x1000 % 0x40;
    assert cp == hi * 0x4_0000 + mid * 0x1000 + cp / 0x40 % 0x40 * 0x40 + cp % 0x40;
    assert hi <= 4;
    assert hi == 0 ==> mid >= 0x10;
    assert hi == 4 ==> mid < 0x10;
  }

  /** Conversely, every well-formed UTF8-char is the encoding of the scalar value it denotes. */
  lemma DecodeCharEncodes(s: Bytes)
    requires CharWidth(s) > 0
    ensures IsScalar(DecodeChar(s))
    ensures EncodeScalar(DecodeChar(s)) == s[..CharWidth(s)]
  {
    var w := CharWidth(s);
    if w == 2 {
      DecodeTwoChar(s);
    } else if w == 3 {
      DecodeThreeChar(s);
    } else if w == 4 {
      DecodeFourChar(s);
    }
  }

  lemma DecodeTwoChar(s: Bytes)
    requires CharWidth(s) == 2
    ensures IsScalar(DecodeChar(s)) && EncodeScalar(DecodeChar(s)) == s[..2]
  {
    DecodeTwo(s[0] as nat - 0xC0, s[1] as nat - 0x80);
  }

  lemma DecodeThreeChar(s: Bytes)
    requires CharWidth(s) == 3
    ensures IsScalar(DecodeChar(s)) && EncodeScalar(DecodeChar(s)) == s[..3]
  {
    DecodeThree(s[0] as nat - 0xE0, s[1] as nat - 0x80, s[2] as nat - 0x80);
  }

  lemma DecodeFourChar(s: Bytes)
    requires CharWidth(s) == 4
    ensures IsScalar(DecodeChar(s)) && EncodeScalar(DecodeChar(s)) == s[..4]
  {
    DecodeFour(s[0] as nat - 0xF0, s[1] as nat - 0x80, s[2] as nat - 0x80, s[3] as nat - 0x80);
  }

  lemma DecodeTwo(a: nat, b: nat)
    requires b < 0x40
    ensures (a * 0x40 + b) / 0x40 == a && (a * 0x40 + b) % 0x40 == b
  {
  }

  lemma DecodeThree(a: nat, b: nat, c: nat)
    requires b < 0x40 && c < 0x40
    ensures var cp := a * 0x1000 + b * 0x40 + c;
      cp / 0x1000 == a && cp / 0x40 % 0x40 == b && cp % 0x40 == c
  {
    var cp := a * 0x1000 + b * 0x40 + c;
    assert cp / 0x40 == a * 0x40 + b;
  }

  lemma DecodeFour(a: nat, b: nat, c: nat, d: nat)
    requires b < 0x40 && c < 0x40 && d < 0x40
    ensures var cp := a * 0x4_0000 + b * 0x1000 + c * 0x40 + d;
      cp / 0x4_0000 == a && cp / 0x1000 % 0x40 == b && cp / 0x40 % 0x40 == c && cp % 0x40 == d
  {
    var cp := a * 0x4_0000 + b * 0x1000 + c * 0x40 + d;
    assert cp / 0x40 == a * 0x1000 + b * 0x40 + c;
    assert cp / 0x1000 == a * 0x40 + b;
  }

  /** The width of a character depends only on its own bytes. */
  lemma CharWidthOfAppend(a: Bytes, b: Bytes)
    requires CharWidth(a) > 0
    ensures CharWidth(a + b) == CharWidth(a)
  {
    var w := CharWidth(a);
    assert forall i :: 0 <= i < w ==> (a + b)[i] == a[i];
  }

  /** Well-formed byte strings are closed under concatenation. */
  lemma {:induction false} ValidUtf8Append(a: Bytes, b: Bytes)
    requires ValidUtf8(a) && ValidUtf8(b)
    ensures ValidUtf8(a + b)
    decreases |a|
  {
    if a == [] {
      assert a + b == b;
    } else {
      var w := CharWidth(a);
      CharWidthOfAppend(a, b);
      assert (a + b)[w..] == a[w..] + b;
      ValidUtf8Append(a[w..], b);
    }
  }

  /** The octets C0, C1 and F5 to FF never appear in well-formed UTF-8 (section 1 of RFC 3629). */
  lemma {:induction false} ValidUtf8ExcludesOctets(s: Bytes)
    requires ValidUtf8(s)
    ensures forall i :: 0 <= i < |s| ==> s[i] != 0xC0 && s[i] != 0xC1 && s[i] < 0xF5
    decreases |s|
  {
    if s != [] {
      var w := CharWidth(s);
      ValidUtf8ExcludesOctets(s[w..]);
      assert forall i :: w <= i < |s| ==> s[i] == s[w..][i - w];
    }
  }

  /** A byte string of US-ASCII characters is well-formed. */
  lemma {:induction false} AsciiIsValid(s: Bytes)
    requires forall i :: 0 <= i < |s| ==> s[i] < 0x80
    ensures ValidUtf8(s)
    decreases |s|
  {
    if s != [] {
      AsciiIsValid(s[1..]);
    }
  }
}
