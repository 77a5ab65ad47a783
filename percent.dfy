/**
 * The global `unescape` of Annex B.2.1.2 of ECMA-262, and the escaping of
 * every byte as "%XX" that it undoes.
 */
module Percent {
  import opened JsStrings

  const PERCENT: CodeUnit := 0x25  // '%'
  const LOWER_U: CodeUnit := 0x75  // 'u'

  /** A HexDigit of ECMA-262: '0'-'9', 'A'-'F', 'a'-'f'. */
  predicate IsHexDigit(c: CodeUnit) {
    (0x30 <= c <= 0x39) || (0x41 <= c <= 0x46) || (0x61 <= c <= 0x66)
  }

  predicate AllHexDigits(ds: JSString) {
    forall i :: 0 <= i < |ds| ==> IsHexDigit(ds[i])
  }

  /** The mathematical value of one hex digit. */
  function DigitValue(c: CodeUnit): (v: nat)
    requires IsHexDigit(c)
    ensures v < 16
  {
    if c <= 0x39 then c - 0x30 else if c <= 0x46 then c - 0x41 + 10 else c - 0x61 + 10
  }

  function Pow16(n: nat): (p: nat)
    ensures p >= 1
  {
    if n == 0 then 1 else 16 * Pow16(n - 1)
  }

  /** The mathematical value of a HexDigits string, most significant digit first. */
  function HexValue(ds: JSString): (v: nat)
    requires AllHexDigits(ds)
    ensures v < Pow16(|ds|)
    decreases |ds|
  {
    if |ds| == 0 then 0
    else HexValue(ds[..|ds| - 1]) * 16 + DigitValue(ds[|ds| - 1])
  }

  /** `s` starts with "%u" and four hex digits (step i of the loop body in the standard). */
  predicate StartsWideEscape(s: JSString) {
    6 <= |s| && s[0] == PERCENT && s[1] == LOWER_U && AllHexDigits(s[2..6])
  }

  /** `s` starts with "%" and two hex digits (step ii). */
  predicate StartsByteEscape(s: JSString) {
    3 <= |s| && s[0] == PERCENT && AllHexDigits(s[1..3])
  }

  /**
   * `unescape(s)`. Walking the string, a "%uXXXX" with four hex digits
   * becomes the code unit XXXX, otherwise a "%XX" with two hex digits becomes
   * the code unit XX; every other code unit, a "%" that starts neither
   * included, is kept. The look-ahead tests of the standard ("k <= len - 6",
   * "k <= len - 3") are taken on the rest of the string still to be read.
   */
  function Unescape(s: JSString): (r: JSString)
    ensures |r| <= |s|
    ensures PERCENT !in s ==> r == s
    decreases |s|
  {
    if |s| == 0 then []
    else if StartsWideEscape(s) then
      assert Pow16(4) == 0x1_0000;
      [HexValue(s[2..6])] + Unescape(s[6..])
    else if StartsByteEscape(s) then
      assert Pow16(2) == 0x100;
      [HexValue(s[1..3])] + Unescape(s[3..])
    else
      assert s == [s[0]] + s[1..];
      [s[0]] + Unescape(s[1..])
  }

  /** The upper-case hex digit for `n`. */
  function HexDigitChar(n: nat): (c: CodeUnit)
    requires n < 16
    ensures IsHexDigit(c) && DigitValue(c) == n && c != LOWER_U
  {
    if n < 10 then 0x30 + n else 0x41 + (n - 10)
  }

  /** Every byte of `b` written as "%XX". */
  function PercentEncode(b: seq<Octet>): (r: JSString)
    ensures |r| == 3 * |b|
    ensures forall i :: 0 <= i < |r| ==> r[i] == PERCENT || IsHexDigit(r[i])
    decreases |b|
  {
    if |b| == 0 then []
    else [PERCENT, HexDigitChar(b[0] / 16), HexDigitChar(b[0] % 16)] + PercentEncode(b[1..])
  }

  /** `unescape` undoes the escaping of every byte. */
  lemma {:induction false} UnescapeOfPercentEncode(b: seq<Octet>)
    ensures Unescape(PercentEncode(b)) == b
    decreases |b|
  {
    if |b| > 0 {
      var s := PercentEncode(b);
      var hi, lo := HexDigitChar(b[0] / 16), HexDigitChar(b[0] % 16);
      assert s == [PERCENT, hi, lo] + PercentEncode(b[1..]);
      assert s[1] == hi && s[1..3] == [hi, lo] && s[3..] == PercentEncode(b[1..]);
      assert HexValue([hi, lo]) == b[0] by {
        assert [hi, lo][..1] == [hi];
        assert [hi][..0] == [];
      }
      UnescapeOfPercentEncode(b[1..]);
      assert b == [b[0]] + b[1..];
    }
  }

  /** "%uXXXX" with four hex digits becomes the one code unit XXXX. */
  lemma UnescapeWideEscape(ds: JSString, rest: JSString)
    requires |ds| == 4 && AllHexDigits(ds)
    ensures Unescape([PERCENT, LOWER_U] + ds + rest) == [HexValue(ds)] + Unescape(rest)
  {
    var s := [PERCENT, LOWER_U] + ds + rest;
    assert s[2..6] == ds && s[6..] == rest;
  }

  /** "%XX" with two hex digits becomes the one code unit XX. */
  lemma UnescapeByteEscape(ds: JSString, rest: JSString)
    requires |ds| == 2 && AllHexDigits(ds)
    ensures Unescape([PERCENT] + ds + rest) == [HexValue(ds)] + Unescape(rest)
  {
    var s := [PERCENT] + ds + rest;
    assert s[1] == ds[0] && s[1..3] == ds && s[3..] == rest;
  }

  /** A '%' followed by text that completes neither escape starts neither. */
  lemma StrayPercent(rest: JSString)
    requires !(|rest| >= 5 && rest[0] == LOWER_U && AllHexDigits(rest[1..5]))
    requires !(|rest| >= 2 && AllHexDigits(rest[..2]))
    ensures !StartsWideEscape([PERCENT] + rest) && !StartsByteEscape([PERCENT] + rest)
  {
    var s := [PERCENT] + rest;
    if |s| >= 6 {
      assert s[1] == rest[0] && s[2..6] == rest[1..5];
    }
    if |s| >= 3 {
      assert s[1..3] == rest[..2];
    }
  }

  /** A '%' that starts neither escape is kept as it is, and reading goes on after it. */
  lemma UnescapeKeepsStrayPercent(rest: JSString)
    requires !(|rest| >= 5 && rest[0] == LOWER_U && AllHexDigits(rest[1..5]))
    requires !(|rest| >= 2 && AllHexDigits(rest[..2]))
    ensures Unescape([PERCENT] + rest) == [PERCENT] + Unescape(rest)
  {
    StrayPercent(rest);
    var s := [PERCENT] + rest;
    assert s[0] == PERCENT && s[1..] == rest;
  }

  /** Any code unit other than '%' is copied as it is, and reading goes on after it. */
  lemma UnescapeKeepsOrdinary(c: CodeUnit, rest: JSString)
    requires c != PERCENT
    ensures Unescape([c] + rest) == [c] + Unescape(rest)
  {
    var s := [c] + rest;
    assert s[0] == c && s[1..] == rest;
  }
}
