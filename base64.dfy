/**
 * `atob` as the HTML standard defines it: the WHATWG Infra "forgiving-base64
 * decode" over the alphabet of Table 1 in section 4 of RFC 4648, and the
 * padded encoding of that section, which it inverts.
 */
module Base64 {
  import opened JsStrings

  /** A six-bit group, the value of one base64 character. */
  type Sextet = x: int | 0 <= x < 64

  const EQUALS: CodeUnit := 0x3D  // '='

  /** A character of the base64 alphabet: 'A'-'Z', 'a'-'z', '0'-'9', '+', '/'. */
  predicate IsAlphabetChar(c: CodeUnit) {
    (0x41 <= c <= 0x5A) || (0x61 <= c <= 0x7A) || (0x30 <= c <= 0x39) || c == 0x2B || c == 0x2F
  }

  /** The character that encodes `n` (Table 1 of RFC 4648). */
  function AlphabetChar(n: Sextet): (c: CodeUnit)
    ensures IsAlphabetChar(c) && SextetOf(c) == n
  {
    if n < 26 then 0x41 + n
    else if n < 52 then 0x61 + (n - 26)
    else if n < 62 then 0x30 + (n - 52)
    else if n == 62 then 0x2B
    else 0x2F
  }

  /** The value of an alphabet character (Table 1 of RFC 4648, read backwards). */
  function SextetOf(c: CodeUnit): Sextet
    requires IsAlphabetChar(c)
  {
    if 0x41 <= c <= 0x5A then c - 0x41
    else if 0x61 <= c <= 0x7A then c - 0x61 + 26
    else if 0x30 <= c <= 0x39 then c - 0x30 + 52
    else if c == 0x2B then 62
    else 63
  }

  /** The alphabet and the sextets are in one-to-one correspondence. */
  lemma AlphabetCharOfSextet(c: CodeUnit)
    requires IsAlphabetChar(c)
    ensures AlphabetChar(SextetOf(c)) == c
  {
  }

  /** ASCII whitespace: TAB, LF, FF, CR and SPACE. */
  predicate IsAsciiWhitespace(c: CodeUnit) {
    c == 0x09 || c == 0x0A || c == 0x0C || c == 0x0D || c == 0x20
  }

  /** Step 1 of forgiving-base64 decode: remove all ASCII whitespace. */
  function RemoveAsciiWhitespace(s: JSString): (r: JSString)
    ensures |r| <= |s|
    ensures forall i :: 0 <= i < |r| ==> !IsAsciiWhitespace(r[i])
    ensures forall c :: !IsAsciiWhitespace(c) ==> (c in r <==> c in s)
    ensures (forall i :: 0 <= i < |s| ==> !IsAsciiWhitespace(s[i])) ==> r == s
    decreases |s|
  {
    if |s| == 0 then []
    else
      var rest := RemoveAsciiWhitespace(s[1..]);
      assert s == [s[0]] + s[1..];
      if IsAsciiWhitespace(s[0]) then rest else [s[0]] + rest
  }

  /** Whitespace is removed piecewise: each part of a string loses its own whitespace. */
  lemma {:induction false} RemoveAsciiWhitespaceConcat(a: JSString, b: JSString)
    ensures RemoveAsciiWhitespace(a + b) == RemoveAsciiWhitespace(a) + RemoveAsciiWhitespace(b)
    decreases |a|
  {
    if |a| > 0 {
      assert (a + b)[1..] == a[1..] + b;
      assert (a + b)[0] == a[0];
      RemoveAsciiWhitespaceConcat(a[1..], b);
    } else {
      assert a + b == b;
    }
  }

  /** A whitespace unit anywhere in the payload changes nothing `atob` decodes. */
  lemma WhitespaceIgnored(a: JSString, c: CodeUnit, b: JSString)
    requires IsAsciiWhitespace(c)
    ensures ForgivingBase64Decode(a + [c] + b) == ForgivingBase64Decode(a + b)
    ensures Atob(a + [c] + b) == Atob(a + b)
  {
    RemoveWhitespaceUnit(a, c, b);
  }

  /** Removing whitespace from a + [c] + b, with c whitespace, is removing it from a + b. */
  lemma RemoveWhitespaceUnit(a: JSString, c: CodeUnit, b: JSString)
    requires IsAsciiWhitespace(c)
    ensures RemoveAsciiWhitespace(a + [c] + b) == RemoveAsciiWhitespace(a + b)
  {
    RemoveAsciiWhitespaceConcat(a + [c], b);
    RemoveAsciiWhitespaceConcat(a, [c]);
    RemoveAsciiWhitespaceConcat(a, b);
    assert RemoveAsciiWhitespace([c]) == [] by {
      assert [c][1..] == [];
    }
    assert RemoveAsciiWhitespace(a) + [] == RemoveAsciiWhitespace(a);
  }

  /**
   * Step 2 of forgiving-base64 decode: drop a trailing "==" or "=". The
   * result is a prefix of `w` missing at most two units, all of them "=";
   * when fewer than two are dropped, no further "=" is left at the end.
   */
  function DropPadding(w: JSString): (r: JSString)
    ensures r <= w && |w| - 2 <= |r|
    ensures forall i :: |r| <= i < |w| ==> w[i] == EQUALS
    ensures |r| > |w| - 2 && |r| > 0 ==> r[|r| - 1] != EQUALS
  {
    if |w| >= 2 && w[|w| - 2] == EQUALS && w[|w| - 1] == EQUALS then w[..|w| - 2]
    else if |w| >= 1 && w[|w| - 1] == EQUALS then w[..|w| - 1]
    else w
  }

  /** Dropping padding keeps every code unit that is not "=" where it was. */
  lemma DropPaddingKeeps(w: JSString, j: int)
    requires 0 <= j < |w| && w[j] != EQUALS
    ensures j < |DropPadding(w)| && DropPadding(w)[j] == w[j]
  {
  }

  /** The three bytes a quantum of four sextets a, b, c, d carries (24 bits, most significant first). */
  function FirstByte(a: Sextet, b: Sextet): Octet { a * 4 + b / 16 }
  function SecondByte(b: Sextet, c: Sextet): Octet { (b % 16) * 16 + c / 4 }
  function ThirdByte(c: Sextet, d: Sextet): Octet { (c % 4) * 64 + d }

  /**
   * Steps 5 to 9 of forgiving-base64 decode: each run of four sextets gives
   * three bytes; a final two (12 bits) give one byte and a final three
   * (18 bits) give two, the left-over low bits being discarded.
   */
  function DecodeSextets(s: seq<Sextet>): (r: seq<Octet>)
    requires |s| % 4 != 1
    ensures |r| == |s| * 3 / 4
    decreases |s|
  {
    if |s| == 0 then []
    else if |s| == 2 then [FirstByte(s[0], s[1])]
    else if |s| == 3 then [FirstByte(s[0], s[1]), SecondByte(s[1], s[2])]
    else [FirstByte(s[0], s[1]), SecondByte(s[1], s[2]), ThirdByte(s[2], s[3])] + DecodeSextets(s[4..])
  }

  /** Every code unit of `d` is in the base64 alphabet. */
  predicate AllAlphabet(d: JSString) {
    forall i :: 0 <= i < |d| ==> IsAlphabetChar(d[i])
  }

  /** The sextet values of an all-alphabet string. */
  function SextetsOfChars(d: JSString): (r: seq<Sextet>)
    requires AllAlphabet(d)
  {
    seq(|d|, i requires 0 <= i < |d| => SextetOf(d[i]))
  }

  /** The WHATWG Infra "forgiving-base64 decode" of `data`; `None` is failure. */
  function ForgivingBase64Decode(data: JSString): Option<seq<Octet>> {
    var w := RemoveAsciiWhitespace(data);
    var d := if |w| % 4 == 0 then DropPadding(w) else w;
    if |d| % 4 == 1 then None
    else if !AllAlphabet(d) then None
    else Some(DecodeSextets(SextetsOfChars(d)))
  }

  /**
   * `atob(data)`: the decoded bytes as a byte string (one code unit below
   * 256 per byte), or an "InvalidCharacterError" when decoding fails.
   */
  function Atob(data: JSString): (r: Result<JSString>)
    ensures r.Err? <==> ForgivingBase64Decode(data).None?
    ensures r.Err? ==> r.error == InvalidCharacterError
    ensures r.Ok? ==> r.value == ForgivingBase64Decode(data).value
    ensures r.Ok? ==> forall i :: 0 <= i < |r.value| ==> r.value[i] < 0x100
  {
    match ForgivingBase64Decode(data)
    case None => Err(InvalidCharacterError)
    case Some(bytes) => Ok(bytes)
  }

  /** The four sextets three bytes x, y, z split into (section 4 of RFC 4648). */
  function FirstSextet(x: Octet): Sextet { x / 4 }
  function SecondSextet(x: Octet, y: Octet): Sextet { (x % 4) * 16 + y / 16 }
  function ThirdSextet(y: Octet, z: Octet): Sextet { (y % 16) * 4 + z / 64 }
  function FourthSextet(z: Octet): Sextet { z % 64 }

  /**
   * The sextets of `b` in the order of section 4 of RFC 4648, without
   * padding: a final one or two bytes are completed with zero bits.
   */
  function Sextets(b: seq<Octet>): (r: seq<Sextet>)
    ensures |r| == (4 * |b| + 2) / 3
    decreases |b|
  {
    if |b| == 0 then []
    else if |b| == 1 then [FirstSextet(b[0]), SecondSextet(b[0], 0)]
    else if |b| == 2 then [FirstSextet(b[0]), SecondSextet(b[0], b[1]), ThirdSextet(b[1], 0)]
    else [FirstSextet(b[0]), SecondSextet(b[0], b[1]), ThirdSextet(b[1], b[2]), FourthSextet(b[2])]
         + Sextets(b[3..])
  }

  /** The "=" padding that completes the last quantum of `n` bytes. */
  function Padding(n: nat): JSString {
    if n % 3 == 1 then [EQUALS, EQUALS] else if n % 3 == 2 then [EQUALS] else []
  }

  /** The alphabet characters for a run of sextets. */
  function EncodeSextets(s: seq<Sextet>): (r: JSString)
    ensures |r| == |s| && AllAlphabet(r)
    ensures SextetsOfChars(r) == s
  {
    seq(|s|, i requires 0 <= i < |s| => AlphabetChar(s[i]))
  }

  /** The padded base64 encoding of section 4 of RFC 4648. */
  function Base64Encode(b: seq<Octet>): (r: JSString)
    ensures |r| == 4 * ((|b| + 2) / 3)
    ensures forall i :: 0 <= i < |r| ==> IsAlphabetChar(r[i]) || r[i] == EQUALS
  {
    EncodeSextets(Sextets(b)) + Padding(|b|)
  }

  /** Decoding the sextets of a byte sequence gives the bytes back. */
  lemma {:induction false} DecodeSextetsOfSextets(b: seq<Octet>)
    ensures |Sextets(b)| % 4 != 1
    ensures DecodeSextets(Sextets(b)) == b
    decreases |b|
  {
    SextetCount(|b|);
    if |b| == 1 {
      DecodeOneByte(b);
    } else if |b| == 2 {
      DecodeTwoBytes(b);
    } else if |b| >= 3 {
      DecodeSextetsOfSextets(b[3..]);
      DecodeQuantumStep(b);
      assert b == b[..3] + b[3..];
    }
  }

  /** ceil(4n/3) never leaves a remainder of 1 modulo 4. */
  lemma SextetCount(n: nat)
    ensures ((4 * n + 2) / 3) % 4 != 1
  {
    var k := n / 3;
    assert n == 3 * k + n % 3;
    if n % 3 == 0 {
      assert (4 * n + 2) / 3 == 4 * k;
    } else if n % 3 == 1 {
      assert (4 * n + 2) / 3 == 4 * k + 2;
    } else {
      assert (4 * n + 2) / 3 == 4 * k + 3;
    }
  }

  /** A final single byte: its two sextets decode back to it. */
  lemma DecodeOneByte(b: seq<Octet>)
    requires |b| == 1
    ensures DecodeSextets(Sextets(b)) == b
  {
    OneByteShape(b);
    LoneByte(b[0]);
    assert b == [b[0]];
  }

  /** The zero bits that complete a lone byte leave it recoverable from its first two sextets. */
  lemma LoneByte(x: Octet)
    ensures FirstByte(FirstSextet(x), SecondSextet(x, 0)) == x
  {
    var q, r := x / 4, x % 4;
    assert x == 4 * q + r;
    assert SecondSextet(x, 0) == r * 16;
  }

  lemma OneByteShape(b: seq<Octet>)
    requires |b| == 1
    ensures DecodeSextets(Sextets(b)) == [FirstByte(FirstSextet(b[0]), SecondSextet(b[0], 0))]
  {
    assert Sextets(b) == [FirstSextet(b[0]), SecondSextet(b[0], 0)];
  }

  /** A final pair of bytes: its three sextets decode back to them. */
  lemma DecodeTwoBytes(b: seq<Octet>)
    requires |b| == 2
    ensures DecodeSextets(Sextets(b)) == b
  {
    TwoBytesShape(b);
    DecodeQuantum(b[0], b[1], 0);
    assert b == [b[0], b[1]];
  }

  lemma TwoBytesShape(b: seq<Octet>)
    requires |b| == 2
    ensures DecodeSextets(Sextets(b)) == [FirstByte(FirstSextet(b[0]), SecondSextet(b[0], b[1])),
                                          SecondByte(SecondSextet(b[0], b[1]), ThirdSextet(b[1], 0))]
  {
    assert Sextets(b) == [FirstSextet(b[0]), SecondSextet(b[0], b[1]), ThirdSextet(b[1], 0)];
  }

  /** A full leading quantum decodes to its three bytes, and decoding goes on with the rest. */
  lemma DecodeQuantumStep(b: seq<Octet>)
    requires |b| >= 3 && |Sextets(b[3..])| % 4 != 1
    ensures DecodeSextets(Sextets(b)) == b[..3] + DecodeSextets(Sextets(b[3..]))
  {
    var s, t := Sextets(b), Sextets(b[3..]);
    DecodeQuantum(b[0], b[1], b[2]);
    assert s[4..] == t;
    assert b[..3] == [b[0], b[1], b[2]];
  }

  /** Each byte of a quantum is recovered from the two sextets that share its bits. */
  lemma DecodeQuantum(x: Octet, y: Octet, z: Octet)
    ensures FirstByte(FirstSextet(x), SecondSextet(x, y)) == x
    ensures SecondByte(SecondSextet(x, y), ThirdSextet(y, z)) == y
    ensures ThirdByte(ThirdSextet(y, z), FourthSextet(z)) == z
  {
  }

  /** What remains of a padded encoding once its padding is dropped. */
  lemma DropPaddingOfEncode(b: seq<Octet>)
    ensures DropPadding(Base64Encode(b)) == EncodeSextets(Sextets(b))
  {
    var u := EncodeSextets(Sextets(b));
    var e := Base64Encode(b);
    assert e == u + Padding(|b|);
    if |b| % 3 == 1 {
      assert e[..|e| - 2] == u;
    } else if |b| % 3 == 2 {
      assert |u| >= 3 && e[|e| - 2] == u[|u| - 1];
      assert e[..|e| - 1] == u;
    } else {
      assert e == u;
      assert |u| > 0 ==> e[|e| - 1] == u[|u| - 1];
    }
  }

  /** The forgiving decoder inverts the padded encoder on every byte sequence. */
  lemma ForgivingDecodeOfEncode(b: seq<Octet>)
    ensures ForgivingBase64Decode(Base64Encode(b)) == Some(b)
  {
    var e := Base64Encode(b);
    var u := EncodeSextets(Sextets(b));
    var w := RemoveAsciiWhitespace(e);
    assert w == e;
    assert |w| % 4 == 0;
    DropPaddingOfEncode(b);
    var d := DropPadding(w);
    assert d == u;
    DecodeSextetsOfSextets(b);
    assert |d| % 4 != 1 && AllAlphabet(d);
    assert SextetsOfChars(d) == Sextets(b);
    assert DecodeSextets(SextetsOfChars(d)) == b;
  }

  /** `atob` of the encoding of `b` is the byte string of `b`. */
  lemma AtobOfEncode(b: seq<Octet>)
    ensures Atob(Base64Encode(b)) == Ok(b)
  {
    ForgivingDecodeOfEncode(b);
  }

  /**
   * Failure cases: a payload whose length without whitespace leaves a
   * remainder of 1 modulo 4, or that holds a code unit that is neither in
   * the alphabet, nor whitespace, nor "=", is rejected.
   */
  lemma DecodeRejects(data: JSString)
    ensures |RemoveAsciiWhitespace(data)| % 4 == 1 ==> ForgivingBase64Decode(data).None?
    ensures (exists i :: 0 <= i < |data| && !IsAlphabetChar(data[i])
               && !IsAsciiWhitespace(data[i]) && data[i] != EQUALS)
            ==> ForgivingBase64Decode(data).None?
  {
    var w := RemoveAsciiWhitespace(data);
    var d := if |w| % 4 == 0 then DropPadding(w) else w;
    if i :| 0 <= i < |data| && !IsAlphabetChar(data[i]) && !IsAsciiWhitespace(data[i]) && data[i] != EQUALS {
      var c := data[i];
      assert c in w;
      var j :| 0 <= j < |w| && w[j] == c;
      DropPaddingKeeps(w, j);
      assert d[j] == c;
    }
  }

  /** `atob` throws on a whitespace-free payload whose length leaves a remainder of 1 modulo 4. */
  lemma AtobRejectsRemainderOne(data: JSString)
    requires forall i :: 0 <= i < |data| ==> !IsAsciiWhitespace(data[i])
    requires |data| % 4 == 1
    ensures Atob(data) == Err(InvalidCharacterError)
  {
    DecodeRejects(data);
  }
}
