/**
 * The JavaScript values the data-URI decoder works on: strings as sequences of
 * UTF-16 code units, the two exceptions the decoder can raise, and the string
 * operations it calls (`String.prototype.split` with a one-unit separator and
 * `String.prototype.indexOf`).
 */
module JsStrings {

  /** A UTF-16 code unit, what `charCodeAt` returns. Lone surrogates are allowed. */
  type CodeUnit = x: int | 0 <= x < 0x1_0000

  /** A JavaScript string value. */
  type JSString = seq<CodeUnit>

  /** A byte value; also a code unit of a "byte string" such as the one `atob` returns. */
  type Octet = x: int | 0 <= x < 0x100

  /** The exceptions the decoder can end in. */
  datatype JsError =
    | InvalidCharacterError  // the DOMException `atob` throws on a malformed payload
    | TypeError              // reading a property of `undefined`

  /** A computation that returns a value or throws. */
  datatype Result<T> = Ok(value: T) | Err(error: JsError)

  datatype Option<T> = None | Some(value: T)

  const COMMA: CodeUnit := 0x2C      // ','
  const COLON: CodeUnit := 0x3A      // ':'
  const SEMICOLON: CodeUnit := 0x3B  // ';'

  /** ToString(undefined), the text "undefined". */
  const UNDEFINED: JSString := [0x75, 0x6E, 0x64, 0x65, 0x66, 0x69, 0x6E, 0x65, 0x64]

  /** `pat` occurs in `s` starting at index `i`. */
  predicate OccursAt(s: JSString, pat: JSString, i: int) {
    0 <= i && i + |pat| <= |s| && s[i..i + |pat|] == pat
  }

  ghost predicate Contains(s: JSString, pat: JSString) {
    exists i :: OccursAt(s, pat, i)
  }

  /** The search loop of `s.indexOf(pat)`, started at position `k`. */
  function IndexOfFrom(s: JSString, pat: JSString, k: nat): (r: int)
    ensures r == -1 || (k <= r && OccursAt(s, pat, r))
    ensures forall j :: k <= j && (r == -1 || j < r) ==> !OccursAt(s, pat, j)
    decreases |s| + 1 - k
  {
    if k + |pat| > |s| then -1
    else if s[k..k + |pat|] == pat then k
    else IndexOfFrom(s, pat, k + 1)
  }

  /** `s.indexOf(pat)`: the first index where `pat` occurs, or -1. */
  function IndexOf(s: JSString, pat: JSString): (r: int)
    ensures r >= 0 <==> Contains(s, pat)
    ensures r >= 0 ==> OccursAt(s, pat, r) && forall j :: 0 <= j < r ==> !OccursAt(s, pat, j)
    ensures r < 0 ==> r == -1
  {
    IndexOfFrom(s, pat, 0)
  }

  /** The pieces joined back together with `sep` between them. */
  function Join(parts: seq<JSString>, sep: CodeUnit): JSString
    requires |parts| >= 1
    decreases |parts|
  {
    if |parts| == 1 then parts[0] else parts[0] + [sep] + Join(parts[1..], sep)
  }

  /** `s.split(sep)` for a one-code-unit separator; `SplitJoins` says what the pieces are. */
  function Split(s: JSString, sep: CodeUnit): (r: seq<JSString>)
    ensures |r| >= 1
    decreases |s|
  {
    if |s| == 0 then [[]]
    else
      var rest := Split(s[1..], sep);
      if s[0] == sep then [[]] + rest
      else [[s[0]] + rest[0]] + rest[1..]
  }

  /**
   * The pieces of `s.split(sep)` are the stretches between occurrences of
   * `sep`: joining them with `sep` gives `s` back, no piece contains `sep`,
   * and there is more than one piece exactly when `s` contains `sep`.
   */
  lemma {:induction false} SplitJoins(s: JSString, sep: CodeUnit)
    ensures forall k :: 0 <= k < |Split(s, sep)| ==> sep !in Split(s, sep)[k]
    ensures Join(Split(s, sep), sep) == s
    ensures |Split(s, sep)| == 1 <==> sep !in s
    decreases |s|
  {
    if |s| > 0 {
      var rest := Split(s[1..], sep);
      SplitJoins(s[1..], sep);
      assert s == [s[0]] + s[1..];
      if s[0] != sep {
        JoinConsFirst(s[0], rest, sep);
        var r := Split(s, sep);
        assert r == [[s[0]] + rest[0]] + rest[1..];
        forall k | 0 <= k < |r| ensures sep !in r[k] {
          if k > 0 { assert r[k] == rest[k]; }
        }
      } else {
        var r := Split(s, sep);
        assert r == [[]] + rest;
        assert r[1..] == rest;
      }
    }
  }

  /** Prepending a unit to the first piece prepends it to the joined string. */
  lemma JoinConsFirst(c: CodeUnit, parts: seq<JSString>, sep: CodeUnit)
    requires |parts| >= 1
    ensures Join([[c] + parts[0]] + parts[1..], sep) == [c] + Join(parts, sep)
  {
    var q := [[c] + parts[0]] + parts[1..];
    assert q[1..] == parts[1..];
  }

  /** A string without the separator splits into itself alone. */
  lemma SplitWithoutSeparator(s: JSString, sep: CodeUnit)
    requires sep !in s
    ensures Split(s, sep) == [s]
  {
    SplitJoins(s, sep);
  }

  /**
   * Splitting `a + t` when `a` has no separator: `a` is glued to the front
   * of the first piece of `t` and the other pieces of `t` follow unchanged.
   */
  lemma {:induction false} SplitPrefix(a: JSString, t: JSString, sep: CodeUnit)
    requires sep !in a
    ensures Split(a + t, sep) == [a + Split(t, sep)[0]] + Split(t, sep)[1..]
    decreases |a|
  {
    var T := Split(t, sep);
    if |a| == 0 {
      assert a + t == t && a + T[0] == T[0];
      assert T == [T[0]] + T[1..];
    } else {
      var s := a + t;
      assert s[0] == a[0] && s[1..] == a[1..] + t;
      SplitPrefix(a[1..], t, sep);
      var R := Split(s[1..], sep);
      assert R == [a[1..] + T[0]] + T[1..];
      assert Split(s, sep) == [[s[0]] + R[0]] + R[1..];
      assert [a[0]] + (a[1..] + T[0]) == a + T[0];
    }
  }

  /** The text up to the first separator is the first piece; the rest is split on its own. */
  lemma SplitAtSeparator(h: JSString, t: JSString, sep: CodeUnit)
    requires sep !in h
    ensures Split(h + [sep] + t, sep) == [h] + Split(t, sep)
  {
    SplitPrefix(h, [sep] + t, sep);
    assert h + [sep] + t == h + ([sep] + t);
    assert ([sep] + t)[0] == sep && ([sep] + t)[1..] == t;
    assert Split([sep] + t, sep) == [[]] + Split(t, sep);
    assert h + [] == h;
  }

  /**
   * The contract of `Split` determines it: any separator-free pieces that
   * join to `s` are exactly `Split(s, sep)`.
   */
  lemma {:induction false} SplitUnique(s: JSString, sep: CodeUnit, parts: seq<JSString>)
    requires |parts| >= 1
    requires forall k :: 0 <= k < |parts| ==> sep !in parts[k]
    requires Join(parts, sep) == s
    ensures Split(s, sep) == parts
    decreases |parts|
  {
    if |parts| == 1 {
      SplitWithoutSeparator(s, sep);
    } else {
      var t := Join(parts[1..], sep);
      SplitUnique(t, sep, parts[1..]);
      SplitAtSeparator(parts[0], t, sep);
      assert parts == [parts[0]] + parts[1..];
    }
  }
}
