/**
 * `dataURItoBlob` of the capture page: a `data:` URI is cut at its commas,
 * the segment after the first comma is decoded with `atob` when the header
 * mentions "base64" and with `unescape` otherwise, the MIME type is read out
 * of the header, and the decoded code units are stored into a fresh
 * `Uint8Array`. The `Blob` is the pair of that type and those bytes.
 */
module DataUri {
  import opened JsStrings
  import Base64
  import Percent

  /** The `Blob` built at the end: its `type` and its bytes. */
  datatype Blob = Blob(mime: JSString, bytes: seq<Octet>)

  /** The text "base64" the header is searched for. */
  const BASE64_TOKEN: JSString := [0x62, 0x61, 0x73, 0x65, 0x36, 0x34]

  /** `dataURI.split(',')[0]`: everything before the first comma. */
  function Header(uri: JSString): JSString {
    Split(uri, COMMA)[0]
  }

  /**
   * `dataURI.split(',')[1]` as the argument `atob` or `unescape` receives:
   * the text between the first and the second comma, or "undefined" (the
   * string conversion of a missing element) when there is no comma at all.
   */
  function Payload(uri: JSString): JSString {
    var parts := Split(uri, COMMA);
    if |parts| >= 2 then parts[1] else UNDEFINED
  }

  /** The decoded byte string: `atob` when the header contains "base64", `unescape` otherwise. */
  function ByteString(uri: JSString): Result<JSString> {
    if IndexOf(Header(uri), BASE64_TOKEN) >= 0 then Base64.Atob(Payload(uri))
    else Ok(Percent.Unescape(Payload(uri)))
  }

  /**
   * `header.split(':')[1].split(';')[0]`. Without a ':' the element
   * `split(':')[1]` is undefined and calling `split` on it is a TypeError.
   */
  function MimeOf(header: JSString): (r: Result<JSString>)
    ensures r.Err? <==> COLON !in header
    ensures r.Err? ==> r.error == TypeError
    ensures r.Ok? ==> COLON !in r.value && SEMICOLON !in r.value
  {
    var parts := Split(header, COLON);
    SplitJoins(header, COLON);
    if |parts| < 2 then Err(TypeError)
    else
      SplitJoins(parts[1], SEMICOLON);
      Ok(Split(parts[1], SEMICOLON)[0])
  }

  /** The byte a `Uint8Array` element holds once code unit `c` is stored in it (ToUint8). */
  function Uint8(c: CodeUnit): (b: Octet)
    ensures (c - b) % 0x100 == 0
    ensures c < 0x100 ==> b == c
  {
    c % 0x100
  }

  /** The bytes of a string stored element by element into a `Uint8Array`. */
  function Uint8Bytes(s: JSString): (r: seq<Octet>)
    ensures |r| == |s|
  {
    seq(|s|, i requires 0 <= i < |s| => Uint8(s[i]))
  }

  /**
   * What `dataURItoBlob(uri)` returns or throws. Decoding comes first, so its
   * error wins over the MIME type's; the bytes are the decoded code units
   * modulo 256, one per code unit.
   */
  function BlobOf(uri: JSString): (r: Result<Blob>)
    ensures r.Ok? <==> ByteString(uri).Ok? && MimeOf(Header(uri)).Ok?
    ensures r.Err? ==> r.error == if ByteString(uri).Err? then ByteString(uri).error else TypeError
    ensures r.Ok? ==> r.value.mime == MimeOf(Header(uri)).value
    ensures r.Ok? ==> |r.value.bytes| == |ByteString(uri).value|
    ensures r.Ok? ==> forall i :: 0 <= i < |r.value.bytes| ==>
              r.value.bytes[i] == ByteString(uri).value[i] % 0x100
  {
    match ByteString(uri)
    case Err(e) => Err(e)
    case Ok(byteString) =>
      match MimeOf(Header(uri))
      case Err(e) => Err(e)
      case Ok(mime) => Ok(Blob(mime, Uint8Bytes(byteString)))
  }

  /** The copy loop: a fresh `Uint8Array` as long as the byte string, element `i` being code unit `i` modulo 256. */
  method CopyToUint8Array(byteString: JSString) returns (ia: array<Octet>)
    ensures fresh(ia)
    ensures ia.Length == |byteString|
    ensures forall i :: 0 <= i < ia.Length ==> ia[i] == Uint8(byteString[i])
  {
    ia := new Octet[|byteString|];
    for i := 0 to |byteString|
      invariant forall j :: 0 <= j < i ==> ia[j] == Uint8(byteString[j])
    {
      ia[i] := Uint8(byteString[i]);
    }
  }

  /** `dataURItoBlob(dataURI)`. */
  method DataUriToBlob(uri: JSString) returns (r: Result<Blob>)
    ensures r == BlobOf(uri)
  {
    var header := Split(uri, COMMA)[0];
    var byteString: JSString;
    if IndexOf(header, BASE64_TOKEN) >= 0 {
      var decoded := Base64.Atob(Payload(uri));
      if decoded.Err? {
        return Err(decoded.error);
      }
      byteString := decoded.value;
    } else {
      byteString := Percent.Unescape(Payload(uri));
    }
    var mime := MimeOf(header);
    if mime.Err? {
      return Err(mime.error);
    }
    var ia := CopyToUint8Array(byteString);
    assert ia[..] == Uint8Bytes(byteString);
    r := Ok(Blob(mime.value, ia[..]));
  }

  /**
   * Where header and payload sit in the URI: the header is the comma-free
   * text in front; when there is a comma it is followed by a comma, then
   * the comma-free payload, then the end of the URI or a second comma.
   */
  lemma {:induction false} UriLayout(uri: JSString)
    ensures COMMA !in Header(uri) && Header(uri) <= uri
    ensures COMMA !in uri ==> Header(uri) == uri && Payload(uri) == UNDEFINED
    ensures COMMA in uri ==>
      var h, p := Header(uri), Payload(uri);
      COMMA !in p && |h| + 1 + |p| <= |uri|
      && uri[..|h| + 1 + |p|] == h + [COMMA] + p
      && (|h| + 1 + |p| == |uri| || uri[|h| + 1 + |p|] == COMMA)
  {
    var parts := Split(uri, COMMA);
    SplitJoins(uri, COMMA);
    if |parts| >= 2 {
      var tail := parts[1..];
      assert uri == parts[0] + [COMMA] + Join(tail, COMMA);
      assert tail[0] == parts[1] && COMMA !in parts[1];
      if |tail| == 1 {
        assert Join(tail, COMMA) == parts[1];
      } else {
        assert Join(tail, COMMA) == parts[1] + [COMMA] + Join(tail[1..], COMMA);
        assert uri == (parts[0] + [COMMA] + parts[1]) + ([COMMA] + Join(tail[1..], COMMA));
      }
    }
  }

  /** For `h,p` and `h,p,rest` with comma-free `h` and `p`, the header is `h` and the payload `p`. */
  lemma HeaderAndPayload(h: JSString, p: JSString, rest: JSString)
    requires COMMA !in h && COMMA !in p
    ensures Header(h + [COMMA] + p) == h && Payload(h + [COMMA] + p) == p
    ensures Header(h + [COMMA] + p + [COMMA] + rest) == h
    ensures Payload(h + [COMMA] + p + [COMMA] + rest) == p
  {
    SplitAtSeparator(h, p, COMMA);
    SplitWithoutSeparator(p, COMMA);
    SplitAtSeparator(h, p + [COMMA] + rest, COMMA);
    SplitAtSeparator(p, rest, COMMA);
    assert h + [COMMA] + p + [COMMA] + rest == h + [COMMA] + (p + [COMMA] + rest);
  }

  /** Only the segment between the first and second comma is decoded: what follows a second comma is ignored. */
  lemma SecondCommaIgnored(h: JSString, p: JSString, rest: JSString)
    requires COMMA !in h && COMMA !in p
    ensures BlobOf(h + [COMMA] + p + [COMMA] + rest) == BlobOf(h + [COMMA] + p)
  {
    HeaderAndPayload(h, p, rest);
  }

  /** The base64 branch is taken exactly when the header contains "base64"; otherwise the payload is unescaped. */
  lemma DecodingBranch(uri: JSString)
    ensures Contains(Header(uri), BASE64_TOKEN) ==> ByteString(uri) == Base64.Atob(Payload(uri))
    ensures !Contains(Header(uri), BASE64_TOKEN) ==> ByteString(uri) == Ok(Percent.Unescape(Payload(uri)))
  {
  }

  /** The bytes of a byte string are its code units, none of them truncated. */
  lemma Uint8BytesOfOctets(s: JSString)
    requires forall i :: 0 <= i < |s| ==> s[i] < 0x100
    ensures Uint8Bytes(s) == s
  {
  }

  /**
   * In the base64 branch the result holds exactly the bytes the
   * forgiving-base64 decoder gives, and an undecodable payload is an
   * InvalidCharacterError: no partial array is ever returned.
   */
  lemma Base64PayloadDecoded(uri: JSString)
    requires Contains(Header(uri), BASE64_TOKEN)
    ensures Base64.ForgivingBase64Decode(Payload(uri)).None? ==> BlobOf(uri) == Err(InvalidCharacterError)
    ensures BlobOf(uri).Ok? ==>
      var decoded := Base64.ForgivingBase64Decode(Payload(uri));
      decoded.Some? && BlobOf(uri).value.bytes == decoded.value
  {
    DecodingBranch(uri);
    if BlobOf(uri).Ok? {
      var s := ByteString(uri).value;
      Uint8BytesOfOctets(s);
    }
  }

  /** A URI without a comma: the payload is the text "undefined", which `atob` rejects and `unescape` keeps. */
  lemma NoComma(uri: JSString)
    requires COMMA !in uri
    ensures Header(uri) == uri && Payload(uri) == UNDEFINED
    ensures Contains(uri, BASE64_TOKEN) ==> BlobOf(uri) == Err(InvalidCharacterError)
    ensures !Contains(uri, BASE64_TOKEN) && COLON in uri ==>
              BlobOf(uri) == Ok(Blob(MimeOf(uri).value, Uint8Bytes(UNDEFINED)))
  {
    UriLayout(uri);
    AtobRejectsUndefined();
    UnescapeKeepsUndefined();
    if Contains(uri, BASE64_TOKEN) {
      assert ByteString(uri) == Err(InvalidCharacterError);
    } else if COLON in uri {
      assert ByteString(uri) == Ok(UNDEFINED);
      AssembledBlob(uri);
    }
  }

  /** `atob("undefined")` throws: its nine characters leave a remainder of 1 modulo 4. */
  lemma AtobRejectsUndefined()
    ensures Base64.Atob(UNDEFINED) == Err(InvalidCharacterError)
  {
    Base64.AtobRejectsRemainderOne(UNDEFINED);
  }

  /** `unescape("undefined")` is "undefined": it holds no '%'. */
  lemma UnescapeKeepsUndefined()
    ensures Percent.Unescape(UNDEFINED) == UNDEFINED
  {
    assert Percent.PERCENT !in UNDEFINED;
  }

  /**
   * The MIME type is the text after the header's first ':', cut at the
   * next ';' or ':'.
   */
  lemma MimeExtraction(pre: JSString, mime: JSString, post: JSString)
    requires COLON !in pre && COLON !in mime && SEMICOLON !in mime
    requires post == [] || post[0] == COLON || post[0] == SEMICOLON
    ensures MimeOf(pre + [COLON] + mime + post) == Ok(mime)
  {
    var header := pre + [COLON] + mime + post;
    assert header == pre + [COLON] + (mime + post);
    SplitAtSeparator(pre, mime + post, COLON);
    var second := Split(mime + post, COLON)[0];
    SplitPrefix(mime, post, COLON);
    assert second == mime + Split(post, COLON)[0];
    if post == [] {
      assert second == mime;
      SplitWithoutSeparator(mime, SEMICOLON);
    } else if post[0] == COLON {
      SplitAtSeparator([], post[1..], COLON);
      assert [] + [COLON] + post[1..] == post;
      assert second == mime;
      SplitWithoutSeparator(mime, SEMICOLON);
    } else {
      var q := Split(post[1..], COLON)[0];
      assert post == [post[0]] + post[1..];
      assert Split(post, COLON)[0] == [SEMICOLON] + q;
      assert second == mime + [SEMICOLON] + q;
      SplitAtSeparator(mime, q, SEMICOLON);
    }
  }

  /** Text that can stand as the MIME type of a data URI here: no ',', ':' or ';'. */
  predicate IsMimeText(mime: JSString) {
    COMMA !in mime && COLON !in mime && SEMICOLON !in mime
  }

  /** "data" and "data:" */
  const DATA: JSString := [0x64, 0x61, 0x74, 0x61]
  const DATA_SCHEME: JSString := DATA + [COLON]

  /** `data:<mime>;base64,<payload>` with the payload encoded as in section 4 of RFC 4648. */
  function Base64DataUri(mime: JSString, bytes: seq<Octet>): JSString {
    DATA_SCHEME + mime + [SEMICOLON] + BASE64_TOKEN + [COMMA] + Base64.Base64Encode(bytes)
  }

  /** `data:<mime>,<payload>` with every byte written as "%XX". */
  function PercentDataUri(mime: JSString, bytes: seq<Octet>): JSString {
    DATA_SCHEME + mime + [COMMA] + Percent.PercentEncode(bytes)
  }

  /** A successful conversion is the MIME type with the stored bytes of the byte string. */
  lemma AssembledBlob(uri: JSString)
    ensures ByteString(uri).Ok? && MimeOf(Header(uri)).Ok? ==>
              BlobOf(uri) == Ok(Blob(MimeOf(Header(uri)).value, Uint8Bytes(ByteString(uri).value)))
  {
  }

  /** How the URI of `Base64DataUri` splits: header "data:<mime>;base64", payload the encoding. */
  lemma Base64DataUriParts(mime: JSString, bytes: seq<Octet>)
    requires IsMimeText(mime)
    ensures Header(Base64DataUri(mime, bytes)) == DATA_SCHEME + mime + [SEMICOLON] + BASE64_TOKEN
    ensures Payload(Base64DataUri(mime, bytes)) == Base64.Base64Encode(bytes)
  {
    var e := Base64.Base64Encode(bytes);
    var h := DATA_SCHEME + mime + [SEMICOLON] + BASE64_TOKEN;
    assert Base64DataUri(mime, bytes) == h + [COMMA] + e;
    assert COMMA !in e by {
      forall i | 0 <= i < |e| ensures e[i] != COMMA {
        assert Base64.IsAlphabetChar(e[i]) || e[i] == Base64.EQUALS;
      }
    }
    HeaderAndPayload(h, e, []);
  }

  /** The base64 data URI selects the base64 branch, and `atob` gives back the encoded bytes. */
  lemma Base64DataUriDecoded(mime: JSString, bytes: seq<Octet>)
    requires IsMimeText(mime)
    ensures ByteString(Base64DataUri(mime, bytes)) == Ok(bytes)
  {
    var h := DATA_SCHEME + mime + [SEMICOLON] + BASE64_TOKEN;
    Base64DataUriParts(mime, bytes);
    assert OccursAt(h, BASE64_TOKEN, |DATA_SCHEME + mime| + 1);
    Base64.AtobOfEncode(bytes);
  }

  /** The MIME type read out of "data:<mime>;base64" is `mime`. */
  lemma Base64DataUriMime(mime: JSString, bytes: seq<Octet>)
    requires IsMimeText(mime)
    ensures MimeOf(Header(Base64DataUri(mime, bytes))) == Ok(mime)
  {
    var h := DATA_SCHEME + mime + [SEMICOLON] + BASE64_TOKEN;
    Base64DataUriParts(mime, bytes);
    assert h == DATA + [COLON] + mime + ([SEMICOLON] + BASE64_TOKEN);
    MimeExtraction(DATA, mime, [SEMICOLON] + BASE64_TOKEN);
  }

  /** Round trip through base64: the blob has exactly the MIME type and the bytes that were encoded. */
  lemma Base64RoundTrip(mime: JSString, bytes: seq<Octet>)
    requires IsMimeText(mime)
    ensures BlobOf(Base64DataUri(mime, bytes)) == Ok(Blob(mime, bytes))
  {
    var uri := Base64DataUri(mime, bytes);
    Base64DataUriDecoded(mime, bytes);
    Base64DataUriMime(mime, bytes);
    AssembledBlob(uri);
    Uint8BytesOfOctets(bytes);
  }

  /** "base64" cannot straddle the ':' that ends "data:". */
  lemma NoTokenAcrossScheme(mime: JSString)
    requires !Contains(mime, BASE64_TOKEN)
    ensures !Contains(DATA_SCHEME + mime, BASE64_TOKEN)
  {
    var h := DATA_SCHEME + mime;
    if i :| OccursAt(h, BASE64_TOKEN, i) {
      if i >= 5 {
        assert h[i..i + 6] == mime[i - 5..i - 5 + 6];
        assert OccursAt(mime, BASE64_TOKEN, i - 5);
      } else {
        assert BASE64_TOKEN[4 - i] == h[4];
      }
    }
  }

  /** How the URI of `PercentDataUri` splits: header "data:<mime>", payload the escapes. */
  lemma PercentDataUriParts(mime: JSString, bytes: seq<Octet>)
    requires IsMimeText(mime)
    ensures Header(PercentDataUri(mime, bytes)) == DATA_SCHEME + mime
    ensures Payload(PercentDataUri(mime, bytes)) == Percent.PercentEncode(bytes)
  {
    var p := Percent.PercentEncode(bytes);
    var h := DATA_SCHEME + mime;
    assert PercentDataUri(mime, bytes) == h + [COMMA] + p;
    assert COMMA !in p by {
      forall i | 0 <= i < |p| ensures p[i] != COMMA {
        assert p[i] == Percent.PERCENT || Percent.IsHexDigit(p[i]);
      }
    }
    HeaderAndPayload(h, p, []);
  }

  /** The percent data URI selects the `unescape` branch, which gives back the escaped bytes. */
  lemma PercentDataUriDecoded(mime: JSString, bytes: seq<Octet>)
    requires IsMimeText(mime) && !Contains(mime, BASE64_TOKEN)
    ensures ByteString(PercentDataUri(mime, bytes)) == Ok(bytes)
  {
    PercentDataUriParts(mime, bytes);
    NoTokenAcrossScheme(mime);
    Percent.UnescapeOfPercentEncode(bytes);
  }

  /** The MIME type read out of "data:<mime>" is `mime`. */
  lemma PercentDataUriMime(mime: JSString, bytes: seq<Octet>)
    requires IsMimeText(mime)
    ensures MimeOf(Header(PercentDataUri(mime, bytes))) == Ok(mime)
  {
    var h := DATA_SCHEME + mime;
    PercentDataUriParts(mime, bytes);
    assert h == DATA + [COLON] + mime + [];
    MimeExtraction(DATA, mime, []);
  }

  /** Round trip through percent-escapes: the blob has exactly the MIME type and the bytes that were encoded. */
  lemma PercentRoundTrip(mime: JSString, bytes: seq<Octet>)
    requires IsMimeText(mime) && !Contains(mime, BASE64_TOKEN)
    ensures BlobOf(PercentDataUri(mime, bytes)) == Ok(Blob(mime, bytes))
  {
    var uri := PercentDataUri(mime, bytes);
    PercentDataUriDecoded(mime, bytes);
    PercentDataUriMime(mime, bytes);
    AssembledBlob(uri);
    Uint8BytesOfOctets(bytes);
  }
}
