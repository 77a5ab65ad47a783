# Webcam capture page: data-URI decoding and the capture controller

This project models the logic in the browser script of a small webcam
face-detection demo (`public/app.js`), and proves properties of the model.
The script has two parts worth modelling.

- `dataURItoBlob` turns the `data:` URI that a canvas produces into a
  `Blob`. It splits the URI at its commas. It decodes the segment after the
  first comma with `atob` when the header contains `base64`, and with
  `unescape` otherwise. It reads the MIME type out of the header. It then
  copies every code unit of the decoded string into a fresh `Uint8Array`.
- The controller state is the three module-level variables `width` (320),
  `height` (0) and `streaming` (false). The video's `canplay` handler sizes
  the photo once. `takepicture` draws, converts and sends a frame only when
  both `width` and `height` are non-zero.

The files:

- `js_strings.dfy` (module `JsStrings`) holds JavaScript strings as
  sequences of UTF-16 code units. It also has the two exceptions the decoder
  can throw, `String.prototype.split` with a one-unit separator, and
  `String.prototype.indexOf`.
- `base64.dfy` (module `Base64`) has `atob` as the HTML standard defines it.
  That is the WHATWG Infra "forgiving-base64 decode" over the alphabet of
  Table 1 in section 4 of RFC 4648. The padded encoder of that section is
  there too, and the decoder is proved to invert it.
- `percent.dfy` (module `Percent`) has `unescape` from Annex B.2.1.2 of
  ECMA-262. Every byte written as `%XX` is proved to come back unchanged.
- `data_uri.dfy` (module `DataUri`) has `dataURItoBlob`. The specification
  function `BlobOf` states what it returns or throws. The method
  `DataUriToBlob`, with its copy loop into an array, is proved equal to it.
- `capture.dfy` (module `Capture`) has the controller as a class with the
  fields `width`, `height` and `streaming`, plus a count of drawn frames
  and the list of blobs sent. Four client methods run event sequences
  against it.

The choice of decoder is a substring test, not a parse of the header. The
code takes the base64 branch whenever the text `base64` occurs anywhere
before the first comma (`indexOf('base64') >= 0`), so a type such as
`text/base64x` also selects it. The model does the same.

The JavaScript behaviour at the edges is modelled as it is, not excluded:

- A URI without a comma hands `undefined` to the decoder. JavaScript turns
  that into the text "undefined". `atob` rejects it, because nine
  characters leave a remainder of 1 modulo 4. `unescape` keeps it, so the
  blob holds the bytes of "undefined".
- A header without `:` makes `split(':')[1]` undefined, and the next
  `.split` throws a TypeError. A decoding error is raised first, because
  line 19/21 runs before line 23.
- Code units of 256 and above, which `%uXXXX` escapes can produce, are
  stored modulo 256, as a `Uint8Array` store does.

## Model

| member | source | states |
|---|---|---|
| `JsStrings.IndexOf` | public/app.js:18 | the result is -1 exactly when the pattern does not occur; otherwise it is the first index where it occurs |
| `JsStrings.IndexOfFrom` | public/app.js:18 | the search from position k returns an occurrence at or after k with none between k and it, or -1 when there is none from k on |
| `JsStrings.Split` | public/app.js:18-23 | `split` with a one-unit separator returns at least one piece; the next rows characterise the pieces |
| `JsStrings.SplitJoins` | public/app.js:18-23 | the pieces of `split` contain no separator and join back with it to the original string; there is more than one piece exactly when the separator occurs |
| `JsStrings.SplitUnique` | public/app.js:18-23 | any separator-free pieces that join to s are exactly `split(s)`, so the previous row determines `split` |
| `JsStrings.SplitPrefix` | public/app.js:18-23 | splitting a + t, when a has no separator, glues a to the front of t's first piece and keeps t's other pieces |
| `JsStrings.SplitAtSeparator` | public/app.js:18-23 | the text before the first separator is the first piece, and the rest after it is split on its own |
| `Base64.AlphabetCharOfSextet` | public/app.js:19 | every alphabet character is the encoding of its own value, so the alphabet and the sextets correspond one to one |
| `Base64.AlphabetChar` | public/app.js:19 | each sextet value maps to an alphabet character that decodes back to that value (Table 1 of RFC 4648) |
| `Base64.RemoveAsciiWhitespace` | public/app.js:19 | the result has no ASCII whitespace and no more units than the input; a non-whitespace character occurs in it exactly when it occurs in the input; input without whitespace is unchanged |
| `Base64.RemoveAsciiWhitespaceConcat` | public/app.js:19 | whitespace removal distributes over concatenation; with the previous row this fixes the result as the input's non-whitespace units in their order |
| `Base64.RemoveWhitespaceUnit` | public/app.js:19 | deleting one whitespace unit anywhere does not change what whitespace removal gives |
| `Base64.WhitespaceIgnored` | public/app.js:19 | a whitespace unit anywhere in the payload changes neither the forgiving decode nor the result of `atob` |
| `Base64.DropPadding` | public/app.js:19 | the result is a prefix of the input that lacks at most two units, all "="; when fewer than two are dropped, it does not end in "=" |
| `Base64.ForgivingBase64Decode` | public/app.js:19 | the decoding algorithm `atob` applies; no contract of its own, characterised by `DecodeRejects`, `WhitespaceIgnored` and `ForgivingDecodeOfEncode` |
| `Base64.DropPaddingKeeps` | public/app.js:19 | dropping trailing "=" padding keeps every other code unit at its index |
| `Base64.DecodeSextets` | public/app.js:19 | n sextets (n mod 4 not 1) decode to floor(3n/4) bytes |
| `Base64.Atob` | public/app.js:19 | `atob` throws InvalidCharacterError exactly when forgiving-base64 decode fails; otherwise it returns the decoded bytes, every code unit below 256 |
| `Base64.Sextets` | public/app.js:19 | b bytes give ceil(4b/3) sextets |
| `Base64.EncodeSextets` | public/app.js:19 | the characters are all in the alphabet and decode to the given sextets |
| `Base64.Base64Encode` | public/app.js:19 | the padded encoding has 4 * ceil(b/3) characters, each in the alphabet or "=" |
| `Base64.DecodeQuantum` | public/app.js:19 | each byte of a three-byte quantum is recovered from the two sextets that share its bits |
| `Base64.DecodeSextetsOfSextets` | public/app.js:19 | decoding the sextets of any byte sequence gives back that byte sequence |
| `Base64.DropPaddingOfEncode` | public/app.js:19 | dropping padding from an encoding leaves exactly its alphabet characters |
| `Base64.ForgivingDecodeOfEncode` | public/app.js:19 | forgiving-base64 decode of the padded encoding of any byte sequence gives back that sequence |
| `Base64.AtobOfEncode` | public/app.js:19 | `atob` of the encoding of any byte sequence returns that sequence as a byte string |
| `Base64.DecodeRejects` | public/app.js:19 | decoding fails when the whitespace-free length leaves remainder 1 mod 4, or when a unit is not alphabet, whitespace or "=" |
| `Base64.AtobRejectsRemainderOne` | public/app.js:19 | `atob` throws InvalidCharacterError on whitespace-free input whose length leaves remainder 1 mod 4 |
| `Percent.Unescape` | public/app.js:21 | `unescape` never lengthens a string and leaves a string without '%' unchanged |
| `Percent.HexDigitChar` | public/app.js:21 | the upper-case digit for n is a hex digit whose value is n, not 'u' |
| `Percent.PercentEncode` | public/app.js:21 | escaping b bytes gives 3b units, each '%' or a hex digit |
| `Percent.UnescapeOfPercentEncode` | public/app.js:21 | `unescape` of every byte written as %XX gives back the bytes |
| `Percent.UnescapeWideEscape` | public/app.js:21 | "%u" followed by four hex digits becomes the one code unit they denote |
| `Percent.UnescapeByteEscape` | public/app.js:21 | "%" followed by two hex digits becomes the one code unit they denote |
| `Percent.UnescapeKeepsOrdinary` | public/app.js:21 | a code unit other than '%' is copied, and decoding continues after it; with the escape and stray-'%' rows this fixes the result on every string |
| `Percent.StrayPercent` | public/app.js:21 | a '%' followed by text that completes neither escape starts neither escape |
| `Percent.UnescapeKeepsStrayPercent` | public/app.js:21 | a '%' that starts neither escape is kept, and decoding continues after it |
| `DataUri.Header` | public/app.js:18 | `split(',')[0]`; no contract of its own, characterised by `UriLayout` and `HeaderAndPayload` |
| `DataUri.Payload` | public/app.js:19-21 | `split(',')[1]`, or the text "undefined" without a comma; no contract of its own, characterised by `UriLayout`, `HeaderAndPayload` and `NoComma` |
| `DataUri.ByteString` | public/app.js:18-21 | the decoded byte string, or `atob`'s exception; no contract of its own, characterised by `DecodingBranch` |
| `DataUri.MimeOf` | public/app.js:23 | MIME extraction throws TypeError exactly when the header has no ':'; a result holds no ':' or ';' |
| `DataUri.MimeExtraction` | public/app.js:23 | the MIME type is the text after the header's first ':' up to the next ';' or ':' or the end |
| `DataUri.Uint8` | public/app.js:27 | storing a code unit in a `Uint8Array` gives a byte congruent to it modulo 256, the unit itself when it is below 256 |
| `DataUri.Uint8Bytes` | public/app.js:25-27 | one byte per code unit of the byte string; `Uint8` and `Uint8BytesOfOctets` give the values |
| `DataUri.BlobOf` | public/app.js:15-29 | the conversion succeeds exactly when decoding and MIME extraction both succeed; a decoding error comes before a TypeError; the byte count is the decoded length and byte i is code unit i modulo 256 |
| `DataUri.CopyToUint8Array` | public/app.js:25-27 | the copy loop fills a fresh array as long as the byte string, element i being code unit i modulo 256 |
| `DataUri.DataUriToBlob` | public/app.js:15-29 | the imperative conversion returns or throws exactly what `BlobOf` states |
| `DataUri.UriLayout` | public/app.js:18-21 | the header is the comma-free text in front; with a comma the URI continues with a comma, the comma-free payload, then its end or a second comma; without one the payload is "undefined" |
| `DataUri.HeaderAndPayload` | public/app.js:18-21 | for h,p and h,p,rest with comma-free h and p, the header is h and the payload is p |
| `DataUri.SecondCommaIgnored` | public/app.js:19-21 | anything after a second comma has no effect on the result |
| `DataUri.DecodingBranch` | public/app.js:18-21 | the payload goes to `atob` when the header contains "base64", and to `unescape` otherwise |
| `DataUri.Uint8BytesOfOctets` | public/app.js:25-27 | a byte string (all units below 256) is stored unchanged |
| `DataUri.Base64PayloadDecoded` | public/app.js:18-27 | in the base64 branch an undecodable payload throws InvalidCharacterError and no array is returned; a result holds exactly the decoded bytes |
| `DataUri.NoComma` | public/app.js:18-23 | without a comma the header is the whole URI; the base64 branch throws, and the other branch gives the bytes of "undefined" |
| `DataUri.AtobRejectsUndefined` | public/app.js:19 | `atob("undefined")` throws InvalidCharacterError |
| `DataUri.UnescapeKeepsUndefined` | public/app.js:21 | `unescape("undefined")` is "undefined" |
| `DataUri.AssembledBlob` | public/app.js:25-28 | when decoding and MIME extraction succeed, the blob is that MIME type with the stored bytes |
| `DataUri.Base64DataUriParts` | public/app.js:18-19 | `data:<mime>;base64,<encoding>` has header `data:<mime>;base64` and the encoding as payload |
| `DataUri.Base64DataUriDecoded` | public/app.js:18-19 | a `data:<mime>;base64,` URI takes the `atob` branch, and decoding gives back the encoded bytes |
| `DataUri.Base64DataUriMime` | public/app.js:23 | the MIME type read from `data:<mime>;base64` is mime |
| `DataUri.Base64RoundTrip` | public/app.js:15-28 | `data:<mime>;base64,` followed by the RFC 4648 encoding of any bytes converts to exactly that MIME type and those bytes |
| `DataUri.NoTokenAcrossScheme` | public/app.js:18 | "base64" cannot occur across the ':' of "data:", so `data:<mime>` contains it only if mime does |
| `DataUri.PercentDataUriParts` | public/app.js:18-21 | `data:<mime>,<escapes>` has header `data:<mime>` and the escapes as payload |
| `DataUri.PercentDataUriDecoded` | public/app.js:18-21 | a `data:<mime>,` URI whose mime does not contain "base64" takes the `unescape` branch, which gives back the escaped bytes |
| `DataUri.PercentDataUriMime` | public/app.js:23 | the MIME type read from `data:<mime>` is mime |
| `DataUri.PercentRoundTrip` | public/app.js:15-28 | `data:<mime>,` followed by every byte as %XX converts to exactly that MIME type and those bytes |
| `Capture.Controller.constructor` | public/app.js:2-4 | the initial state: width 320, height 0, not streaming, nothing drawn or sent |
| `Capture.Controller.CanPlay` | public/app.js:63-75 | the first `canplay` sets the height and sets streaming; a later one changes nothing; width, drawings and uploads are untouched |
| `Capture.Controller.TakePicture` | public/app.js:100-112 | with a zero width or height nothing is drawn or sent; otherwise one frame is drawn and its blob is sent, or the conversion's exception is the outcome with nothing sent |
| `Capture.CaptureBeforeCanPlay` | public/app.js:102-111 | in the initial state a capture neither draws nor sends |
| `Capture.CanPlayTwice` | public/app.js:63-75 | after two `canplay` events the height is the one measured first and streaming is on |
| `Capture.CaptureAfterCanPlay` | public/app.js:100-112 | after one `canplay` a capture is skipped if the measured height is 0; otherwise one frame is drawn and its converted blob is the only upload |
| `Capture.CapturePngFrame` | public/app.js:106-110 | a PNG frame encoded as `data:image/png;base64,...` is sent as a blob of type "image/png" holding exactly the frame's bytes |

## Left out

- `server/index.js` is not part of this model. It configures OpenID Connect middleware, sessions and Express routes, all in foreign libraries, and its logout notification is unawaited network I/O.
- The height arithmetic and its `NaN` fallback (public/app.js:65-68) are floating point. `CanPlay` takes the computed height as a `real` parameter. An infinite height (a zero `videoWidth`) cannot be expressed.
- `getUserMedia`, `video.play`, the DOM lookups in `startup`, `clearphoto`, `setAttribute` on the video, canvas and photo elements, and the `canvas.width`/`canvas.height` assignments are browser media and UI APIs. Only the count of `drawImage` calls is kept.
- `canvas.toDataURL` is a browser API. `TakePicture` receives the data URI it would return as a parameter.
- `sendData` is XHR, `FormData`, `JSON.parse` and the displayed text. The model records the blob handed to it in `uploads` and stops there.
- The `Blob` constructor is modelled as the pair of its `type` and its bytes. Its handling of `type` is not modelled. A browser lower-cases the type, and empties it when any unit lies outside U+0020 to U+007E. So "exactly that MIME type" in the round-trip rows is the string passed to the constructor, not what the `type` of the browser's `Blob` reads.
- Event-loop ordering and the click handler's `preventDefault` are outside the model. When a conversion throws inside `takepicture`, it is the `Failed` outcome.
- For `atob`, the code-point length of the standard is counted in code units. This changes no result: any non-ASCII unit makes decoding fail anyway.
