/**
 * The capture controller of the page: the module-level `width`, `height` and
 * `streaming` variables, and the two event handlers that read and update
 * them, the video's `canplay` handler (sizing, done once) and `takepicture`
 * (draw, convert, send, only once both dimensions are non-zero).
 */
module Capture {
  import opened JsStrings
  import opened DataUri

  /** The width every photo is scaled to. */
  const PHOTO_WIDTH: real := 320.0

  /** "image/png", the type the canvas is asked to encode a frame in. */
  const IMAGE_PNG: JSString := [0x69, 0x6D, 0x61, 0x67, 0x65, 0x2F, 0x70, 0x6E, 0x67]

  /** What one call of `takepicture` did. */
  datatype Shot =
    | Skipped               // width or height is 0: nothing drawn, nothing sent
    | Sent(blob: Blob)      // frame drawn, converted, and the blob handed to `sendData`
    | Failed(error: JsError) // frame drawn, and the conversion threw

  class Controller {
    var width: real
    var height: real
    var streaming: bool
    /** Frames drawn onto the canvas so far. */
    var draws: nat
    /** The blobs handed to `sendData`, in order. */
    var uploads: seq<Blob>

    /** The width never changes, and nothing is sized, drawn or sent before the first `canplay`. */
    ghost predicate Valid()
      reads this
    {
      width == PHOTO_WIDTH && (!streaming ==> height == 0.0 && draws == 0 && uploads == [])
    }

    /** The guard `width && height` of `takepicture`. */
    predicate CanCapture()
      reads this
    {
      width != 0.0 && height != 0.0
    }

    /** The state when the page script loads. */
    constructor ()
      ensures Valid()
      ensures width == PHOTO_WIDTH && height == 0.0 && !streaming
      ensures draws == 0 && uploads == []
    {
      width, height, streaming := PHOTO_WIDTH, 0.0, false;
      draws, uploads := 0, [];
    }

    /**
     * The `canplay` handler. `measuredHeight` is the height computed from the
     * stream's aspect ratio (or the 4:3 fallback); it is taken only while
     * `streaming` is false, after which the handler does nothing.
     */
    method CanPlay(measuredHeight: real)
      requires Valid()
      modifies this
      ensures Valid()
      ensures streaming
      ensures height == if old(streaming) then old(height) else measuredHeight
      ensures width == old(width) && draws == old(draws) && uploads == old(uploads)
    {
      if !streaming {
        height := measuredHeight;
        streaming := true;
      }
    }

    /**
     * `takepicture`, given the data URI `frame` the canvas produces for the
     * drawn frame. With a zero dimension it does nothing; otherwise it draws,
     * converts the frame, and, when the conversion succeeds, sends the blob.
     */
    method TakePicture(frame: JSString) returns (shot: Shot)
      requires Valid()
      modifies this
      ensures Valid()
      ensures width == old(width) && height == old(height) && streaming == old(streaming)
      ensures !old(CanCapture()) ==> shot == Skipped && draws == old(draws) && uploads == old(uploads)
      ensures old(CanCapture()) ==> draws == old(draws) + 1
      ensures old(CanCapture()) && BlobOf(frame).Ok? ==>
                shot == Sent(BlobOf(frame).value) && uploads == old(uploads) + [BlobOf(frame).value]
      ensures old(CanCapture()) && BlobOf(frame).Err? ==>
                shot == Failed(BlobOf(frame).error) && uploads == old(uploads)
    {
      if width != 0.0 && height != 0.0 {
        draws := draws + 1;
        var r := DataUriToBlob(frame);
        match r
        case Ok(blob) =>
          uploads := uploads + [blob];
          shot := Sent(blob);
        case Err(e) =>
          shot := Failed(e);
      } else {
        shot := Skipped;
      }
    }
  }

  /** Before any `canplay`, a capture neither draws nor sends. */
  method CaptureBeforeCanPlay(frame: JSString) returns (shot: Shot, draws: nat, uploads: seq<Blob>)
    ensures shot == Skipped && draws == 0 && uploads == []
  {
    var c := new Controller();
    shot := c.TakePicture(frame);
    draws, uploads := c.draws, c.uploads;
  }

  /** Sizing is one-shot: a second `canplay` keeps the width and the height the first one set. */
  method CanPlayTwice(first: real, second: real) returns (width: real, height: real, streaming: bool)
    ensures width == PHOTO_WIDTH && height == first && streaming
  {
    var c := new Controller();
    c.CanPlay(first);
    c.CanPlay(second);
    width, height, streaming := c.width, c.height, c.streaming;
  }

  /**
   * One `canplay`, then one capture: skipped when the measured height is 0,
   * otherwise the frame is drawn and its blob, if it converts, is the one
   * thing sent.
   */
  method CaptureAfterCanPlay(measured: real, frame: JSString) returns (shot: Shot, draws: nat, uploads: seq<Blob>)
    ensures measured == 0.0 ==> shot == Skipped && draws == 0 && uploads == []
    ensures measured != 0.0 ==> draws == 1
    ensures measured != 0.0 && BlobOf(frame).Ok? ==>
              shot == Sent(BlobOf(frame).value) && uploads == [BlobOf(frame).value]
    ensures measured != 0.0 && BlobOf(frame).Err? ==> shot == Failed(BlobOf(frame).error) && uploads == []
  {
    var c := new Controller();
    c.CanPlay(measured);
    shot := c.TakePicture(frame);
    draws, uploads := c.draws, c.uploads;
  }

  /**
   * A PNG frame, encoded by the canvas as `data:image/png;base64,...`, is
   * sent as a blob of type "image/png" holding exactly the frame's bytes.
   */
  method CapturePngFrame(measured: real, png: seq<Octet>) returns (shot: Shot)
    requires measured != 0.0
    ensures shot == Sent(Blob(IMAGE_PNG, png))
  {
    var c := new Controller();
    c.CanPlay(measured);
    Base64RoundTrip(IMAGE_PNG, png);
    shot := c.TakePicture(Base64DataUri(IMAGE_PNG, png));
  }
}
