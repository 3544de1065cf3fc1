/** The state the application object keeps between timer ticks, and the
    operations on it that do not hand work to an outside library: buffer
    sizing in the constructor, the camera-connection flag, the filter switch,
    and one timer tick with its frame copy and display conversion.

    The capture device, the image-processing pipeline and the display image
    type are outside collaborators: the frame a capture returns, and the
    threshold filter's 1-byte-per-pixel output for that frame, are
    parameters of the tick. */
module FinalProjectApp {
  import opened Bytes
  import opened PixelBuffers

  /** Frame size the constructor fixes in advance. */
  const DefaultWidth: nat := 640
  const DefaultHeight: nat := 480

  /** Initial lower bound of the threshold filter. */
  const DefaultLowerThreshold: int := 40

  /** The fields of the application object that the modelled operations read
      or write, except the pointer to the last captured frame, which is
      replaced by the `capture` parameter of `RealtimeUpdate`. `rgbBuffer`
      is the local 3-byte-per-pixel copy of the last frame; `rgbaBuffer` is the 4-byte-per-pixel scratch buffer the display
      image is built over. */
  datatype App = App(
    width: nat,
    height: nat,
    numPixels: nat,
    rgbBuffer: seq<Byte>,
    rgbaBuffer: seq<Byte>,
    connected: bool,
    lowerThreshold: int,
    filterEnabled: bool)

  /** A display image handed on for showing: its size and a copy of the
      4-byte-per-pixel buffer it was built over. */
  datatype DisplayImage = DisplayImage(width: nat, height: nat, pixels: seq<Byte>)

  /** The sizes are held in `unsigned int` and the frame copy counts bytes
      in an `int`; with these dimensions the pixel count and the 4-byte
      buffer length do not wrap around, and the 3-byte frame length fits in
      an `int`. */
  predicate SizesFit(width: nat, height: nat)
  {
    && 4 * (width * height) < U32Limit
    && 3 * (width * height) < I32Limit
  }

  /** What the constructor establishes and every modelled operation keeps:
      the pixel count is width times height, and the two buffers hold exactly
      3 and 4 bytes per pixel. */
  predicate Valid(app: App)
  {
    && app.numPixels == app.width * app.height
    && SizesFit(app.width, app.height)
    && |app.rgbBuffer| == 3 * app.numPixels
    && |app.rgbaBuffer| == 4 * app.numPixels
  }

  /** The constructor, for a frame of `width` by `height` pixels. The buffers
      `new[]` allocates there are uninitialised; the model fills them with zero
      bytes. */
  function NewApp(width: nat, height: nat): (app: App)
    requires SizesFit(width, height)
    ensures Valid(app)
    ensures app.width == width && app.height == height
    ensures |app.rgbBuffer| == 3 * (width * height) && |app.rgbaBuffer| == 4 * (width * height)
    ensures !app.connected && !app.filterEnabled
    ensures app.lowerThreshold == DefaultLowerThreshold
  {
    var n := width * height;
    App(width, height, n, seq(3 * n, _ => 0), seq(4 * n, _ => 0), false, DefaultLowerThreshold, false)
  }

  /** The constructor as written, with the frame size fixed at 640 by 480. */
  function DefaultApp(): (app: App)
    ensures Valid(app)
    ensures app.numPixels == 307200
    ensures |app.rgbBuffer| == 921600 && |app.rgbaBuffer| == 1228800
    ensures !app.connected && !app.filterEnabled
  {
    NewApp(DefaultWidth, DefaultHeight)
  }

  /** Camera setup: the connection flag is raised exactly when a capture
      device was found (`cameraFound`), and the result reports the same. */
  function SetupCamera(app: App, cameraFound: bool): (result: (App, bool))
    ensures result.1 == cameraFound
    ensures result.0.connected == (app.connected || cameraFound)
    ensures result.0.(connected := app.connected) == app
  {
    if cameraFound then (app.(connected := true), true) else (app, false)
  }

  /** The filter switch: records `useFilter` and touches nothing else. */
  function SetApplyFilter(app: App, useFilter: bool): (next: App)
    ensures next.filterEnabled == useFilter
    ensures next.(filterEnabled := app.filterEnabled) == app
    ensures Valid(app) ==> Valid(next)
  {
    app.(filterEnabled := useFilter)
  }

  /** Only the last filter switch matters. */
  lemma SetApplyFilterLastWins(app: App, first: bool, second: bool)
    ensures SetApplyFilter(SetApplyFilter(app, first), second) == SetApplyFilter(app, second)
    ensures SetApplyFilter(app, app.filterEnabled) == app
  {
  }

  /** One timer tick. When connected, `capture` is what the frame query
      returned (`None` for a failed capture); `thresholdOutput` is the
      threshold filter's output for the copied frame, one byte per pixel.
      A disconnected app or a failed capture leaves every modelled field as it
      was and sends nothing. Otherwise the frame is copied into the local
      buffer, and the display buffer is rebuilt from the filter output when the filter is
      on, from the copied frame when it is off; a copy of that buffer is sent
      as the display image. */
  method RealtimeUpdate(app: App, capture: Option<seq<Byte>>, thresholdOutput: seq<Byte>)
    returns (next: App, sent: Option<DisplayImage>)
    requires Valid(app)
    requires capture.Some? ==> 3 * app.numPixels <= |capture.value|
    requires app.numPixels <= |thresholdOutput|
    ensures Valid(next)
    ensures !app.connected || capture.None? ==> next == app && sent.None?
    ensures app.connected && capture.Some? ==>
      && next.rgbBuffer == capture.value[..3 * app.numPixels]
      && next.rgbaBuffer == (if app.filterEnabled then ExpandMono(thresholdOutput, app.numPixels)
                             else ExpandRgb(capture.value, app.numPixels))
      && next.(rgbBuffer := app.rgbBuffer, rgbaBuffer := app.rgbaBuffer) == app
      && sent == Some(DisplayImage(app.width, app.height, next.rgbaBuffer))
  {
    if !app.connected {
      return app, None;
    }
    if capture.None? {
      return app, None;
    }
    var frame := capture.value;
    var n := app.numPixels;
    var rgb, copied := CopyFrame(frame, app.rgbBuffer, n);
    assert rgb == rgb[..3 * n];
    var rgba;
    if app.filterEnabled {
      var written;
      rgba, written := MonoToRgba(thresholdOutput, app.rgbaBuffer, n);
      PixelwiseIsExpandMono(thresholdOutput, rgba, n);
    } else {
      var read, written;
      rgba, read, written := RgbToRgba(rgb, app.rgbaBuffer, n);
      PixelwiseIsExpandRgb(rgb, rgba, n);
      ExpandRgbReadsPrefix(rgb, frame, n);
    }
    assert rgba == rgba[..4 * n];
    next := app.(rgbBuffer := rgb, rgbaBuffer := rgba);
    sent := Some(DisplayImage(app.width, app.height, rgba));
  }
}
