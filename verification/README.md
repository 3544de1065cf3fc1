# Webcam frame buffers and face-rectangle mirroring, in Dafny

This project models the parts of a webcam course project that do their own
arithmetic rather than calling a library.

- **The application object (`FinalProjectApp`).** On every timer tick it
  copies the captured frame into a local buffer of 3 bytes per pixel. It then
  builds a 4-byte-per-pixel buffer for the display image. With the threshold
  filter off, that buffer comes from the local frame: three bytes and an
  opaque alpha per pixel. With the filter on, it comes from the filter's
  1-byte-per-pixel output: the grey value three times and an opaque alpha.
  The constructor sizes both buffers from the frame dimensions. A switch
  selects the path.
- **The face-tracking demo (`face_track.cpp`).** Detection runs on a grey copy
  of the frame shrunk by an integer `scale`. Each detected rectangle is then
  mirrored horizontally and scaled back up, so that it can be drawn on the
  flipped full-size frame.

Modules:

- `Bytes` (`bytes.dfy`): the byte type, `Option` for pointers that may be
  NULL, the `unsigned int` range, and `PixelBytes`, which views a packed buffer
  as fixed-width pixels.
- `PixelBuffers` (`pixel_buffers.dfy`): the three byte loops. Each is a method
  that runs the C++ loop with its running counters. Each is also given a
  recursive reference definition that appends one pixel at a time
  (`ExpandRgb`, `ExpandMono`). The file also defines the inverse views
  `DropAlpha`, `Channel` and `GreyToRgb`, and the lemmas that connect all of
  these.
- `FinalProjectApp` (`final_project_app.dfy`): the state the application
  object keeps, its constructor, the camera-connection flag, the filter
  switch, and one timer tick.
- `FaceTrack` (`face_track.dfy`): the size of the detection image, the
  mirror-and-scale mapping of a detection rectangle, and the per-frame
  drawing loop.

Channels are named by byte position (0, 1, 2, and alpha at 3). The C++ code
calls them red, green and blue. Which colour each position really holds
depends on the capture library and on the display image format.

The frame size is a parameter. The C++ code fixes it at 640 by 480, and
`DefaultApp` is that case. Outside collaborators become parameters of the
operations:

- the frame a capture returns (`None` for a failed capture);
- whether a camera was found;
- the threshold filter's output for the current frame;
- the detector's list of rectangles (`None` when it returns no sequence).

## Model

| member | source | states |
|---|---|---|
| `FinalProjectApp.NewApp` | FinalProjectApp.cxx:19-46 | The constructor gives a consistent state. The pixel count is width times height. The frame buffer holds exactly 3 bytes per pixel and the display buffer exactly 4. These byte counts fit the C++ `unsigned int` and `int` counters. The app starts disconnected, with the filter off and the lower threshold at 40. |
| `FinalProjectApp.DefaultApp` | FinalProjectApp.cxx:31-37 | With the fixed 640 by 480 frame there are 307200 pixels, a 921600-byte frame buffer and a 1228800-byte display buffer, and none of these sizes wraps around in `unsigned int`. |
| `FinalProjectApp.SetupCamera` | FinalProjectApp.cxx:74-94 | Setup reports success exactly when a camera was found. It raises the connection flag in that case and changes nothing else. |
| `FinalProjectApp.SetApplyFilter` | FinalProjectApp.cxx:304-309 | The filter flag becomes the argument, every other field is unchanged, and the size invariant is kept. |
| `FinalProjectApp.SetApplyFilterLastWins` | FinalProjectApp.cxx:306-309 | Of two filter switches only the second matters. Switching to the current value changes nothing. |
| `FinalProjectApp.RealtimeUpdate` | FinalProjectApp.cxx:104-149 | When disconnected, or when the capture fails, the tick changes no modelled field and sends nothing. Otherwise the frame buffer becomes the first 3N captured bytes. The display buffer becomes the grey widening of the filter output exactly when the filter is on, and the colour widening of the captured frame otherwise. The image sent carries the frame size and that buffer, nothing else changes, and the size invariant is kept. |
| `PixelBuffers.CopyFrame` | FinalProjectApp.cxx:121-125 | After the copy the first 3N bytes of the local buffer equal the first 3N bytes of the capture buffer. Later bytes are untouched, and the loop index ends at 3N. |
| `PixelBuffers.RgbToRgba` | FinalProjectApp.cxx:241-266 | For every pixel p < N, output pixel p is input pixel p followed by alpha 255, so out[4p+c] = in[3p+c] for c < 3 and out[4p+3] = 255. Bytes after the first 4N are untouched. The two counters end at 3N (read) and 4N (written). |
| `PixelBuffers.MonoToRgba` | FinalProjectApp.cxx:275-296 | For every pixel p < N, output bytes 4p, 4p+1 and 4p+2 all equal grey byte p, and byte 4p+3 is 255. Bytes after the first 4N are untouched, and the counter ends at 4N. |
| `PixelBuffers.ExpandRgbPixel` | FinalProjectApp.cxx:246-265 | In the reference colour widening, pixel p is the input's pixel p followed by an opaque alpha byte. |
| `PixelBuffers.ExpandMonoPixel` | FinalProjectApp.cxx:279-296 | In the reference grey widening, pixel p is the grey value three times followed by an opaque alpha byte. |
| `PixelBuffers.PixelwiseIsExpandRgb` | FinalProjectApp.cxx:246-266 | The converse of `ExpandRgbPixel`. A buffer that holds every pixel followed by an opaque alpha starts with the reference colour widening, so the loop's output equals the reference definition. |
| `PixelBuffers.PixelwiseIsExpandMono` | FinalProjectApp.cxx:279-296 | The converse of `ExpandMonoPixel`. A buffer that holds every grey value three times followed by an opaque alpha starts with the reference grey widening. |
| `PixelBuffers.ExpandRgbReadsPrefix` | FinalProjectApp.cxx:243-262 | The colour widening of N pixels reads only the first 3N input bytes. Two inputs that agree there widen identically. |
| `PixelBuffers.ExpandMonoReadsPrefix` | FinalProjectApp.cxx:279-290 | The grey widening of N pixels reads only the first N grey bytes. |
| `PixelBuffers.DropAlphaExpandRgb` | FinalProjectApp.cxx:246-262 | Round trip: dropping every alpha byte from the colour widening gives back exactly the first 3N input bytes, so no colour byte is lost or reordered. |
| `PixelBuffers.ExpandMonoIsGreyRgb` | FinalProjectApp.cxx:277-296 | The grey widening equals the colour widening of the grey value repeated in three channels. On grey input the two display paths therefore agree. |
| `PixelBuffers.ChannelsOfExpandMono` | FinalProjectApp.cxx:279-296 | Each of byte positions 0, 1 and 2 of the grey widening, read across all pixels, is exactly the first N grey bytes. Position 3 is 255 for every pixel. |
| `FaceTrack.TruncDiv` | rsms-opencv-face-track-basics-d8cb1a2/face_track.cpp:49 | C++ integer division by a positive divisor truncates toward zero. The remainder is smaller than the divisor and is zero or has the sign of the dividend. |
| `FaceTrack.SmallSize` | rsms-opencv-face-track-basics-d8cb1a2/face_track.cpp:49 | Each dimension of the detection image is the largest whole number of `scale`-pixel steps that fits in the frame: small*scale <= frame < (small+1)*scale. |
| `FaceTrack.MapToDisplay` | rsms-opencv-face-track-basics-d8cb1a2/face_track.cpp:76-77 | The drawn width, height and y are the detection's multiplied by `scale`. The drawn right edge x'+w' is (smallW - x)*scale, so the detection's left edge becomes the drawn right edge. A detection with 0 <= x and x+w <= smallW is drawn with 0 <= x' and x'+w' <= smallW*scale. |
| `FaceTrack.FlipInvolution` | rsms-opencv-face-track-basics-d8cb1a2/face_track.cpp:76 | Mirroring on the same grid twice gives back the rectangle. |
| `FaceTrack.MapToDisplayIsScaledFlip` | rsms-opencv-face-track-basics-d8cb1a2/face_track.cpp:76-77 | The drawn rectangle is the mirror inside the detection image, scaled up. Equivalently it is the scaled-up detection mirrored inside smallW*scale. |
| `FaceTrack.MapToDisplayShift` | rsms-opencv-face-track-basics-d8cb1a2/face_track.cpp:49-77 | The drawn rectangle is compared with the exact mirror of the scaled-up detection in the full flipped frame. It lies frame.width - smallW*scale pixels further left. That shift is below `scale`, and it is zero exactly when the frame width is a multiple of `scale`. |
| `FaceTrack.DrawnInsideFrame` | rsms-opencv-face-track-basics-d8cb1a2/face_track.cpp:49-77 | A detection inside the detection image is drawn inside the captured frame: 0 <= x' and x'+w' <= frame width. |
| `FaceTrack.Corners` | rsms-opencv-face-track-basics-d8cb1a2/face_track.cpp:11-15 | The drawing macro's first corner is the rectangle's (x, y). The second is that corner moved by the width and the height. |
| `FaceTrack.DrawnCorners` | rsms-opencv-face-track-basics-d8cb1a2/face_track.cpp:76-78 | The drawn box runs from ((smallW-x-w)*scale, y*scale) to ((smallW-x)*scale, (y+h)*scale). |
| `FaceTrack.DrawFaces` | rsms-opencv-face-track-basics-d8cb1a2/face_track.cpp:64-78 | The loop draws one rectangle per detection, in order, each the mirror-and-scale of its detection. It draws none when the detector returned no sequence. |
| `FaceTrack.FrameRects` | rsms-opencv-face-track-basics-d8cb1a2/face_track.cpp:49-78 | For one frame with the C++ scale of 2, each detection is drawn mirrored and scaled from the detection image's width. Every detection inside the detection image is drawn inside the frame. |

## Left out

- Grayscale conversion into the image-processing pipeline's image (`CopyImageToITK`) is not modelled. It uses floating-point weights with truncation and writes through a library iterator.
- The threshold filter is not modelled. `RealtimeUpdate` takes its output as a parameter instead. The model keeps its length (one byte per pixel) but not how it is computed from the frame.
- Pipeline setup and the threshold setter (`SetupITKPipeline`, `SetThreshold`) are not modelled. They only configure the external filter. `lowerThreshold` is kept in the state with its initial value of 40.
- Capture, detection, resizing, colour conversion, flipping and drawing are not modelled. These are camera and library calls whose results enter the model as parameters. Display-image construction and the sending of the image are not modelled either.
- The display image's interpretation of the 4-byte pixels is not modelled. Only the bytes and the frame size that are handed to it are modelled.
- The eye rectangle in `face_track.cpp` (line 81) is not modelled. It is computed in floating point.
- Functions declared in `FinalProjectApp.h` without a body in the C++ files are not modelled, because there is no code to model. They are the slots `SaveLog`, `AdvanceTrialStage` and the six radio-button slots, and the helpers `detectEyesInImage`, `IplImage2QImage`, `QImage2IplImage`, `TrackFeature`, `LoadHaarCascade` and `intersect`. The trial counters and logging fields are not modelled either.
- The signals `SendImage`, `updateAttentionBar`, `updateSuccessfulTrialsLCD` and `updateFailedTrialsLCD` are not modelled as delivery. Only the image handed to `SendImage` is returned, as `RealtimeUpdate`'s `sent`.
- `SetupApp`, `DisconnectCamera`, the destructor and buffer deallocation are lifecycle plumbing. `DisconnectCamera` releases the capture without clearing the connection flag. That only matters in the destructor, so it is not modelled.
- Windowing, key handling, the refresh delay and bundle resource lookup in `face_track.cpp` are I/O and are not modelled.
- `NewApp`: the buffers the C++ constructor allocates are uninitialised memory. The model fills them with zero bytes. No modelled operation reads them before writing them.
- `NewApp`: `SizesFit` excludes two kinds of frame size. It excludes sizes whose byte counts would wrap around in `unsigned int`. It also excludes sizes whose 3-byte frame length does not fit in an `int`. The C++ code only ever uses 640 by 480, which fits.
- `CopyFrame` requires 3N < 2^31, because the copy loop's index is an `int` compared against `m_NumPixels * 3`. For larger N the index would overflow, which is undefined behaviour in C++. That case is not modelled.
- `RgbToRgba` and `MonoToRgba` require 4N < 2^32, because the C++ counters are `unsigned int` and its loop index is `int`. Larger N would wrap those counters, and that is not modelled.
- `MapToDisplay`: coordinates are unbounded integers. The C++ `int` overflow of `(smallW - x - w) * scale` for huge rectangles is not modelled.
- `TruncDiv` only covers positive divisors. The C++ code's only divisor is the constant `scale = 2`.
- `RealtimeUpdate` requires the captured frame to hold at least 3N bytes. The C++ code never checks this: it assumes the camera delivers the requested 640 by 480 and reads 3N bytes of the frame data. A shorter frame would be an out-of-bounds read, and that case is not modelled.
- `RealtimeUpdate` drops the pointer to the last captured frame (`m_CameraImageOpenCV`). The C++ code overwrites it on every connected tick, even when the capture fails and the tick returns early. So "changes nothing" means no modelled field changes.
- `DrawFaces`: the detector's sequence is a Dafny sequence, and its length plays the role of `faces->total`.
- The header declares the filter bound as `m_Threshold`, while the implementation assigns `m_LowerThreshold`. The model follows the implementation's name.
