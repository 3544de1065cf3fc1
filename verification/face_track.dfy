/** The integer geometry of the face-tracking demo: detection runs on a grey
    copy of the frame shrunk by `Scale`, and each rectangle found there is
    drawn on the horizontally flipped full-size frame. */
module FaceTrack {
  import opened Bytes

  /** Shrink factor between the captured frame and the detection image. */
  const Scale: int := 2

  /** An axis-aligned rectangle in pixel units, as the detector reports it. */
  datatype Rect = Rect(x: int, y: int, width: int, height: int)

  /** Image dimensions in pixels. */
  datatype Size = Size(width: int, height: int)

  /** A pixel position. */
  datatype Point = Point(x: int, y: int)

  /** C++ division of an `int` by a positive `int`: the quotient is
      truncated toward zero, so the remainder is zero or has the sign of the
      dividend, and is smaller than the divisor in magnitude. */
  function TruncDiv(a: int, b: int): (q: int)
    requires b > 0
    ensures a >= 0 ==> 0 <= a - q * b < b
    ensures a < 0 ==> -b < a - q * b <= 0
  {
    if a >= 0 then a / b
    else
      var m := (-a) / b;
      assert -a == m * b + (-a) % b;
      assert (-m) * b == -(m * b);
      -m
  }

  /** Size of the detection image: each frame dimension divided by `scale`.
      For a frame of non-negative size, each result is the largest whole
      number of `scale`-wide steps that fits in the frame. */
  function SmallSize(frame: Size, scale: int): (small: Size)
    requires scale > 0
    ensures frame.width >= 0 ==>
      0 <= small.width && small.width * scale <= frame.width < (small.width + 1) * scale
    ensures frame.height >= 0 ==>
      0 <= small.height && small.height * scale <= frame.height < (small.height + 1) * scale
  {
    var w := TruncDiv(frame.width, scale);
    var h := TruncDiv(frame.height, scale);
    FloorBounds(frame.width, scale, w);
    FloorBounds(frame.height, scale, h);
    Size(w, h)
  }

  /** A quotient whose remainder lies in `[0, b)` brackets the dividend
      between consecutive multiples of `b`, and is non-negative when the
      dividend is. */
  lemma FloorBounds(a: int, b: int, q: int)
    requires b > 0
    requires a >= 0 ==> 0 <= a - q * b < b
    ensures a >= 0 ==> 0 <= q && q * b <= a < (q + 1) * b
  {
    if a >= 0 {
      Distribute(q, b);
      PositiveFactor(q + 1, b);
    }
  }

  lemma Distribute(q: int, b: int)
    ensures (q + 1) * b == q * b + b
  {
  }

  /** A product with a positive factor is positive only if the other factor is. */
  lemma PositiveFactor(x: int, b: int)
    requires b > 0 && x * b > 0
    ensures x > 0
  {
    assert x <= 0 ==> x * b <= 0;
  }

  /** Horizontal mirror of a rectangle inside an image `gridWidth` pixels
      wide: its left edge lands where its right edge was reflected. */
  function Flip(r: Rect, gridWidth: int): Rect
  {
    Rect(gridWidth - r.x - r.width, r.y, r.width, r.height)
  }

  /** Every coordinate and extent multiplied by `s`. */
  function ScaleRect(r: Rect, s: int): Rect
  {
    Rect(r.x * s, r.y * s, r.width * s, r.height * s)
  }

  /** The rectangle drawn for a detection `r` found in a detection image
      `smallWidth` pixels wide: mirrored and scaled up. The right edge of the
      result is the scaled reflection of the left edge of `r`; a detection
      inside the detection image maps inside the scaled-up width. */
  function MapToDisplay(r: Rect, smallWidth: int, scale: int): (r2: Rect)
    ensures r2.width == r.width * scale && r2.height == r.height * scale
    ensures r2.y == r.y * scale
    ensures r2.x + r2.width == (smallWidth - r.x) * scale
    ensures scale >= 0 && 0 <= r.x && r.x + r.width <= smallWidth ==>
      0 <= r2.x && r2.x + r2.width <= smallWidth * scale
  {
    var x := (smallWidth - r.x - r.width) * scale;
    assert x + r.width * scale == (smallWidth - r.x) * scale;
    Rect(x, r.y * scale, r.width * scale, r.height * scale)
  }

  /** Mirroring on the same grid twice gives back the rectangle. */
  lemma FlipInvolution(r: Rect, gridWidth: int)
    ensures Flip(Flip(r, gridWidth), gridWidth) == r
  {
  }

  /** The drawn rectangle is the mirror in the detection image, scaled up;
      equally, the scaled-up rectangle mirrored in the scaled-up width. */
  lemma MapToDisplayIsScaledFlip(r: Rect, smallWidth: int, scale: int)
    ensures MapToDisplay(r, smallWidth, scale) == ScaleRect(Flip(r, smallWidth), scale)
    ensures MapToDisplay(r, smallWidth, scale) == Flip(ScaleRect(r, scale), smallWidth * scale)
  {
    assert (smallWidth - r.x - r.width) * scale == smallWidth * scale - r.x * scale - r.width * scale;
  }

  /** Against the exact mirror of the scaled-up detection in the full
      flipped frame, the drawn rectangle sits `frame.width - smallWidth*scale`
      pixels to the left: less than one `scale` step, and no shift at all
      exactly when the frame width is a multiple of `scale`. */
  lemma MapToDisplayShift(r: Rect, frame: Size, scale: int)
    requires scale > 0 && frame.width >= 0
    ensures var smallWidth := SmallSize(frame, scale).width;
      var shift := Flip(ScaleRect(r, scale), frame.width).x - MapToDisplay(r, smallWidth, scale).x;
      && shift == frame.width - smallWidth * scale
      && 0 <= shift < scale
      && (shift == 0 <==> frame.width % scale == 0)
  {
    MapToDisplayIsScaledFlip(r, SmallSize(frame, scale).width, scale);
  }

  /** A detection inside the detection image is drawn inside the captured
      frame. */
  lemma DrawnInsideFrame(r: Rect, frame: Size, scale: int)
    requires scale > 0 && frame.width >= 0
    requires 0 <= r.x && r.x + r.width <= SmallSize(frame, scale).width
    ensures 0 <= MapToDisplay(r, SmallSize(frame, scale).width, scale).x
    ensures var r2 := MapToDisplay(r, SmallSize(frame, scale).width, scale);
      r2.x + r2.width <= frame.width
  {
  }

  /** The two corners the drawing macro passes on for a rectangle: the
      rectangle's own corner, and that corner moved by its width and height. */
  function Corners(r: Rect): (corners: (Point, Point))
    ensures corners.0 == Point(r.x, r.y)
    ensures corners.1.x - corners.0.x == r.width && corners.1.y - corners.0.y == r.height
  {
    (Point(r.x, r.y), Point(r.x + r.width, r.y + r.height))
  }

  /** The drawn box runs from the reflected right edge to the reflected left
      edge of the detection, both scaled up. */
  lemma DrawnCorners(r: Rect, smallWidth: int, scale: int)
    ensures Corners(MapToDisplay(r, smallWidth, scale)) ==
      (Point((smallWidth - r.x - r.width) * scale, r.y * scale),
       Point((smallWidth - r.x) * scale, (r.y + r.height) * scale))
  {
    assert r.y * scale + r.height * scale == (r.y + r.height) * scale;
  }

  /** The drawing loop of one frame: `faces` is the detector's result, `None`
      when it returned no sequence. One rectangle is drawn per detection, in
      order, and none when there is no sequence. */
  method DrawFaces(faces: Option<seq<Rect>>, smallWidth: int, scale: int) returns (drawn: seq<Rect>)
    ensures |drawn| == (if faces.Some? then |faces.value| else 0)
    ensures forall i :: 0 <= i < |drawn| ==> drawn[i] == MapToDisplay(faces.value[i], smallWidth, scale)
  {
    var total := if faces.Some? then |faces.value| else 0;
    drawn := [];
    var i := 0;
    while i < total
      invariant 0 <= i <= total
      invariant |drawn| == i
      invariant forall j :: 0 <= j < i ==> drawn[j] == MapToDisplay(faces.value[j], smallWidth, scale)
    {
      drawn := drawn + [MapToDisplay(faces.value[i], smallWidth, scale)];
      i := i + 1;
    }
  }

  /** One pass of the main loop for a captured frame of size `frame`: the
      detection image is the frame shrunk by `Scale`, and every detection
      is drawn mirrored and scaled back up. A detection that lies inside the
      detection image is drawn inside the captured frame. */
  method FrameRects(frame: Size, faces: Option<seq<Rect>>) returns (drawn: seq<Rect>)
    requires frame.width >= 0
    ensures |drawn| == (if faces.Some? then |faces.value| else 0)
    ensures forall i :: 0 <= i < |drawn| ==>
      drawn[i] == MapToDisplay(faces.value[i], SmallSize(frame, Scale).width, Scale)
    ensures forall i :: 0 <= i < |drawn| && 0 <= faces.value[i].x
                        && faces.value[i].x + faces.value[i].width <= SmallSize(frame, Scale).width ==>
      0 <= drawn[i].x && drawn[i].x + drawn[i].width <= frame.width
  {
    var small := SmallSize(frame, Scale);
    drawn := DrawFaces(faces, small.width, Scale);
    forall i | 0 <= i < |drawn| && 0 <= faces.value[i].x && faces.value[i].x + faces.value[i].width <= small.width
      ensures 0 <= drawn[i].x && drawn[i].x + drawn[i].width <= frame.width
    {
      DrawnInsideFrame(faces.value[i], frame, Scale);
    }
  }
}
