/** The per-frame byte loops of the application: copying a captured frame into
    the local 3-byte-per-pixel buffer, and widening a 3-byte-per-pixel or a
    1-byte-per-pixel buffer into the 4-byte-per-pixel buffer handed to the
    display image.

    Channels are named by byte position only (0, 1, 2, then alpha at 3): which
    colour each position holds depends on the capture and display libraries.

    Each conversion is given twice: as a recursive reference definition that
    appends one pixel at a time, and as a method that runs the C++ loop
    with its running counters over a buffer; the method's contract ties the
    two together. */
module PixelBuffers {
  import opened Bytes

  // ---------------------------------------------------------------------
  // Reference definitions
  // ---------------------------------------------------------------------

  /** The 4-byte-per-pixel image of the first `n` pixels of a packed
      3-byte-per-pixel buffer: each pixel's three bytes followed by an opaque
      alpha byte. */
  function ExpandRgb(rgb: seq<Byte>, n: nat): (rgba: seq<Byte>)
    requires 3 * n <= |rgb|
    ensures |rgba| == 4 * n
  {
    if n == 0 then []
    else ExpandRgb(rgb, n - 1) + [rgb[3 * (n - 1)], rgb[3 * (n - 1) + 1], rgb[3 * (n - 1) + 2], AlphaOpaque]
  }

  /** The 4-byte-per-pixel image of the first `n` pixels of a 1-byte-per-pixel
      grey buffer: the grey value in each of the three colour positions,
      followed by an opaque alpha byte. */
  function ExpandMono(mono: seq<Byte>, n: nat): (rgba: seq<Byte>)
    requires n <= |mono|
    ensures |rgba| == 4 * n
  {
    if n == 0 then []
    else ExpandMono(mono, n - 1) + [mono[n - 1], mono[n - 1], mono[n - 1], AlphaOpaque]
  }

  /** The 3-byte-per-pixel buffer that repeats each of the first `n` grey
      values three times. */
  function GreyToRgb(mono: seq<Byte>, n: nat): (rgb: seq<Byte>)
    requires n <= |mono|
    ensures |rgb| == 3 * n
  {
    if n == 0 then []
    else GreyToRgb(mono, n - 1) + [mono[n - 1], mono[n - 1], mono[n - 1]]
  }

  /** Inverse direction: the first three bytes of each of the first `n`
      pixels of a 4-byte-per-pixel buffer. */
  function DropAlpha(rgba: seq<Byte>, n: nat): (rgb: seq<Byte>)
    requires 4 * n <= |rgba|
    ensures |rgb| == 3 * n
  {
    if n == 0 then []
    else DropAlpha(rgba, n - 1) + [rgba[4 * (n - 1)], rgba[4 * (n - 1) + 1], rgba[4 * (n - 1) + 2]]
  }

  /** Byte position `c` of each of the first `n` pixels of a
      4-byte-per-pixel buffer. */
  function Channel(rgba: seq<Byte>, n: nat, c: nat): (plane: seq<Byte>)
    requires 4 * n <= |rgba| && c < 4
    ensures |plane| == n
  {
    if n == 0 then []
    else Channel(rgba, n - 1, c) + [rgba[4 * (n - 1) + c]]
  }

  // ---------------------------------------------------------------------
  // Properties of the reference definitions
  // ---------------------------------------------------------------------

  /** Pixel `p` of the widened buffer is pixel `p` of the 3-byte buffer
      followed by an opaque alpha byte. */
  lemma {:induction false} ExpandRgbPixel(rgb: seq<Byte>, n: nat, p: nat)
    requires 3 * n <= |rgb| && p < n
    ensures PixelBytes(ExpandRgb(rgb, n), 4, p) == PixelBytes(rgb, 3, p) + [AlphaOpaque]
  {
    var prev := ExpandRgb(rgb, n - 1);
    var last := [rgb[3 * (n - 1)], rgb[3 * (n - 1) + 1], rgb[3 * (n - 1) + 2], AlphaOpaque];
    assert ExpandRgb(rgb, n) == prev + last;
    if p == n - 1 {
      SliceAfterPrefix(prev, last);
      assert PixelBytes(rgb, 3, p) == rgb[3 * p .. 3 * p + 3];
    } else {
      SliceInsidePrefix(prev, last, 4 * p, 4 * p + 4);
      ExpandRgbPixel(rgb, n - 1, p);
    }
  }

  /** A slice that lies inside the first part of a concatenation. */
  lemma SliceInsidePrefix(a: seq<Byte>, b: seq<Byte>, i: nat, j: nat)
    requires i <= j <= |a|
    ensures (a + b)[i..j] == a[i..j]
  {
  }

  /** A slice of a prefix is the same slice of the whole sequence. */
  lemma SliceOfPrefix(s: seq<Byte>, m: nat, i: nat, j: nat)
    requires i <= j <= m <= |s|
    ensures s[..m][i..j] == s[i..j]
  {
  }

  /** The slice that covers exactly the second part of a concatenation. */
  lemma SliceAfterPrefix(a: seq<Byte>, b: seq<Byte>)
    ensures (a + b)[|a|..|a| + |b|] == b
  {
  }

  /** Pixel `p` of the widened grey buffer holds the grey value three times,
      then an opaque alpha byte. */
  lemma {:induction false} ExpandMonoPixel(mono: seq<Byte>, n: nat, p: nat)
    requires n <= |mono| && p < n
    ensures PixelBytes(ExpandMono(mono, n), 4, p) == [mono[p], mono[p], mono[p], AlphaOpaque]
  {
    var prev := ExpandMono(mono, n - 1);
    var last := [mono[n - 1], mono[n - 1], mono[n - 1], AlphaOpaque];
    assert ExpandMono(mono, n) == prev + last;
    if p == n - 1 {
      SliceAfterPrefix(prev, last);
    } else {
      SliceInsidePrefix(prev, last, 4 * p, 4 * p + 4);
      ExpandMonoPixel(mono, n - 1, p);
    }
  }

  /** Widening reads only the first `3n` bytes of its input. */
  lemma {:induction false} ExpandRgbReadsPrefix(rgb: seq<Byte>, other: seq<Byte>, n: nat)
    requires 3 * n <= |rgb| && 3 * n <= |other|
    requires rgb[..3 * n] == other[..3 * n]
    ensures ExpandRgb(rgb, n) == ExpandRgb(other, n)
  {
    if n > 0 {
      assert rgb[..3 * (n - 1)] == rgb[..3 * n][..3 * (n - 1)];
      assert other[..3 * (n - 1)] == other[..3 * n][..3 * (n - 1)];
      ExpandRgbReadsPrefix(rgb, other, n - 1);
      assert rgb[3 * (n - 1)] == rgb[..3 * n][3 * (n - 1)];
      assert rgb[3 * (n - 1) + 1] == rgb[..3 * n][3 * (n - 1) + 1];
      assert rgb[3 * (n - 1) + 2] == rgb[..3 * n][3 * (n - 1) + 2];
    }
  }

  /** Widening a grey buffer reads only its first `n` bytes. */
  lemma {:induction false} ExpandMonoReadsPrefix(mono: seq<Byte>, other: seq<Byte>, n: nat)
    requires n <= |mono| && n <= |other|
    requires mono[..n] == other[..n]
    ensures ExpandMono(mono, n) == ExpandMono(other, n)
  {
    if n > 0 {
      assert mono[..n - 1] == mono[..n][..n - 1];
      assert other[..n - 1] == other[..n][..n - 1];
      ExpandMonoReadsPrefix(mono, other, n - 1);
      assert mono[n - 1] == mono[..n][n - 1];
    }
  }

  /** Round trip: dropping the alpha bytes of the widened buffer gives back
      exactly the first `3n` input bytes, so widening loses nothing. */
  lemma {:induction false} DropAlphaExpandRgb(rgb: seq<Byte>, n: nat)
    requires 3 * n <= |rgb|
    ensures DropAlpha(ExpandRgb(rgb, n), n) == rgb[..3 * n]
  {
    if n > 0 {
      var k := n - 1;
      var e := ExpandRgb(rgb, n);
      var prev := ExpandRgb(rgb, k);
      var px := [rgb[3 * k], rgb[3 * k + 1], rgb[3 * k + 2]];
      assert e == prev + (px + [AlphaOpaque]);
      SliceInsidePrefix(prev, px + [AlphaOpaque], 0, 4 * k);
      assert e[..4 * k] == prev[..4 * k];
      DropAlphaPrefix(e, prev, k);
      DropAlphaExpandRgb(rgb, k);
      assert DropAlpha(e, n) == rgb[..3 * k] + px;
      PrefixExtend(rgb, 3 * k, px);
    }
  }

  /** Extending a prefix by the bytes that follow it. */
  lemma PrefixExtend(s: seq<Byte>, k: nat, next: seq<Byte>)
    requires k + |next| <= |s| && s[k..k + |next|] == next
    ensures s[..k + |next|] == s[..k] + next
  {
  }

  /** Dropping alpha from the first `n` pixels depends only on the first
      `4n` bytes. */
  lemma {:induction false} DropAlphaPrefix(rgba: seq<Byte>, other: seq<Byte>, n: nat)
    requires 4 * n <= |rgba| && 4 * n <= |other|
    requires rgba[..4 * n] == other[..4 * n]
    ensures DropAlpha(rgba, n) == DropAlpha(other, n)
  {
    if n > 0 {
      assert rgba[..4 * (n - 1)] == rgba[..4 * n][..4 * (n - 1)];
      assert other[..4 * (n - 1)] == other[..4 * n][..4 * (n - 1)];
      DropAlphaPrefix(rgba, other, n - 1);
      assert rgba[4 * (n - 1)] == rgba[..4 * n][4 * (n - 1)];
      assert rgba[4 * (n - 1) + 1] == rgba[..4 * n][4 * (n - 1) + 1];
      assert rgba[4 * (n - 1) + 2] == rgba[..4 * n][4 * (n - 1) + 2];
    }
  }

  /** The grey widening is the colour widening of the grey value repeated in
      three channels: the two display paths agree on grey input. */
  lemma {:induction false} ExpandMonoIsGreyRgb(mono: seq<Byte>, n: nat)
    requires n <= |mono|
    ensures ExpandMono(mono, n) == ExpandRgb(GreyToRgb(mono, n), n)
  {
    if n > 0 {
      var g := GreyToRgb(mono, n);
      var gPrev := GreyToRgb(mono, n - 1);
      assert g == gPrev + [mono[n - 1], mono[n - 1], mono[n - 1]];
      assert g[..3 * (n - 1)] == gPrev[..3 * (n - 1)];
      ExpandRgbReadsPrefix(g, gPrev, n - 1);
      ExpandMonoIsGreyRgb(mono, n - 1);
    }
  }

  /** Each colour position of the widened grey buffer reproduces the grey
      input, and the alpha position is opaque everywhere. */
  lemma {:induction false} ChannelsOfExpandMono(mono: seq<Byte>, n: nat, c: nat)
    requires n <= |mono| && c < 4
    ensures c < 3 ==> Channel(ExpandMono(mono, n), n, c) == mono[..n]
    ensures c == 3 ==> Channel(ExpandMono(mono, n), n, c) == seq(n, _ => AlphaOpaque)
  {
    if n > 0 {
      var e := ExpandMono(mono, n);
      var prev := ExpandMono(mono, n - 1);
      assert e == prev + [mono[n - 1], mono[n - 1], mono[n - 1], AlphaOpaque];
      assert e[..4 * (n - 1)] == prev;
      ChannelPrefix(e, prev, n - 1, c);
      ChannelsOfExpandMono(mono, n - 1, c);
      assert mono[..n] == mono[..n - 1] + [mono[n - 1]];
      assert seq(n, _ => AlphaOpaque) == seq(n - 1, _ => AlphaOpaque) + [AlphaOpaque];
    }
  }

  /** A channel of the first `n` pixels depends only on the first `4n` bytes. */
  lemma {:induction false} ChannelPrefix(rgba: seq<Byte>, other: seq<Byte>, n: nat, c: nat)
    requires 4 * n <= |rgba| && 4 * n <= |other| && c < 4
    requires rgba[..4 * n] == other[..4 * n]
    ensures Channel(rgba, n, c) == Channel(other, n, c)
  {
    if n > 0 {
      assert rgba[..4 * (n - 1)] == rgba[..4 * n][..4 * (n - 1)];
      assert other[..4 * (n - 1)] == other[..4 * n][..4 * (n - 1)];
      ChannelPrefix(rgba, other, n - 1, c);
      assert rgba[4 * (n - 1) + c] == rgba[..4 * n][4 * (n - 1) + c];
    }
  }

  /** Overwriting the four bytes at offset `k` of a buffer whose first `k`
      bytes are `done` extends `done` by those four bytes and leaves the rest
      of the buffer alone. */
  lemma {:induction false} FourBytesWritten(before: seq<Byte>, k: nat, done: seq<Byte>, x0: Byte, x1: Byte, x2: Byte, x3: Byte)
    requires k + 4 <= |before| && before[..k] == done
    ensures var after := before[k := x0][k + 1 := x1][k + 2 := x2][k + 3 := x3];
      && after[..k + 4] == done + [x0, x1, x2, x3]
      && after[k + 4..] == before[k + 4..]
  {
    var after := before[k := x0][k + 1 := x1][k + 2 := x2][k + 3 := x3];
    assert forall j :: 0 <= j < k ==> after[..k + 4][j] == done[j];
  }

  /** A buffer whose first `4n` bytes are the widened image of `rgb` holds,
      pixel by pixel, the input pixel followed by an opaque alpha. */
  lemma ExpandRgbPixels(rgb: seq<Byte>, rgba: seq<Byte>, n: nat)
    requires 3 * n <= |rgb| && 4 * n <= |rgba|
    requires rgba[..4 * n] == ExpandRgb(rgb, n)
    ensures forall p :: 0 <= p < n ==> PixelBytes(rgba, 4, p) == PixelBytes(rgb, 3, p) + [AlphaOpaque]
  {
    forall p | 0 <= p < n
      ensures PixelBytes(rgba, 4, p) == PixelBytes(rgb, 3, p) + [AlphaOpaque]
    {
      ExpandRgbPixel(rgb, n, p);
      SliceOfPrefix(rgba, 4 * n, 4 * p, 4 * p + 4);
    }
  }

  /** A buffer whose first `4n` bytes are the widened grey image holds,
      pixel by pixel, the grey value three times and an opaque alpha. */
  lemma ExpandMonoPixels(mono: seq<Byte>, rgba: seq<Byte>, n: nat)
    requires n <= |mono| && 4 * n <= |rgba|
    requires rgba[..4 * n] == ExpandMono(mono, n)
    ensures forall p :: 0 <= p < n ==> PixelBytes(rgba, 4, p) == [mono[p], mono[p], mono[p], AlphaOpaque]
  {
    forall p | 0 <= p < n
      ensures PixelBytes(rgba, 4, p) == [mono[p], mono[p], mono[p], AlphaOpaque]
    {
      ExpandMonoPixel(mono, n, p);
      SliceOfPrefix(rgba, 4 * n, 4 * p, 4 * p + 4);
    }
  }

  /** Converse of `ExpandRgbPixels`: a buffer that holds, pixel by pixel,
      each input pixel followed by an opaque alpha starts with the widened
      image of the input. */
  lemma {:induction false} PixelwiseIsExpandRgb(rgb: seq<Byte>, rgba: seq<Byte>, n: nat)
    requires 3 * n <= |rgb| && 4 * n <= |rgba|
    requires forall p :: 0 <= p < n ==> PixelBytes(rgba, 4, p) == PixelBytes(rgb, 3, p) + [AlphaOpaque]
    ensures rgba[..4 * n] == ExpandRgb(rgb, n)
  {
    if n > 0 {
      PixelwiseIsExpandRgb(rgb, rgba, n - 1);
      var last := PixelBytes(rgba, 4, n - 1);
      assert last == PixelBytes(rgb, 3, n - 1) + [AlphaOpaque];
      assert last == [rgb[3 * (n - 1)], rgb[3 * (n - 1) + 1], rgb[3 * (n - 1) + 2], AlphaOpaque];
      assert rgba[..4 * n] == rgba[..4 * (n - 1)] + last;
    }
  }

  /** Converse of `ExpandMonoPixels`: a buffer that holds, pixel by pixel,
      the grey value three times and an opaque alpha starts with the widened
      grey image. */
  lemma {:induction false} PixelwiseIsExpandMono(mono: seq<Byte>, rgba: seq<Byte>, n: nat)
    requires n <= |mono| && 4 * n <= |rgba|
    requires forall p :: 0 <= p < n ==> PixelBytes(rgba, 4, p) == [mono[p], mono[p], mono[p], AlphaOpaque]
    ensures rgba[..4 * n] == ExpandMono(mono, n)
  {
    if n > 0 {
      PixelwiseIsExpandMono(mono, rgba, n - 1);
      var last := PixelBytes(rgba, 4, n - 1);
      assert last == [mono[n - 1], mono[n - 1], mono[n - 1], AlphaOpaque];
      assert rgba[..4 * n] == rgba[..4 * (n - 1)] + last;
    }
  }

  // ---------------------------------------------------------------------
  // The loops of the C++ application
  // ---------------------------------------------------------------------

  /** The frame copy of the timer tick: byte `b` of the capture buffer is
      stored at byte `b` of the local buffer for every `b < 3n`. `dst` is the
      local buffer's previous contents; bytes past `3n` are not written.
      `copied` is the final value of the loop index, an `int` in
      `RealtimeUpdate`, hence the bound on `3n`. */
  method CopyFrame(frame: seq<Byte>, dst: seq<Byte>, n: nat) returns (buf: seq<Byte>, copied: nat)
    requires 3 * n <= |frame| && 3 * n <= |dst|
    requires 3 * n < I32Limit
    ensures |buf| == |dst|
    ensures buf[..3 * n] == frame[..3 * n]
    ensures buf[3 * n..] == dst[3 * n..]
    ensures copied == 3 * n
  {
    buf := dst;
    var b := 0;
    while b < 3 * n
      invariant 0 <= b <= 3 * n
      invariant |buf| == |dst|
      invariant buf[..b] == frame[..b]
      invariant buf[b..] == dst[b..]
    {
      buf := buf[b := frame[b]];
      assert buf[..b + 1] == frame[..b + 1];
      b := b + 1;
    }
    copied := b;
  }

  /** The packed 3-byte to 4-byte widening loop. Two running counters walk the
      input (3 bytes per pixel) and the output (4 bytes per pixel); each pixel
      copies three bytes and appends an opaque alpha. `dst` is the previous
      contents of the 4-byte buffer; bytes past `4n` are not written, so by
      `PixelwiseIsExpandRgb` the first `4n` bytes are `ExpandRgb(rgb, n)`.
      `rgbRead` and `rgbaWritten` are the counters' final values. The
      counters are `unsigned int` in `RGBBufferToQImage`, hence the bound on `4n`. */
  method RgbToRgba(rgb: seq<Byte>, dst: seq<Byte>, n: nat) returns (rgba: seq<Byte>, rgbRead: nat, rgbaWritten: nat)
    requires 3 * n <= |rgb| && 4 * n <= |dst|
    requires 4 * n < U32Limit
    ensures |rgba| == |dst|
    ensures forall p :: 0 <= p < n ==> PixelBytes(rgba, 4, p) == PixelBytes(rgb, 3, p) + [AlphaOpaque]
    ensures rgba[4 * n..] == dst[4 * n..]
    ensures rgbRead == 3 * n && rgbaWritten == 4 * n
  {
    rgba := dst;
    var rgbCounter := 0;
    var rgbaCounter := 0;
    var b := 0;
    while b < n
      invariant 0 <= b <= n
      invariant rgbCounter == 3 * b && rgbaCounter == 4 * b
      invariant |rgba| == |dst|
      invariant rgba[..rgbaCounter] == ExpandRgb(rgb, b)
      invariant rgba[rgbaCounter..] == dst[rgbaCounter..]
    {
      ghost var before := rgba;
      rgba := rgba[rgbaCounter := rgb[rgbCounter]];
      rgbCounter, rgbaCounter := rgbCounter + 1, rgbaCounter + 1;
      rgba := rgba[rgbaCounter := rgb[rgbCounter]];
      rgbCounter, rgbaCounter := rgbCounter + 1, rgbaCounter + 1;
      rgba := rgba[rgbaCounter := rgb[rgbCounter]];
      rgbCounter, rgbaCounter := rgbCounter + 1, rgbaCounter + 1;
      rgba := rgba[rgbaCounter := AlphaOpaque];
      rgbaCounter := rgbaCounter + 1;
      FourBytesWritten(before, 4 * b, ExpandRgb(rgb, b), rgb[3 * b], rgb[3 * b + 1], rgb[3 * b + 2], AlphaOpaque);
      b := b + 1;
    }
    rgbRead, rgbaWritten := rgbCounter, rgbaCounter;
    ExpandRgbPixels(rgb, rgba, n);
  }

  /** The 1-byte to 4-byte grey widening loop. One running counter walks the
      output; the loop index reads the grey byte of the current pixel, which
      is written into three positions before an opaque alpha. Only the first
      `n` grey bytes are read and only the first `4n` output bytes written;
      by `PixelwiseIsExpandMono` those are `ExpandMono(mono, n)`.
      `rgbaWritten` is the counter's final value. */
  method MonoToRgba(mono: seq<Byte>, dst: seq<Byte>, n: nat) returns (rgba: seq<Byte>, rgbaWritten: nat)
    requires n <= |mono| && 4 * n <= |dst|
    requires 4 * n < U32Limit
    ensures |rgba| == |dst|
    ensures forall p :: 0 <= p < n ==> PixelBytes(rgba, 4, p) == [mono[p], mono[p], mono[p], AlphaOpaque]
    ensures rgba[4 * n..] == dst[4 * n..]
    ensures rgbaWritten == 4 * n
  {
    rgba := dst;
    var rgbaCounter := 0;
    var b := 0;
    while b < n
      invariant 0 <= b <= n
      invariant rgbaCounter == 4 * b
      invariant |rgba| == |dst|
      invariant rgba[..rgbaCounter] == ExpandMono(mono, b)
      invariant rgba[rgbaCounter..] == dst[rgbaCounter..]
    {
      ghost var before := rgba;
      rgba := rgba[rgbaCounter := mono[b]];
      rgbaCounter := rgbaCounter + 1;
      rgba := rgba[rgbaCounter := mono[b]];
      rgbaCounter := rgbaCounter + 1;
      rgba := rgba[rgbaCounter := mono[b]];
      rgbaCounter := rgbaCounter + 1;
      rgba := rgba[rgbaCounter := AlphaOpaque];
      rgbaCounter := rgbaCounter + 1;
      FourBytesWritten(before, 4 * b, ExpandMono(mono, b), mono[b], mono[b], mono[b], AlphaOpaque);
      b := b + 1;
    }
    rgbaWritten := rgbaCounter;
    ExpandMonoPixels(mono, rgba, n);
  }
}
