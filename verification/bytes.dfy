/** Basic vocabulary shared by the pixel-buffer code: bytes, optional values,
    the 32-bit unsigned range the C++ counters live in, and the view of a
    packed buffer as a sequence of fixed-width pixels. */
module Bytes {

  /** One `unsigned char` of a pixel buffer. */
  type Byte = b: int | 0 <= b < 256

  /** The alpha byte written after every pixel of a 4-byte-per-pixel buffer. */
  const AlphaOpaque: Byte := 255

  /** First value an `unsigned int` cannot hold. */
  const U32Limit: int := 0x1_0000_0000

  /** First value an `int` cannot hold. */
  const I32Limit: int := 0x8000_0000

  /** A value that may be absent, standing for a C++ pointer that may be NULL. */
  datatype Option<T> = None | Some(value: T)

  /** The `stride` bytes of pixel `p` in a buffer packed at `stride` bytes per pixel. */
  function PixelBytes(buf: seq<Byte>, stride: nat, p: nat): (px: seq<Byte>)
    requires stride * (p + 1) <= |buf|
    ensures |px| == stride
  {
    buf[stride * p .. stride * (p + 1)]
  }
}
