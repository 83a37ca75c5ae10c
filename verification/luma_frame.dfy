/**
 * The camera frame as the analyzers see it: an image with a width and a
 * height, and its planes; only the first plane (the luma, or Y, plane) is
 * read. A plane is a byte buffer plus its row and pixel strides.
 */
module LumaFrame {

  /** A Kotlin `Byte`: a signed 8-bit value. */
  newtype i8 = x: int | -128 <= x < 128

  /** A plane of the frame: the buffer and its strides, in bytes. */
  datatype Plane = Plane(buffer: seq<i8>, rowStride: nat, pixelStride: nat)

  /** An image proxy: its size and its planes (possibly none). */
  datatype Frame = Frame(width: nat, height: nat, planes: seq<Plane>)

  /** `b.toInt() and 0xFF`: the byte read as an unsigned luma value. */
  function Luma(b: i8): (v: int)
    ensures 0 <= v < 256
    ensures v % 256 == (b as int) % 256
  {
    if b < 0 then b as int + 256 else b as int
  }

  /** `min(hi, max(lo, v))`, the coordinate clamp of the neighbour reader. */
  function ClampInt(lo: int, hi: int, v: int): (r: int)
    requires lo <= hi
    ensures lo <= r <= hi
    ensures lo <= v <= hi ==> r == v
    ensures v < lo ==> r == lo
    ensures v > hi ==> r == hi
  {
    if v < lo then lo else if v > hi then hi else v
  }

  function Min(a: int, b: int): int
  {
    if a <= b then a else b
  }

  function Max(a: int, b: int): int
  {
    if a >= b then a else b
  }

  lemma MulMono(a: nat, b: nat, c: nat)
    requires a <= b
    ensures a * c <= b * c
  {
  }
}
