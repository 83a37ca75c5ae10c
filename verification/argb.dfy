/**
 * ARGB_8888 pixels as the merge and the tone mapper handle them: a Kotlin
 * `Int` whose bit pattern is alpha, red, green, blue from the high byte down.
 * A pixel is that bit pattern, a `bv32`.
 */
module Argb {

  type Pixel = bv32

  /** The three colour channels the merge and the tone mapper unpack. */
  datatype Component = Red | Green | Blue

  /** How far right the channel sits: `shr 16`, `shr 8`, or no shift. */
  function Shift(k: Component): bv32
  {
    match k
    case Red => 16
    case Green => 8
    case Blue => 0
  }

  /** `(c shr s) and 0xFF`, as a byte. */
  function ChannelByte(c: Pixel, k: Component): bv8
  {
    ((c >> Shift(k)) & 0xFF) as bv8
  }

  /** `(c shr s) and 0xFF`: one channel of the pixel as an integer. */
  function Channel(c: Pixel, k: Component): (v: int)
    ensures 0 <= v < 256
  {
    ChannelByte(c, k) as int
  }

  /** The top (alpha) byte of a pixel: the byte that `0xFF shl 24` sets in the pack. */
  function Alpha(c: Pixel): (v: int)
    ensures 0 <= v < 256
  {
    ((c >> 24) & 0xFF) as bv8 as int
  }

  /** `(0xFF shl 24) or (r shl 16) or (g shl 8) or b` on channel bytes. */
  function PackBytes(r: bv8, g: bv8, b: bv8): Pixel
  {
    0xFF00_0000 | ((r as bv32) << 16) | ((g as bv32) << 8) | (b as bv32)
  }

  /** `(0xFF shl 24) or (r shl 16) or (g shl 8) or b`: an opaque pixel from channel values. */
  function Pack(r: int, g: int, b: int): Pixel
    requires 0 <= r < 256 && 0 <= g < 256 && 0 <= b < 256
  {
    PackBytes(r as bv8, g as bv8, b as bv8)
  }

  lemma PackedRed(r: bv8, g: bv8, b: bv8)
    ensures ChannelByte(PackBytes(r, g, b), Red) == r
  {
    assert (PackBytes(r, g, b) >> 16) & 0xFF == r as bv32;
  }

  lemma PackedGreen(r: bv8, g: bv8, b: bv8)
    ensures ChannelByte(PackBytes(r, g, b), Green) == g
  {
    assert (PackBytes(r, g, b) >> 8) & 0xFF == g as bv32;
  }

  lemma PackedBlue(r: bv8, g: bv8, b: bv8)
    ensures ChannelByte(PackBytes(r, g, b), Blue) == b
  {
    assert PackBytes(r, g, b) & 0xFF == b as bv32;
  }

  lemma PackedOpaque(r: bv8, g: bv8, b: bv8)
    ensures (PackBytes(r, g, b) >> 24) & 0xFF == 0xFF
  {
  }

  lemma UnpackPackBytes(r: bv8, g: bv8, b: bv8)
    ensures ChannelByte(PackBytes(r, g, b), Red) == r
    ensures ChannelByte(PackBytes(r, g, b), Green) == g
    ensures ChannelByte(PackBytes(r, g, b), Blue) == b
    ensures (PackBytes(r, g, b) >> 24) & 0xFF == 0xFF
  {
    PackedRed(r, g, b);
    PackedGreen(r, g, b);
    PackedBlue(r, g, b);
    PackedOpaque(r, g, b);
  }

  /** Unpacking a packed pixel gives back its channels, and it is opaque. */
  lemma UnpackPack(r: int, g: int, b: int)
    requires 0 <= r < 256 && 0 <= g < 256 && 0 <= b < 256
    ensures Channel(Pack(r, g, b), Red) == r
    ensures Channel(Pack(r, g, b), Green) == g
    ensures Channel(Pack(r, g, b), Blue) == b
    ensures Alpha(Pack(r, g, b)) == 0xFF
  {
    var rb, gb, bb := r as bv8, g as bv8, b as bv8;
    ByteRoundTrip(r);
    ByteRoundTrip(g);
    ByteRoundTrip(b);
    UnpackPackBytes(rb, gb, bb);
    OpaqueByte(PackBytes(rb, gb, bb));
  }

  lemma ByteRoundTrip(x: int)
    requires 0 <= x < 256
    ensures (x as bv8) as int == x
  {
    assert (x as bv8) as bv32 == x as bv32;
    assert (x as bv32) as int == x;
  }

  lemma OpaqueByte(c: Pixel)
    requires (c >> 24) & 0xFF == 0xFF
    ensures Alpha(c) == 0xFF
  {
  }

  /** Repacking a pixel's own channels keeps the pixel exactly when it is already opaque. */
  lemma PackUnpack(c: Pixel)
    ensures Pack(Channel(c, Red), Channel(c, Green), Channel(c, Blue)) == c <==> Alpha(c) == 0xFF
  {
    RepackSetsAlpha(c);
    OpaqueIffAlpha(c);
  }

  lemma ByteWiden(c: Pixel, k: Component)
    ensures ChannelByte(c, k) as bv32 == (c >> Shift(k)) & 0xFF
  {
  }

  lemma RepackSetsAlpha(c: Pixel)
    ensures PackBytes(ChannelByte(c, Red), ChannelByte(c, Green), ChannelByte(c, Blue)) == c | 0xFF00_0000
  {
    ByteWiden(c, Red);
    ByteWiden(c, Green);
    ByteWiden(c, Blue);
    RepackBits(c);
  }

  lemma RepackBits(c: Pixel)
    ensures 0xFF00_0000 | (((c >> 16) & 0xFF) << 16) | (((c >> 8) & 0xFF) << 8) | (c & 0xFF) == c | 0xFF00_0000
  {
  }

  lemma OpaqueIffAlpha(c: Pixel)
    ensures (c | 0xFF00_0000 == c) == (Alpha(c) == 0xFF)
  {
    assert (c | 0xFF00_0000 == c) == ((c >> 24) & 0xFF == 0xFF);
  }

  /** Two opaque pixels with the same channels are the same pixel. */
  lemma PackInjective(r: int, g: int, b: int, r': int, g': int, b': int)
    requires 0 <= r < 256 && 0 <= g < 256 && 0 <= b < 256
    requires 0 <= r' < 256 && 0 <= g' < 256 && 0 <= b' < 256
    requires Pack(r, g, b) == Pack(r', g', b')
    ensures r == r' && g == g' && b == b'
  {
    UnpackPack(r, g, b);
    UnpackPack(r', g', b');
  }

  /** A bitmap's contents as a value: its size and its pixels, row by row. */
  datatype Image = Image(width: nat, height: nat, pixels: seq<Pixel>)
  {
    predicate Valid()
    {
      |pixels| == width * height
    }
  }

  /**
   * An `android.graphics.Bitmap` in ARGB_8888: a fixed size and a pixel
   * buffer that `setPixels` overwrites. Only the full-frame `getPixels` and
   * `setPixels` calls (offset 0, stride = width) are modelled.
   */
  class Bitmap {
    const width: nat
    const height: nat
    var pixels: seq<Pixel>

    ghost predicate Valid()
      reads this
    {
      |pixels| == width * height
    }

    /** The bitmap's current contents. */
    function Snapshot(): (img: Image)
      reads this
      ensures Valid() ==> img.Valid()
    {
      Image(width, height, pixels)
    }

    /** `Bitmap.createBitmap(w, h, ARGB_8888)`: every pixel transparent black. */
    constructor Create(w: nat, h: nat)
      ensures width == w && height == h
      ensures pixels == seq(w * h, _ => 0)
      ensures Valid()
    {
      width, height := w, h;
      pixels := seq(w * h, _ => 0);
    }

    /** `getPixels(dest, 0, width, 0, 0, width, height)`. */
    method GetPixels(dest: array<Pixel>)
      requires Valid() && dest.Length == width * height
      modifies dest
      ensures dest[..] == pixels
    {
      forall i | 0 <= i < dest.Length {
        dest[i] := pixels[i];
      }
    }

    /** `setPixels(src, 0, width, 0, 0, width, height)`. */
    method SetPixels(src: array<Pixel>)
      requires src.Length == width * height
      modifies this
      ensures pixels == src[..]
      ensures Valid()
    {
      pixels := src[..];
    }
  }
}
