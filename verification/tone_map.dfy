/**
 * `toneMapInPlace`: every colour channel of every pixel goes through an
 * S-shaped curve and the pixel is repacked opaque, in place on the bitmap.
 */
module ToneMap {
  import opened LumaFrame
  import opened Argb

  /**
   * `curve(x)`: `(255 * sigmoid).toInt().coerceIn(0, 255)`. The floating-point
   * part, `(y * 255f).toInt()`, is the parameter `raw`; the clamp is modelled.
   */
  function Curve(raw: int -> int, x: int): (y: int)
    ensures 0 <= y <= 255
    ensures 0 <= raw(x) <= 255 ==> y == raw(x)
    ensures raw(x) < 0 ==> y == 0
    ensures raw(x) > 255 ==> y == 255
  {
    ClampInt(0, 255, raw(x))
  }

  /** The loop body: each channel through the curve, alpha forced to 0xFF. */
  function ToneMapPixel(raw: int -> int, c: Pixel): Pixel
  {
    Pack(Curve(raw, Channel(c, Red)), Curve(raw, Channel(c, Green)), Curve(raw, Channel(c, Blue)))
  }

  /** The whole pass over a pixel buffer, pixel by pixel. */
  function ToneMapPixels(raw: int -> int, s: seq<Pixel>): (t: seq<Pixel>)
    ensures |t| == |s|
  {
    seq(|s|, i requires 0 <= i < |s| => ToneMapPixel(raw, s[i]))
  }

  /** `toneMapInPlace(bmp)`: reads the pixels, rewrites them one by one, writes them back. */
  method ToneMapInPlace(bmp: Bitmap, raw: int -> int)
    requires bmp.Valid()
    modifies bmp
    ensures bmp.Valid()
    ensures bmp.pixels == ToneMapPixels(raw, old(bmp.pixels))
  {
    var w := bmp.width;
    var h := bmp.height;
    var pixels := new Pixel[w * h];
    bmp.GetPixels(pixels);
    ghost var before := pixels[..];
    var i := 0;
    while i < pixels.Length
      invariant 0 <= i <= pixels.Length
      invariant forall j :: 0 <= j < i ==> pixels[j] == ToneMapPixel(raw, before[j])
      invariant forall j :: i <= j < pixels.Length ==> pixels[j] == before[j]
    {
      var c := pixels[i];
      var r := Curve(raw, Channel(c, Red));
      var g := Curve(raw, Channel(c, Green));
      var b := Curve(raw, Channel(c, Blue));
      pixels[i] := Pack(r, g, b);
      i := i + 1;
    }
    bmp.SetPixels(pixels);
  }

  /** Each output channel is the curve applied to the same channel of the input pixel, and the output is opaque. */
  lemma ToneMapChannels(raw: int -> int, c: Pixel)
    ensures forall k :: Channel(ToneMapPixel(raw, c), k) == Curve(raw, Channel(c, k))
    ensures Alpha(ToneMapPixel(raw, c)) == 0xFF
  {
    UnpackPack(Curve(raw, Channel(c, Red)), Curve(raw, Channel(c, Green)), Curve(raw, Channel(c, Blue)));
    forall k ensures Channel(ToneMapPixel(raw, c), k) == Curve(raw, Channel(c, k)) {
      match k
      case Red =>
      case Green =>
      case Blue =>
    }
  }

  /** The input's alpha byte plays no part: pixels with the same colour channels map to the same pixel. */
  lemma ToneMapIgnoresAlpha(raw: int -> int, c: Pixel, d: Pixel)
    requires forall k :: Channel(c, k) == Channel(d, k)
    ensures ToneMapPixel(raw, c) == ToneMapPixel(raw, d)
  {
    assert Channel(c, Red) == Channel(d, Red);
    assert Channel(c, Green) == Channel(d, Green);
    assert Channel(c, Blue) == Channel(d, Blue);
  }

  /** After the pass every pixel is opaque and each channel is the curve of the old channel. */
  lemma ToneMapBuffer(raw: int -> int, s: seq<Pixel>)
    ensures forall i :: 0 <= i < |s| ==> Alpha(ToneMapPixels(raw, s)[i]) == 0xFF
    ensures forall i, k :: 0 <= i < |s| ==> Channel(ToneMapPixels(raw, s)[i], k) == Curve(raw, Channel(s[i], k))
  {
    forall i | 0 <= i < |s|
      ensures Alpha(ToneMapPixels(raw, s)[i]) == 0xFF
      ensures forall k :: Channel(ToneMapPixels(raw, s)[i], k) == Curve(raw, Channel(s[i], k))
    {
      ToneMapChannels(raw, s[i]);
    }
  }

  /** With a non-decreasing curve, a brighter channel stays at least as bright. */
  lemma ToneMapMonotone(raw: int -> int, c: Pixel, d: Pixel, k: Component)
    requires forall x, y :: x <= y ==> raw(x) <= raw(y)
    requires Channel(c, k) <= Channel(d, k)
    ensures Channel(ToneMapPixel(raw, c), k) <= Channel(ToneMapPixel(raw, d), k)
  {
    ToneMapChannels(raw, c);
    ToneMapChannels(raw, d);
    assert raw(Channel(c, k)) <= raw(Channel(d, k));
  }

  /** With the identity curve the pass leaves an opaque pixel as it is and makes any other pixel opaque. */
  lemma IdentityCurve(raw: int -> int, c: Pixel)
    requires forall x :: 0 <= x <= 255 ==> raw(x) == x
    ensures Alpha(c) == 0xFF ==> ToneMapPixel(raw, c) == c
    ensures ToneMapPixel(raw, c) == Pack(Channel(c, Red), Channel(c, Green), Channel(c, Blue))
  {
    assert Curve(raw, Channel(c, Red)) == Channel(c, Red);
    assert Curve(raw, Channel(c, Green)) == Channel(c, Green);
    assert Curve(raw, Channel(c, Blue)) == Channel(c, Blue);
    PackUnpack(c);
  }
}
