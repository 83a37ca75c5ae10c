/**
 * `simpleExposureMerge`: the per-pixel average of a burst of bitmaps. The
 * first bitmap fixes the size; bitmaps of another size are skipped but still
 * counted in the divisor. The average is repacked opaque and tone mapped.
 */
module ExposureMerge {
  import opened LumaFrame
  import opened Argb
  import opened ToneMap

  /** The size test that decides whether a bitmap is added: does it have the base size w x h? */
  predicate SameSize(img: Image, w: nat, h: nat)
  {
    img.width == w && img.height == h
  }

  /**
   * The accumulator `accumR/G/B[i]` after the images of `bs`: channel `k` of
   * pixel `i`, summed over the images of size w x h.
   */
  function ChannelSum(bs: seq<Image>, w: nat, h: nat, i: nat, k: Component): (s: int)
    ensures 0 <= s <= 255 * |bs|
    decreases |bs|
  {
    if bs == [] then 0
    else
      var last := bs[|bs| - 1];
      ChannelSum(bs[..|bs| - 1], w, h, i, k) + (if SameSize(last, w, h) && i < |last.pixels| then Channel(last.pixels[i], k) else 0)
  }

  /** `(accum[i] / n).toInt().coerceIn(0, 255)` with n the number of all images. */
  function Average(bs: seq<Image>, i: nat, k: Component): (v: int)
    requires |bs| >= 1
    ensures 0 <= v <= 255
  {
    ClampInt(0, 255, ChannelSum(bs, bs[0].width, bs[0].height, i, k) / |bs|)
  }

  /** The merged buffer before tone mapping: each pixel the opaque pack of the three averages. */
  function MergedPixels(bs: seq<Image>): (s: seq<Pixel>)
    requires |bs| >= 1
    ensures |s| == bs[0].width * bs[0].height
  {
    seq(bs[0].width * bs[0].height, i requires 0 <= i < bs[0].width * bs[0].height => MergedPixel(bs, i))
  }

  /** Pixel `i` of the merged buffer: `(0xFF shl 24) or (r shl 16) or (g shl 8) or b` of the averages. */
  function MergedPixel(bs: seq<Image>, i: nat): Pixel
    requires |bs| >= 1
  {
    Pack(Average(bs, i, Red), Average(bs, i, Green), Average(bs, i, Blue))
  }

  /** The bitmap `simpleExposureMerge` returns: the size of the first image, the tone-mapped average. */
  function MergeResult(raw: int -> int, bs: seq<Image>): (r: Image)
    requires |bs| >= 1
    ensures r.Valid() && r.width == bs[0].width && r.height == bs[0].height
  {
    Image(bs[0].width, bs[0].height, ToneMapPixels(raw, MergedPixels(bs)))
  }

  /** The contents of a list of bitmaps. */
  function Snapshots(bitmaps: seq<Bitmap>): (imgs: seq<Image>)
    reads set b | b in bitmaps
    ensures |imgs| == |bitmaps|
    ensures forall j :: 0 <= j < |bitmaps| ==> imgs[j] == bitmaps[j].Snapshot()
  {
    if bitmaps == [] then [] else Snapshots(bitmaps[..|bitmaps| - 1]) + [bitmaps[|bitmaps| - 1].Snapshot()]
  }

  /** One pass of the inner accumulation loop: adds every pixel's channels to the accumulators. */
  method Accumulate(pixels: seq<Pixel>, accumR: array<int>, accumG: array<int>, accumB: array<int>)
    requires accumR.Length == |pixels| && accumG.Length == |pixels| && accumB.Length == |pixels|
    requires accumR != accumG && accumG != accumB && accumR != accumB
    modifies accumR, accumG, accumB
    ensures forall i :: 0 <= i < |pixels| ==> accumR[i] == old(accumR[i]) + Channel(pixels[i], Red)
    ensures forall i :: 0 <= i < |pixels| ==> accumG[i] == old(accumG[i]) + Channel(pixels[i], Green)
    ensures forall i :: 0 <= i < |pixels| ==> accumB[i] == old(accumB[i]) + Channel(pixels[i], Blue)
  {
    var i := 0;
    while i < |pixels|
      invariant 0 <= i <= |pixels|
      invariant forall j :: 0 <= j < i ==> accumR[j] == old(accumR[j]) + Channel(pixels[j], Red)
      invariant forall j :: 0 <= j < i ==> accumG[j] == old(accumG[j]) + Channel(pixels[j], Green)
      invariant forall j :: 0 <= j < i ==> accumB[j] == old(accumB[j]) + Channel(pixels[j], Blue)
      invariant forall j :: i <= j < |pixels| ==> accumR[j] == old(accumR[j])
      invariant forall j :: i <= j < |pixels| ==> accumG[j] == old(accumG[j])
      invariant forall j :: i <= j < |pixels| ==> accumB[j] == old(accumB[j])
    {
      var c := pixels[i];
      accumR[i] := accumR[i] + Channel(c, Red);
      accumG[i] := accumG[i] + Channel(c, Green);
      accumB[i] := accumB[i] + Channel(c, Blue);
      i := i + 1;
    }
  }

  /** `acc` holds channel `k` of every pixel summed over the images of `bs` of size w x h. */
  ghost predicate Sums(acc: seq<int>, bs: seq<Image>, w: nat, h: nat, k: Component)
  {
    |acc| == w * h && forall i :: 0 <= i < w * h ==> acc[i] == ChannelSum(bs, w, h, i, k)
  }

  /** Adding one more image to the sums: its channel when it has the base size, nothing otherwise. */
  lemma SumsStep(before: seq<int>, after: seq<int>, done: seq<Image>, img: Image, w: nat, h: nat, k: Component)
    requires Sums(before, done, w, h, k) && img.Valid() && |after| == w * h
    requires SameSize(img, w, h) ==> forall i :: 0 <= i < w * h ==> after[i] == before[i] + Channel(img.pixels[i], k)
    requires !SameSize(img, w, h) ==> after == before
    ensures Sums(after, done + [img], w, h, k)
  {
    var bs := done + [img];
    assert bs[..|bs| - 1] == done && bs[|bs| - 1] == img;
  }

  /**
   * One pass of the outer accumulation loop: when the bitmap has the base
   * size its pixels are read into the shared buffer and added.
   */
  method AddBitmap(bmp: Bitmap, w: nat, h: nat, pixels: array<Pixel>,
                   accumR: array<int>, accumG: array<int>, accumB: array<int>, ghost done: seq<Image>)
    requires bmp.Valid() && pixels.Length == w * h
    requires accumR != accumG && accumG != accumB && accumR != accumB
    requires pixels as object != accumR && pixels as object != accumG && pixels as object != accumB
    requires Sums(accumR[..], done, w, h, Red) && Sums(accumG[..], done, w, h, Green) && Sums(accumB[..], done, w, h, Blue)
    modifies pixels, accumR, accumG, accumB
    ensures Sums(accumR[..], done + [bmp.Snapshot()], w, h, Red)
    ensures Sums(accumG[..], done + [bmp.Snapshot()], w, h, Green)
    ensures Sums(accumB[..], done + [bmp.Snapshot()], w, h, Blue)
  {
    ghost var r0, g0, b0 := accumR[..], accumG[..], accumB[..];
    if bmp.width == w && bmp.height == h {
      bmp.GetPixels(pixels);
      assert pixels[..] == bmp.Snapshot().pixels;
      Accumulate(pixels[..], accumR, accumG, accumB);
      assert forall i :: 0 <= i < w * h ==> accumR[..][i] == r0[i] + Channel(bmp.Snapshot().pixels[i], Red);
      assert forall i :: 0 <= i < w * h ==> accumG[..][i] == g0[i] + Channel(bmp.Snapshot().pixels[i], Green);
      assert forall i :: 0 <= i < w * h ==> accumB[..][i] == b0[i] + Channel(bmp.Snapshot().pixels[i], Blue);
    }
    SumsStep(r0, accumR[..], done, bmp.Snapshot(), w, h, Red);
    SumsStep(g0, accumG[..], done, bmp.Snapshot(), w, h, Green);
    SumsStep(b0, accumB[..], done, bmp.Snapshot(), w, h, Blue);
  }

  /**
   * The accumulation phase of `simpleExposureMerge`: the three accumulators
   * after every bitmap of the base size w x h has been added, read through
   * the shared buffer `pixels`.
   */
  method AccumulateBitmaps(bitmaps: seq<Bitmap>, ghost imgs: seq<Image>, w: nat, h: nat, pixels: array<Pixel>)
    returns (accumR: array<int>, accumG: array<int>, accumB: array<int>)
    requires forall j | 0 <= j < |bitmaps| :: bitmaps[j].Valid()
    requires |imgs| == |bitmaps| && forall j | 0 <= j < |bitmaps| :: imgs[j] == bitmaps[j].Snapshot()
    requires pixels.Length == w * h
    modifies pixels
    ensures fresh(accumR) && fresh(accumG) && fresh(accumB)
    ensures Sums(accumR[..], imgs, w, h, Red) && Sums(accumG[..], imgs, w, h, Green) && Sums(accumB[..], imgs, w, h, Blue)
  {
    accumR := new int[w * h](_ => 0);
    accumG := new int[w * h](_ => 0);
    accumB := new int[w * h](_ => 0);
    var j := 0;
    while j < |bitmaps|
      invariant 0 <= j <= |bitmaps|
      invariant Sums(accumR[..], imgs[..j], w, h, Red) && Sums(accumG[..], imgs[..j], w, h, Green)
      invariant Sums(accumB[..], imgs[..j], w, h, Blue)
    {
      AddBitmap(bitmaps[j], w, h, pixels, accumR, accumG, accumB, imgs[..j]);
      assert imgs[..j + 1] == imgs[..j] + [bitmaps[j].Snapshot()];
      j := j + 1;
    }
    assert imgs[..|bitmaps|] == imgs;
  }

  /** The repacking step of one pixel, from its three accumulators. */
  lemma AveragesAt(bs: seq<Image>, i: nat, r: int, g: int, b: int)
    requires |bs| >= 1
    requires r == ChannelSum(bs, bs[0].width, bs[0].height, i, Red)
    requires g == ChannelSum(bs, bs[0].width, bs[0].height, i, Green)
    requires b == ChannelSum(bs, bs[0].width, bs[0].height, i, Blue)
    ensures 0 <= r / |bs| <= 255 && 0 <= g / |bs| <= 255 && 0 <= b / |bs| <= 255
    ensures Pack(ClampInt(0, 255, r / |bs|), ClampInt(0, 255, g / |bs|), ClampInt(0, 255, b / |bs|)) == MergedPixel(bs, i)
  {
    AverageBound(r, |bs|);
    AverageBound(g, |bs|);
    AverageBound(b, |bs|);
  }

  /** A sum of at most 255 per image, divided by the number of images, is a channel value. */
  lemma AverageBound(s: int, n: nat)
    requires n >= 1 && 0 <= s <= 255 * n
    ensures 0 <= s / n <= 255
  {
    var q := s / n;
    assert q * n <= s;
    assert (255 - q) * n == 255 * n - q * n;
  }

  /**
   * The repacking phase of `simpleExposureMerge`: pixel `i` becomes the opaque
   * pack of `(accum[i] / n).toInt().coerceIn(0, 255)` for the three channels.
   */
  method PackAverages(ghost imgs: seq<Image>, accumR: seq<int>, accumG: seq<int>, accumB: seq<int>,
                      n: nat, pixels: array<Pixel>)
    requires |imgs| == n >= 1 && pixels.Length == imgs[0].width * imgs[0].height
    requires Sums(accumR, imgs, imgs[0].width, imgs[0].height, Red)
    requires Sums(accumG, imgs, imgs[0].width, imgs[0].height, Green)
    requires Sums(accumB, imgs, imgs[0].width, imgs[0].height, Blue)
    modifies pixels
    ensures pixels[..] == MergedPixels(imgs)
  {
    var i := 0;
    while i < pixels.Length
      invariant 0 <= i <= pixels.Length
      invariant forall m :: 0 <= m < i ==> pixels[m] == MergedPixel(imgs, m)
    {
      var r := ClampInt(0, 255, accumR[i] / n);
      var g := ClampInt(0, 255, accumG[i] / n);
      var b := ClampInt(0, 255, accumB[i] / n);
      AveragesAt(imgs, i, accumR[i], accumG[i], accumB[i]);
      pixels[i] := Pack(r, g, b);
      i := i + 1;
    }
  }

  /**
   * The merge proper: accumulate the bitmaps of the first one's size, then
   * repack the averages, in a fresh pixel buffer of that size.
   */
  method MergeAverages(bitmaps: seq<Bitmap>, ghost imgs: seq<Image>) returns (pixels: array<Pixel>)
    requires |bitmaps| >= 1
    requires forall j | 0 <= j < |bitmaps| :: bitmaps[j].Valid()
    requires |imgs| == |bitmaps| && forall j | 0 <= j < |bitmaps| :: imgs[j] == bitmaps[j].Snapshot()
    ensures fresh(pixels)
    ensures pixels[..] == MergedPixels(imgs)
  {
    var w, h := bitmaps[0].width, bitmaps[0].height;
    pixels := new Pixel[w * h];
    var accumR, accumG, accumB := AccumulateBitmaps(bitmaps, imgs, w, h, pixels);
    assert imgs[0].width == w && imgs[0].height == h;
    PackAverages(imgs, accumR[..], accumG[..], accumB[..], |bitmaps|, pixels);
  }

  /**
   * `simpleExposureMerge(bitmaps)`, followed by its call to `toneMapInPlace`
   * with the curve's floating-point part `raw`.
   */
  method SimpleExposureMerge(bitmaps: seq<Bitmap>, raw: int -> int) returns (merged: Bitmap)
    requires |bitmaps| >= 1
    requires forall j | 0 <= j < |bitmaps| :: bitmaps[j].Valid()
    ensures fresh(merged) && merged.Valid()
    ensures merged.Snapshot() == MergeResult(raw, old(Snapshots(bitmaps)))
  {
    ghost var imgs := Snapshots(bitmaps);
    var pixels := MergeAverages(bitmaps, imgs);
    merged := new Bitmap.Create(bitmaps[0].width, bitmaps[0].height);
    merged.SetPixels(pixels);
    ToneMapInPlace(merged, raw);
  }

  /** Each merged channel is the truncated quotient of the sum over same-size images by the number of all images; the clamp never bites. */
  lemma MergedChannels(bs: seq<Image>, i: nat, k: Component)
    requires |bs| >= 1
    ensures 0 <= ChannelSum(bs, bs[0].width, bs[0].height, i, k) / |bs| <= 255
    ensures Channel(MergedPixel(bs, i), k) == ChannelSum(bs, bs[0].width, bs[0].height, i, k) / |bs|
    ensures Alpha(MergedPixel(bs, i)) == 0xFF
  {
    var w, h := bs[0].width, bs[0].height;
    AverageBound(ChannelSum(bs, w, h, i, Red), |bs|);
    AverageBound(ChannelSum(bs, w, h, i, Green), |bs|);
    AverageBound(ChannelSum(bs, w, h, i, Blue), |bs|);
    AverageBound(ChannelSum(bs, w, h, i, k), |bs|);
    UnpackPack(Average(bs, i, Red), Average(bs, i, Green), Average(bs, i, Blue));
    match k
    case Red =>
    case Green =>
    case Blue =>
  }

  /** Every pixel of the merged bitmap is opaque, and its channels are the curve of the averages. */
  lemma MergeResultPixels(raw: int -> int, bs: seq<Image>, i: nat, k: Component)
    requires |bs| >= 1 && i < bs[0].width * bs[0].height
    ensures Alpha(MergeResult(raw, bs).pixels[i]) == 0xFF
    ensures Channel(MergeResult(raw, bs).pixels[i], k) == Curve(raw, ChannelSum(bs, bs[0].width, bs[0].height, i, k) / |bs|)
  {
    MergedChannels(bs, i, k);
    ToneMapChannels(raw, MergedPixels(bs)[i]);
  }

  /** n copies of one image sum to n times its channel. */
  lemma {:induction false} ChannelSumUniform(bs: seq<Image>, img: Image, i: nat, k: Component)
    requires forall j | 0 <= j < |bs| :: bs[j] == img
    requires i < |img.pixels|
    ensures ChannelSum(bs, img.width, img.height, i, k) == |bs| * Channel(img.pixels[i], k)
    decreases |bs|
  {
    if bs != [] {
      var init := bs[..|bs| - 1];
      var c := Channel(img.pixels[i], k);
      assert bs[|bs| - 1] == img;
      ChannelSumUniform(init, img, i, k);
      assert ChannelSum(bs, img.width, img.height, i, k) == ChannelSum(init, img.width, img.height, i, k) + c;
      Distribute(|init|, c);
    }
  }

  /** Merging copies of one image gives back its colours, opaque: an opaque image comes back unchanged before tone mapping. */
  lemma MergeIdentical(bs: seq<Image>, img: Image, i: nat)
    requires |bs| >= 1 && forall j | 0 <= j < |bs| :: bs[j] == img
    requires img.Valid() && i < |img.pixels|
    ensures MergedPixel(bs, i) == Pack(Channel(img.pixels[i], Red), Channel(img.pixels[i], Green), Channel(img.pixels[i], Blue))
    ensures Alpha(img.pixels[i]) == 0xFF ==> MergedPixel(bs, i) == img.pixels[i]
  {
    assert bs[0] == img;
    forall k ensures Average(bs, i, k) == Channel(img.pixels[i], k) {
      ChannelSumUniform(bs, img, i, k);
      MulDiv(|bs|, Channel(img.pixels[i], k));
    }
    assert Average(bs, i, Red) == Channel(img.pixels[i], Red);
    assert Average(bs, i, Green) == Channel(img.pixels[i], Green);
    assert Average(bs, i, Blue) == Channel(img.pixels[i], Blue);
    PackUnpack(img.pixels[i]);
  }

  lemma Distribute(m: nat, c: int)
    ensures (m + 1) * c == m * c + c
  {
  }

  lemma MulDiv(n: nat, c: int)
    requires n >= 1
    ensures (n * c) / n == c
  {
    var d := c - (n * c) / n;
    assert d * n == (n * c) % n;
    MulSign(d, n);
  }

  lemma MulSign(d: int, n: int)
    requires n >= 1
    ensures d >= 1 ==> d * n >= n
    ensures d <= -1 ==> d * n <= -n
  {
  }

  /** When only the first image has the base size, the others add nothing. */
  lemma {:induction false} ChannelSumOnlyFirst(bs: seq<Image>, i: nat, k: Component)
    requires |bs| >= 1 && i < |bs[0].pixels|
    requires forall j | 1 <= j < |bs| :: !SameSize(bs[j], bs[0].width, bs[0].height)
    ensures ChannelSum(bs, bs[0].width, bs[0].height, i, k) == Channel(bs[0].pixels[i], k)
    decreases |bs|
  {
    if |bs| > 1 {
      var init := bs[..|bs| - 1];
      ChannelSumOnlyFirst(init, i, k);
    } else {
      assert bs[..0] == [];
    }
  }

  /**
   * Skipped images still count in the divisor: when every image but the
   * first has another size, each channel is the first image's channel
   * divided by the number of all images.
   */
  lemma MismatchedImagesDarken(bs: seq<Image>, i: nat, k: Component)
    requires |bs| >= 1 && i < |bs[0].pixels|
    requires forall j | 1 <= j < |bs| :: !SameSize(bs[j], bs[0].width, bs[0].height)
    ensures Channel(MergedPixel(bs, i), k) == Channel(bs[0].pixels[i], k) / |bs|
  {
    ChannelSumOnlyFirst(bs, i, k);
    MergedChannels(bs, i, k);
  }
}
