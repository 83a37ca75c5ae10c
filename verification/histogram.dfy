/**
 * The 256-bin luma histogram of a frame. Every row is read; within a row the
 * sampled byte offsets are 0, pixelStride, 2 * pixelStride, ... below the
 * width, each read from a copy of the row's `rowStride` bytes.
 */
module Histogram {
  import opened LumaFrame

  const Bins: nat := 256

  /** What the histogram loop needs of the first plane to run without an exception. */
  predicate HistogramReadable(width: nat, height: nat, p: Plane)
  {
    && p.pixelStride >= 1
    // every row copy of `rowStride` bytes stays within the buffer
    && height * p.rowStride <= |p.buffer|
    // the last sampled offset of a row lies within the copied row
    && (SamplesPerRow(width, p.pixelStride) == 0
        || (SamplesPerRow(width, p.pixelStride) - 1) * p.pixelStride < p.rowStride)
  }

  /** The number of offsets 0, step, 2 * step, ... below `width`: the ceiling of width / step. */
  function SamplesPerRow(width: nat, step: nat): nat
    requires step >= 1
  {
    (width + step - 1) / step
  }

  /** The luma values of samples `k` to the last on row `y`; sample `k` is at byte offset `k * pixelStride`. */
  function RowSamples(p: Plane, width: nat, height: nat, y: nat, k: nat): seq<int>
    requires HistogramReadable(width, height, p) && y < height
    decreases SamplesPerRow(width, p.pixelStride) - k
  {
    if k >= SamplesPerRow(width, p.pixelStride) then []
    else
      RowOffsetFits(width, height, p, y, k);
      [Luma(p.buffer[y * p.rowStride + k * p.pixelStride])] + RowSamples(p, width, height, y, k + 1)
  }

  /** The luma values sampled on rows `y` to `height - 1`, in the order they are counted. */
  function FrameSamplesFrom(p: Plane, width: nat, height: nat, y: nat): seq<int>
    requires HistogramReadable(width, height, p)
    decreases height - y
  {
    if y >= height then []
    else RowSamples(p, width, height, y, 0) + FrameSamplesFrom(p, width, height, y + 1)
  }

  /** Every luma value the histogram counts for frame `f`; none when it has no plane. */
  function Samples(f: Frame): seq<int>
    requires f.planes != [] ==> HistogramReadable(f.width, f.height, f.planes[0])
  {
    if f.planes == [] then [] else FrameSamplesFrom(f.planes[0], f.width, f.height, 0)
  }

  /** How often `v` occurs in `s`. */
  function Occurrences(s: seq<int>, v: int): nat
  {
    if s == [] then 0 else (if s[0] == v then 1 else 0) + Occurrences(s[1..], v)
  }

  /** The histogram of a sequence of luma values: bin `v` counts the occurrences of `v`. */
  function HistogramOf(s: seq<int>): (h: seq<nat>)
    ensures |h| == Bins
  {
    seq(Bins, v => Occurrences(s, v))
  }

  function Sum(s: seq<int>): int
  {
    if s == [] then 0 else s[0] + Sum(s[1..])
  }

  /**
   * computeHistogram: clears every bin, and when the frame has a plane counts
   * each sampled luma value into its bin. Bins past the 256th are only cleared.
   */
  method ComputeHistogram(f: Frame, bins: array<int>)
    requires bins.Length >= Bins
    requires f.planes != [] ==> HistogramReadable(f.width, f.height, f.planes[0])
    modifies bins
    ensures bins[..Bins] == HistogramOf(Samples(f))
    ensures forall i :: Bins <= i < bins.Length ==> bins[i] == 0
  {
    forall i | 0 <= i < bins.Length {
      bins[i] := 0;
    }
    ghost var all := Samples(f);
    if f.planes == [] {
      assert bins[..Bins] == HistogramOf(all);
      return;
    }
    var p := f.planes[0];
    var rowStride, pixelStride := p.rowStride, p.pixelStride;
    var y := 0;
    while y < f.height
      invariant 0 <= y <= f.height
      invariant forall v :: 0 <= v < Bins ==>
        bins[v] + Occurrences(FrameSamplesFrom(p, f.width, f.height, y), v) == Occurrences(all, v)
      invariant forall i :: Bins <= i < bins.Length ==> bins[i] == 0
    {
      CountRow(p, f.width, f.height, y, bins);
      forall v | 0 <= v < Bins {
        OccurrencesAppend(RowSamples(p, f.width, f.height, y, 0), FrameSamplesFrom(p, f.width, f.height, y + 1), v);
      }
      y := y + 1;
    }
    assert bins[..Bins] == HistogramOf(all);
  }

  /** The inner loop of computeHistogram: copies row `y` and counts its samples. */
  method CountRow(p: Plane, width: nat, height: nat, y: nat, bins: array<int>)
    requires HistogramReadable(width, height, p) && y < height && bins.Length >= Bins
    modifies bins
    ensures forall v :: 0 <= v < Bins ==> bins[v] == old(bins[v]) + Occurrences(RowSamples(p, width, height, y, 0), v)
    ensures forall i :: Bins <= i < bins.Length ==> bins[i] == old(bins[i])
  {
    var rowStride, pixelStride := p.rowStride, p.pixelStride;
    MulMono(y + 1, height, rowStride);
    var row := p.buffer[y * rowStride .. y * rowStride + rowStride];
    var x, idx := 0, 0;
    ghost var k: nat := 0;
    while x < width
      invariant x == idx == k * pixelStride
      invariant k <= SamplesPerRow(width, pixelStride)
      invariant forall v :: 0 <= v < Bins ==>
        bins[v] + Occurrences(RowSamples(p, width, height, y, k), v)
          == old(bins[v]) + Occurrences(RowSamples(p, width, height, y, 0), v)
      invariant forall i :: Bins <= i < bins.Length ==> bins[i] == old(bins[i])
      decreases width - x
    {
      SampleTaken(width, pixelStride, k);
      RowOffsetFits(width, height, p, y, k);
      assert row[idx] == p.buffer[y * rowStride + k * pixelStride];
      var v := Luma(row[idx]);
      bins[v] := bins[v] + 1;
      assert (k + 1) * pixelStride == k * pixelStride + pixelStride;
      x, idx := x + pixelStride, idx + pixelStride;
      k := k + 1;
    }
    SampleTaken(width, pixelStride, k);
  }

  lemma {:induction false} OccurrencesAppend(a: seq<int>, b: seq<int>, v: int)
    ensures Occurrences(a + b, v) == Occurrences(a, v) + Occurrences(b, v)
  {
    if a == [] {
      assert a + b == b;
    } else {
      assert (a + b)[0] == a[0];
      assert (a + b)[1..] == a[1..] + b;
      OccurrencesAppend(a[1..], b, v);
    }
  }

  // ---------------------------------------------------------------------------
  // Properties of the histogram

  /** Every counted value is a luma value, so each increment lands in one of the 256 bins. */
  lemma {:induction false} SamplesInRange(f: Frame)
    requires f.planes != [] ==> HistogramReadable(f.width, f.height, f.planes[0])
    ensures forall i :: 0 <= i < |Samples(f)| ==> 0 <= Samples(f)[i] < Bins
  {
    if f.planes != [] {
      FrameSamplesInRange(f.planes[0], f.width, f.height, 0);
    }
  }

  lemma {:induction false} FrameSamplesInRange(p: Plane, width: nat, height: nat, y: nat)
    requires HistogramReadable(width, height, p)
    ensures forall i :: 0 <= i < |FrameSamplesFrom(p, width, height, y)| ==> 0 <= FrameSamplesFrom(p, width, height, y)[i] < Bins
    decreases height - y
  {
    if y < height {
      RowSamplesInRange(p, width, height, y, 0);
      FrameSamplesInRange(p, width, height, y + 1);
    }
  }

  lemma {:induction false} RowSamplesInRange(p: Plane, width: nat, height: nat, y: nat, k: nat)
    requires HistogramReadable(width, height, p) && y < height
    ensures forall i :: 0 <= i < |RowSamples(p, width, height, y, k)| ==> 0 <= RowSamples(p, width, height, y, k)[i] < Bins
    decreases SamplesPerRow(width, p.pixelStride) - k
  {
    if k < SamplesPerRow(width, p.pixelStride) {
      RowSamplesInRange(p, width, height, y, k + 1);
    }
  }

  /** Every row contributes the ceiling of width / pixelStride samples, so the frame height times that. */
  lemma SampleCount(f: Frame)
    requires f.planes != [] ==> HistogramReadable(f.width, f.height, f.planes[0])
    ensures |Samples(f)| == if f.planes == [] then 0 else f.height * SamplesPerRow(f.width, f.planes[0].pixelStride)
  {
    if f.planes != [] {
      FrameSampleCount(f.planes[0], f.width, f.height, 0);
    }
  }

  lemma {:induction false} FrameSampleCount(p: Plane, width: nat, height: nat, y: nat)
    requires HistogramReadable(width, height, p) && y <= height
    ensures |FrameSamplesFrom(p, width, height, y)| == (height - y) * SamplesPerRow(width, p.pixelStride)
    decreases height - y
  {
    if y < height {
      RowSampleCount(p, width, height, y, 0);
      FrameSampleCount(p, width, height, y + 1);
      assert (height - y) * SamplesPerRow(width, p.pixelStride)
          == SamplesPerRow(width, p.pixelStride) + (height - (y + 1)) * SamplesPerRow(width, p.pixelStride);
    }
  }

  lemma {:induction false} RowSampleCount(p: Plane, width: nat, height: nat, y: nat, k: nat)
    requires HistogramReadable(width, height, p) && y < height
    requires k <= SamplesPerRow(width, p.pixelStride)
    ensures |RowSamples(p, width, height, y, k)| == SamplesPerRow(width, p.pixelStride) - k
    decreases SamplesPerRow(width, p.pixelStride) - k
  {
    if k < SamplesPerRow(width, p.pixelStride) {
      RowSampleCount(p, width, height, y, k + 1);
    }
  }

  /** Counting one more value adds one to its bin and leaves the other bins alone. */
  lemma HistogramCons(s: seq<int>)
    requires s != [] && 0 <= s[0] < Bins
    ensures HistogramOf(s) == HistogramOf(s[1..])[s[0] := HistogramOf(s[1..])[s[0]] + 1]
  {
  }

  lemma {:induction false} SumIncrement(h: seq<int>, i: nat)
    requires i < |h|
    ensures Sum(h[i := h[i] + 1]) == Sum(h) + 1
  {
    if i > 0 {
      assert h[i := h[i] + 1][1..] == h[1..][i - 1 := h[1..][i - 1] + 1];
      SumIncrement(h[1..], i - 1);
    } else {
      assert h[i := h[i] + 1][1..] == h[1..];
    }
  }

  lemma {:induction false} SumZero(n: nat)
    ensures Sum(seq(n, _ => 0)) == 0
  {
    if n > 0 {
      assert seq(n, _ => 0)[1..] == seq(n - 1, _ => 0);
      SumZero(n - 1);
    }
  }

  /** The bins of values in range add up to the number of values. */
  lemma {:induction false} HistogramTotal(s: seq<int>)
    requires forall i :: 0 <= i < |s| ==> 0 <= s[i] < Bins
    ensures Sum(HistogramOf(s)) == |s|
  {
    if s == [] {
      assert HistogramOf(s) == seq(Bins, _ => 0);
      SumZero(Bins);
    } else {
      HistogramTotal(s[1..]);
      HistogramCons(s);
      SumIncrement(HistogramOf(s[1..]), s[0]);
    }
  }

  /** The sum of all bins is the number of sampled pixels: height times ceil(width / pixelStride). */
  lemma FrameHistogramTotal(f: Frame)
    requires f.planes != [] ==> HistogramReadable(f.width, f.height, f.planes[0])
    ensures Sum(HistogramOf(Samples(f))) == if f.planes == [] then 0 else f.height * SamplesPerRow(f.width, f.planes[0].pixelStride)
  {
    SamplesInRange(f);
    HistogramTotal(Samples(f));
    SampleCount(f);
  }

  /** A frame without planes leaves every bin at zero. */
  lemma NoPlaneHistogram(f: Frame)
    requires f.planes == []
    ensures forall v :: 0 <= v < Bins ==> HistogramOf(Samples(f))[v] == 0
  {
  }

  /** When every byte of the plane has luma `v`, bin `v` holds every sample and the other bins are empty. */
  lemma UniformFrameHistogram(f: Frame, v: int)
    requires f.planes != [] && HistogramReadable(f.width, f.height, f.planes[0])
    requires forall i :: 0 <= i < |f.planes[0].buffer| ==> Luma(f.planes[0].buffer[i]) == v
    ensures 0 <= v < Bins
      ==> HistogramOf(Samples(f))[v] == f.height * SamplesPerRow(f.width, f.planes[0].pixelStride)
    ensures forall u :: 0 <= u < Bins && u != v ==> HistogramOf(Samples(f))[u] == 0
  {
    FrameSamplesUniform(f.planes[0], f.width, f.height, 0, v);
    OccurrencesUniform(Samples(f), v);
    SampleCount(f);
  }

  lemma {:induction false} FrameSamplesUniform(p: Plane, width: nat, height: nat, y: nat, v: int)
    requires HistogramReadable(width, height, p)
    requires forall i :: 0 <= i < |p.buffer| ==> Luma(p.buffer[i]) == v
    ensures forall i :: 0 <= i < |FrameSamplesFrom(p, width, height, y)| ==> FrameSamplesFrom(p, width, height, y)[i] == v
    decreases height - y
  {
    if y < height {
      RowSamplesUniform(p, width, height, y, 0, v);
      FrameSamplesUniform(p, width, height, y + 1, v);
    }
  }

  lemma {:induction false} RowSamplesUniform(p: Plane, width: nat, height: nat, y: nat, k: nat, v: int)
    requires HistogramReadable(width, height, p) && y < height
    requires forall i :: 0 <= i < |p.buffer| ==> Luma(p.buffer[i]) == v
    ensures forall i :: 0 <= i < |RowSamples(p, width, height, y, k)| ==> RowSamples(p, width, height, y, k)[i] == v
    decreases SamplesPerRow(width, p.pixelStride) - k
  {
    if k < SamplesPerRow(width, p.pixelStride) {
      RowOffsetFits(width, height, p, y, k);
      RowSamplesUniform(p, width, height, y, k + 1, v);
    }
  }

  lemma {:induction false} OccurrencesUniform(s: seq<int>, v: int)
    requires forall i :: 0 <= i < |s| ==> s[i] == v
    ensures Occurrences(s, v) == |s|
    ensures forall u :: u != v ==> Occurrences(s, u) == 0
  {
    if s != [] {
      OccurrencesUniform(s[1..], v);
    }
  }

  // ---------------------------------------------------------------------------
  // Arithmetic about the sampled offsets

  /** The read position of a sampled offset lies inside the row copy, hence inside the buffer. */
  lemma RowOffsetFits(width: nat, height: nat, p: Plane, y: nat, k: nat)
    requires HistogramReadable(width, height, p) && y < height
    requires k < SamplesPerRow(width, p.pixelStride)
    ensures k * p.pixelStride < p.rowStride
    ensures y * p.rowStride + k * p.pixelStride < |p.buffer|
  {
    MulMono(k, SamplesPerRow(width, p.pixelStride) - 1, p.pixelStride);
    MulMono(y + 1, height, p.rowStride);
  }

  /** The ceiling: n * step covers the width, (n - 1) * step does not. */
  lemma CeilBounds(width: nat, step: nat)
    requires step >= 1
    ensures SamplesPerRow(width, step) * step >= width
    ensures SamplesPerRow(width, step) == 0 || (SamplesPerRow(width, step) - 1) * step < width
  {
    var n := SamplesPerRow(width, step);
    var m := width + step - 1;
    assert m == n * step + m % step;
  }

  /** Sample `k` of a row is taken exactly when its offset `k * step` is below the width. */
  lemma SampleTaken(width: nat, step: nat, k: nat)
    requires step >= 1
    ensures k * step < width <==> k < SamplesPerRow(width, step)
  {
    var n := SamplesPerRow(width, step);
    CeilBounds(width, step);
    if k < n {
      MulMono(k, n - 1, step);
    } else {
      MulMono(n, k, step);
    }
  }
}
