/**
 * The zebra (overexposure) and focus-peaking grids. The frame is divided into
 * gridW x gridH cells of cellW x cellH pixels; every second pixel of every
 * second row of a cell is sampled. A cell is flagged for zebra when its mean
 * luma reaches the threshold; its peaking value is the mean Sobel gradient
 * magnitude of its samples.
 *
 * The magnitude is the floating-point square root of the integer Sobel energy
 * Gx * Gx + Gy * Gy. It is a parameter `mag` here: the model computes the
 * energy exactly and leaves the root abstract.
 */
module ZebraPeaking {
  import opened LumaFrame
  import Histogram

  /** A sampled centre (x, y). */
  type Point = (int, int)

  /** The pixel rectangle [startX, endX) x [startY, endY) of one cell. */
  datatype Rect = Rect(startX: int, endX: int, startY: int, endY: int)

  /** What the neighbour reader needs of the first plane: the farthest clamped read is in the buffer. */
  predicate SobelReadable(width: nat, height: nat, p: Plane)
  {
    width == 0 || height == 0
    || (height - 1) * p.rowStride + (width - 1) * p.pixelStride < |p.buffer|
  }

  /**
   * A luma plane whose last row is not padded to the row stride holds
   * (height - 1) * rowStride + width bytes. The neighbour reader finds every
   * byte it reads there; the histogram does not, because its row copy takes
   * rowStride bytes on the last row too and runs past the end of the buffer.
   */
  lemma UnpaddedLastRow(width: nat, height: nat, p: Plane)
    requires width >= 1 && height >= 1 && p.pixelStride == 1 && width < p.rowStride
    requires |p.buffer| == (height - 1) * p.rowStride + width
    ensures SobelReadable(width, height, p)
    ensures !Histogram.HistogramReadable(width, height, p)
  {
    assert height * p.rowStride == (height - 1) * p.rowStride + p.rowStride;
  }

  /** What the cell loops need: a plane, cells to divide into, and readable bytes. */
  predicate GridInputs(f: Frame, gridW: int, gridH: int)
  {
    HasCells(f, gridW, gridH) && SobelReadable(f.width, f.height, f.planes[0])
  }

  /** The frame has a plane and the grid at least one cell, so the cell loops run. */
  predicate HasCells(f: Frame, gridW: int, gridH: int)
  {
    f.planes != [] && gridW >= 1 && gridH >= 1
  }

  predicate InImage(c: Point, width: nat, height: nat)
  {
    0 <= c.0 < width && 0 <= c.1 < height
  }

  // ---------------------------------------------------------------------------
  // Reading the plane

  /** yAt's read position: the coordinates clamped into the image, then through the strides. */
  function ClampedOffset(p: Plane, width: nat, height: nat, px: int, py: int): (pos: nat)
    requires width >= 1 && height >= 1
    ensures pos <= (height - 1) * p.rowStride + (width - 1) * p.pixelStride
  {
    var cx := ClampInt(0, width - 1, px);
    var cy := ClampInt(0, height - 1, py);
    MulMono(cx, width - 1, p.pixelStride);
    MulMono(cy, height - 1, p.rowStride);
    cy * p.rowStride + cx * p.pixelStride
  }

  /** yAt: the luma at (px, py), edge pixels repeated outside the image. */
  function YAt(p: Plane, width: nat, height: nat, px: int, py: int): (v: int)
    requires width >= 1 && height >= 1 && SobelReadable(width, height, p)
    ensures 0 <= v < 256
  {
    Luma(p.buffer[ClampedOffset(p, width, height, px, py)])
  }

  /** Inside the image the clamp does nothing: yAt reads the pixel's own byte. */
  lemma YAtInterior(p: Plane, width: nat, height: nat, x: int, y: int)
    requires InImage((x, y), width, height) && SobelReadable(width, height, p)
    ensures ClampedOffset(p, width, height, x, y) == y * p.rowStride + x * p.pixelStride
    ensures YAt(p, width, height, x, y) == Luma(p.buffer[y * p.rowStride + x * p.pixelStride])
  {
  }

  /**
   * Outside the image yAt repeats the nearest pixel of the image: reading
   * (px, py) is reading the clamped coordinates, so a column left of the
   * image reads column 0, one right of it column width - 1, and likewise
   * for rows above and below.
   */
  lemma YAtEdge(p: Plane, width: nat, height: nat, px: int, py: int)
    requires width >= 1 && height >= 1 && SobelReadable(width, height, p)
    ensures YAt(p, width, height, px, py)
         == YAt(p, width, height, ClampInt(0, width - 1, px), ClampInt(0, height - 1, py))
    ensures px < 0 ==> YAt(p, width, height, px, py) == YAt(p, width, height, 0, py)
    ensures px >= width ==> YAt(p, width, height, px, py) == YAt(p, width, height, width - 1, py)
    ensures py < 0 ==> YAt(p, width, height, px, py) == YAt(p, width, height, px, 0)
    ensures py >= height ==> YAt(p, width, height, px, py) == YAt(p, width, height, px, height - 1)
  {
  }

  /** Horizontal Sobel response at (x, y). */
  function SobelX(p: Plane, width: nat, height: nat, x: int, y: int): int
    requires width >= 1 && height >= 1 && SobelReadable(width, height, p)
  {
    - YAt(p, width, height, x - 1, y - 1) + YAt(p, width, height, x + 1, y - 1)
    - 2 * YAt(p, width, height, x - 1, y) + 2 * YAt(p, width, height, x + 1, y)
    - YAt(p, width, height, x - 1, y + 1) + YAt(p, width, height, x + 1, y + 1)
  }

  /** Vertical Sobel response at (x, y). */
  function SobelY(p: Plane, width: nat, height: nat, x: int, y: int): int
    requires width >= 1 && height >= 1 && SobelReadable(width, height, p)
  {
    YAt(p, width, height, x - 1, y - 1) + 2 * YAt(p, width, height, x, y - 1) + YAt(p, width, height, x + 1, y - 1)
    - YAt(p, width, height, x - 1, y + 1) - 2 * YAt(p, width, height, x, y + 1) - YAt(p, width, height, x + 1, y + 1)
  }

  /** The integer Gx * Gx + Gy * Gy whose square root is the gradient magnitude. */
  function Energy(p: Plane, width: nat, height: nat, x: int, y: int): nat
    requires width >= 1 && height >= 1 && SobelReadable(width, height, p)
  {
    Square(SobelX(p, width, height, x, y)) + Square(SobelY(p, width, height, x, y))
  }

  function Square(a: int): nat
  {
    MulMono(0, if a < 0 then -a else a, if a < 0 then -a else a);
    a * a
  }

  /** Each response is at most 4 * 255, so the energy fits comfortably in a 32-bit Int. */
  lemma EnergyBound(p: Plane, width: nat, height: nat, x: int, y: int)
    requires width >= 1 && height >= 1 && SobelReadable(width, height, p)
    ensures -1020 <= SobelX(p, width, height, x, y) <= 1020
    ensures -1020 <= SobelY(p, width, height, x, y) <= 1020
    ensures Energy(p, width, height, x, y) <= 2 * 1020 * 1020 < 0x8000_0000
  {
    var gx := SobelX(p, width, height, x, y);
    var gy := SobelY(p, width, height, x, y);
    SquareBound(gx, 1020);
    SquareBound(gy, 1020);
    assert Energy(p, width, height, x, y) == gx * gx + gy * gy;
  }

  lemma SquareBound(a: int, b: int)
    requires 0 <= b && -b <= a <= b
    ensures a * a <= b * b
  {
    if a < 0 {
      MulMono(-a, b, -a);
      MulMono(-a, b, b);
    } else {
      MulMono(a, b, a);
      MulMono(a, b, b);
    }
  }

  /** Where the plane is flat (every byte the same luma) there is no gradient. */
  lemma FlatPlaneNoGradient(p: Plane, width: nat, height: nat, x: int, y: int, v: int)
    requires width >= 1 && height >= 1 && SobelReadable(width, height, p)
    requires forall i :: 0 <= i < |p.buffer| ==> Luma(p.buffer[i]) == v
    ensures Energy(p, width, height, x, y) == 0
  {
    forall px: int, py: int
      ensures YAt(p, width, height, px, py) == v
    {
    }
  }

  // ---------------------------------------------------------------------------
  // Cell geometry and sampled centres

  /** max(1, extent / cells): the size of a cell along one axis. */
  function CellSize(extent: nat, cells: int): (c: nat)
    requires cells >= 1
    ensures c >= 1
    ensures extent >= cells ==> c * cells <= extent
  {
    if extent / cells >= 1 then extent / cells else 1
  }

  /** The rectangle of cell (gx, gy): [gx * cellW, min(width, gx * cellW + cellW)) and the same vertically. */
  function CellRect(width: nat, height: nat, gridW: int, gridH: int, gx: nat, gy: nat): Rect
    requires gridW >= 1 && gridH >= 1
  {
    var cellW := CellSize(width, gridW);
    var cellH := CellSize(height, gridH);
    var startX := gx * cellW;
    var startY := gy * cellH;
    Rect(startX, Min(width, startX + cellW), startY, Min(height, startY + cellH))
  }

  /** The centres of row `y` from column `x` on, every second column, up to `endX`. */
  function RowCenters(x: int, endX: int, y: int): seq<Point>
    decreases endX - x
  {
    if x >= endX then [] else [(x, y)] + RowCenters(x + 2, endX, y)
  }

  /** The centres of rows `y`, `y + 2`, ... of the rectangle, row by row. */
  function CentersFrom(y: int, r: Rect): seq<Point>
    decreases r.endY - y
  {
    if y >= r.endY then [] else RowCenters(r.startX, r.endX, y) + CentersFrom(y + 2, r)
  }

  /** Every centre sampled in rectangle `r`, in the order the loops visit them; each lies in `r`. */
  function Centers(r: Rect): (s: seq<Point>)
    ensures forall c | c in s :: r.startX <= c.0 < r.endX && r.startY <= c.1 < r.endY
  {
    forall c | c in CentersFrom(r.startY, r)
      ensures r.startX <= c.0 < r.endX && r.startY <= c.1 < r.endY
    {
      CentersFromMembership(r.startY, r, c);
    }
    CentersFrom(r.startY, r)
  }

  /** A point is sampled in `r` exactly when it lies in `r` at an even offset from its corner. */
  predicate OnSamplingLattice(c: Point, r: Rect)
  {
    && r.startX <= c.0 < r.endX && (c.0 - r.startX) % 2 == 0
    && r.startY <= c.1 < r.endY && (c.1 - r.startY) % 2 == 0
  }

  lemma {:induction false} RowCentersMembership(x: int, endX: int, y: int, c: Point)
    ensures c in RowCenters(x, endX, y) <==> c.1 == y && x <= c.0 < endX && (c.0 - x) % 2 == 0
    decreases endX - x
  {
    if x < endX {
      RowCentersMembership(x + 2, endX, y, c);
    }
  }

  lemma {:induction false} CentersFromMembership(y: int, r: Rect, c: Point)
    ensures c in CentersFrom(y, r) <==>
      r.startX <= c.0 < r.endX && (c.0 - r.startX) % 2 == 0 && y <= c.1 < r.endY && (c.1 - y) % 2 == 0
    decreases r.endY - y
  {
    if y < r.endY {
      RowCentersMembership(r.startX, r.endX, y, c);
      CentersFromMembership(y + 2, r, c);
    }
  }

  /** The sampled centres of a rectangle are exactly its points at even offsets from its corner. */
  lemma CentersMembership(r: Rect, c: Point)
    ensures c in Centers(r) <==> OnSamplingLattice(c, r)
  {
    CentersFromMembership(r.startY, r, c);
  }

  /** (n + 1) / 2: how many of 0, 2, 4, ... lie below n. */
  function Half(n: int): nat
  {
    if n <= 0 then 0 else (n + 1) / 2
  }

  lemma {:induction false} RowCentersCount(x: int, endX: int, y: int)
    ensures |RowCenters(x, endX, y)| == Half(endX - x)
    decreases endX - x
  {
    if x < endX {
      RowCentersCount(x + 2, endX, y);
    }
  }

  lemma {:induction false} CentersFromCount(y: int, r: Rect)
    ensures |CentersFrom(y, r)| == Half(r.endX - r.startX) * Half(r.endY - y)
    decreases r.endY - y
  {
    if y < r.endY {
      RowCentersCount(r.startX, r.endX, y);
      CentersFromCount(y + 2, r);
      assert Half(r.endY - y) == 1 + Half(r.endY - (y + 2));
    }
  }

  /** A cell samples ceil(w / 2) columns times ceil(h / 2) rows of its w x h rectangle. */
  lemma CentersCount(r: Rect)
    ensures |Centers(r)| == Half(r.endX - r.startX) * Half(r.endY - r.startY)
  {
    CentersFromCount(r.startY, r);
  }

  /** Every sampled centre of a cell lies inside the image. */
  lemma CellCentersInImage(width: nat, height: nat, gridW: int, gridH: int, gx: nat, gy: nat)
    requires gridW >= 1 && gridH >= 1
    ensures forall c | c in Centers(CellRect(width, height, gridW, gridH, gx, gy)) :: InImage(c, width, height)
  {
    var r := CellRect(width, height, gridW, gridH, gx, gy);
    forall c | c in Centers(r) ensures InImage(c, width, height) {
      CentersMembership(r, c);
    }
  }

  /**
   * Pixels right of gridW * cellW or below gridH * cellH are sampled by no
   * cell: the remainder of the division is not folded into the last cells.
   */
  lemma RemainderNeverSampled(width: nat, height: nat, gridW: int, gridH: int, gx: nat, gy: nat, c: Point)
    requires gridW >= 1 && gridH >= 1 && gx < gridW && gy < gridH
    requires c.0 >= gridW * CellSize(width, gridW) || c.1 >= gridH * CellSize(height, gridH)
    ensures c !in Centers(CellRect(width, height, gridW, gridH, gx, gy))
  {
    var r := CellRect(width, height, gridW, gridH, gx, gy);
    var cellW, cellH := CellSize(width, gridW), CellSize(height, gridH);
    MulMono(gx + 1, gridW, cellW);
    MulMono(gy + 1, gridH, cellH);
    assert (gx + 1) * cellW == gx * cellW + cellW;
    assert (gy + 1) * cellH == gy * cellH + cellH;
    assert r.endX <= gridW * cellW && r.endY <= gridH * cellH;
    CentersMembership(r, c);
  }

  /** Two different cells never sample the same pixel. */
  lemma CellsDisjoint(width: nat, height: nat, gridW: int, gridH: int, gx: nat, gy: nat, gx': nat, gy': nat, c: Point)
    requires gridW >= 1 && gridH >= 1
    requires (gx, gy) != (gx', gy')
    requires c in Centers(CellRect(width, height, gridW, gridH, gx, gy))
    ensures c !in Centers(CellRect(width, height, gridW, gridH, gx', gy'))
  {
    var r := CellRect(width, height, gridW, gridH, gx, gy);
    var r' := CellRect(width, height, gridW, gridH, gx', gy');
    CentersMembership(r, c);
    CentersMembership(r', c);
    if c in Centers(r') {
      var cellW, cellH := CellSize(width, gridW), CellSize(height, gridH);
      if gx != gx' {
        SameBlock(c.0, gx, gx', cellW);
      } else {
        SameBlock(c.1, gy, gy', cellH);
      }
    }
  }

  /** A coordinate lies in at most one block [g * size, g * size + size). */
  lemma SameBlock(v: int, g: nat, g': nat, size: nat)
    requires size >= 1
    requires g * size <= v < g * size + size && g' * size <= v < g' * size + size
    ensures g == g'
  {
    if g < g' {
      MulMono(g + 1, g', size);
    } else if g' < g {
      MulMono(g' + 1, g, size);
    }
  }

  // ---------------------------------------------------------------------------
  // Per-cell accumulators

  /** yAt as a function of the point: the luma at a point of the image (0 elsewhere, never read). */
  function LumaReader(p: Plane, width: nat, height: nat): Point -> int
    requires SobelReadable(width, height, p)
  {
    c => if InImage(c, width, height) then YAt(p, width, height, c.0, c.1) else 0
  }

  /** The gradient magnitude at a point of the image, `sqrt(gx * gx + gy * gy)` (0 elsewhere, never read). */
  function GradReader(p: Plane, width: nat, height: nat, mag: nat -> real): Point -> real
    requires SobelReadable(width, height, p)
  {
    c => if InImage(c, width, height) then mag(Energy(p, width, height, c.0, c.1)) else 0.0
  }

  /** `luma` and `grad` agree with yAt and the gradient magnitude at every point of the image. */
  ghost predicate Readers(p: Plane, width: nat, height: nat, mag: nat -> real, luma: Point -> int, grad: Point -> real)
    requires SobelReadable(width, height, p)
  {
    && (forall x: int, y: int {:trigger YAt(p, width, height, x, y)} :: InImage((x, y), width, height) ==>
          luma((x, y)) == YAt(p, width, height, x, y))
    && (forall x: int, y: int {:trigger Energy(p, width, height, x, y)} :: InImage((x, y), width, height) ==>
          grad((x, y)) == mag(Energy(p, width, height, x, y)))
  }

  lemma ReadersRead(p: Plane, width: nat, height: nat, mag: nat -> real)
    requires SobelReadable(width, height, p)
    ensures Readers(p, width, height, mag, LumaReader(p, width, height), GradReader(p, width, height, mag))
  {
  }

  /** The sum of `value` over the points of s. */
  function SumAt(value: Point -> int, s: seq<Point>): int
  {
    if s == [] then 0 else value(s[0]) + SumAt(value, s[1..])
  }

  /** The sum of `value` over the points of s. */
  function RealSumAt(value: Point -> real, s: seq<Point>): real
  {
    if s == [] then 0.0 else value(s[0]) + RealSumAt(value, s[1..])
  }

  /** A sum over n values in [0, 255] is in [0, 255 * n]. */
  lemma {:induction false} SumAtBound(value: Point -> int, s: seq<Point>)
    requires forall c | c in s :: 0 <= value(c) <= 255
    ensures 0 <= SumAt(value, s) <= 255 * |s|
  {
    if s != [] {
      assert s[0] in s;
      assert forall c | c in s[1..] :: c in s;
      SumAtBound(value, s[1..]);
    }
  }

  lemma {:induction false} RealSumAtNonNegative(value: Point -> real, s: seq<Point>)
    requires forall c | c in s :: 0.0 <= value(c)
    ensures 0.0 <= RealSumAt(value, s)
  {
    if s != [] {
      assert s[0] in s;
      assert forall c | c in s[1..] :: c in s;
      RealSumAtNonNegative(value, s[1..]);
    }
  }

  lemma {:induction false} SumAtAppend(value: Point -> int, a: seq<Point>, b: seq<Point>)
    ensures SumAt(value, a + b) == SumAt(value, a) + SumAt(value, b)
  {
    if a == [] {
      assert a + b == b;
    } else {
      assert (a + b)[0] == a[0] && (a + b)[1..] == a[1..] + b;
      SumAtAppend(value, a[1..], b);
    }
  }

  lemma {:induction false} RealSumAtAppend(value: Point -> real, a: seq<Point>, b: seq<Point>)
    ensures RealSumAt(value, a + b) == RealSumAt(value, a) + RealSumAt(value, b)
  {
    if a == [] {
      assert a + b == b;
    } else {
      assert (a + b)[0] == a[0] && (a + b)[1..] == a[1..] + b;
      RealSumAtAppend(value, a[1..], b);
    }
  }

  /**
   * The sample at (x, y) of the innermost loop: its luma, read directly at
   * `base + x * pixelStride`, and the magnitude of its 3x3 Sobel gradient.
   */
  method Sample(p: Plane, width: nat, height: nat, x: int, y: int, base: int, mag: nat -> real,
                ghost luma: Point -> int, ghost grad: Point -> real)
    returns (v: int, m: real)
    requires SobelReadable(width, height, p) && Readers(p, width, height, mag, luma, grad)
    requires InImage((x, y), width, height) && base == y * p.rowStride
    ensures v == luma((x, y)) && m == grad((x, y))
  {
    YAtInterior(p, width, height, x, y);
    var pos := base + x * p.pixelStride;
    v := Luma(p.buffer[pos]);
    var gxv := SobelX(p, width, height, x, y);
    var gyv := SobelY(p, width, height, x, y);
    assert gxv * gxv + gyv * gyv == Energy(p, width, height, x, y);
    m := mag(gxv * gxv + gyv * gyv);
  }

  /**
   * The two inner loops of computeZebraAndPeaking for one cell: the luma sum,
   * the sample count and the accumulated gradient magnitude over its centres.
   */
  method CellStats(p: Plane, width: nat, height: nat, r: Rect, mag: nat -> real,
                   ghost luma: Point -> int, ghost grad: Point -> real)
    returns (sum: int, count: nat, gradAccum: real)
    requires SobelReadable(width, height, p) && Readers(p, width, height, mag, luma, grad)
    requires 0 <= r.startX && r.endX <= width && 0 <= r.startY && r.endY <= height
    ensures sum == SumAt(luma, Centers(r))
    ensures count == |Centers(r)|
    ensures gradAccum == RealSumAt(grad, Centers(r))
  {
    sum, count, gradAccum := 0, 0, 0.0;
    var y := r.startY;
    while y < r.endY
      invariant r.startY <= y
      invariant forall c | c in CentersFrom(y, r) :: InImage(c, width, height)
      invariant sum + SumAt(luma, CentersFrom(y, r)) == SumAt(luma, Centers(r))
      invariant count + |CentersFrom(y, r)| == |Centers(r)|
      invariant gradAccum + RealSumAt(grad, CentersFrom(y, r)) == RealSumAt(grad, Centers(r))
      decreases r.endY - y
    {
      SplitFirstRow(y, r, luma, grad);
      sum, count, gradAccum := AccumulateRow(p, width, height, y, r.startX, r.endX, mag, luma, grad, sum, count, gradAccum);
      y := y + 2;
    }
  }

  /** The centres from row y on are row y's centres followed by those from row y + 2 on, and the sums split accordingly. */
  lemma SplitFirstRow(y: int, r: Rect, luma: Point -> int, grad: Point -> real)
    requires y < r.endY
    ensures CentersFrom(y, r) == RowCenters(r.startX, r.endX, y) + CentersFrom(y + 2, r)
    ensures SumAt(luma, CentersFrom(y, r)) == SumAt(luma, RowCenters(r.startX, r.endX, y)) + SumAt(luma, CentersFrom(y + 2, r))
    ensures RealSumAt(grad, CentersFrom(y, r)) == RealSumAt(grad, RowCenters(r.startX, r.endX, y)) + RealSumAt(grad, CentersFrom(y + 2, r))
  {
    SumAtAppend(luma, RowCenters(r.startX, r.endX, y), CentersFrom(y + 2, r));
    RealSumAtAppend(grad, RowCenters(r.startX, r.endX, y), CentersFrom(y + 2, r));
  }

  /** The innermost loop: adds the samples of row `y` of a cell to the running accumulators. */
  method AccumulateRow(p: Plane, width: nat, height: nat, y: int, startX: int, endX: int, mag: nat -> real,
                       ghost luma: Point -> int, ghost grad: Point -> real,
                       sum0: int, count0: nat, grad0: real)
    returns (sum: int, count: nat, gradAccum: real)
    requires SobelReadable(width, height, p) && Readers(p, width, height, mag, luma, grad)
    requires forall c | c in RowCenters(startX, endX, y) :: InImage(c, width, height)
    ensures sum == sum0 + SumAt(luma, RowCenters(startX, endX, y))
    ensures count == count0 + |RowCenters(startX, endX, y)|
    ensures gradAccum == grad0 + RealSumAt(grad, RowCenters(startX, endX, y))
  {
    sum, count, gradAccum := sum0, count0, grad0;
    var x := startX;
    var base := y * p.rowStride;
    while x < endX
      invariant startX <= x
      invariant forall c | c in RowCenters(x, endX, y) :: InImage(c, width, height)
      invariant sum + SumAt(luma, RowCenters(x, endX, y)) == sum0 + SumAt(luma, RowCenters(startX, endX, y))
      invariant count + |RowCenters(x, endX, y)| == count0 + |RowCenters(startX, endX, y)|
      invariant gradAccum + RealSumAt(grad, RowCenters(x, endX, y)) == grad0 + RealSumAt(grad, RowCenters(startX, endX, y))
      decreases endX - x
    {
      ghost var rest := RowCenters(x, endX, y);
      assert rest[0] == (x, y) && rest[1..] == RowCenters(x + 2, endX, y);
      assert (x, y) in rest;
      var v, m := Sample(p, width, height, x, y, base, mag, luma, grad);
      sum := sum + v;
      gradAccum := gradAccum + m;
      count := count + 1;
      assert forall c | c in rest[1..] :: c in rest;
      x := x + 2;
    }
  }

  // ---------------------------------------------------------------------------
  // Cell values

  /** `(sum / count).toInt()`, or 0 for a cell without samples. */
  function Mean(sum: int, count: nat): int
  {
    if count > 0 then sum / count else 0
  }

  /** The peaking value of a cell from its accumulators: `gradAccum / max(1, count)`. */
  function PeakingValue(gradAccum: real, count: nat): real
  {
    gradAccum / (if count >= 1 then count as real else 1.0)
  }

  /** The mean luma of cell (gx, gy) of frame `f`, 0 when it has no samples. */
  function CellMean(f: Frame, gridW: int, gridH: int, gx: nat, gy: nat): int
    requires GridInputs(f, gridW, gridH)
  {
    var r := CellRect(f.width, f.height, gridW, gridH, gx, gy);
    Mean(SumAt(LumaReader(f.planes[0], f.width, f.height), Centers(r)), |Centers(r)|)
  }

  /** The zebra flag of cell (gx, gy) of frame `f`: `avg >= zebraThreshold`. */
  function ZebraAt(f: Frame, gridW: int, gridH: int, zebraThreshold: int, gx: nat, gy: nat): bool
    requires GridInputs(f, gridW, gridH)
  {
    CellMean(f, gridW, gridH, gx, gy) >= zebraThreshold
  }

  /** The peaking value of cell (gx, gy) of frame `f`. */
  function PeakingAt(f: Frame, gridW: int, gridH: int, mag: nat -> real, gx: nat, gy: nat): real
    requires GridInputs(f, gridW, gridH)
  {
    var r := CellRect(f.width, f.height, gridW, gridH, gx, gy);
    PeakingValue(RealSumAt(GradReader(f.planes[0], f.width, f.height, mag), Centers(r)), |Centers(r)|)
  }

  /** The mean luma of a cell is a luma value, so the Long-to-Int conversion loses nothing. */
  lemma MeanIsLuma(f: Frame, gridW: int, gridH: int, gx: nat, gy: nat)
    requires GridInputs(f, gridW, gridH)
    ensures 0 <= CellMean(f, gridW, gridH, gx, gy) <= 255
  {
    var r := CellRect(f.width, f.height, gridW, gridH, gx, gy);
    var sum := SumAt(LumaReader(f.planes[0], f.width, f.height), Centers(r));
    var n := |Centers(r)|;
    SumAtBound(LumaReader(f.planes[0], f.width, f.height), Centers(r));
    if n > 0 {
      DivBound(sum, n, 255);
    }
  }

  lemma DivBound(a: int, n: nat, b: nat)
    requires n >= 1 && 0 <= a <= b * n
    ensures 0 <= a / n <= b
  {
    var q := a / n;
    assert q * n <= a;
    assert (b - q) * n == b * n - q * n;
    assert (b - q) * n >= 0;
  }

  lemma RealDivNonNegative(a: real, d: real)
    requires 0.0 <= a && 1.0 <= d
    ensures 0.0 <= a / d
  {
  }

  /** Raising the zebra threshold can only turn flags off. */
  lemma ZebraMonotone(f: Frame, gridW: int, gridH: int, t1: int, t2: int, gx: nat, gy: nat)
    requires GridInputs(f, gridW, gridH) && t1 <= t2
    ensures ZebraAt(f, gridW, gridH, t2, gx, gy) ==> ZebraAt(f, gridW, gridH, t1, gx, gy)
  {
  }

  /** A cell without samples has mean 0: it is flagged only for a threshold of 0 or less, and its peaking value is 0. */
  lemma EmptyCell(f: Frame, gridW: int, gridH: int, zebraThreshold: int, mag: nat -> real, gx: nat, gy: nat)
    requires GridInputs(f, gridW, gridH)
    requires |Centers(CellRect(f.width, f.height, gridW, gridH, gx, gy))| == 0
    ensures ZebraAt(f, gridW, gridH, zebraThreshold, gx, gy) == (zebraThreshold <= 0)
    ensures PeakingAt(f, gridW, gridH, mag, gx, gy) == 0.0
  {
    var r := CellRect(f.width, f.height, gridW, gridH, gx, gy);
    assert Centers(r) == [];
  }

  /** With a non-negative magnitude every peaking value is non-negative. */
  lemma PeakingNonNegative(f: Frame, gridW: int, gridH: int, mag: nat -> real, gx: nat, gy: nat)
    requires GridInputs(f, gridW, gridH)
    requires forall e: nat :: 0.0 <= mag(e)
    ensures 0.0 <= PeakingAt(f, gridW, gridH, mag, gx, gy)
  {
    var r := CellRect(f.width, f.height, gridW, gridH, gx, gy);
    var grad := GradReader(f.planes[0], f.width, f.height, mag);
    var total := RealSumAt(grad, Centers(r));
    forall c | c in Centers(r)
      ensures 0.0 <= grad(c)
    {
      if InImage(c, f.width, f.height) {
        assert 0.0 <= mag(Energy(f.planes[0], f.width, f.height, c.0, c.1));
      }
    }
    RealSumAtNonNegative(grad, Centers(r));
    var d := if |Centers(r)| >= 1 then |Centers(r)| as real else 1.0;
    assert PeakingAt(f, gridW, gridH, mag, gx, gy) == total / d;
    RealDivNonNegative(total, d);
  }

  // ---------------------------------------------------------------------------
  // The grid

  /** Cell (gx, gy) is stored at gy * gridW + gx, inside the grid. */
  lemma CellIndexInGrid(gridW: int, gridH: int, gx: nat, gy: nat)
    requires gridW >= 1 && gx < gridW && gy < gridH
    ensures 0 <= GridIndex(gridW, gx, gy) < gridW * gridH
  {
    MulMono(gy + 1, gridH, gridW);
  }

  /** Cells in row-major order have increasing indices, so no two cells share a slot. */
  lemma CellIndexOrder(gridW: int, gx: nat, gy: nat, gx': nat, gy': nat)
    requires gx < gridW && gx' < gridW
    requires gy < gy' || (gy == gy' && gx < gx')
    ensures GridIndex(gridW, gx, gy) < GridIndex(gridW, gx', gy')
  {
    if gy < gy' {
      MulMono(gy + 1, gy', gridW);
    }
  }

  /** Where cell (gx, gy) is stored: row-major, gy * gridW + gx. */
  function GridIndex(gridW: int, gx: nat, gy: nat): int
  {
    gy * gridW + gx
  }

  /**
   * The expected grids as rows of cells: row gy, entry gx holds the zebra
   * flag (the peaking value) of cell (gx, gy).
   */
  ghost predicate IsCellGrid(f: Frame, gridW: int, gridH: int, zebraThreshold: int, mag: nat -> real,
                             zebraRows: seq<seq<bool>>, peakingRows: seq<seq<real>>)
    requires GridInputs(f, gridW, gridH)
  {
    && |zebraRows| == gridH && |peakingRows| == gridH
    && Rectangular(zebraRows, gridW) && Rectangular(peakingRows, gridW)
    && (forall y, x {:trigger ZebraAt(f, gridW, gridH, zebraThreshold, x, y)} :: 0 <= y < gridH && 0 <= x < gridW ==>
          zebraRows[y][x] == ZebraAt(f, gridW, gridH, zebraThreshold, x, y))
    && (forall y, x {:trigger PeakingAt(f, gridW, gridH, mag, x, y)} :: 0 <= y < gridH && 0 <= x < gridW ==>
          peakingRows[y][x] == PeakingAt(f, gridW, gridH, mag, x, y))
  }

  /** The expected grids exist: every cell's values, row by row. */
  lemma CellGrid(f: Frame, gridW: int, gridH: int, zebraThreshold: int, mag: nat -> real)
    returns (zebraRows: seq<seq<bool>>, peakingRows: seq<seq<real>>)
    requires GridInputs(f, gridW, gridH)
    ensures IsCellGrid(f, gridW, gridH, zebraThreshold, mag, zebraRows, peakingRows)
  {
    zebraRows := seq(gridH, y requires 0 <= y < gridH =>
      seq(gridW, x requires 0 <= x < gridW => ZebraAt(f, gridW, gridH, zebraThreshold, x, y)));
    peakingRows := seq(gridH, y requires 0 <= y < gridH =>
      seq(gridW, x requires 0 <= x < gridW => PeakingAt(f, gridW, gridH, mag, x, y)));
  }

  /** The body of the inner loop: the zebra flag and peaking value of cell (gx, gy). */
  method ComputeCell(f: Frame, gridW: int, gridH: int, zebraThreshold: int, mag: nat -> real, gx: nat, gy: nat,
                     ghost zebraRows: seq<seq<bool>>, ghost peakingRows: seq<seq<real>>)
    returns (zebra: bool, peaking: real)
    requires GridInputs(f, gridW, gridH) && gx < gridW && gy < gridH
    requires IsCellGrid(f, gridW, gridH, zebraThreshold, mag, zebraRows, peakingRows)
    ensures zebra == zebraRows[gy][gx] && peaking == peakingRows[gy][gx]
  {
    var cellW := CellSize(f.width, gridW);
    var cellH := CellSize(f.height, gridH);
    var startX := gx * cellW;
    var startY := gy * cellH;
    var endX := Min(f.width, startX + cellW);
    var endY := Min(f.height, startY + cellH);
    ghost var luma, grad := CellEntry(f, gridW, gridH, zebraThreshold, mag, gx, gy, zebraRows, peakingRows);
    var sum, count, gradAccum := CellStats(f.planes[0], f.width, f.height, Rect(startX, endX, startY, endY), mag, luma, grad);
    var avg := if count > 0 then sum / count else 0;
    zebra := avg >= zebraThreshold;
    peaking := gradAccum / (if count >= 1 then count as real else 1.0);
  }

  /** The stored entry of cell (gx, gy) in terms of readers of the first plane. */
  lemma CellEntry(f: Frame, gridW: int, gridH: int, zebraThreshold: int, mag: nat -> real, gx: nat, gy: nat,
                  zebraRows: seq<seq<bool>>, peakingRows: seq<seq<real>>)
    returns (luma: Point -> int, grad: Point -> real)
    requires GridInputs(f, gridW, gridH) && gx < gridW && gy < gridH
    requires IsCellGrid(f, gridW, gridH, zebraThreshold, mag, zebraRows, peakingRows)
    ensures Readers(f.planes[0], f.width, f.height, mag, luma, grad)
    ensures var r := CellRect(f.width, f.height, gridW, gridH, gx, gy);
      zebraRows[gy][gx] == (Mean(SumAt(luma, Centers(r)), |Centers(r)|) >= zebraThreshold)
    ensures var r := CellRect(f.width, f.height, gridW, gridH, gx, gy);
      peakingRows[gy][gx] == PeakingValue(RealSumAt(grad, Centers(r)), |Centers(r)|)
  {
    luma, grad := LumaReader(f.planes[0], f.width, f.height), GradReader(f.planes[0], f.width, f.height, mag);
    ReadersRead(f.planes[0], f.width, f.height, mag);
    assert zebraRows[gy][gx] == ZebraAt(f, gridW, gridH, zebraThreshold, gx, gy);
    assert peakingRows[gy][gx] == PeakingAt(f, gridW, gridH, mag, gx, gy);
  }

  /** The indices 0, 1, ..., n - 1 in increasing order. */
  function Upto(n: nat): (s: seq<int>)
    ensures |s| == n && forall i :: 0 <= i < n ==> s[i] == i
  {
    if n == 0 then [] else Upto(n - 1) + [n - 1]
  }

  /** The rows of a grid laid end to end: its row-major storage. */
  function Flatten<T>(rows: seq<seq<T>>): seq<T>
  {
    if rows == [] then [] else Flatten(rows[..|rows| - 1]) + rows[|rows| - 1]
  }

  /** Every row has width w. */
  predicate Rectangular<T>(rows: seq<seq<T>>, w: nat)
  {
    forall i :: 0 <= i < |rows| ==> |rows[i]| == w
  }

  lemma FlattenAppend<T>(rows: seq<seq<T>>, row: seq<T>)
    ensures Flatten(rows + [row]) == Flatten(rows) + row
  {
    assert (rows + [row])[..|rows|] == rows;
  }

  /** n rows of width w take n * w entries. */
  lemma {:induction false} FlattenLength<T>(rows: seq<seq<T>>, w: nat)
    requires Rectangular(rows, w)
    ensures |Flatten(rows)| == |rows| * w
  {
    if rows != [] {
      var n := |rows| - 1;
      assert Rectangular(rows[..n], w);
      FlattenLength(rows[..n], w);
      assert |Flatten(rows)| == |Flatten(rows[..n])| + |rows[n]|;
      assert n * w + w == |rows| * w;
    }
  }

  /** Entry gy * w + gx of the storage is cell (gx, gy). */
  lemma {:induction false} FlattenIndex<T>(rows: seq<seq<T>>, w: nat, gx: nat, gy: nat)
    requires Rectangular(rows, w) && gx < w && gy < |rows|
    ensures 0 <= GridIndex(w, gx, gy) < |Flatten(rows)|
    ensures Flatten(rows)[GridIndex(w, gx, gy)] == rows[gy][gx]
  {
    var n := |rows| - 1;
    var init := rows[..n];
    assert Rectangular(init, w);
    FlattenLength(init, w);
    FlattenLength(rows, w);
    CellIndexInGrid(w, |rows|, gx, gy);
    if gy < n {
      FlattenIndex(init, w, gx, gy);
      assert init[gy] == rows[gy];
    } else {
      assert GridIndex(w, gx, gy) == |Flatten(init)| + gx;
    }
  }

  /**
   * One pass of the inner loop: cells (0, gy) .. (gridW - 1, gy), stored from
   * `base` (gy * gridW at the call) on.
   */
  method FillRow(f: Frame, zebraGrid: array<bool>, peakingGrid: array<real>,
                 gridW: int, gridH: int, zebraThreshold: int, mag: nat -> real, gy: nat, base: nat,
                 ghost written0: seq<int>, ghost zebraRows: seq<seq<bool>>, ghost peakingRows: seq<seq<real>>)
    returns (ghost written: seq<int>)
    requires GridInputs(f, gridW, gridH) && gy < gridH
    requires IsCellGrid(f, gridW, gridH, zebraThreshold, mag, zebraRows, peakingRows)
    requires base + gridW <= zebraGrid.Length && base + gridW <= peakingGrid.Length
    requires written0 == Upto(base)
    modifies zebraGrid, peakingGrid
    ensures written == Upto(base + gridW)
    ensures forall i :: 0 <= i < gridW ==> zebraGrid[base + i] == zebraRows[gy][i]
    ensures forall i :: 0 <= i < gridW ==> peakingGrid[base + i] == peakingRows[gy][i]
    ensures forall i :: 0 <= i < zebraGrid.Length && !(base <= i < base + gridW) ==> zebraGrid[i] == old(zebraGrid[i])
    ensures forall i :: 0 <= i < peakingGrid.Length && !(base <= i < base + gridW) ==> peakingGrid[i] == old(peakingGrid[i])
  {
    written := written0;
    var gx := 0;
    while gx < gridW
      invariant 0 <= gx <= gridW
      invariant written == Upto(base + gx)
      invariant forall i :: 0 <= i < gx ==> zebraGrid[base + i] == zebraRows[gy][i]
      invariant forall i :: 0 <= i < gx ==> peakingGrid[base + i] == peakingRows[gy][i]
      invariant forall i :: 0 <= i < zebraGrid.Length && !(base <= i < base + gx) ==> zebraGrid[i] == old(zebraGrid[i])
      invariant forall i :: 0 <= i < peakingGrid.Length && !(base <= i < base + gx) ==> peakingGrid[i] == old(peakingGrid[i])
    {
      var zebra, peaking := ComputeCell(f, gridW, gridH, zebraThreshold, mag, gx, gy, zebraRows, peakingRows);
      zebraGrid[base + gx] := zebra;
      peakingGrid[base + gx] := peaking;
      written := written + [base + gx];
      gx := gx + 1;
    }
  }

  /**
   * computeZebraAndPeaking: clears both grids; when the frame has a plane and
   * the grid has cells, assigns every cell in row-major order, each index
   * exactly once (the ghost `written` lists the assigned indices in order),
   * cell (gx, gy) at gy * gridW + gx. Entries past gridW * gridH stay
   * cleared. A grid size of 0 divides by zero when the cell size is
   * computed; a negative one leaves the cell loops without a single pass.
   */
  method ComputeZebraAndPeaking(f: Frame, zebraGrid: array<bool>, peakingGrid: array<real>,
                                gridW: int, gridH: int, zebraThreshold: int, mag: nat -> real)
    returns (ghost written: seq<int>)
    requires f.planes != [] ==> gridW != 0 && gridH != 0
    requires HasCells(f, gridW, gridH) ==> SobelReadable(f.width, f.height, f.planes[0])
    requires HasCells(f, gridW, gridH) ==> zebraGrid.Length >= gridW * gridH && peakingGrid.Length >= gridW * gridH
    modifies zebraGrid, peakingGrid
    ensures !HasCells(f, gridW, gridH) ==>
      && written == []
      && (forall i :: 0 <= i < zebraGrid.Length ==> !zebraGrid[i])
      && (forall i :: 0 <= i < peakingGrid.Length ==> peakingGrid[i] == 0.0)
    ensures HasCells(f, gridW, gridH) ==> written == Upto(gridW * gridH)
    ensures HasCells(f, gridW, gridH) ==> GridHolds(f, zebraGrid[..], peakingGrid[..], gridW, gridH, zebraThreshold, mag)
    ensures HasCells(f, gridW, gridH) ==>
      && (forall i :: gridW * gridH <= i < zebraGrid.Length ==> !zebraGrid[i])
      && (forall i :: gridW * gridH <= i < peakingGrid.Length ==> peakingGrid[i] == 0.0)
  {
    forall i | 0 <= i < zebraGrid.Length {
      zebraGrid[i] := false;
    }
    forall i | 0 <= i < peakingGrid.Length {
      peakingGrid[i] := 0.0;
    }
    written := [];
    if f.planes == [] {
      return;
    }
    if gridW < 1 || gridH < 1 {
      // the row loop (gy < gridH) or every column loop (gx < gridW) is skipped
      return;
    }
    ghost var zebraRows, peakingRows := CellGrid(f, gridW, gridH, zebraThreshold, mag);
    written := FillGrid(f, zebraGrid, peakingGrid, gridW, gridH, zebraThreshold, mag, zebraRows, peakingRows);
    StoredGrid(f, zebraGrid[..], peakingGrid[..], gridW, gridH, zebraThreshold, mag, zebraRows, peakingRows);
  }

  /** The outer loop over the rows of cells, on cleared grids: lays the expected rows end to end. */
  method FillGrid(f: Frame, zebraGrid: array<bool>, peakingGrid: array<real>,
                  gridW: int, gridH: int, zebraThreshold: int, mag: nat -> real,
                  ghost zebraRows: seq<seq<bool>>, ghost peakingRows: seq<seq<real>>)
    returns (ghost written: seq<int>)
    requires GridInputs(f, gridW, gridH)
    requires IsCellGrid(f, gridW, gridH, zebraThreshold, mag, zebraRows, peakingRows)
    requires zebraGrid.Length >= gridW * gridH && peakingGrid.Length >= gridW * gridH
    requires forall i :: 0 <= i < zebraGrid.Length ==> !zebraGrid[i]
    requires forall i :: 0 <= i < peakingGrid.Length ==> peakingGrid[i] == 0.0
    modifies zebraGrid, peakingGrid
    ensures written == Upto(gridW * gridH)
    ensures zebraGrid[..gridW * gridH] == Flatten(zebraRows)
    ensures peakingGrid[..gridW * gridH] == Flatten(peakingRows)
    ensures forall i :: gridW * gridH <= i < zebraGrid.Length ==> !zebraGrid[i]
    ensures forall i :: gridW * gridH <= i < peakingGrid.Length ==> peakingGrid[i] == 0.0
  {
    written := [];
    var gy := 0;
    var base := 0;
    while gy < gridH
      invariant 0 <= gy <= gridH
      invariant base == gridW * gy <= gridW * gridH
      invariant written == Upto(base)
      invariant |Flatten(zebraRows[..gy])| == base && |Flatten(peakingRows[..gy])| == base
      invariant forall i :: 0 <= i < base ==> zebraGrid[i] == Flatten(zebraRows[..gy])[i]
      invariant forall i :: 0 <= i < base ==> peakingGrid[i] == Flatten(peakingRows[..gy])[i]
      invariant forall i :: base <= i < zebraGrid.Length ==> !zebraGrid[i]
      invariant forall i :: base <= i < peakingGrid.Length ==> peakingGrid[i] == 0.0
    {
      NextRowStart(gridW, gridH, gy, base);
      written := FillRow(f, zebraGrid, peakingGrid, gridW, gridH, zebraThreshold, mag, gy, base, written, zebraRows, peakingRows);
      NextRows(zebraRows, gy);
      NextRows(peakingRows, gy);
      base := base + gridW;
      gy := gy + 1;
    }
    assert base == gridW * gridH;
    assert zebraRows[..gridH] == zebraRows && peakingRows[..gridH] == peakingRows;
    assert zebraGrid[..gridW * gridH] == Flatten(zebraRows);
    assert peakingGrid[..gridW * gridH] == Flatten(peakingRows);
  }

  /** Cell (gx, gy) of each grid holds that cell's values. */
  ghost predicate GridHolds(f: Frame, zebraGrid: seq<bool>, peakingGrid: seq<real>,
                            gridW: int, gridH: int, zebraThreshold: int, mag: nat -> real)
    requires GridInputs(f, gridW, gridH)
  {
    forall gx: nat, gy: nat :: gx < gridW && gy < gridH ==>
      && 0 <= GridIndex(gridW, gx, gy) < |zebraGrid|
      && 0 <= GridIndex(gridW, gx, gy) < |peakingGrid|
      && zebraGrid[GridIndex(gridW, gx, gy)] == ZebraAt(f, gridW, gridH, zebraThreshold, gx, gy)
      && peakingGrid[GridIndex(gridW, gx, gy)] == PeakingAt(f, gridW, gridH, mag, gx, gy)
  }

  /** Storage that starts with the rows of the expected grids, laid end to end, holds every cell where it belongs. */
  lemma StoredGrid(f: Frame, zebraGrid: seq<bool>, peakingGrid: seq<real>,
                   gridW: int, gridH: int, zebraThreshold: int, mag: nat -> real,
                   zebraRows: seq<seq<bool>>, peakingRows: seq<seq<real>>)
    requires GridInputs(f, gridW, gridH)
    requires IsCellGrid(f, gridW, gridH, zebraThreshold, mag, zebraRows, peakingRows)
    requires gridW * gridH <= |zebraGrid| && zebraGrid[..gridW * gridH] == Flatten(zebraRows)
    requires gridW * gridH <= |peakingGrid| && peakingGrid[..gridW * gridH] == Flatten(peakingRows)
    ensures GridHolds(f, zebraGrid, peakingGrid, gridW, gridH, zebraThreshold, mag)
  {
    forall gx: nat, gy: nat | gx < gridW && gy < gridH
      ensures 0 <= GridIndex(gridW, gx, gy) < gridW * gridH
      ensures zebraGrid[GridIndex(gridW, gx, gy)] == ZebraAt(f, gridW, gridH, zebraThreshold, gx, gy)
      ensures peakingGrid[GridIndex(gridW, gx, gy)] == PeakingAt(f, gridW, gridH, mag, gx, gy)
    {
      CellIndexInGrid(gridW, gridH, gx, gy);
      FlattenIndex(zebraRows, gridW, gx, gy);
      FlattenIndex(peakingRows, gridW, gx, gy);
    }
  }

  /** One more row of storage: the prefix of gy + 1 rows is the prefix of gy rows followed by row gy. */
  lemma NextRows<T>(rows: seq<seq<T>>, gy: nat)
    requires gy < |rows|
    ensures Flatten(rows[..gy + 1]) == Flatten(rows[..gy]) + rows[gy]
  {
    assert rows[..gy + 1] == rows[..gy] + [rows[gy]];
    FlattenAppend(rows[..gy], rows[gy]);
  }

  /** The next row starts gridW further on, still inside the grid. */
  lemma NextRowStart(gridW: int, gridH: int, gy: nat, base: int)
    requires gridW >= 1 && gy < gridH && base == gridW * gy
    ensures base + gridW == gridW * (gy + 1) <= gridW * gridH
  {
    MulMono(gy + 1, gridH, gridW);
  }
}
