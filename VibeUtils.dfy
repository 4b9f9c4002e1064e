/** The integer pixel kernels of `lv::` (api/include/vibeUtils.hpp): coordinate clamping, the
    Gaussian-weighted 7x7 sample-position picker and the scalar byte distances. */
module VibeUtils {
  import opened Common

  // ---------------------------------------------------------------------------------------
  // Coordinate clamping
  // ---------------------------------------------------------------------------------------

  /** One axis of `clampImageCoords`: the nearest coordinate inside [0, size - 1]. */
  function Clamp(c: int, size: int): (r: int)
    ensures size >= 1 ==> 0 <= r < size
    ensures 0 <= c < size ==> r == c
  {
    if c < 0 then 0 else if c >= size then size - 1 else c
  }

  /** `clampImageCoords`, which rewrites both reference arguments in place. */
  method ClampImageCoords(x: int, y: int, width: int, height: int) returns (cx: int, cy: int)
    ensures cx == Clamp(x, width) && cy == Clamp(y, height)
  {
    cx, cy := x, y;
    if cx < 0 {
      cx := 0;
    } else if cx >= width {
      cx := width - 1;
    }
    if cy < 0 {
      cy := 0;
    } else if cy >= height {
      cy := height - 1;
    }
  }

  /** A clamped coordinate is at least as close to the input as any in-range coordinate, and
      clamping twice changes nothing. */
  lemma ClampNearestAndIdempotent(c: int, size: int, v: int)
    requires 0 <= v < size
    ensures var r := Clamp(c, size);
      (if c - r < 0 then r - c else c - r) <= (if c - v < 0 then v - c else c - v)
    ensures Clamp(Clamp(c, size), size) == Clamp(c, size)
  {}

  /** Clamping never moves a coordinate further from an in-range point `o` than it was. */
  lemma ClampStaysNear(c: int, o: int, size: int, k: nat)
    ensures 0 <= o < size && o - k <= c <= o + k ==> o - k <= Clamp(c, size) <= o + k
  {}

  // ---------------------------------------------------------------------------------------
  // The 7x7 sample-position kernel
  // ---------------------------------------------------------------------------------------

  /** `s_nSamplesInitPatternTot`. */
  const SamplesInitPatternTot: int := 512

  /** `s_anSamplesInitPattern`, 'floor(fspecial('gaussian',7,2)*512)', row by row. */
  const SamplesInitPattern: seq<seq<int>> := [
    [2, 4, 6, 7, 6, 4, 2],
    [4, 8, 12, 14, 12, 8, 4],
    [6, 12, 21, 25, 21, 12, 6],
    [7, 14, 25, 28, 25, 14, 7],
    [6, 12, 21, 25, 21, 12, 6],
    [4, 8, 12, 14, 12, 8, 4],
    [2, 4, 6, 7, 6, 4, 2]
  ]

  /** Kernel width and height (`nKernelWidth`, `nKernelHeight`). */
  const KernelSize: nat := 7

  /** Weight of cell `k` in row-major order. */
  function Weight(k: nat): int
    requires k < 49
  {
    SamplesInitPattern[k / 7][k % 7]
  }

  /** Total weight of cells 0 to `k` in row-major order. */
  function Cum(k: nat): int
    requires k < 49
  {
    (if k == 0 then 0 else Cum(k - 1)) + Weight(k)
  }

  /** Total weight of the `i` cells before cell `i`. */
  function Prefix(i: nat): int
    requires i <= 49
  {
    if i == 0 then 0 else Cum(i - 1)
  }

  /** Every weight is at least 2, so the cumulative weight strictly increases. */
  lemma WeightsPositive(k: nat)
    requires k < 49
    ensures Weight(k) >= 2
  {
    assert forall i, j :: 0 <= i < 7 && 0 <= j < 7 ==> SamplesInitPattern[i][j] >= 2;
  }

  /** The 49 weights add up to exactly `s_nSamplesInitPatternTot`; row by row the totals are
      31, 62, 103, 120, 103, 62 and 31. */
  lemma KernelTotal()
    ensures Cum(48) == SamplesInitPatternTot
  {
    assert Cum(6) == 31;
    assert Cum(13) == 93;
    assert Cum(20) == 196;
    assert Cum(27) == 316;
    assert Cum(34) == 419;
    assert Cum(41) == 481;
  }

  /** The cell at which the row-major scan of `getSamplePosition` stops for a target `r`:
      the first cell whose cumulative weight reaches `r`. */
  function KernelCell(r: int): (k: nat)
    requires r <= SamplesInitPatternTot
    ensures k < 49
    ensures Cum(k) >= r
    ensures forall j :: 0 <= j < k ==> Cum(j) < r
  {
    KernelTotal();
    CellFrom(r, 0)
  }

  function CellFrom(r: int, k: nat): (c: nat)
    requires r <= Cum(48) && k < 49
    requires forall j :: 0 <= j < k ==> Cum(j) < r
    ensures k <= c < 49
    ensures Cum(c) >= r
    ensures forall j :: 0 <= j < c ==> Cum(j) < r
    decreases 49 - k
  {
    if Cum(k) >= r || k == 48 then k else CellFrom(r, k + 1)
  }

  /** The characterisation in `KernelCell`'s contract pins the cell down uniquely. */
  lemma KernelCellIsFirst(r: int, k: nat)
    requires r <= SamplesInitPatternTot && k < 49
    requires Cum(k) >= r && forall j :: 0 <= j < k ==> Cum(j) < r
    ensures KernelCell(r) == k
  {}

  /** A larger target never selects an earlier cell. */
  lemma KernelCellMonotone(r1: int, r2: int)
    requires r1 <= r2 <= SamplesInitPatternTot
    ensures KernelCell(r1) <= KernelCell(r2)
  {
    var k1, k2 := KernelCell(r1), KernelCell(r2);
    assert Cum(k2) >= r1;
  }

  /** Targets up to the first weight select the first cell. */
  lemma SmallTargetPicksFirstCell(r: int)
    requires r <= 2
    ensures KernelCell(r) == 0
  {}

  /** The scan target `r = 1 + nRandIdx % 512`, with C++ remainder. */
  function ScanTarget(randIdx: int): (r: int)
    ensures -SamplesInitPatternTot + 2 <= r <= SamplesInitPatternTot
    ensures randIdx >= 0 ==> 1 <= r
  {
    1 + CppRem(randIdx, SamplesInitPatternTot)
  }

  /** Offset from the origin of the cell the scan selects, before clamping. */
  function SampleOffset(randIdx: int): (d: (int, int))
    ensures -3 <= d.0 <= 3 && -3 <= d.1 <= 3
  {
    var k := KernelCell(ScanTarget(randIdx));
    (k % KernelSize - KernelSize / 2, k / KernelSize - KernelSize / 2)
  }

  /** `getSamplePosition_7x7_std2`: the clamped sample position for a random index and origin. */
  function SamplePosition(randIdx: int, x0: int, y0: int, width: int, height: int): (pos: (int, int))
    ensures width >= 1 && height >= 1 ==> 0 <= pos.0 < width && 0 <= pos.1 < height
    ensures 0 <= x0 < width && 0 <= y0 < height ==>
      x0 - 3 <= pos.0 <= x0 + 3 && y0 - 3 <= pos.1 <= y0 + 3
  {
    var d := SampleOffset(randIdx);
    ClampStaysNear(x0 + d.0, x0, width, 3);
    ClampStaysNear(y0 + d.1, y0, height, 3);
    (Clamp(x0 + d.0, width), Clamp(y0 + d.1, height))
  }

  /** A negative index (what a `uint32_t` draw of 2^31 or more becomes as an `int`) always
      selects cell (0, 0), i.e. offset (-3, -3). */
  lemma NegativeIndexPicksCorner(randIdx: int)
    requires randIdx < 0
    ensures SampleOffset(randIdx) == (-3, -3)
  {
    SmallTargetPicksFirstCell(ScanTarget(randIdx));
  }

  /** Every cell before cell `k` has a cumulative weight below `r0`. */
  predicate AllBelow(k: nat, r0: int)
    requires k <= 49
  {
    forall j :: 0 <= j < k ==> Cum(j) < r0
  }

  /** Row `y`, column `x` of the table is the weight of row-major cell `7 * y + x`. */
  lemma TableWeight(y: nat, x: nat)
    requires y < 7 && x < 7
    ensures 7 * y + x < 49 && SamplesInitPattern[y][x] == Weight(7 * y + x)
  {
    ModUnique(7 * y + x, 7, y, x);
  }

  /** One step of the scan: if the target survives cell `k`, every cell up to `k` is below it. */
  lemma ScanAdvance(r0: int, k: nat)
    requires k < 49 && AllBelow(k, r0) && r0 - Prefix(k) - Weight(k) > 0
    ensures AllBelow(k + 1, r0) && Prefix(k + 1) == Prefix(k) + Weight(k)
  {}

  /** The scan stops at the first cell whose cumulative weight reaches the target. */
  lemma ScanStop(r0: int, k: nat)
    requires r0 <= SamplesInitPatternTot
    requires k < 49 && AllBelow(k, r0) && r0 - Prefix(k) - Weight(k) <= 0
    ensures KernelCell(r0) == k
  {
    KernelCellIsFirst(r0, k);
  }

  /** The cell at row `y`, column `x` is offset (x - 3, y - 3) from the origin. */
  lemma CellOffset(randIdx: int, k: nat, x: int, y: int)
    requires 0 <= x < 7 && 0 <= y && k == 7 * y + x
    requires KernelCell(ScanTarget(randIdx)) == k
    ensures SampleOffset(randIdx) == (x - 3, y - 3)
  {
    ModUnique(k, 7, y, x);
  }

  /** `getSamplePosition<7,7>` with the table of `getSamplePosition_7x7_std2`: the row-major
      scan that subtracts weights from `r` and leaves both loops at the first cell where `r`
      drops to zero or below (the `goto stop`), then re-centres and clamps. */
  method GetSamplePosition(randIdx: int, x0: int, y0: int, width: int, height: int)
    returns (sx: int, sy: int)
    ensures (sx, sy) == SamplePosition(randIdx, x0, y0, width, height)
  {
    var r0 := 1 + CppRem(randIdx, SamplesInitPatternTot);
    var r := r0;
    ghost var k: nat := 0;
    sy, sx := 0, 0;
    while sy < KernelSize
      invariant 0 <= sy <= KernelSize && k == 7 * sy
      invariant r == r0 - Prefix(k) && AllBelow(k, r0)
    {
      sx := 0;
      while sx < KernelSize
        invariant 0 <= sx <= KernelSize && k == 7 * sy + sx
        invariant r == r0 - Prefix(k) && AllBelow(k, r0)
      {
        TableWeight(sy, sx);
        r := r - SamplesInitPattern[sy][sx];
        if r <= 0 {
          ScanStop(r0, k);
          break break;
        }
        ScanAdvance(r0, k);
        sx := sx + 1;
        k := k + 1;
      }
      sy := sy + 1;
    }
    if sy == KernelSize {
      // the weights add up to 512, so the scan always stops inside the kernel
      KernelTotal();
      assert false;
    }
    CellOffset(randIdx, k, sx, sy);
    sx := sx + x0 - KernelSize / 2;
    sy := sy + y0 - KernelSize / 2;
    sx, sy := ClampImageCoords(sx, sy, width, height);
  }

  // ---------------------------------------------------------------------------------------
  // Scalar byte distances
  // ---------------------------------------------------------------------------------------

  /** `L1dist` on `uchar`: |a - b| computed in a wider signed type, returned as `uchar`. The
      result is the non-negative number whose square is the squared difference, and it is zero
      exactly on equal bytes. */
  function L1Dist(a: Byte, b: Byte): (d: Byte)
    ensures (d as int) * (d as int) == (a as int - b as int) * (a as int - b as int)
    ensures d == 0 <==> a == b
  {
    if a >= b then a - b else b - a
  }

  /** `L2sqrdist` on `uchar`: (a - b)^2 computed in `int16_t`, returned as `uint16_t`; the
      largest value, 255^2 = 65025, fits, so nothing wraps. */
  function L2SqrDist(a: Byte, b: Byte): (d: nat)
    ensures d < 0x1_0000
  {
    var t := a as int - b as int;
    assert -255 <= t <= 255;
    assert t * t <= 65025 by { MulMono(if t < 0 then -t else t, if t < 0 then -t else t, 255); }
    t * t
  }

  /** `L1dist` is a metric on bytes: symmetric, zero exactly on equal inputs, at most 255. */
  lemma L1DistIsMetric(a: Byte, b: Byte)
    ensures L1Dist(a, b) == L1Dist(b, a)
    ensures L1Dist(a, b) == 0 <==> a == b
    ensures L1Dist(a, b) <= 255
  {}

  /** `L2sqrdist` is the square of `L1dist`, as its documentation states. */
  lemma L2SqrDistIsSquaredL1(a: Byte, b: Byte)
    ensures L2SqrDist(a, b) == (L1Dist(a, b) as int) * (L1Dist(a, b) as int)
    ensures L2SqrDist(a, b) == L2SqrDist(b, a)
    ensures L2SqrDist(a, b) == 0 <==> a == b
  {}
}
