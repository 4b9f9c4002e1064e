/** The helpers and defaults declared in api/include/BackgroundSubtractorViBe.hpp: the 3-channel
    squared distance, the 8-neighbour picker and the default parameters. */
module ViBeKernels {
  import opened Common
  import opened VibeUtils

  // ---------------------------------------------------------------------------------------
  // Default parameters
  // ---------------------------------------------------------------------------------------

  /** `BGSVIBE_DEFAULT_COLOR_DIST_THRESHOLD`, the radius R. */
  const DefaultColorDistThreshold: nat := 20
  /** `BGSVIBE_DEFAULT_NB_BG_SAMPLES`, the sample count N. */
  const DefaultNbBgSamples: nat := 20
  /** `BGSVIBE_DEFAULT_REQUIRED_NB_BG_SAMPLES`, the matches needed for background. */
  const DefaultRequiredNbBgSamples: nat := 2
  /** `BGSVIBE_DEFAULT_LEARNING_RATE`, the subsampling factor. */
  const DefaultLearningRate: nat := 16

  /** The defaults form a usable configuration: the quota can be met, the learning rate can
      divide, and the squared 3-channel radius (3R)^2 is 3600. */
  lemma DefaultsConsistent()
    ensures 1 <= DefaultRequiredNbBgSamples <= DefaultNbBgSamples
    ensures DefaultLearningRate >= 1 && DefaultColorDistThreshold >= 1
    ensures (DefaultColorDistThreshold * 3) * (DefaultColorDistThreshold * 3) == 3600
  {}

  // ---------------------------------------------------------------------------------------
  // L2dist3Squared
  // ---------------------------------------------------------------------------------------

  /** `L2dist3Squared`: the sum of the three squared channel differences, computed in `long`
      and returned as `size_t`; it is never negative, so the conversion keeps its value. */
  function L2Dist3Squared(a: seq<Byte>, b: seq<Byte>): (d: nat)
    requires |a| == 3 && |b| == 3
    ensures d <= 3 * 255 * 255
  {
    var r0 := a[0] as int - b[0] as int;
    var r1 := a[1] as int - b[1] as int;
    var r2 := a[2] as int - b[2] as int;
    SquareBound(r0);
    SquareBound(r1);
    SquareBound(r2);
    r0 * r0 + r1 * r1 + r2 * r2
  }

  lemma SquareBound(t: int)
    requires -255 <= t <= 255
    ensures 0 <= t * t <= 255 * 255
    ensures t * t == 0 <==> t == 0
  {
    var u := if t < 0 then -t else t;
    assert t * t == u * u;
    MulMono(u, u, 255);
    MulMono(255, u, 255);
    if u > 0 {
      MulMono(u, 1, u);
    }
  }

  /** `L2dist3Squared` is symmetric and vanishes exactly on equal pixels. */
  lemma L2Dist3SquaredIsDistance(a: seq<Byte>, b: seq<Byte>)
    requires |a| == 3 && |b| == 3
    ensures L2Dist3Squared(a, b) == L2Dist3Squared(b, a)
    ensures L2Dist3Squared(a, b) == 0 <==> a == b
  {
    var r0 := a[0] as int - b[0] as int;
    var r1 := a[1] as int - b[1] as int;
    var r2 := a[2] as int - b[2] as int;
    SquareBound(r0);
    SquareBound(r1);
    SquareBound(r2);
    assert (-r0) * (-r0) == r0 * r0 && (-r1) * (-r1) == r1 * r1 && (-r2) * (-r2) == r2 * r2;
    if L2Dist3Squared(a, b) == 0 {
      assert a == [a[0], a[1], a[2]] && b == [b[0], b[1], b[2]];
    }
  }

  // ---------------------------------------------------------------------------------------
  // getNeighborPosition_3x3
  // ---------------------------------------------------------------------------------------

  /** `s_anNeighborPattern`, the eight compass offsets (x, y). */
  const NeighborPattern: seq<(int, int)> := [
    (-1, 1), (0, 1), (1, 1),
    (-1, 0), (1, 0),
    (-1, -1), (0, -1), (1, -1)
  ]

  /** The table holds exactly the eight non-zero offsets of the 3x3 neighbourhood, each once. */
  lemma NeighborPatternIsCompass()
    ensures |NeighborPattern| == 8
    ensures forall i :: 0 <= i < 8 ==>
      -1 <= NeighborPattern[i].0 <= 1 && -1 <= NeighborPattern[i].1 <= 1 && NeighborPattern[i] != (0, 0)
    ensures forall i, j :: 0 <= i < j < 8 ==> NeighborPattern[i] != NeighborPattern[j]
  {}

  /** The neighbour `getNeighborPosition_3x3` picks with the draw `d`: entry `d % 8` of the
      table added to the origin, each coordinate clamped to the image. */
  function NeighborPosition(x0: int, y0: int, width: int, height: int, d: Uint32): (pos: (int, int))
    ensures width >= 1 && height >= 1 ==> 0 <= pos.0 < width && 0 <= pos.1 < height
    ensures 0 <= x0 < width && 0 <= y0 < height ==>
      x0 - 1 <= pos.0 <= x0 + 1 && y0 - 1 <= pos.1 <= y0 + 1
  {
    var off := NeighborPattern[d % 8];
    ClampStaysNear(x0 + off.0, x0, width, 1);
    ClampStaysNear(y0 + off.1, y0, height, 1);
    (Clamp(x0 + off.0, width), Clamp(y0 + off.1, height))
  }

  /** Away from the border no clamping happens, so the neighbour is the origin moved by the
      chosen compass offset and is never the origin itself. */
  lemma InteriorNeighborDiffers(x0: int, y0: int, width: int, height: int, d: Uint32)
    requires 1 <= x0 <= width - 2 && 1 <= y0 <= height - 2
    ensures NeighborPosition(x0, y0, width, height, d)
      == (x0 + NeighborPattern[d % 8].0, y0 + NeighborPattern[d % 8].1)
    ensures NeighborPosition(x0, y0, width, height, d) != (x0, y0)
  {
    NeighborPatternIsCompass();
  }

  /** `getNeighborPosition_3x3`: draws once from the generator, then assigns and clamps its
      two reference arguments step by step. */
  method GetNeighborPosition3x3(x0: int, y0: int, width: int, height: int, draws: Draws, cursor: nat)
    returns (nx: int, ny: int, next: nat)
    ensures next == cursor + 1
    ensures (nx, ny) == NeighborPosition(x0, y0, width, height, draws(cursor))
  {
    var r := draws(cursor) % 8;
    next := cursor + 1;
    nx := x0 + NeighborPattern[r].0;
    ny := y0 + NeighborPattern[r].1;
    if nx < 0 {
      nx := 0;
    } else if nx >= width {
      nx := width - 1;
    }
    if ny < 0 {
      ny := 0;
    } else if ny >= height {
      ny := height - 1;
    }
  }
}
