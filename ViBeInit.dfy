/** Sample-set initialisation on the heap: the nested loops of `initialize` that give every
    pixel of every sample buffer the value of a jittered nearby seed pixel. */
module ViBeInit {
  import opened Common
  import opened VibeUtils
  import opened ViBeModel
  import opened ViBeEngine

  /** The loop over `s` of `BackgroundSubtractorViBe_1ch::initialize`,
      `BackgroundSubtractorViBe_3ch::initialize` and `VibeBGS::initialize`: `nSamples` new
      buffers of the seed's size, zeroed, then filled one after the other, one draw per pixel. */
  method InitSamples(seed: Img, nSamples: nat, draws: Draws, cursor: nat) returns (bg: seq<array<Byte>>, next: nat)
    requires seed.Valid()
    ensures Distinct(bg) && forall i :: 0 <= i < |bg| ==> fresh(bg[i])
    ensures InitializedFrom(Contents(bg), seed, nSamples, draws, cursor)
    ensures next == SampleBase(cursor, nSamples, seed.width * seed.height)
  {
    var n := seed.width * seed.height;
    bg := [];
    next := cursor;
    var s := 0;
    while s < nSamples
      invariant s <= nSamples && |bg| == s && next == SampleBase(cursor, s, n)
      invariant Distinct(bg) && forall i :: 0 <= i < s ==> fresh(bg[i])
      invariant forall i :: 0 <= i < s ==> bg[i].Length == n * seed.channels
      invariant forall i :: 0 <= i < s ==> SampleFrom(bg[i][..], seed, draws, SampleBase(cursor, i, n), n)
    {
      var buf;
      buf, next := NewSample(seed, draws, next);
      NextRow(s, n);
      bg := bg + [buf];
      s := s + 1;
    }
  }

  /** One sample: `create` with the seed's size, zeroed (`= cv::Scalar(0)`, `Img::create(size,
      true)`), then filled from the draws `cursor`, `cursor` + 1, ... */
  method NewSample(seed: Img, draws: Draws, cursor: nat) returns (buf: array<Byte>, next: nat)
    requires seed.Valid()
    ensures fresh(buf) && buf.Length == seed.width * seed.height * seed.channels
    ensures SampleFrom(buf[..], seed, draws, cursor, seed.width * seed.height)
    ensures next == cursor + seed.width * seed.height
  {
    buf := new Byte[seed.width * seed.height * seed.channels](_ => 0);
    next := FillSample(buf, seed, draws, cursor);
  }

  /** The loops over `y_orig` and `x_orig`: every pixel of `buf`, in raster order, from the
      draws `base`, `base` + 1, ... */
  method FillSample(buf: array<Byte>, seed: Img, draws: Draws, base: nat) returns (next: nat)
    requires seed.Valid() && buf.Length == seed.width * seed.height * seed.channels
    modifies buf
    ensures SampleFrom(buf[..], seed, draws, base, seed.width * seed.height)
    ensures next == base + seed.width * seed.height
  {
    var w, h := seed.width, seed.height;
    next := base;
    var y, k := 0, 0;
    while y < h
      invariant y <= h && k == y * w && k <= w * h && next == base + k
      invariant SampleFrom(buf[..], seed, draws, base, k)
    {
      NextRow(y, w);
      RowEnd(y, w, h);
      next, k := FillRow(buf, seed, draws, y, next, base, k);
      y := y + 1;
    }
    NextRow(h, w);
  }

  /** The loop over `x_orig` for row `y`, which starts at flat offset `k0`. */
  method FillRow(buf: array<Byte>, seed: Img, draws: Draws, y: nat, cursor: nat, ghost base: nat, k0: nat)
    returns (next: nat, k: nat)
    requires seed.Valid() && buf.Length == seed.width * seed.height * seed.channels
    requires y < seed.height && k0 == y * seed.width && k0 + seed.width <= seed.width * seed.height
    requires cursor == base + k0 && SampleFrom(buf[..], seed, draws, base, k0)
    modifies buf
    ensures k == k0 + seed.width && k <= seed.width * seed.height && next == base + k
    ensures SampleFrom(buf[..], seed, draws, base, k)
  {
    var x := 0;
    next, k := cursor, k0;
    while x < seed.width
      invariant x <= seed.width && k == k0 + x && k <= seed.width * seed.height && next == base + k
      invariant SampleFrom(buf[..], seed, draws, base, k)
    {
      RasterOffset(x, y, seed.width, seed.height);
      next := FillPixel(buf, seed, draws, x, y, k, next, base);
      x, k := x + 1, k + 1;
    }
  }

  /** `getSamplePosition_7x7_std2(Pcg32::fast(), x_sample, y_sample, x_orig, y_orig, ...)`
      followed by the copy of seed pixel (x_sample, y_sample) into pixel `k` = (x, y). */
  method FillPixel(buf: array<Byte>, seed: Img, draws: Draws, x: nat, y: nat, k: nat, cursor: nat, ghost base: nat)
    returns (next: nat)
    requires seed.Valid() && buf.Length == seed.width * seed.height * seed.channels
    requires k < seed.width * seed.height && x == k % seed.width && y == k / seed.width
    requires cursor == base + k && SampleFrom(buf[..], seed, draws, base, k)
    modifies buf
    ensures next == cursor + 1
    ensures SampleFrom(buf[..], seed, draws, base, k + 1)
  {
    var w, h := seed.width, seed.height;
    var xSample, ySample := GetSamplePosition(ToInt32(draws(cursor)), x, y, w, h);
    next := cursor + 1;
    InitSourceAt(seed, draws, base, k, x, y, xSample, ySample);
    var px := Pixel(seed.data, w * h, seed.channels, ySample * w + xSample);
    CopyPixel(buf, w * h, seed.channels, k, px);
    SampleFromExtend(old(buf[..]), buf[..], seed, draws, base, k);
  }

  /** The position `getSamplePosition_7x7_std2` returns for pixel `k` = (x, y) is the one
      `SampleSource` names. */
  lemma InitSourceAt(seed: Img, draws: Draws, base: nat, k: nat, x: nat, y: nat, xSample: int, ySample: int)
    requires k < seed.width * seed.height && x == k % seed.width && y == k / seed.width
    requires (xSample, ySample) == SamplePosition(ToInt32(draws(base + k)), x, y, seed.width, seed.height)
    ensures 0 <= xSample < seed.width && 0 <= ySample < seed.height
    ensures ySample * seed.width + xSample == SampleSource(seed, draws, base, k)
  {
    RasterCoords(k, seed.width, seed.height);
  }

  /** Writing the selected seed pixel into pixel `k` extends the initialised prefix by one. */
  lemma SampleFromExtend(a: seq<Byte>, b: seq<Byte>, seed: Img, draws: Draws, base: nat, k: nat)
    requires seed.Valid() && |a| == seed.width * seed.height * seed.channels
    requires k < seed.width * seed.height && SampleFrom(a, seed, draws, base, k)
    requires b == WritePixel(a, seed.width * seed.height, seed.channels, k,
      Pixel(seed.data, seed.width * seed.height, seed.channels, SampleSource(seed, draws, base, k)))
    ensures SampleFrom(b, seed, draws, base, k + 1)
  {
    var n, ch := seed.width * seed.height, seed.channels;
    forall q | 0 <= q < k + 1
      ensures Pixel(b, n, ch, q) == Pixel(seed.data, n, ch, SampleSource(seed, draws, base, q))
    {
      if q < k {
        assert Pixel(b, n, ch, q) == Pixel(a, n, ch, q);
      }
    }
  }
}
