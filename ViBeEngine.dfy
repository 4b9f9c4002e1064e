/** The imperative classify-and-update pass and the sample-set initialisation, over sample
    buffers and a mask that are arrays updated in place. Every method is proved to leave the
    buffers, the mask and the draw cursor exactly as the value-level `ViBeModel` says. */
module ViBeEngine {
  import opened Common
  import opened VibeUtils
  import opened ViBeKernels
  import opened ViBeModel

  // ---------------------------------------------------------------------------------------
  // Sample buffers on the heap
  // ---------------------------------------------------------------------------------------

  /** The sample values the buffers `bg` currently hold. */
  ghost function Contents(bg: seq<array<Byte>>): (S: Samples)
    reads set i | 0 <= i < |bg| :: bg[i]
    ensures |S| == |bg| && forall i :: 0 <= i < |bg| ==> S[i] == bg[i][..]
  {
    if bg == [] then [] else Contents(bg[..|bg| - 1]) + [bg[|bg| - 1][..]]
  }

  /** The buffers are pairwise different arrays and none of them is the mask, so writing one
      of them changes no other. */
  predicate Separate(bg: seq<array<Byte>>, mask: array<Byte>) {
    Distinct(bg) && mask !in bg
  }

  /** The buffers are pairwise different arrays. */
  predicate Distinct(bg: seq<array<Byte>>) {
    forall i, j :: 0 <= i < j < |bg| ==> bg[i] != bg[j]
  }

  // ---------------------------------------------------------------------------------------
  // Reading and writing one pixel
  // ---------------------------------------------------------------------------------------

  /** The `while` loop that counts matching samples for pixel `p`, stopping as soon as the
      quota is met: the count is the number of matches capped at the quota, so it falls short
      of the quota exactly when the pixel is foreground. */
  method CountGoodSamples(r: Rule, img: Img, bg: seq<array<Byte>>, p: nat) returns (count: nat)
    requires Fits(r, img, Contents(bg)) && p < img.width * img.height
    ensures count == if MatchCount(r, img, Contents(bg), p, r.nSamples) < r.nRequired
                     then MatchCount(r, img, Contents(bg), p, r.nSamples) else r.nRequired
    ensures count < r.nRequired <==> IsForeground(r, img, Contents(bg), p)
  {
    ghost var S := Contents(bg);
    var n, ch := img.width * img.height, r.channels;
    PixelFits(p, n, ch);
    var idx := 0;
    count := 0;
    while count < r.nRequired && idx < r.nSamples
      invariant idx <= r.nSamples
      invariant count == MatchCount(r, img, S, p, idx) && count <= r.nRequired
    {
      var pixData := img.data[ch * p .. ch * p + ch];
      var sample := bg[idx][ch * p .. ch * p + ch];
      assert sample == Pixel(S[idx], n, ch, p);
      if Distance(r, pixData, sample) < r.threshold {
        count := count + 1;
      }
      idx := idx + 1;
    }
    if count == r.nRequired {
      MatchCountPrefixMonotone(r, img, S, p, idx, r.nSamples);
    }
  }

  /** Copies the `ch` bytes of `px` over pixel `q` of the buffer `dst`, one channel at a time. */
  method CopyPixel(dst: array<Byte>, n: nat, ch: nat, q: nat, px: seq<Byte>)
    requires dst.Length == n * ch && q < n && |px| == ch
    modifies dst
    ensures dst[..] == WritePixel(old(dst[..]), n, ch, q, px)
  {
    PixelFits(q, n, ch);
    var lo := ch * q;
    var c := 0;
    while c < ch
      invariant c <= ch
      invariant dst[..] == Splice(old(dst[..]), lo, px[..c])
    {
      dst[lo + c] := px[c];
      c := c + 1;
    }
    assert px[..c] == px;
  }

  /** `bgImg[s].at(y, x) = image.at(y, x)`: one sample buffer takes a new value at pixel `q`
      and the other buffers keep theirs. */
  method WriteSampleAt(bg: seq<array<Byte>>, mask: array<Byte>, n: nat, ch: nat, s: nat, q: nat, px: seq<Byte>)
    requires Separate(bg, mask) && s < |bg| && bg[s].Length == n * ch && q < n && |px| == ch
    modifies bg[s]
    ensures Contents(bg) == WriteSample(old(Contents(bg)), n, ch, s, q, px)
  {
    ghost var S := Contents(bg);
    CopyPixel(bg[s], n, ch, q, px);
    ghost var S' := WriteSample(S, n, ch, s, q, px);
    assert forall t :: 0 <= t < |bg| ==> Contents(bg)[t] == S'[t];
  }

  // ---------------------------------------------------------------------------------------
  // One pixel
  // ---------------------------------------------------------------------------------------

  /** The body of the pixel loop for pixel `p` at column `x`, row `y`: count the matching
      samples, and mark a foreground pixel with `UCHAR_MAX` or update the samples of a
      background one. The effect is one `Step`. */
  method ProcessPixel(r: Rule, img: Img, bg: seq<array<Byte>>, mask: array<Byte>,
                      x: nat, y: nat, p: nat, draws: Draws, cursor: nat) returns (next: nat)
    requires Fits(r, img, Contents(bg)) && Separate(bg, mask)
    requires p < img.width * img.height && x == p % img.width && y == p / img.width
    requires mask.Length == img.width * img.height && mask[p] == 0
    modifies mask, set i | 0 <= i < |bg| :: bg[i]
    ensures var st := Step(r, img, draws, State(old(Contents(bg)), old(mask[..p]), cursor), p);
      Contents(bg) == st.samples && next == st.cursor && mask[..] == old(mask[..])[p := st.mask[p]]
  {
    var count := CountGoodSamples(r, img, bg, p);
    if count < r.nRequired {
      mask[p] := UcharMax;
      next := cursor;
    } else {
      next := UpdateBackground(r, img, bg, mask, x, y, p, draws, cursor);
      assert mask[..] == old(mask[..]);
    }
  }

  /** The `else` branch for a background pixel: the self update, then the neighbour update. */
  method UpdateBackground(r: Rule, img: Img, bg: seq<array<Byte>>, mask: array<Byte>,
                          x: nat, y: nat, p: nat, draws: Draws, cursor: nat) returns (next: nat)
    requires Fits(r, img, Contents(bg)) && Separate(bg, mask)
    requires p < img.width * img.height && x == p % img.width && y == p / img.width
    modifies set i | 0 <= i < |bg| :: bg[i]
    ensures var n := img.width * img.height;
      var u := BackgroundDraws(r, img.width, img.height, p, draws, cursor);
      Contents(bg) == ApplyUpdates(old(Contents(bg)), n, r.channels, p, Pixel(img.data, n, r.channels, p), u)
      && next == u.next
  {
    var c := UpdateSelf(r, img, bg, mask, p, draws, cursor);
    next := UpdateNeighbor(r, img, bg, mask, x, y, p, draws, c);
  }

  /** `if ((rand % learningRate) == 0) bgImg[rand % N].at(y, x) = image.at(y, x)`, or its
      bitmask form: the pixel's value goes into the drawn slot when the test fires. */
  method UpdateSelf(r: Rule, img: Img, bg: seq<array<Byte>>, mask: array<Byte>,
                    p: nat, draws: Draws, cursor: nat) returns (next: nat)
    requires Fits(r, img, Contents(bg)) && Separate(bg, mask) && p < img.width * img.height
    modifies set i | 0 <= i < |bg| :: bg[i]
    ensures var n := img.width * img.height;
      var d := SelfDraws(r, draws, cursor);
      var px := Pixel(img.data, n, r.channels, p);
      Contents(bg) == (if d.0.Some? then WriteSample(old(Contents(bg)), n, r.channels, d.0.value, p, px)
                       else old(Contents(bg)))
      && next == d.1
  {
    var n, ch := img.width * img.height, r.channels;
    PixelFits(p, n, ch);
    var pixData := img.data[ch * p .. ch * p + ch];
    next := cursor + 1;
    if UpdateFires(r.rate, draws(cursor)) {
      var s := SampleSlot(r, draws(next));
      next := next + 1;
      WriteSampleAt(bg, mask, n, ch, s, p, pixData);
    }
  }

  /** `if ((rand % learningRate) == 0) { getNeighborPosition_3x3(...); bgImg[rand % N].at(y_rand,
      x_rand) = image.at(y, x); }`, or its bitmask form. */
  method UpdateNeighbor(r: Rule, img: Img, bg: seq<array<Byte>>, mask: array<Byte>,
                        x: nat, y: nat, p: nat, draws: Draws, cursor: nat) returns (next: nat)
    requires Fits(r, img, Contents(bg)) && Separate(bg, mask)
    requires p < img.width * img.height && x == p % img.width && y == p / img.width
    modifies set i | 0 <= i < |bg| :: bg[i]
    ensures var n := img.width * img.height;
      var d := NeighborDraws(r, img.width, img.height, p, draws, cursor);
      var px := Pixel(img.data, n, r.channels, p);
      Contents(bg) == (if d.0.Some? then WriteSample(old(Contents(bg)), n, r.channels, d.0.value.1, d.0.value.0, px)
                       else old(Contents(bg)))
      && next == d.1
  {
    if UpdateFires(r.rate, draws(cursor)) {
      next := UpdateNeighborFired(r, img, bg, mask, x, y, p, draws, cursor + 1);
    } else {
      next := cursor + 1;
    }
  }

  /** The body of that `if`, once the update test has fired: the direction draw at `c` picks
      the neighbour, the slot draw at `c + 1` picks the sample. */
  method UpdateNeighborFired(r: Rule, img: Img, bg: seq<array<Byte>>, mask: array<Byte>,
                             x: nat, y: nat, p: nat, draws: Draws, c: nat) returns (next: nat)
    requires Fits(r, img, Contents(bg)) && Separate(bg, mask)
    requires p < img.width * img.height && x == p % img.width && y == p / img.width
    modifies set i | 0 <= i < |bg| :: bg[i]
    ensures var n := img.width * img.height;
      Contents(bg) == WriteSample(old(Contents(bg)), n, r.channels, SampleSlot(r, draws(c + 1)),
                                  NeighborTarget(img.width, img.height, p, draws(c)), Pixel(img.data, n, r.channels, p))
      && next == c + 2
  {
    var w, h, ch := img.width, img.height, r.channels;
    var n := w * h;
    PixelFits(p, n, ch);
    var pixData := img.data[ch * p .. ch * p + ch];
    var xRand, yRand;
    xRand, yRand, next := GetNeighborPosition3x3(x, y, w, h, draws, c);
    NeighborTargetAt(w, h, p, x, y, xRand, yRand, draws(next - 1));
    assert next == c + 1;
    var s := SampleSlot(r, draws(next));
    next := next + 1;
    var q := yRand * w + xRand;
    assert q == NeighborTarget(w, h, p, draws(c)) && pixData == Pixel(img.data, n, ch, p);
    WriteSampleAt(bg, mask, n, ch, s, q, pixData);
  }

  /** The position `getNeighborPosition_3x3` returns for pixel (x, y) = `p` is `NeighborTarget`. */
  lemma NeighborTargetAt(w: nat, h: nat, p: nat, x: nat, y: nat, xRand: int, yRand: int, d: Uint32)
    requires p < w * h && x == p % w && y == p / w
    requires (xRand, yRand) == NeighborPosition(x, y, w, h, d)
    ensures 0 <= xRand < w && 0 <= yRand < h && yRand * w + xRand == NeighborTarget(w, h, p, d)
  {
    RasterCoords(p, w, h);
  }

  /** `fgmask = cv::Scalar_<uchar>(0)` / `fgmask.clear()`. */
  method ClearMask(mask: array<Byte>)
    modifies mask
    ensures forall i :: 0 <= i < mask.Length ==> mask[i] == 0
  {
    var i := 0;
    while i < mask.Length
      invariant i <= mask.Length
      invariant forall j :: 0 <= j < i ==> mask[j] == 0
    {
      mask[i] := 0;
      i := i + 1;
    }
  }

  // ---------------------------------------------------------------------------------------
  // The whole frame
  // ---------------------------------------------------------------------------------------

  /** After the first `k` pixels, starting from samples `S0` and cursor `c0`, the buffers,
      the mask prefix and the cursor `c` are those of `Run`, and the rest of the mask is
      still clear. */
  ghost predicate Tracks(r: Rule, img: Img, S0: Samples, draws: Draws, c0: nat, k: nat,
                         bg: seq<array<Byte>>, mask: array<Byte>, c: nat)
    reads mask, set i | 0 <= i < |bg| :: bg[i]
  {
    Fits(r, img, S0) && k <= img.width * img.height && mask.Length == img.width * img.height
    && State(Contents(bg), mask[..k], c) == Run(r, img, S0, draws, c0, k)
    && mask[k..] == Zeros(img.width * img.height - k)
  }

  /** `n` clear mask bytes. */
  function Zeros(n: nat): (z: seq<Byte>)
    ensures |z| == n && forall i :: 0 <= i < n ==> z[i] == 0
  {
    seq(n, _ => 0)
  }

  /** Pixel (x, y) of the raster pass, flat offset `p`: one more pixel tracked. */
  method ScanPixel(r: Rule, img: Img, bg: seq<array<Byte>>, mask: array<Byte>, x: nat, y: nat, p: nat,
                   draws: Draws, cursor: nat, ghost S0: Samples, ghost c0: nat) returns (next: nat)
    requires Separate(bg, mask) && Tracks(r, img, S0, draws, c0, p, bg, mask, cursor)
    requires x < img.width && y < img.height && p == y * img.width + x
    modifies mask, set i | 0 <= i < |bg| :: bg[i]
    ensures Tracks(r, img, S0, draws, c0, p + 1, bg, mask, next)
  {
    RasterOffset(x, y, img.width, img.height);
    ghost var st := Run(r, img, S0, draws, c0, p);
    next := ProcessPixel(r, img, bg, mask, x, y, p, draws, cursor);
    ghost var st' := Run(r, img, S0, draws, c0, p + 1);
    assert st' == Step(r, img, draws, st, p);
    assert mask[..p + 1] == st'.mask;
  }

  /** The pixel loops of `BackgroundSubtractorViBe_1ch::apply` and
      `BackgroundSubtractorViBe_3ch::applyCmp`: clear the mask, then visit the rows top to
      bottom and each row left to right. The buffers, the mask and the cursor end as `Run`
      over all pixels says. */
  method ApplyRaster(r: Rule, img: Img, bg: seq<array<Byte>>, mask: array<Byte>, draws: Draws, cursor: nat)
    returns (next: nat)
    requires Fits(r, img, Contents(bg)) && Separate(bg, mask) && mask.Length == img.width * img.height
    modifies mask, set i | 0 <= i < |bg| :: bg[i]
    ensures var st := Run(r, img, old(Contents(bg)), draws, cursor, img.width * img.height);
      Contents(bg) == st.samples && mask[..] == st.mask && next == st.cursor
  {
    ghost var S0 := Contents(bg);
    var w, h := img.width, img.height;
    ClearMask(mask);
    next := cursor;
    var y, k := 0, 0;
    while y < h
      invariant y <= h && k == y * w
      invariant Tracks(r, img, S0, draws, cursor, k, bg, mask, next)
    {
      NextRow(y, w);
      next, k := ScanRow(r, img, bg, mask, y, draws, next, S0, cursor, k);
      y := y + 1;
    }
    NextRow(h, w);
    assert mask[..] == mask[..k];
  }

  /** The inner loop of `ApplyRaster`: row `y`, which starts at flat offset `k0`, left to
      right, ending at flat offset `k`, the start of the next row. */
  method ScanRow(r: Rule, img: Img, bg: seq<array<Byte>>, mask: array<Byte>, y: nat, draws: Draws,
                 cursor: nat, ghost S0: Samples, ghost c0: nat, k0: nat) returns (next: nat, k: nat)
    requires Separate(bg, mask) && y < img.height && k0 == y * img.width
    requires Tracks(r, img, S0, draws, c0, k0, bg, mask, cursor)
    modifies mask, set i | 0 <= i < |bg| :: bg[i]
    ensures k == k0 + img.width
    ensures Tracks(r, img, S0, draws, c0, k, bg, mask, next)
  {
    var w := img.width;
    next := cursor;
    var x := 0;
    k := k0;
    while x < w
      invariant x <= w && k == k0 + x
      invariant Tracks(r, img, S0, draws, c0, k, bg, mask, next)
    {
      next := ScanPixel(r, img, bg, mask, x, y, k, draws, next, S0, c0);
      x, k := x + 1, k + 1;
    }
  }

  /** The pixel loop of `VibeBGS::applyCmp`: clear the mask, then visit the pixels by flat
      offset, the colour bytes of pixel `pixOffset` starting at `colorPixOffset` = 3 *
      `pixOffset`. */
  method ApplyFlat(r: Rule, img: Img, bg: seq<array<Byte>>, mask: array<Byte>, draws: Draws, cursor: nat)
    returns (next: nat)
    requires Fits(r, img, Contents(bg)) && Separate(bg, mask) && mask.Length == img.width * img.height
    modifies mask, set i | 0 <= i < |bg| :: bg[i]
    ensures var st := Run(r, img, old(Contents(bg)), draws, cursor, img.width * img.height);
      Contents(bg) == st.samples && mask[..] == st.mask && next == st.cursor
  {
    ghost var S0 := Contents(bg);
    var numPixels := img.width * img.height;
    ClearMask(mask);
    next := cursor;
    var pixOffset, colorPixOffset := 0, 0;
    while pixOffset < numPixels
      invariant pixOffset <= numPixels && colorPixOffset == r.channels * pixOffset
      invariant Tracks(r, img, S0, draws, cursor, pixOffset, bg, mask, next)
    {
      RasterCoords(pixOffset, img.width, img.height);
      next := ScanPixel(r, img, bg, mask, pixOffset % img.width, pixOffset / img.width, pixOffset,
                        draws, next, S0, cursor);
      pixOffset, colorPixOffset := pixOffset + 1, colorPixOffset + r.channels;
    }
    assert mask[..] == mask[..numPixels];
  }
}
