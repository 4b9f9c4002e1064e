/** The band variants of `BackgroundSubtractorViBe_3ch`: `initializeParallel` gives every
    horizontal band of the frame its own sample set and mask buffer, and `applyParallel` runs
    the classify-and-update pass on each band with that band's samples and copies the band
    mask into the band's rows of the frame mask. The bands are run one after the other, in
    band order, from one random stream. */
module ViBeParallel {
  import opened Common
  import opened ViBeModel
  import opened ViBeEngine
  import opened ViBeInit
  import opened Bands

  /** Band `i` of frame `img` cut into `T` bands: `image(m_rectImgs[i])`. */
  function Band(img: Img, T: nat, i: nat): (band: Img)
    requires img.Valid() && 1 <= T && i < T
    ensures band.Valid() && band.width == img.width && band.height == BandHeight(img.height, T, i)
    ensures band.channels == img.channels
  {
    SubImage(img, BandRect(img.width, img.height, T, i))
  }

  /** The band images of `splitImages`: band `i` of `img` for each `i` < `T`. */
  function Split(img: Img, T: nat): (bands: seq<Img>)
    requires img.Valid() && 1 <= T
    ensures |bands| == T && forall i :: 0 <= i < T ==> bands[i] == Band(img, T, i)
  {
    seq(T, i requires 0 <= i < T => Band(img, T, i))
  }

  /** One sample set per band image, each sized for its band. */
  predicate BandsFit(r: Rule, bands: seq<Img>, S: seq<Samples>) {
    |S| == |bands| && forall i :: 0 <= i < |bands| ==> Fits(r, bands[i], S[i])
  }

  /** Number of pixels in bands 0 .. k-1. */
  function PixelsBefore(bands: seq<Img>, k: nat): nat
    requires k <= |bands|
  {
    if k == 0 then 0 else PixelsBefore(bands, k - 1) + bands[k - 1].width * bands[k - 1].height
  }

  /** The bands' sample sets, the frame mask written so far and the draw cursor. */
  datatype BandsState = BandsState(samples: seq<Samples>, mask: seq<Byte>, cursor: nat)

  /** The pass of band `i` from state `ps`: `applyCmp` on the band image with the band's
      samples, starting at the current cursor. The code is only defined when the samples fit
      the band; the model leaves a band whose samples do not fit as it is. */
  function BandRun(r: Rule, bands: seq<Img>, draws: Draws, ps: BandsState, i: nat): (st: State)
    requires |ps.samples| == |bands| && i < |bands|
  {
    var band := bands[i];
    if Fits(r, band, ps.samples[i]) then Run(r, band, ps.samples[i], draws, ps.cursor, band.width * band.height)
    else State(ps.samples[i], [], ps.cursor)
  }

  /** The mask band `i` computes in `applyParallel`, from the samples and the cursor bands
      0 .. i-1 left; `ParallelRun` appends it to the frame mask. */
  function BandMask(r: Rule, bands: seq<Img>, S0: seq<Samples>, draws: Draws, c0: nat, i: nat): seq<Byte>
    requires |S0| == |bands| && i < |bands|
  {
    BandRun(r, bands, draws, ParallelRun(r, bands, S0, draws, c0, i), i).mask
  }

  /** `applyParallel` after bands 0 .. k-1, run in order: each band updates only its own
      sample set and appends its mask. */
  function ParallelRun(r: Rule, bands: seq<Img>, S0: seq<Samples>, draws: Draws, c0: nat, k: nat): (ps: BandsState)
    requires |S0| == |bands| && k <= |bands|
    ensures |ps.samples| == |bands|
  {
    if k == 0 then BandsState(S0, [], c0)
    else
      var ps := ParallelRun(r, bands, S0, draws, c0, k - 1);
      var st := BandRun(r, bands, draws, ps, k - 1);
      BandsState(ps.samples[k - 1 := st.samples], ps.mask + st.mask, st.cursor)
  }

  lemma MulAdd(w: nat, a: nat, b: nat)
    ensures w * a + w * b == w * (a + b)
  {}

  /** Bands of a `W` by `H` frame cut into `T`: band `i` is `W` wide and `BandHeight(i)` high. */
  predicate SplitShape(bands: seq<Img>, W: nat, H: nat, T: nat) {
    1 <= T && |bands| == T
    && forall i :: 0 <= i < T ==> bands[i].width == W && bands[i].height == BandHeight(H, T, i)
  }

  lemma SplitHasShape(img: Img, T: nat)
    requires img.Valid() && 1 <= T
    ensures SplitShape(Split(img, T), img.width, img.height, T)
  {}

  /** The bands before band `k` hold the pixels of the rows above `BandTop(k)`, and all `T`
      bands hold the whole frame. */
  lemma {:induction false} PixelsBeforeIsTop(bands: seq<Img>, W: nat, H: nat, T: nat, k: nat)
    requires SplitShape(bands, W, H, T) && k <= T
    ensures PixelsBefore(bands, k) == W * HeightSum(H, T, k)
    ensures k < T ==> PixelsBefore(bands, k) == W * BandTop(H, T, k)
    ensures k == T ==> PixelsBefore(bands, k) == W * H
  {
    HeightSumIsTop(H, T, k);
    if k > 0 {
      PixelsBeforeIsTop(bands, W, H, T, k - 1);
      MulAdd(W, HeightSum(H, T, k - 1), BandHeight(H, T, k - 1));
    }
  }

  lemma {:induction false} PixelsBeforeMonotone(bands: seq<Img>, j: nat, k: nat)
    requires j <= k <= |bands|
    ensures PixelsBefore(bands, j) <= PixelsBefore(bands, k)
  {
    if j < k {
      PixelsBeforeMonotone(bands, j, k - 1);
      MulNonneg(bands[k - 1].width, bands[k - 1].height);
    }
  }

  // ---------------------------------------------------------------------------------------
  // What the band pass promises
  // ---------------------------------------------------------------------------------------

  /** Sample sets that fit their bands keep fitting, and the mask gets one byte per pixel of
      every band run so far. */
  lemma {:induction false} ParallelRunFits(r: Rule, bands: seq<Img>, S0: seq<Samples>, draws: Draws,
                                           c0: nat, k: nat)
    requires BandsFit(r, bands, S0) && k <= |bands|
    ensures var ps := ParallelRun(r, bands, S0, draws, c0, k);
      BandsFit(r, bands, ps.samples) && |ps.mask| == PixelsBefore(bands, k)
  {
    if k > 0 {
      ParallelRunFits(r, bands, S0, draws, c0, k - 1);
      var ps := ParallelRun(r, bands, S0, draws, c0, k - 1);
      var st := BandRun(r, bands, draws, ps, k - 1);
      assert Fits(r, bands[k - 1], ps.samples[k - 1]);
      assert Fits(r, bands[k - 1], st.samples) && |st.mask| == bands[k - 1].width * bands[k - 1].height;
      var S := ps.samples[k - 1 := st.samples];
      forall i | 0 <= i < |bands| ensures Fits(r, bands[i], S[i]) {
        if i != k - 1 {
          assert S[i] == ps.samples[i];
        }
      }
    }
  }

  /** Every byte of `m` is 0 or `UCHAR_MAX`. */
  predicate Binary(m: seq<Byte>) {
    forall j :: 0 <= j < |m| ==> m[j] == 0 || m[j] == UcharMax
  }

  /** The band masks are binary, so the frame mask is. */
  lemma {:induction false} ParallelMaskIsBinary(r: Rule, bands: seq<Img>, S0: seq<Samples>, draws: Draws,
                                                c0: nat, k: nat)
    requires |S0| == |bands| && k <= |bands|
    ensures Binary(ParallelRun(r, bands, S0, draws, c0, k).mask)
  {
    if k > 0 {
      ParallelMaskIsBinary(r, bands, S0, draws, c0, k - 1);
      var ps := ParallelRun(r, bands, S0, draws, c0, k - 1);
      var st := BandRun(r, bands, draws, ps, k - 1);
      assert Binary(st.mask);
    }
  }

  /** Band `i` changes only its own sample set, and only during its own pass: before band
      `i` has run its set is still the initial one, and afterwards it is what band `i`'s pass
      made of it, whatever the other bands did. */
  lemma {:induction false} ParallelBandSamples(r: Rule, bands: seq<Img>, S0: seq<Samples>, draws: Draws,
                                               c0: nat, i: nat, k: nat)
    requires |S0| == |bands| && i < |bands| && k <= |bands|
    ensures ParallelRun(r, bands, S0, draws, c0, k).samples[i]
         == if i < k then BandRun(r, bands, draws, ParallelRun(r, bands, S0, draws, c0, i), i).samples
            else S0[i]
  {
    if k > 0 {
      ParallelBandSamples(r, bands, S0, draws, c0, i, k - 1);
    }
  }

  /** Later bands only append to the frame mask: the mask after `j` bands is a prefix of the
      mask after `k` >= `j` bands. */
  lemma {:induction false} ParallelMaskPrefix(r: Rule, bands: seq<Img>, S0: seq<Samples>, draws: Draws,
                                              c0: nat, j: nat, k: nat)
    requires |S0| == |bands| && j <= k <= |bands|
    ensures var mj := ParallelRun(r, bands, S0, draws, c0, j).mask;
      var mk := ParallelRun(r, bands, S0, draws, c0, k).mask;
      |mj| <= |mk| && mk[..|mj|] == mj
  {
    if j < k {
      ParallelMaskPrefix(r, bands, S0, draws, c0, j, k - 1);
      var mj := ParallelRun(r, bands, S0, draws, c0, j).mask;
      var ps := ParallelRun(r, bands, S0, draws, c0, k - 1);
      var st := BandRun(r, bands, draws, ps, k - 1);
      assert (ps.mask + st.mask)[..|mj|] == ps.mask[..|mj|];
    }
  }

  /** Band `i` writes its own stretch of the frame mask, right after the stretches of the
      bands before it, and no later band overwrites it. */
  lemma ParallelBandMask(r: Rule, bands: seq<Img>, S0: seq<Samples>, draws: Draws, c0: nat, i: nat, k: nat)
    requires |S0| == |bands| && i < k <= |bands|
    ensures var m := ParallelRun(r, bands, S0, draws, c0, k).mask;
      var before := ParallelRun(r, bands, S0, draws, c0, i);
      var lo := |before.mask|;
      var hi := |ParallelRun(r, bands, S0, draws, c0, i + 1).mask|;
      lo <= hi <= |m| && m[lo .. hi] == BandRun(r, bands, draws, before, i).mask
  {
    ParallelMaskPrefix(r, bands, S0, draws, c0, i + 1, k);
    var m := ParallelRun(r, bands, S0, draws, c0, k).mask;
    var m1 := ParallelRun(r, bands, S0, draws, c0, i + 1).mask;
    var before := ParallelRun(r, bands, S0, draws, c0, i);
    var st := BandRun(r, bands, draws, before, i);
    assert m1 == before.mask + st.mask;
    assert m[|before.mask| .. |m1|] == m1[|before.mask|..];
  }

  /** Band `i` reads only its own rows of the frame: two frames that agree on those rows give
      the same band image, hence the same band pass. */
  lemma BandReadsOnlyItsRows(img1: Img, img2: Img, T: nat, i: nat)
    requires img1.Valid() && img2.Valid() && 1 <= T && i < T
    requires img1.width == img2.width && img1.height == img2.height && img1.channels == img2.channels
    requires var W := img1.width; var lo := W * BandTop(img1.height, T, i);
      forall p :: lo <= p < lo + W * BandHeight(img1.height, T, i) ==>
        p < W * img1.height &&
        Pixel(img1.data, W * img1.height, img1.channels, p) == Pixel(img2.data, W * img2.height, img2.channels, p)
    ensures Band(img1, T, i) == Band(img2, T, i)
  {
    var W, H, ch := img1.width, img1.height, img1.channels;
    var rc := BandRect(W, H, T, i);
    var b1, b2 := Band(img1, T, i), Band(img2, T, i);
    var n := W * rc.height;
    forall q | 0 <= q < n
      ensures Pixel(b1.data, n, ch, q) == Pixel(b2.data, n, ch, q)
    {
      var p := SubImagePixel(img1, rc, q);
      var p2 := SubImagePixel(img2, rc, q);
      NextRow(rc.y, W);
    }
    PixelwiseEqual(b1.data, b2.data, n, ch);
  }

  /** Byte `PixelsBefore(i) + q` of the frame mask is the classification of pixel `q` of
      band `i` against band `i`'s samples as its own pass left them before reaching `q`. */
  lemma ParallelMaskPixel(r: Rule, bands: seq<Img>, S0: seq<Samples>, draws: Draws, c0: nat, i: nat, q: nat)
    requires BandsFit(r, bands, S0) && i < |bands| && q < bands[i].width * bands[i].height
    ensures var m := ParallelRun(r, bands, S0, draws, c0, |bands|).mask;
      var c := ParallelRun(r, bands, S0, draws, c0, i).cursor;
      PixelsBefore(bands, i) + q < |m|
      && m[PixelsBefore(bands, i) + q]
         == if IsForeground(r, bands[i], Run(r, bands[i], S0[i], draws, c, q).samples, q) then UcharMax else 0
  {
    var band := bands[i];
    var before := ParallelRun(r, bands, S0, draws, c0, i);
    ParallelBandMask(r, bands, S0, draws, c0, i, |bands|);
    ParallelRunFits(r, bands, S0, draws, c0, i);
    ParallelBandSamples(r, bands, S0, draws, c0, i, i);
    assert before.samples[i] == S0[i];
    var n := band.width * band.height;
    var st := Run(r, band, S0[i], draws, before.cursor, n);
    assert BandRun(r, bands, draws, before, i) == st;
    RunMaskIsClassification(r, band, S0[i], draws, before.cursor, n, q);
  }

  /** Pixel `p` of the frame mask after the whole pass over the bands of a `W` by `H` frame
      (such as `Split(img, T)`, by `SplitHasShape`) is decided by the one band whose rows hold
      it: it is the classification of that band's pixel `q` = `p - W * BandTop(i)` (pixel `p`
      of the frame, by `BandPixelIsFramePixel`) against the band's samples as they stood when
      the band's pass reached it. */
  lemma ParallelMaskIsClassification(r: Rule, bands: seq<Img>, W: nat, H: nat, T: nat, S0: seq<Samples>,
                                     draws: Draws, c0: nat, p: nat) returns (i: nat, q: nat)
    requires SplitShape(bands, W, H, T) && BandsFit(r, bands, S0) && p < W * H
    ensures i < T && q < W * BandHeight(H, T, i) && p == W * BandTop(H, T, i) + q
    ensures var m := ParallelRun(r, bands, S0, draws, c0, T).mask;
      var c := ParallelRun(r, bands, S0, draws, c0, i).cursor;
      |m| == W * H
      && m[p] == if IsForeground(r, bands[i], Run(r, bands[i], S0[i], draws, c, q).samples, q) then UcharMax else 0
  {
    i := PixelBand(W, H, T, p);
    q := p - W * BandTop(H, T, i);
    PixelsBeforeIsTop(bands, W, H, T, i);
    PixelsBeforeIsTop(bands, W, H, T, T);
    ParallelRunFits(r, bands, S0, draws, c0, T);
    ParallelMaskPixel(r, bands, S0, draws, c0, i, q);
  }

  /** Pixel `q` of band `i` is pixel `W * BandTop(i) + q` of the frame. */
  lemma BandPixelIsFramePixel(img: Img, T: nat, i: nat, q: nat)
    requires img.Valid() && 1 <= T && i < T && q < img.width * BandHeight(img.height, T, i)
    ensures img.width * BandTop(img.height, T, i) + q < img.width * img.height
    ensures Pixel(Band(img, T, i).data, img.width * BandHeight(img.height, T, i), img.channels, q)
         == Pixel(img.data, img.width * img.height, img.channels, img.width * BandTop(img.height, T, i) + q)
  {
    var p := SubImagePixel(img, BandRect(img.width, img.height, T, i), q);
    NextRow(BandTop(img.height, T, i), img.width);
  }

  /** Cutting the frame into bands does not change a decision: when band `i`'s samples hold, at
      its pixel `q`, the values the whole-frame samples hold at frame pixel `W * BandTop(i) + q`,
      band `i` classifies `q` exactly as the whole frame classifies that pixel. (The bound on the
      frame pixel follows from `q`'s bound; it is stated so that the frame pixel is defined.) */
  lemma TilingEquivalence(r: Rule, img: Img, T: nat, S: Samples, Sb: Samples, i: nat, q: nat)
    requires 1 <= T && i < T && Fits(r, img, S) && Fits(r, Band(img, T, i), Sb)
    requires q < img.width * BandHeight(img.height, T, i)
    requires img.width * BandTop(img.height, T, i) + q < img.width * img.height
    requires forall s :: 0 <= s < r.nSamples ==>
               Pixel(Sb[s], img.width * BandHeight(img.height, T, i), r.channels, q)
               == Pixel(S[s], img.width * img.height, r.channels, img.width * BandTop(img.height, T, i) + q)
    ensures IsForeground(r, Band(img, T, i), Sb, q)
         == IsForeground(r, img, S, img.width * BandTop(img.height, T, i) + q)
  {
    var band := Band(img, T, i);
    BandPixelIsFramePixel(img, T, i, q);
    assert band.width * band.height == img.width * BandHeight(img.height, T, i);
    ClassificationIsLocal(r, band, Sb, q, img, S, img.width * BandTop(img.height, T, i) + q);
  }

  /** The band of pixel `p`: the band holding its row. */
  lemma PixelBand(W: nat, H: nat, T: nat, p: nat) returns (i: nat)
    requires 1 <= T && p < W * H
    ensures i < T && W * BandTop(H, T, i) <= p < W * BandTop(H, T, i) + W * BandHeight(H, T, i)
  {
    RasterCoords(p, W, H);
    i := BandOf(H, T, p / W);
    var top, h := BandTop(H, T, i), BandHeight(H, T, i);
    MulMono(W, top, p / W);
    MulMono(W, p / W + 1, top + h);
    NextRow(p / W, W);
    MulAdd(W, top, h);
  }

  /** Band draws never overlap: a later band starts drawing no earlier than an earlier one
      stopped. */
  lemma {:induction false} ParallelCursorMonotone(r: Rule, bands: seq<Img>, S0: seq<Samples>, draws: Draws,
                                                  c0: nat, j: nat, k: nat)
    requires |S0| == |bands| && j <= k <= |bands|
    ensures ParallelRun(r, bands, S0, draws, c0, j).cursor <= ParallelRun(r, bands, S0, draws, c0, k).cursor
  {
    if j < k {
      ParallelCursorMonotone(r, bands, S0, draws, c0, j, k - 1);
      var ps := ParallelRun(r, bands, S0, draws, c0, k - 1);
      var band := bands[k - 1];
      if Fits(r, band, ps.samples[k - 1]) {
        RunCursorMonotone(r, band, ps.samples[k - 1], draws, ps.cursor, band.width * band.height);
      }
    }
  }

  /** A pass never moves the cursor backwards. */
  lemma {:induction false} RunCursorMonotone(r: Rule, img: Img, S0: Samples, draws: Draws, c0: nat, k: nat)
    requires Fits(r, img, S0) && k <= img.width * img.height
    ensures c0 <= Run(r, img, S0, draws, c0, k).cursor
  {
    if k > 0 {
      RunCursorMonotone(r, img, S0, draws, c0, k - 1);
    }
  }

  // ---------------------------------------------------------------------------------------
  // The band sample sets on the heap
  // ---------------------------------------------------------------------------------------

  /** The sample values of every band's buffers. */
  ghost function ContentsAll(bgs: seq<seq<array<Byte>>>): (S: seq<Samples>)
    reads set i, a | 0 <= i < |bgs| && 0 <= a < |bgs[i]| :: bgs[i][a]
    ensures |S| == |bgs| && forall i :: 0 <= i < |bgs| ==> S[i] == Contents(bgs[i])
  {
    if bgs == [] then [] else ContentsAll(bgs[..|bgs| - 1]) + [Contents(bgs[|bgs| - 1])]
  }

  /** Every buffer of every band. */
  function SampleArrays(bgs: seq<seq<array<Byte>>>): set<array<Byte>> {
    set i, a | 0 <= i < |bgs| && 0 <= a < |bgs[i]| :: bgs[i][a]
  }

  /** No two bands share a buffer, each band's buffers are pairwise different, and the band
      masks are different arrays from each other and from every sample buffer. */
  predicate BandsSeparate(bgs: seq<seq<array<Byte>>>, outs: seq<array<Byte>>) {
    (forall i :: 0 <= i < |bgs| ==> Distinct(bgs[i]))
    && (forall i, j :: 0 <= i < j < |bgs| ==> Apart(bgs[i], bgs[j]))
    && (forall i, j :: 0 <= i < |outs| && 0 <= j < |bgs| ==> outs[i] !in bgs[j])
    && (forall i, j :: 0 <= i < j < |outs| ==> outs[i] != outs[j])
  }

  /** No buffer of band `x` is a buffer of band `y`. */
  predicate Apart(x: seq<array<Byte>>, y: seq<array<Byte>>) {
    forall a :: 0 <= a < |x| ==> x[a] !in y
  }

  /** `m_outSplit[np].copyTo(fgmask(m_rectImgs[np]))` for a full-width rectangle: the band
      mask lands in the contiguous bytes from `lo` on. */
  method CopyToRows(src: array<Byte>, dst: array<Byte>, lo: nat)
    requires src != dst && lo + src.Length <= dst.Length
    modifies dst
    ensures dst[..] == Splice(old(dst[..]), lo, src[..])
  {
    var i := 0;
    while i < src.Length
      invariant i <= src.Length
      invariant forall j :: 0 <= j < dst.Length ==>
        dst[j] == if lo <= j < lo + i then src[j - lo] else old(dst[j])
    {
      dst[lo + i] := src[i];
      i := i + 1;
    }
  }

  /** The body of the `applyParallel` lambda for the band with rectangle `rect`: `applyCmp`
      on the band image `image(rect)` into the band mask `out`, then `out` copied into the
      band's rows of `fgmask`. */
  method ApplyBand(r: Rule, img: Img, rect: Rect, bg: seq<array<Byte>>, out: array<Byte>,
                   fgmask: array<Byte>, draws: Draws, cursor: nat) returns (next: nat)
    requires img.Valid() && rect.x == 0 && rect.width == img.width && rect.y + rect.height <= img.height
    requires Fits(r, SubImage(img, rect), Contents(bg)) && Separate(bg, out) && fgmask !in bg && fgmask != out
    requires out.Length == img.width * rect.height && fgmask.Length == img.width * img.height
    modifies out, fgmask, set i | 0 <= i < |bg| :: bg[i]
    ensures var band := SubImage(img, rect);
      var st := Run(r, band, old(Contents(bg)), draws, cursor, band.width * band.height);
      Contents(bg) == st.samples && out[..] == st.mask && next == st.cursor
      && RowStart(img.width, rect.y) + |st.mask| <= fgmask.Length
      && fgmask[..] == Splice(old(fgmask[..]), RowStart(img.width, rect.y), st.mask)
  {
    var iImg := SubImage(img, rect);
    next := ApplyRaster(r, iImg, bg, out, draws, cursor);
    MulAdd(img.width, rect.y, rect.height);
    MulMono(img.width, rect.y + rect.height, img.height);
    CopyToRows(out, fgmask, RowStart(img.width, rect.y));
  }

  /** First byte of row `y` of a `W`-wide mask. */
  function RowStart(W: nat, y: nat): nat {
    W * y
  }

  /** Writing `m` right after the prefix `a` of a buffer that is `a` followed by the rest of
      `F` gives `a + m` followed by the rest of `F`. */
  lemma SpliceAtEnd(a: seq<Byte>, F: seq<Byte>, m: seq<Byte>)
    requires |a| + |m| <= |F|
    ensures Splice(a + F[|a|..], |a|, m) == (a + m) + F[|a + m|..]
  {
    var s, t := Splice(a + F[|a|..], |a|, m), (a + m) + F[|a + m|..];
    assert forall j :: 0 <= j < |s| ==> s[j] == t[j];
  }

  /** Band `i` of `bands` is the part of frame `img` under rectangle `rects[i]`, a full-width
      stretch of rows, and its pixels follow those of the bands before it; together the bands
      hold the whole frame. */
  ghost predicate BandLayout(img: Img, rects: seq<Rect>, bands: seq<Img>) {
    img.Valid() && |bands| == |rects|
    && (forall i {:trigger rects[i]} :: 0 <= i < |rects| ==>
          rects[i].x == 0 && rects[i].width == img.width && rects[i].y + rects[i].height <= img.height
          && bands[i] == SubImage(img, rects[i]) && PixelsBefore(bands, i) == RowStart(img.width, rects[i].y))
    && PixelsBefore(bands, |bands|) == img.width * img.height
  }

  /** The rectangles of `initializeParallel` lay out the split of the frame. */
  lemma SplitLayout(img: Img, T: nat, rects: seq<Rect>)
    requires img.Valid() && 1 <= T
    requires |rects| == T && forall i :: 0 <= i < T ==> rects[i] == BandRect(img.width, img.height, T, i)
    ensures BandLayout(img, rects, Split(img, T))
  {
    var bands := Split(img, T);
    SplitHasShape(img, T);
    forall i | 0 <= i < T
      ensures PixelsBefore(bands, i) == RowStart(img.width, rects[i].y)
    {
      PixelsBeforeIsTop(bands, img.width, img.height, T, i);
    }
    PixelsBeforeIsTop(bands, img.width, img.height, T, T);
  }

  /** `ApplyBand` on band `np` of the band buffers: only that band's sample set changes. */
  method ApplyBandAt(r: Rule, img: Img, rect: Rect, bgs: seq<seq<array<Byte>>>, outs: seq<array<Byte>>, np: nat,
                     fgmask: array<Byte>, draws: Draws, cursor: nat) returns (next: nat)
    requires img.Valid() && rect.x == 0 && rect.width == img.width && rect.y + rect.height <= img.height
    requires np < |bgs| == |outs| && BandsSeparate(bgs, outs) && fgmask !in outs && fgmask !in SampleArrays(bgs)
    requires Fits(r, SubImage(img, rect), Contents(bgs[np]))
    requires outs[np].Length == img.width * rect.height && fgmask.Length == img.width * img.height
    modifies outs[np], fgmask, set a | 0 <= a < |bgs[np]| :: bgs[np][a]
    ensures var band := SubImage(img, rect);
      var st := Run(r, band, old(Contents(bgs[np])), draws, cursor, band.width * band.height);
      ContentsAll(bgs) == old(ContentsAll(bgs))[np := st.samples] && next == st.cursor
      && RowStart(img.width, rect.y) + |st.mask| <= fgmask.Length
      && fgmask[..] == Splice(old(fgmask[..]), RowStart(img.width, rect.y), st.mask) && outs[np][..] == st.mask
    ensures forall i :: 0 <= i < |outs| && i != np ==> outs[i][..] == old(outs[i][..])
  {
    next := ApplyBand(r, img, rect, bgs[np], outs[np], fgmask, draws, cursor);
    OtherBandsApart(bgs, outs, np, fgmask);
    OtherMasksApart(bgs, outs, np);
    forall i | 0 <= i < |outs| && i != np
      ensures outs[i][..] == old(outs[i][..])
    {
      assert outs[i] !in bgs[np] && outs[i] != outs[np] && outs[i] != fgmask;
    }
    forall i | 0 <= i < |bgs| && i != np
      ensures Contents(bgs[i]) == old(Contents(bgs[i]))
    {
      ContentsUnchanged(bgs[i]);
    }
  }

  /** The mask buffers of every band other than `np` are none of the arrays that applying band
      `np` writes, apart from the frame mask. */
  lemma OtherMasksApart(bgs: seq<seq<array<Byte>>>, outs: seq<array<Byte>>, np: nat)
    requires np < |bgs| == |outs| && BandsSeparate(bgs, outs)
    ensures forall i :: 0 <= i < |outs| && i != np ==> outs[i] !in bgs[np] && outs[i] != outs[np]
  {
    forall i | 0 <= i < |outs| && i != np
      ensures outs[i] != outs[np]
    {
      if i < np {
        assert outs[i] != outs[np];
      } else {
        assert outs[np] != outs[i];
      }
    }
  }

  /** A band's sample values depend on its own buffers only. */
  twostate lemma ContentsUnchanged(bg: seq<array<Byte>>)
    requires forall a :: 0 <= a < |bg| ==> bg[a][..] == old(bg[a][..])
    ensures Contents(bg) == old(Contents(bg))
  {
    if bg != [] {
      ContentsUnchanged(bg[..|bg| - 1]);
    }
  }

  /** The buffers of every band other than `np` are none of the arrays that applying band `np`
      writes. */
  lemma OtherBandsApart(bgs: seq<seq<array<Byte>>>, outs: seq<array<Byte>>, np: nat, fgmask: array<Byte>)
    requires np < |bgs| == |outs| && BandsSeparate(bgs, outs) && fgmask !in SampleArrays(bgs)
    ensures forall i, a :: 0 <= i < |bgs| && i != np && 0 <= a < |bgs[i]| ==>
              bgs[i][a] !in bgs[np] && bgs[i][a] != outs[np] && bgs[i][a] != fgmask
  {
    forall i, a | 0 <= i < |bgs| && i != np && 0 <= a < |bgs[i]|
      ensures bgs[i][a] !in bgs[np] && bgs[i][a] != outs[np] && bgs[i][a] != fgmask
    {
      if i < np {
        assert Apart(bgs[i], bgs[np]);
      } else {
        assert Apart(bgs[np], bgs[i]);
      }
    }
  }

  /** The state of `applyParallel` after bands 0 .. k-1: the band sample sets, the cursor and
      the rows of those bands in the frame mask are as `ParallelRun` says, the rest of the
      frame mask is still `F0`, and the mask buffers of those bands hold their band masks. */
  ghost predicate Applied(r: Rule, bands: seq<Img>, S0: seq<Samples>, F0: seq<Byte>, draws: Draws, c0: nat, k: nat,
                          bgs: seq<seq<array<Byte>>>, outs: seq<array<Byte>>, fgmask: array<Byte>, next: nat)
    reads fgmask, SampleArrays(bgs), set i | 0 <= i < |outs| :: outs[i]
  {
    |S0| == |bands| && k <= |bands| <= |outs|
    && var ps := ParallelRun(r, bands, S0, draws, c0, k);
    ContentsAll(bgs) == ps.samples && next == ps.cursor
    && |ps.mask| <= |F0| && fgmask[..] == ps.mask + F0[|ps.mask|..]
    && forall i :: 0 <= i < k ==> MaskOut(r, bands, S0, draws, c0, i, outs[i])
  }

  /** Buffer `out` holds the mask of band `i`. */
  ghost predicate MaskOut(r: Rule, bands: seq<Img>, S0: seq<Samples>, draws: Draws, c0: nat, i: nat, out: array<Byte>)
    reads out
  {
    |S0| == |bands| && i < |bands| && out[..] == BandMask(r, bands, S0, draws, c0, i)
  }

  /** One pass of the `np` loop of `applyParallel`. */
  method ApplyBandStep(r: Rule, img: Img, rects: seq<Rect>, bgs: seq<seq<array<Byte>>>, outs: seq<array<Byte>>,
                       fgmask: array<Byte>, draws: Draws, np: nat, next: nat,
                       ghost bands: seq<Img>, ghost S0: seq<Samples>, ghost F0: seq<Byte>, ghost c0: nat)
    returns (next': nat)
    requires BandLayout(img, rects, bands) && BandsFit(r, bands, S0) && np < |bands|
    requires |bgs| == |outs| == |bands| && BandsSeparate(bgs, outs)
    requires fgmask !in outs && fgmask !in SampleArrays(bgs) && fgmask.Length == img.width * img.height
    requires outs[np].Length == img.width * rects[np].height
    requires Applied(r, bands, S0, F0, draws, c0, np, bgs, outs, fgmask, next)
    modifies outs[np], fgmask, set a | 0 <= a < |bgs[np]| :: bgs[np][a]
    ensures Applied(r, bands, S0, F0, draws, c0, np + 1, bgs, outs, fgmask, next')
  {
    ghost var ps := ParallelRun(r, bands, S0, draws, c0, np);
    ParallelRunFits(r, bands, S0, draws, c0, np);
    assert bands[np] == SubImage(img, rects[np]) && |ps.mask| == RowStart(img.width, rects[np].y);
    assert Fits(r, bands[np], ps.samples[np]);
    ghost var st := BandRun(r, bands, draws, ps, np);
    assert ParallelRun(r, bands, S0, draws, c0, np + 1) == BandsState(ps.samples[np := st.samples], ps.mask + st.mask, st.cursor);
    next' := ApplyBandAt(r, img, rects[np], bgs, outs, np, fgmask, draws, next);
    assert ContentsAll(bgs) == ps.samples[np := st.samples] && next' == st.cursor;
    assert fgmask[..] == Splice(ps.mask + F0[|ps.mask|..], |ps.mask|, st.mask);
    SpliceAtEnd(ps.mask, F0, st.mask);
    assert MaskOut(r, bands, S0, draws, c0, np, outs[np]);
    forall i | 0 <= i < np ensures MaskOut(r, bands, S0, draws, c0, i, outs[i]) {
      assert outs[i][..] == old(outs[i][..]);
    }
  }

  /** The `np` loop of `applyParallel` over bands laid out by `rects`. */
  method ApplyBandsInOrder(r: Rule, img: Img, processSeq: seq<int>, rects: seq<Rect>,
                           bgs: seq<seq<array<Byte>>>, outs: seq<array<Byte>>, fgmask: array<Byte>,
                           draws: Draws, cursor: nat, ghost bands: seq<Img>) returns (next: nat)
    requires BandLayout(img, rects, bands) && BandsFit(r, bands, ContentsAll(bgs))
    requires |processSeq| == |bands| && forall i :: 0 <= i < |bands| ==> processSeq[i] == i
    requires |bgs| == |outs| == |bands| && forall i :: 0 <= i < |bands| ==> outs[i].Length == img.width * rects[i].height
    requires BandsSeparate(bgs, outs) && fgmask !in outs && fgmask !in SampleArrays(bgs)
    requires fgmask.Length == img.width * img.height
    modifies fgmask, SampleArrays(bgs), set i | 0 <= i < |outs| :: outs[i]
    ensures var ps := ParallelRun(r, bands, old(ContentsAll(bgs)), draws, cursor, |bands|);
      ContentsAll(bgs) == ps.samples && fgmask[..] == ps.mask && next == ps.cursor
    ensures forall i :: 0 <= i < |bands| ==> outs[i][..] == BandMask(r, bands, old(ContentsAll(bgs)), draws, cursor, i)
  {
    ghost var S0 := ContentsAll(bgs);
    ghost var F0 := fgmask[..];
    next := cursor;
    var idx := 0;
    while idx < |processSeq|
      invariant idx <= |bands| && Applied(r, bands, S0, F0, draws, cursor, idx, bgs, outs, fgmask, next)
    {
      var np := processSeq[idx];
      assert forall a :: 0 <= a < |bgs[np]| ==> bgs[np][a] in SampleArrays(bgs);
      next := ApplyBandStep(r, img, rects, bgs, outs, fgmask, draws, np, next, bands, S0, F0, cursor);
      idx := idx + 1;
    }
    ParallelRunFits(r, bands, S0, draws, cursor, |bands|);
  }

  /** `applyParallel`, the bands taken one after the other in the order of `processSeq`
      (= 0, 1, ..., T-1). Samples, frame mask and cursor end as `ParallelRun` over the split
      of the frame says. */
  method ApplyBands(r: Rule, img: Img, T: nat, processSeq: seq<int>, rects: seq<Rect>,
                    bgs: seq<seq<array<Byte>>>, outs: seq<array<Byte>>, fgmask: array<Byte>,
                    draws: Draws, cursor: nat) returns (next: nat)
    requires img.Valid() && 1 <= T && BandsFit(r, Split(img, T), ContentsAll(bgs))
    requires |processSeq| == T && forall i :: 0 <= i < T ==> processSeq[i] == i
    requires |rects| == T && forall i :: 0 <= i < T ==> rects[i] == BandRect(img.width, img.height, T, i)
    requires |outs| == T && forall i :: 0 <= i < T ==> outs[i].Length == img.width * BandHeight(img.height, T, i)
    requires BandsSeparate(bgs, outs) && fgmask !in outs && fgmask !in SampleArrays(bgs)
    requires fgmask.Length == img.width * img.height
    modifies fgmask, SampleArrays(bgs), set i | 0 <= i < |outs| :: outs[i]
    ensures var ps := ParallelRun(r, Split(img, T), old(ContentsAll(bgs)), draws, cursor, T);
      ContentsAll(bgs) == ps.samples && fgmask[..] == ps.mask && next == ps.cursor
    ensures forall i :: 0 <= i < T ==> outs[i][..] == BandMask(r, Split(img, T), old(ContentsAll(bgs)), draws, cursor, i)
  {
    SplitLayout(img, T, rects);
    next := ApplyBandsInOrder(r, img, processSeq, rects, bgs, outs, fgmask, draws, cursor, Split(img, T));
  }

  // ---------------------------------------------------------------------------------------
  // Band initialisation
  // ---------------------------------------------------------------------------------------

  /** Number of the first draw band `k`'s sample set consumes: each band before it drew
      `nSamples` times its pixel count. */
  function InitCursor(bands: seq<Img>, nSamples: nat, c0: nat, k: nat): (c: nat)
    requires k <= |bands|
    ensures c0 <= c
  {
    if k == 0 then c0
    else
      var b := bands[k - 1];
      MulNonneg(nSamples, b.width * b.height);
      SampleBase(InitCursor(bands, nSamples, c0, k - 1), nSamples, b.width * b.height)
  }

  /** The sample sets `S` of the first `|S|` bands are each initialised from their own band
      image, from their own stretch of the random stream. */
  ghost predicate BandsInitializedFrom(S: seq<Samples>, bands: seq<Img>, nSamples: nat, draws: Draws, c0: nat) {
    |S| <= |bands|
    && forall i {:trigger S[i]} :: 0 <= i < |S| ==> InitializedFrom(S[i], bands[i], nSamples, draws, InitCursor(bands, nSamples, c0, i))
  }

  /** One more band initialised. */
  lemma BandsInitializedAppend(S: seq<Samples>, Sb: Samples, bands: seq<Img>, nSamples: nat, draws: Draws, c0: nat)
    requires BandsInitializedFrom(S, bands, nSamples, draws, c0) && |S| < |bands|
    requires InitializedFrom(Sb, bands[|S|], nSamples, draws, InitCursor(bands, nSamples, c0, |S|))
    ensures BandsInitializedFrom(S + [Sb], bands, nSamples, draws, c0)
  {
    forall i | 0 <= i < |S| + 1
      ensures InitializedFrom((S + [Sb])[i], bands[i], nSamples, draws, InitCursor(bands, nSamples, c0, i))
    {
      if i < |S| {
        assert (S + [Sb])[i] == S[i];
      }
    }
  }

  /** The stretches of the random stream the bands draw from follow one another in band order
      and do not overlap: band `i` draws from `InitCursor(i)` up to, not including,
      `InitCursor(i + 1)`, which is `nSamples` draws per pixel of the band later. */
  lemma {:induction false} InitCursorMonotone(bands: seq<Img>, nSamples: nat, c0: nat, j: nat, k: nat)
    requires j <= k <= |bands|
    ensures InitCursor(bands, nSamples, c0, j) <= InitCursor(bands, nSamples, c0, k)
    ensures j < k ==> InitCursor(bands, nSamples, c0, j) + nSamples * (bands[j].width * bands[j].height)
                      <= InitCursor(bands, nSamples, c0, k)
  {
    if j < k {
      InitCursorMonotone(bands, nSamples, c0, j, k - 1);
      var b := bands[k - 1];
      MulNonneg(nSamples, b.width * b.height);
    }
  }

  /** One pass of the `np` loop of `initializeParallel`: the band mask buffer
      (`m_outSplit[np].create`, zero-filled here) and the band's freshly initialised samples. */
  method InitBand(band: Img, nSamples: nat, draws: Draws, cursor: nat)
    returns (bg: seq<array<Byte>>, out: array<Byte>, next: nat)
    requires band.Valid()
    ensures fresh(out) && out.Length == band.width * band.height
    ensures Distinct(bg) && out !in bg && forall a :: 0 <= a < |bg| ==> fresh(bg[a])
    ensures InitializedFrom(Contents(bg), band, nSamples, draws, cursor)
    ensures next == SampleBase(cursor, nSamples, band.width * band.height)
  {
    out := new Byte[band.width * band.height](_ => 0);
    bg, next := InitSamples(band, nSamples, draws, cursor);
  }

  /** The sample sets `bgs` of the first `|bgs|` bands hold `S`, initialised band by band,
      and `next` is where the next band starts drawing. */
  ghost predicate BandsHeld(bands: seq<Img>, nSamples: nat, draws: Draws, c0: nat,
                            bgs: seq<seq<array<Byte>>>, outs: seq<array<Byte>>, next: nat, S: seq<Samples>)
    reads SampleArrays(bgs)
  {
    |bgs| <= |bands| && BandsSeparate(bgs, outs)
    && ContentsAll(bgs) == S && BandsInitializedFrom(S, bands, nSamples, draws, c0)
    && next == InitCursor(bands, nSamples, c0, |bgs|)
  }

  /** One pass of the `np` loop of `initializeParallel`, for band `np` = `|bgs|`: the bands
      before it keep their samples, and band `np` gets a mask buffer of its size and a sample
      set initialised from its band image, from where the previous band stopped drawing. */
  method InitBandStep(bands: seq<Img>, nSamples: nat, draws: Draws, ghost c0: nat,
                      bgs: seq<seq<array<Byte>>>, outs: seq<array<Byte>>, next: nat, ghost S: seq<Samples>)
    returns (bgs': seq<seq<array<Byte>>>, outs': seq<array<Byte>>, next': nat, ghost S': seq<Samples>)
    requires |bgs| < |bands| && bands[|bgs|].Valid()
    requires BandsHeld(bands, nSamples, draws, c0, bgs, outs, next, S)
    ensures BandsHeld(bands, nSamples, draws, c0, bgs', outs', next', S')
    ensures |bgs'| == |bgs| + 1 && |outs'| == |outs| + 1 && outs'[..|outs|] == outs
    ensures outs'[|outs|].Length == bands[|bgs|].width * bands[|bgs|].height
  {
    var bg, out;
    bg, out, next' := InitBand(bands[|bgs|], nSamples, draws, next);
    assert forall o :: o in SampleArrays(bgs) ==> old(allocated(o)) by {
      forall o | o in SampleArrays(bgs)
        ensures old(allocated(o))
      {
        var i, j :| 0 <= i < |bgs| && 0 <= j < |bgs[i]| && o == bgs[i][j];
      }
    }
    HeldAppend(bands, nSamples, draws, c0, bgs, outs, next, S, bg, out, out.Length, next');
    bgs', outs' := bgs + [bg], outs + [out];
    S' := S + [Contents(bg)];
    assert outs'[..|outs|] == outs;
  }

  /** Appending a band of buffers that are new to the bands, initialised from the next band
      image from where the previous band stopped drawing, keeps `BandsHeld`. */
  lemma HeldAppend(bands: seq<Img>, nSamples: nat, draws: Draws, c0: nat,
                   bgs: seq<seq<array<Byte>>>, outs: seq<array<Byte>>, next: nat, S: seq<Samples>,
                   bg: seq<array<Byte>>, out: array<Byte>, n: nat, next': nat)
    requires |bgs| < |bands| && BandsHeld(bands, nSamples, draws, c0, bgs, outs, next, S)
    requires Distinct(bg) && out !in bg && out !in SampleArrays(bgs) && out !in outs
    requires forall a :: 0 <= a < |bg| ==> bg[a] !in SampleArrays(bgs) && bg[a] !in outs
    requires InitializedFrom(Contents(bg), bands[|bgs|], nSamples, draws, next)
    requires n == bands[|bgs|].width * bands[|bgs|].height && next' == SampleBase(next, nSamples, n)
    ensures |bgs + [bg]| <= |bands| && BandsSeparate(bgs + [bg], outs + [out])
    ensures ContentsAll(bgs + [bg]) == S + [Contents(bg)]
    ensures BandsInitializedFrom(S + [Contents(bg)], bands, nSamples, draws, c0)
    ensures next' == InitCursor(bands, nSamples, c0, |bgs + [bg]|)
  {
    assert BandsSeparate(bgs + [bg], outs + [out]) by {
      AppendBand(bgs, outs, bg, out);
    }
    assert ContentsAll(bgs + [bg]) == S + [Contents(bg)] by {
      ContentsAllAppend(bgs, bg);
    }
    assert BandsInitializedFrom(S + [Contents(bg)], bands, nSamples, draws, c0) by {
      BandsInitializedAppend(S, Contents(bg), bands, nSamples, draws, c0);
    }
  }

  /** The sample values of one more band are those of the old bands and that band's. */
  lemma ContentsAllAppend(bgs: seq<seq<array<Byte>>>, bg: seq<array<Byte>>)
    ensures ContentsAll(bgs + [bg]) == ContentsAll(bgs) + [Contents(bg)]
  {
    assert (bgs + [bg])[..|bgs|] == bgs;
  }

  /** What the loop of `initializeParallel` has built after `np` bands: `processSeq[i] = i`,
      the band rectangles, a mask buffer and an initialised sample set per band image, the
      cursor where the next band starts drawing, and the running `y` / `h`. */
  ghost predicate BandsBuilt(img: Img, T: nat, bands: seq<Img>, nSamples: nat, draws: Draws, c0: nat, np: nat,
                             processSeq: seq<int>, bgs: seq<seq<array<Byte>>>, rects: seq<Rect>,
                             outs: seq<array<Byte>>, next: nat, y: nat, h: nat, S: seq<Samples>)
    reads SampleArrays(bgs)
  {
    RectsBuilt(img, T, np, processSeq, rects, outs, y, h)
    && |bgs| == np && BandsHeld(bands, nSamples, draws, c0, bgs, outs, next, S)
  }

  /** The heap-independent part of `BandsBuilt`. */
  predicate RectsBuilt(img: Img, T: nat, np: nat, processSeq: seq<int>, rects: seq<Rect>,
                       outs: seq<array<Byte>>, y: nat, h: nat)
  {
    img.Valid() && 1 <= T && np <= T
    && |processSeq| == np && |rects| == np && |outs| == np
    && (np < T ==> y == BandTop(img.height, T, np) && h == img.height / T)
    && (forall i :: 0 <= i < np ==> processSeq[i] == i)
    && (forall i :: 0 <= i < np ==> rects[i] == BandRect(img.width, img.height, T, i))
    && (forall i :: 0 <= i < np ==> outs[i].Length == img.width * BandHeight(img.height, T, i))
  }

  /** One pass of the `np` loop of `initializeParallel`: `m_processSeq[np] = np`, the band's
      mask buffer and sample set, and the band rectangle from the running `y` / `h`. */
  method InitBandsNext(img: Img, T: nat, imgsSplit: seq<Img>, nSamples: nat, draws: Draws, ghost c0: nat,
                       np: nat, processSeq: seq<int>, bgs: seq<seq<array<Byte>>>, rects: seq<Rect>,
                       outs: seq<array<Byte>>, next: nat, y: nat, h: nat, ghost S: seq<Samples>)
    returns (processSeq': seq<int>, bgs': seq<seq<array<Byte>>>, rects': seq<Rect>,
             outs': seq<array<Byte>>, next': nat, y': nat, h': nat, ghost S': seq<Samples>)
    requires BandsBuilt(img, T, imgsSplit, nSamples, draws, c0, np, processSeq, bgs, rects, outs, next, y, h, S)
    requires np < T && |imgsSplit| == T && imgsSplit[np].Valid()
    requires imgsSplit[np].width * imgsSplit[np].height == img.width * BandHeight(img.height, T, np)
    ensures BandsBuilt(img, T, imgsSplit, nSamples, draws, c0, np + 1, processSeq', bgs', rects', outs', next', y', h', S')
  {
    processSeq' := processSeq + [np];
    bgs', outs', next', S' := InitBandStep(imgsSplit, nSamples, draws, c0, bgs, outs, next, S);
    h' := if np == T - 1 then img.height - y else h;
    rects' := rects + [Rect(0, y, img.width, h')];
    y' := y + h';
    AppendedLast(outs', outs);
    RectsStep(img, T, np, processSeq, rects, outs, y, h, outs'[np]);
  }

  /** A sequence one longer than its prefix `s` is `s` with its last element appended. */
  lemma AppendedLast<X>(t: seq<X>, s: seq<X>)
    requires |t| == |s| + 1 && t[..|s|] == s
    ensures t == s + [t[|s|]]
  {
  }

  /** The heap-independent part of one pass of the `np` loop of `initializeParallel`. */
  lemma RectsStep(img: Img, T: nat, np: nat, processSeq: seq<int>, rects: seq<Rect>, outs: seq<array<Byte>>,
                  y: nat, h: nat, out: array<Byte>)
    requires RectsBuilt(img, T, np, processSeq, rects, outs, y, h) && np < T
    requires out.Length == img.width * BandHeight(img.height, T, np)
    ensures var h' := if np == T - 1 then img.height - y else h;
      RectsBuilt(img, T, np + 1, processSeq + [np], rects + [Rect(0, y, img.width, h')], outs + [out], y + h', h')
  {
    var W, H := img.width, img.height;
    var h' := if np == T - 1 then H - y else h;
    BandEnds(H, T, np);
    assert Rect(0, y, W, h') == BandRect(W, H, T, np);
    var processSeq', rects', outs' := processSeq + [np], rects + [Rect(0, y, W, h')], outs + [out];
    forall i | 0 <= i < np + 1
      ensures processSeq'[i] == i && rects'[i] == BandRect(W, H, T, i)
      ensures outs'[i].Length == W * BandHeight(H, T, i)
    {
      if i < np {
        assert processSeq'[i] == processSeq[i] && rects'[i] == rects[i] && outs'[i] == outs[i];
      }
    }
  }

  /** The loop of `initializeParallel` over the `numProcesses` bands: `processSeq[np] = np`,
      a mask buffer and a sample set per band image of `splitImages`, and the band rectangles
      by the running `y` / `h`. */
  method InitializeBands(img: Img, T: nat, nSamples: nat, draws: Draws, cursor: nat)
    returns (processSeq: seq<int>, bgs: seq<seq<array<Byte>>>, rects: seq<Rect>, outs: seq<array<Byte>>, next: nat)
    requires img.Valid() && 1 <= T
    ensures |processSeq| == T && forall i :: 0 <= i < T ==> processSeq[i] == i
    ensures |rects| == T && forall i :: 0 <= i < T ==> rects[i] == BandRect(img.width, img.height, T, i)
    ensures |outs| == T && forall i :: 0 <= i < T ==>
      outs[i].Length == img.width * BandHeight(img.height, T, i)
    ensures |bgs| == T
    ensures BandsSeparate(bgs, outs)
    ensures BandsInitializedFrom(ContentsAll(bgs), Split(img, T), nSamples, draws, cursor)
    ensures next == InitCursor(Split(img, T), nSamples, cursor, T)
  {
    var imgsSplit := SplitImages(img, T);
    assert imgsSplit == Split(img, T);
    assert forall i :: 0 <= i < T ==>
      imgsSplit[i].Valid() && imgsSplit[i].width * imgsSplit[i].height == img.width * BandHeight(img.height, T, i);
    processSeq, bgs, rects, outs, next := InitBandsLoop(img, T, imgsSplit, nSamples, draws, cursor);
  }

  /** The `np` loop of `initializeParallel` over the band images `imgsSplit`. */
  method InitBandsLoop(img: Img, T: nat, imgsSplit: seq<Img>, nSamples: nat, draws: Draws, cursor: nat)
    returns (processSeq: seq<int>, bgs: seq<seq<array<Byte>>>, rects: seq<Rect>, outs: seq<array<Byte>>, next: nat)
    requires img.Valid() && 1 <= T && |imgsSplit| == T
    requires forall i :: 0 <= i < T ==>
      imgsSplit[i].Valid() && imgsSplit[i].width * imgsSplit[i].height == img.width * BandHeight(img.height, T, i)
    ensures |processSeq| == T && forall i :: 0 <= i < T ==> processSeq[i] == i
    ensures |rects| == T && forall i :: 0 <= i < T ==> rects[i] == BandRect(img.width, img.height, T, i)
    ensures |outs| == T && forall i :: 0 <= i < T ==>
      outs[i].Length == img.width * BandHeight(img.height, T, i)
    ensures |bgs| == T
    ensures BandsSeparate(bgs, outs)
    ensures BandsInitializedFrom(ContentsAll(bgs), imgsSplit, nSamples, draws, cursor)
    ensures next == InitCursor(imgsSplit, nSamples, cursor, T)
  {
    processSeq, bgs, rects, outs := [], [], [], [];
    next := cursor;
    var y: nat, h: nat := 0, img.height / T;
    var np := 0;
    ghost var S: seq<Samples> := [];
    while np < T
      invariant BandsBuilt(img, T, imgsSplit, nSamples, draws, cursor, np, processSeq, bgs, rects, outs, next, y, h, S)
    {
      processSeq, bgs, rects, outs, next, y, h, S :=
        InitBandsNext(img, T, imgsSplit, nSamples, draws, cursor, np, processSeq, bgs, rects, outs, next, y, h, S);
      np := np + 1;
    }
  }

  /** Adding a band of new buffers keeps the bands separate. */
  lemma AppendBand(bgs: seq<seq<array<Byte>>>, outs: seq<array<Byte>>, bg: seq<array<Byte>>, out: array<Byte>)
    requires BandsSeparate(bgs, outs) && Distinct(bg) && out !in bg
    requires forall a :: 0 <= a < |bg| ==> bg[a] !in SampleArrays(bgs) && bg[a] !in outs
    requires out !in SampleArrays(bgs) && out !in outs
    ensures BandsSeparate(bgs + [bg], outs + [out])
  {
    var bgs', outs' := bgs + [bg], outs + [out];
    forall i, j | 0 <= i < j < |bgs'|
      ensures Apart(bgs'[i], bgs'[j])
    {
      if j == |bgs| {
        forall a | 0 <= a < |bgs[i]| ensures bgs[i][a] !in bg {
          assert bgs[i][a] in SampleArrays(bgs);
        }
      }
    }
    forall i, j | 0 <= i < |outs'| && 0 <= j < |bgs'|
      ensures outs'[i] !in bgs'[j]
    {
      if i < |outs| && j < |bgs| {
      } else if j < |bgs| {
        assert forall a :: 0 <= a < |bgs[j]| ==> bgs[j][a] in SampleArrays(bgs);
      }
    }
  }
}
