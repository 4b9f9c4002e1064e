/** The three background-subtractor objects of the repository: `BackgroundSubtractorViBe_1ch`,
    `BackgroundSubtractorViBe_3ch` and `VibeBGS`. Each keeps its parameters and its sample
    buffers as fields; its methods update those buffers in place through the engine methods
    of `ViBeEngine`, `ViBeInit` and `ViBeParallel`, and are specified by the value-level
    model of `ViBeModel` and `ViBeParallel`. */
module Subtractors {
  import opened Common
  import opened ViBeModel
  import opened ViBeEngine
  import opened ViBeInit
  import opened Bands
  import opened ViBeParallel

  /** The sample buffers hold `N` pairwise different arrays of `len` bytes each. */
  predicate SampleSet(bg: seq<array<Byte>>, N: nat, len: nat) {
    |bg| == N && Distinct(bg) && forall s :: 0 <= s < |bg| ==> bg[s].Length == len
  }

  // ---------------------------------------------------------------------------------------
  // BackgroundSubtractorViBe_1ch
  // ---------------------------------------------------------------------------------------

  /** The grayscale subtractor: L1 distance on one byte, `rand % learningRate` updates. */
  class ViBe1ch {
    /** `m_nColorDistThreshold`, the radius R. */
    const colorDistThreshold: nat
    /** `m_nBGSamples`, the sample count N. */
    const nBGSamples: nat
    /** `m_nRequiredBGSamples`, the matches needed for background. */
    const nRequiredBGSamples: nat
    /** `m_learningRate`, the subsampling factor. */
    const learningRate: nat

    /** `m_voBGImg`: one buffer of `imgWidth` x `imgHeight` bytes per sample. */
    var bgImg: seq<array<Byte>>
    /** `m_oImgSize`. */
    var imgWidth: nat
    var imgHeight: nat
    /** `m_bInitialized`. */
    var initialized: bool

    /** The classify-and-update rule of `apply`. */
    function Config(): (r: Rule)
      ensures r.channels == 1 && r.metric == AbsDiff && r.threshold == colorDistThreshold
      ensures r.nSamples == nBGSamples && r.nRequired == nRequiredBGSamples && r.rate == Modulo(learningRate)
    {
      Rule(1, AbsDiff, colorDistThreshold, nBGSamples, nRequiredBGSamples, Modulo(learningRate))
    }

    /** Once initialised, the object holds N distinct buffers of the stored image size. */
    ghost predicate Valid()
      reads this
    {
      initialized ==> SampleSet(bgImg, nBGSamples, imgWidth * imgHeight)
    }

    /** The constructor stores the parameters; nothing is initialised yet. */
    constructor (colorDistThreshold: nat, nBGSamples: nat, nRequiredBGSamples: nat, learningRate: nat)
      ensures this.colorDistThreshold == colorDistThreshold && this.nBGSamples == nBGSamples
      ensures this.nRequiredBGSamples == nRequiredBGSamples && this.learningRate == learningRate
      ensures !initialized && bgImg == [] && Valid()
    {
      this.colorDistThreshold := colorDistThreshold;
      this.nBGSamples := nBGSamples;
      this.nRequiredBGSamples := nRequiredBGSamples;
      this.learningRate := learningRate;
      bgImg := [];
      imgWidth, imgHeight := 0, 0;
      initialized := false;
    }

    /** `initialize`: store the seed's size and fill N new buffers, each pixel copied from a
        jittered nearby pixel of the one-channel seed frame, one draw per pixel. */
    method Initialize(seed: Img, draws: Draws, cursor: nat) returns (next: nat)
      requires seed.Valid() && seed.channels == 1
      modifies this
      ensures initialized && imgWidth == seed.width && imgHeight == seed.height && Valid()
      ensures forall s :: 0 <= s < |bgImg| ==> fresh(bgImg[s])
      ensures InitializedFrom(Contents(bgImg), seed, nBGSamples, draws, cursor)
      ensures next == SampleBase(cursor, nBGSamples, seed.width * seed.height)
    {
      imgWidth, imgHeight := seed.width, seed.height;
      bgImg, next := InitSamples(seed, nBGSamples, draws, cursor);
      initialized := true;
    }

    /** `apply`: classify every pixel of a frame of the stored size into `mask` and update
        the buffers; the result is the model's run over the whole frame. */
    method Apply(img: Img, mask: array<Byte>, draws: Draws, cursor: nat) returns (next: nat)
      requires Valid() && initialized && Config().Valid()
      requires img.Valid() && img.channels == 1 && img.width == imgWidth && img.height == imgHeight
      requires mask.Length == imgWidth * imgHeight && mask !in bgImg
      modifies mask, set s | 0 <= s < |bgImg| :: bgImg[s]
      ensures Valid()
      ensures var st := Run(Config(), img, old(Contents(bgImg)), draws, cursor, imgWidth * imgHeight);
        Contents(bgImg) == st.samples && mask[..] == st.mask && next == st.cursor
    {
      next := ApplyRaster(Config(), img, bgImg, mask, draws, cursor);
    }
  }

  // ---------------------------------------------------------------------------------------
  // BackgroundSubtractorViBe_3ch
  // ---------------------------------------------------------------------------------------

  /** The colour subtractor: squared Euclidean distance on three bytes against (3R)^2,
      `rand % learningRate` updates, and a banded variant that keeps one sample set per band. */
  class ViBe3ch {
    const colorDistThreshold: nat
    const nBGSamples: nat
    const nRequiredBGSamples: nat
    const learningRate: nat
    /** `m_nColorDistThresholdSquared`. */
    const colorDistThresholdSquared: nat

    /** `m_voBGImg`: one buffer of `imgWidth` x `imgHeight` three-byte pixels per sample. */
    var bgImg: seq<array<Byte>>
    var imgWidth: nat
    var imgHeight: nat
    var initialized: bool

    /** `m_numProcessesParallel`, the band count T. */
    var numProcessesParallel: nat
    /** `m_voBGImgParallel`: one sample set per band. */
    var bgImgParallel: seq<seq<array<Byte>>>
    /** `m_processSeq`: the band numbers 0 .. T-1. */
    var processSeq: seq<int>
    /** `m_rectImgs`: the band rectangles. */
    var rectImgs: seq<Rect>
    /** `m_outSplit`: one mask buffer per band. */
    var outSplit: seq<array<Byte>>

    /** The classify-and-update rule of `applyCmp`. */
    function Config(): (r: Rule)
      ensures r.channels == 3 && r.metric == SquaredEuclidean3 && r.threshold == colorDistThresholdSquared
      ensures r.nSamples == nBGSamples && r.nRequired == nRequiredBGSamples && r.rate == Modulo(learningRate)
    {
      Rule(3, SquaredEuclidean3, colorDistThresholdSquared, nBGSamples, nRequiredBGSamples, Modulo(learningRate))
    }

    /** The whole-frame sample set: N distinct buffers of the stored image size. */
    ghost predicate SerialReady()
      reads this
    {
      SampleSet(bgImg, nBGSamples, imgWidth * imgHeight * 3)
    }

    /** The banded state `initializeParallel` leaves: T >= 1 bands over the stored image
        size, band `i` with rectangle `BandRect(i)`, a mask buffer of its size and N sample
        buffers of its size, no buffer shared. */
    ghost predicate ParallelReady()
      reads this
    {
      BandsReady(imgWidth, imgHeight, numProcessesParallel, nBGSamples, processSeq, rectImgs, outSplit, bgImgParallel)
    }

    /** The constructor stores the parameters and the squared radius (3R)^2. */
    constructor (colorDistThreshold: nat, nBGSamples: nat, nRequiredBGSamples: nat, learningRate: nat)
      ensures this.colorDistThreshold == colorDistThreshold && this.nBGSamples == nBGSamples
      ensures this.nRequiredBGSamples == nRequiredBGSamples && this.learningRate == learningRate
      ensures colorDistThresholdSquared == (colorDistThreshold * 3) * (colorDistThreshold * 3)
      ensures !initialized && bgImg == [] && processSeq == [] && bgImgParallel == []
    {
      this.colorDistThreshold := colorDistThreshold;
      this.nBGSamples := nBGSamples;
      this.nRequiredBGSamples := nRequiredBGSamples;
      this.learningRate := learningRate;
      colorDistThresholdSquared := (colorDistThreshold * 3) * (colorDistThreshold * 3);
      bgImg := [];
      imgWidth, imgHeight := 0, 0;
      initialized := false;
      numProcessesParallel := 0;
      bgImgParallel, processSeq, rectImgs, outSplit := [], [], [], [];
    }

    /** `initialize`: store the seed's size and fill N new buffers from the three-channel
        seed frame. The banded state is left as it was. */
    method Initialize(seed: Img, draws: Draws, cursor: nat) returns (next: nat)
      requires seed.Valid() && seed.channels == 3
      modifies this
      ensures initialized && imgWidth == seed.width && imgHeight == seed.height && SerialReady()
      ensures forall s :: 0 <= s < |bgImg| ==> fresh(bgImg[s])
      ensures InitializedFrom(Contents(bgImg), seed, nBGSamples, draws, cursor)
      ensures next == SampleBase(cursor, nBGSamples, seed.width * seed.height)
      ensures numProcessesParallel == old(numProcessesParallel) && bgImgParallel == old(bgImgParallel)
      ensures processSeq == old(processSeq) && rectImgs == old(rectImgs) && outSplit == old(outSplit)
    {
      imgWidth, imgHeight := seed.width, seed.height;
      bgImg, next := InitSamples(seed, nBGSamples, draws, cursor);
      initialized := true;
    }

    /** `applyCmp`: classify every pixel of `img` against the sample set `bg` into `mask` and
        update `bg`; the result is the model's run over the whole frame. */
    method ApplyCmp(img: Img, bg: seq<array<Byte>>, mask: array<Byte>, draws: Draws, cursor: nat)
      returns (next: nat)
      requires Fits(Config(), img, Contents(bg)) && Separate(bg, mask)
      requires mask.Length == img.width * img.height
      modifies mask, set s | 0 <= s < |bg| :: bg[s]
      ensures var st := Run(Config(), img, old(Contents(bg)), draws, cursor, img.width * img.height);
        Contents(bg) == st.samples && mask[..] == st.mask && next == st.cursor
    {
      next := ApplyRaster(Config(), img, bg, mask, draws, cursor);
    }

    /** `apply`: `applyCmp` on the whole-frame sample set. */
    method Apply(img: Img, mask: array<Byte>, draws: Draws, cursor: nat) returns (next: nat)
      requires SerialReady() && Config().Valid()
      requires img.Valid() && img.channels == 3 && img.width == imgWidth && img.height == imgHeight
      requires mask.Length == imgWidth * imgHeight && mask !in bgImg
      modifies mask, set s | 0 <= s < |bgImg| :: bgImg[s]
      ensures SerialReady()
      ensures var st := Run(Config(), img, old(Contents(bgImg)), draws, cursor, imgWidth * imgHeight);
        Contents(bgImg) == st.samples && mask[..] == st.mask && next == st.cursor
    {
      next := ApplyCmp(img, bgImg, mask, draws, cursor);
    }

    /** `initializeParallel`: store T and the frame size, and build per band its number, its
        rectangle, its mask buffer and a sample set initialised from its band image, the
        bands drawing one after the other. The whole-frame sample set is left as it was. */
    method InitializeParallel(img: Img, numProcesses: nat, draws: Draws, cursor: nat) returns (next: nat)
      requires img.Valid() && img.channels == 3 && 1 <= numProcesses
      modifies this
      ensures numProcessesParallel == numProcesses && imgWidth == img.width && imgHeight == img.height
      ensures initialized && ParallelReady()
      ensures BandsInitializedFrom(ContentsAll(bgImgParallel), Split(img, numProcesses), nBGSamples, draws, cursor)
      ensures next == InitCursor(Split(img, numProcesses), nBGSamples, cursor, numProcesses)
      ensures bgImg == old(bgImg)
    {
      numProcessesParallel := numProcesses;
      imgWidth, imgHeight := img.width, img.height;
      initialized := true;
      var ps, bgs, rects, outs;
      ps, bgs, rects, outs, next := BuildBands(img, numProcesses, nBGSamples, draws, cursor);
      label built:
      StoreBands(ps, bgs, rects, outs);
      ContentsAllUnchanged@built(bgs);
    }

    /** Stores the band bookkeeping built by `initializeParallel` in the member fields. */
    method StoreBands(ps: seq<int>, bgs: seq<seq<array<Byte>>>, rects: seq<Rect>, outs: seq<array<Byte>>)
      modifies this
      ensures processSeq == ps && bgImgParallel == bgs && rectImgs == rects && outSplit == outs
      ensures numProcessesParallel == old(numProcessesParallel) && imgWidth == old(imgWidth)
      ensures imgHeight == old(imgHeight) && initialized == old(initialized) && bgImg == old(bgImg)
    {
      processSeq, bgImgParallel, rectImgs, outSplit := ps, bgs, rects, outs;
    }

    /** `applyParallel`, the bands taken one after the other: `applyCmp` on each band with
        its own sample set and mask buffer, the band mask copied into its rows of `fgmask`.
        The result is the model's banded run over the split of the frame. */
    method ApplyParallel(img: Img, fgmask: array<Byte>, draws: Draws, cursor: nat) returns (next: nat)
      requires ParallelReady() && Config().Valid()
      requires img.Valid() && img.channels == 3 && img.width == imgWidth && img.height == imgHeight
      requires fgmask.Length == imgWidth * imgHeight
      requires fgmask !in outSplit && fgmask !in SampleArrays(bgImgParallel)
      modifies fgmask, SampleArrays(bgImgParallel), set i | 0 <= i < |outSplit| :: outSplit[i]
      ensures ParallelReady()
      ensures var ps := ParallelRun(Config(), Split(img, numProcessesParallel), old(ContentsAll(bgImgParallel)),
                                    draws, cursor, numProcessesParallel);
        ContentsAll(bgImgParallel) == ps.samples && fgmask[..] == ps.mask && next == ps.cursor
      ensures forall i :: 0 <= i < numProcessesParallel ==>
        outSplit[i][..] == BandMask(Config(), Split(img, numProcessesParallel), old(ContentsAll(bgImgParallel)),
                                    draws, cursor, i)
    {
      BandSamplesFit(Config(), img, numProcessesParallel, bgImgParallel);
      next := ApplyBands(Config(), img, numProcessesParallel, processSeq, rectImgs, bgImgParallel, outSplit,
                         fgmask, draws, cursor);
    }
  }

  /** The banded state of a `W` x `H` frame cut into `T` >= 1 bands: band `i` has number
      `i`, rectangle `BandRect(i)`, a mask buffer of its size and `N` sample buffers of its
      size, and no buffer is shared. */
  predicate BandsReady(W: nat, H: nat, T: nat, N: nat, processSeq: seq<int>, rects: seq<Rect>,
                       outs: seq<array<Byte>>, bgs: seq<seq<array<Byte>>>)
  {
    1 <= T && |processSeq| == T && |rects| == T && |outs| == T && |bgs| == T
    && (forall i :: 0 <= i < T ==> processSeq[i] == i)
    && (forall i :: 0 <= i < T ==> rects[i] == BandRect(W, H, T, i))
    && (forall i :: 0 <= i < T ==> outs[i].Length == W * BandHeight(H, T, i))
    && (forall i :: 0 <= i < T ==> |bgs[i]| == N)
    && (forall i, s :: 0 <= i < T && 0 <= s < |bgs[i]| ==> bgs[i][s].Length == W * BandHeight(H, T, i) * 3)
    && BandsSeparate(bgs, outs)
  }

  /** `InitializeBands` for a three-channel frame, its result stated as `BandsReady`. */
  method BuildBands(img: Img, T: nat, N: nat, draws: Draws, cursor: nat)
    returns (processSeq: seq<int>, bgs: seq<seq<array<Byte>>>, rects: seq<Rect>, outs: seq<array<Byte>>, next: nat)
    requires img.Valid() && img.channels == 3 && 1 <= T
    ensures BandsReady(img.width, img.height, T, N, processSeq, rects, outs, bgs)
    ensures BandsInitializedFrom(ContentsAll(bgs), Split(img, T), N, draws, cursor)
    ensures next == InitCursor(Split(img, T), N, cursor, T)
  {
    processSeq, bgs, rects, outs, next := InitializeBands(img, T, N, draws, cursor);
    BandBuffersSized(img, T, N, draws, cursor, bgs);
  }

  /** Band sample sets initialised from the split of a frame have the band's size. */
  lemma BandBuffersSized(img: Img, T: nat, N: nat, draws: Draws, c0: nat, bgs: seq<seq<array<Byte>>>)
    requires img.Valid() && 1 <= T && |bgs| == T
    requires BandsInitializedFrom(ContentsAll(bgs), Split(img, T), N, draws, c0)
    ensures forall i :: 0 <= i < T ==> |bgs[i]| == N
    ensures forall i, s :: 0 <= i < T && 0 <= s < |bgs[i]| ==>
              bgs[i][s].Length == img.width * BandHeight(img.height, T, i) * img.channels
  {
    forall i | 0 <= i < T
      ensures |bgs[i]| == N
      ensures forall s :: 0 <= s < |bgs[i]| ==> bgs[i][s].Length == img.width * BandHeight(img.height, T, i) * img.channels
    {
      var band := Split(img, T)[i];
      assert InitializedFrom(ContentsAll(bgs)[i], band, N, draws, InitCursor(Split(img, T), N, c0, i));
      assert ContentsAll(bgs)[i] == Contents(bgs[i]);
    }
  }

  /** Band buffers of the band sizes of a frame fit the split of any frame of that size. */
  lemma BandSamplesFit(r: Rule, img: Img, T: nat, bgs: seq<seq<array<Byte>>>)
    requires r.Valid() && img.Valid() && img.channels == r.channels && 1 <= T && |bgs| == T
    requires forall i :: 0 <= i < T ==> |bgs[i]| == r.nSamples
    requires forall i, s :: 0 <= i < T && 0 <= s < |bgs[i]| ==>
               bgs[i][s].Length == img.width * BandHeight(img.height, T, i) * r.channels
    ensures BandsFit(r, Split(img, T), ContentsAll(bgs))
  {
    var bands, S := Split(img, T), ContentsAll(bgs);
    forall i | 0 <= i < T
      ensures Fits(r, bands[i], S[i])
    {
      assert S[i] == Contents(bgs[i]);
    }
  }

  /** The loop of `VibeBGS::initializeParallel`: `initialize` on each band image in turn,
      each into a sample set of its own, band `i` drawing from where band `i - 1` stopped.
      Every buffer is new, the buffers of one band are pairwise different and no two bands
      share a buffer (`BandsSeparate` with no mask buffers). */
  method InitSampleSets(bands: seq<Img>, N: nat, draws: Draws, cursor: nat)
    returns (bgs: seq<seq<array<Byte>>>, next: nat)
    requires forall i :: 0 <= i < |bands| ==> bands[i].Valid()
    ensures |bgs| == |bands|
    ensures BandsSeparate(bgs, []) && forall a :: a in SampleArrays(bgs) ==> fresh(a)
    ensures BandsInitializedFrom(ContentsAll(bgs), bands, N, draws, cursor)
    ensures next == InitCursor(bands, N, cursor, |bands|)
  {
    bgs := [];
    next := cursor;
    ghost var S: seq<Samples> := [];
    while |bgs| < |bands|
      invariant |bgs| <= |bands| && ContentsAll(bgs) == S
      invariant BandsSeparate(bgs, []) && forall a :: a in SampleArrays(bgs) ==> fresh(a)
      invariant BandsInitializedFrom(S, bands, N, draws, cursor)
      invariant next == InitCursor(bands, N, cursor, |bgs|)
      decreases |bands| - |bgs|
    {
      bgs, next, S := InitSampleSetStep(bands, N, draws, cursor, bgs, next, S);
    }
  }

  /** One pass of the loop of `VibeBGS::initializeParallel`, for band `|bgs|`: the sample
      sets before it keep their values, and the band gets a sample set of new buffers,
      initialised from its image from where the previous band stopped drawing. */
  method InitSampleSetStep(bands: seq<Img>, N: nat, draws: Draws, ghost c0: nat,
                           bgs: seq<seq<array<Byte>>>, next: nat, ghost S: seq<Samples>)
    returns (bgs': seq<seq<array<Byte>>>, next': nat, ghost S': seq<Samples>)
    requires |bgs| < |bands| && bands[|bgs|].Valid() && BandsSeparate(bgs, [])
    requires ContentsAll(bgs) == S && BandsInitializedFrom(S, bands, N, draws, c0)
    requires next == InitCursor(bands, N, c0, |bgs|)
    ensures |bgs'| == |bgs| + 1 && ContentsAll(bgs') == S'
    ensures BandsSeparate(bgs', []) && forall a :: a in SampleArrays(bgs') ==> a in SampleArrays(bgs) || fresh(a)
    ensures BandsInitializedFrom(S', bands, N, draws, c0)
    ensures next' == InitCursor(bands, N, c0, |bgs'|)
  {
    var bg;
    bg, next' := InitSamples(bands[|bgs|], N, draws, next);
    assert ContentsAll(bgs) == S;
    ContentsAllAppend(bgs, bg);
    BandsInitializedAppend(S, Contents(bg), bands, N, draws, c0);
    SetsAppend(bgs, bg);
    bgs', S' := bgs + [bg], S + [Contents(bg)];
  }

  /** Appending a band of pairwise-different buffers that no earlier band holds keeps the
      bands separate. */
  lemma SetsAppend(bgs: seq<seq<array<Byte>>>, bg: seq<array<Byte>>)
    requires BandsSeparate(bgs, []) && Distinct(bg)
    requires forall a :: 0 <= a < |bg| ==> bg[a] !in SampleArrays(bgs)
    ensures BandsSeparate(bgs + [bg], [])
    ensures forall a :: a in SampleArrays(bgs + [bg]) ==> a in SampleArrays(bgs) || a in bg
  {
    var bgs' := bgs + [bg];
    forall i, j | 0 <= i < j < |bgs'| ensures Apart(bgs'[i], bgs'[j]) {
      if j == |bgs| {
        forall a | 0 <= a < |bgs[i]| ensures bgs[i][a] !in bg {
          assert bgs[i][a] in SampleArrays(bgs);
        }
      } else {
        assert Apart(bgs[i], bgs[j]);
      }
    }
  }

  /** The sample values of band buffers that were not written are as they were. */
  twostate lemma ContentsAllUnchanged(bgs: seq<seq<array<Byte>>>)
    requires forall i, a :: 0 <= i < |bgs| && 0 <= a < |bgs[i]| ==> bgs[i][a][..] == old(bgs[i][a][..])
    ensures ContentsAll(bgs) == old(ContentsAll(bgs))
  {
    if bgs != [] {
      ContentsAllUnchanged(bgs[..|bgs| - 1]);
      ContentsUnchanged(bgs[|bgs| - 1]);
    }
  }

  // ---------------------------------------------------------------------------------------
  // VibeBGS
  // ---------------------------------------------------------------------------------------

  /** The flat-buffer colour subtractor: squared Euclidean distance on three bytes, updates
      decided and placed by `rand & ANDlearningRate`. */
  class VibeBgs {
    /** `Params::NColorDistThresholdSquared`. */
    const colorDistThresholdSquared: nat
    /** `Params::NBGSamples`. */
    const nBGSamples: nat
    /** `Params::NRequiredBGSamples`. */
    const nRequiredBGSamples: nat
    /** `Params::ANDlearningRate`. */
    const andLearningRate: nat

    /** `m_bgImgSamples`. */
    var bgImgSamples: seq<array<Byte>>
    /** `m_bgImgSamplesParallel`: one sample set per band. */
    var bgImgSamplesParallel: seq<seq<array<Byte>>>

    /** The classify-and-update rule of `applyCmp`. */
    function Config(): (r: Rule)
      ensures r.channels == 3 && r.metric == SquaredEuclidean3 && r.threshold == colorDistThresholdSquared
      ensures r.nSamples == nBGSamples && r.nRequired == nRequiredBGSamples && r.rate == Bitmask(andLearningRate)
    {
      Rule(3, SquaredEuclidean3, colorDistThresholdSquared, nBGSamples, nRequiredBGSamples, Bitmask(andLearningRate))
    }

    /** The constructor stores the parameters; there are no buffers yet. */
    constructor (colorDistThresholdSquared: nat, nBGSamples: nat, nRequiredBGSamples: nat, andLearningRate: nat)
      ensures this.colorDistThresholdSquared == colorDistThresholdSquared && this.nBGSamples == nBGSamples
      ensures this.nRequiredBGSamples == nRequiredBGSamples && this.andLearningRate == andLearningRate
      ensures bgImgSamples == [] && bgImgSamplesParallel == []
    {
      this.colorDistThresholdSquared := colorDistThresholdSquared;
      this.nBGSamples := nBGSamples;
      this.nRequiredBGSamples := nRequiredBGSamples;
      this.andLearningRate := andLearningRate;
      bgImgSamples, bgImgSamplesParallel := [], [];
    }

    /** `initialize`: `m_bgImgSamples` becomes `NBGSamples` new zeroed buffers of the seed's
        size, each three-byte pixel copied from a jittered nearby pixel of the seed. */
    method Initialize(seed: Img, draws: Draws, cursor: nat) returns (next: nat)
      requires seed.Valid() && seed.channels == 3
      modifies this
      ensures SampleSet(bgImgSamples, nBGSamples, seed.width * seed.height * 3)
      ensures forall s :: 0 <= s < |bgImgSamples| ==> fresh(bgImgSamples[s])
      ensures InitializedFrom(Contents(bgImgSamples), seed, nBGSamples, draws, cursor)
      ensures next == SampleBase(cursor, nBGSamples, seed.width * seed.height)
      ensures bgImgSamplesParallel == old(bgImgSamplesParallel)
    {
      bgImgSamples, next := InitSamples(seed, nBGSamples, draws, cursor);
    }

    /** `initializeParallel`: split the frame into `numProcesses` bands and `initialize` one
        independent sample set per band image, the bands drawing one after the other. */
    method InitializeParallel(img: Img, numProcesses: nat, draws: Draws, cursor: nat) returns (next: nat)
      requires img.Valid() && img.channels == 3 && 1 <= numProcesses
      modifies this
      ensures |bgImgSamplesParallel| == numProcesses
    ensures BandsSeparate(bgImgSamplesParallel, []) && forall a :: a in SampleArrays(bgImgSamplesParallel) ==> fresh(a)
      ensures BandsInitializedFrom(ContentsAll(bgImgSamplesParallel), Split(img, numProcesses), nBGSamples, draws, cursor)
      ensures next == InitCursor(Split(img, numProcesses), nBGSamples, cursor, numProcesses)
      ensures bgImgSamples == old(bgImgSamples)
    {
      var imgSplit := SplitImages(img, numProcesses);
      assert imgSplit == Split(img, numProcesses);
      var bgs;
      bgs, next := InitSampleSets(imgSplit, nBGSamples, draws, cursor);
      label built:
      bgImgSamplesParallel := bgs;
      ContentsAllUnchanged@built(bgs);
    }

    /** `apply`: `applyCmp` on `m_bgImgSamples`; the result is the model's run over the whole
        frame with the bitmask rule. */
    method Apply(img: Img, mask: array<Byte>, draws: Draws, cursor: nat) returns (next: nat)
      requires Fits(Config(), img, Contents(bgImgSamples)) && Separate(bgImgSamples, mask)
      requires mask.Length == img.width * img.height
      modifies mask, set s | 0 <= s < |bgImgSamples| :: bgImgSamples[s]
      ensures var st := Run(Config(), img, old(Contents(bgImgSamples)), draws, cursor, img.width * img.height);
        Contents(bgImgSamples) == st.samples && mask[..] == st.mask && next == st.cursor
    {
      next := ApplyFlat(Config(), img, bgImgSamples, mask, draws, cursor);
    }

    /** `applyParallel`, whose body is empty: the mask and every sample set stay as they are. */
    method ApplyParallel(img: Img, mask: array<Byte>, draws: Draws, cursor: nat) returns (next: nat)
      ensures mask[..] == old(mask[..]) && next == cursor
      ensures Contents(bgImgSamples) == old(Contents(bgImgSamples))
      ensures ContentsAll(bgImgSamplesParallel) == old(ContentsAll(bgImgSamplesParallel))
    {
      next := cursor;
    }
  }
}
