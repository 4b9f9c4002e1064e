/** The value-level specification of ViBe: per-pixel classification against the sample
    history, the probabilistic self and neighbour update, the whole-frame raster scan and the
    sample-set initialisation. The three classify-and-update loops of the repository (the
    1-channel `apply`, the 3-channel `applyCmp` and the flat `VibeBGS::applyCmp`) are instances
    of `Run` for three `Rule`s; the methods that implement them are proved equal to it. */
module ViBeModel {
  import opened Common
  import opened VibeUtils
  import opened ViBeKernels

  // ---------------------------------------------------------------------------------------
  // Configuration of one variant
  // ---------------------------------------------------------------------------------------

  /** The distance a variant compares with its threshold: `L1dist` on one channel, or
      `L2dist3Squared` on three. */
  datatype Metric = AbsDiff | SquaredEuclidean3

  /** How a draw becomes a 1-in-K decision and a sample slot. `Modulo` is the
      BackgroundSubtractorViBe rule (`rand % learningRate == 0`, slot `rand % N`); `Bitmask`
      is the VibeBGS rule (`(rand & mask) == 0`, slot `rand & mask`). */
  datatype Rate = Modulo(learningRate: nat) | Bitmask(andMask: nat)

  /** Everything a classify-and-update pass reads besides the frame, the samples and the draws. */
  datatype Rule = Rule(channels: nat, metric: Metric, threshold: nat, nSamples: nat,
                       nRequired: nat, rate: Rate)
  {
    /** What the code needs to stay defined: a channel count that matches the distance, a
        non-zero divisor for every `%`, and, for the bitmask rule, slots below N. */
    predicate Valid() {
      ((metric == AbsDiff && channels == 1) || (metric == SquaredEuclidean3 && channels == 3))
      && nSamples >= 1
      && (rate.Modulo? ==> rate.learningRate >= 1)
      && (rate.Bitmask? ==> rate.andMask < nSamples)
    }
  }

  /** One buffer per sample index, each holding every pixel of the region. */
  type Samples = seq<seq<Byte>>

  /** The frame and the sample set have the layout the rule expects. */
  predicate Fits(r: Rule, img: Img, S: Samples) {
    r.Valid() && img.Valid() && img.channels == r.channels && |S| == r.nSamples
    && forall s :: 0 <= s < |S| ==> |S[s]| == img.width * img.height * r.channels
  }

  // ---------------------------------------------------------------------------------------
  // Classification
  // ---------------------------------------------------------------------------------------

  function Distance(r: Rule, a: seq<Byte>, b: seq<Byte>): nat
    requires r.Valid() && |a| == r.channels && |b| == r.channels
  {
    match r.metric
    case AbsDiff => L1Dist(a[0], b[0]) as nat
    case SquaredEuclidean3 => L2Dist3Squared(a, b)
  }

  /** Both distances vanish on equal pixels and are symmetric. */
  lemma DistanceIsSymmetric(r: Rule, a: seq<Byte>, b: seq<Byte>)
    requires r.Valid() && |a| == r.channels && |b| == r.channels
    ensures Distance(r, a, b) == Distance(r, b, a)
    ensures Distance(r, a, b) == 0 <==> a == b
  {
    if r.metric == AbsDiff {
      L1DistIsMetric(a[0], b[0]);
      if a[0] == b[0] {
        assert a == [a[0]] && b == [b[0]];
      }
    } else {
      L2Dist3SquaredIsDistance(a, b);
    }
  }

  lemma DistanceToSelf(r: Rule, a: seq<Byte>)
    requires r.Valid() && |a| == r.channels
    ensures Distance(r, a, a) == 0
  {
    DistanceIsSymmetric(r, a, a);
  }

  /** Sample `s` matches pixel `p` when its distance is strictly below the threshold. */
  predicate Matches(r: Rule, img: Img, S: Samples, p: nat, s: nat)
    requires Fits(r, img, S) && p < img.width * img.height && s < |S|
  {
    var n := img.width * img.height;
    Distance(r, Pixel(img.data, n, r.channels, p), Pixel(S[s], n, r.channels, p)) < r.threshold
  }

  /** Number of samples among 0 .. k-1 that match pixel `p`. */
  function MatchCount(r: Rule, img: Img, S: Samples, p: nat, k: nat): (c: nat)
    requires Fits(r, img, S) && p < img.width * img.height && k <= |S|
    ensures c <= k
  {
    if k == 0 then 0
    else MatchCount(r, img, S, p, k - 1) + (if Matches(r, img, S, p, k - 1) then 1 else 0)
  }

  /** A pixel is foreground when fewer than the required number of its N samples match. */
  predicate IsForeground(r: Rule, img: Img, S: Samples, p: nat)
    requires Fits(r, img, S) && p < img.width * img.height
  {
    MatchCount(r, img, S, p, r.nSamples) < r.nRequired
  }

  // ---------------------------------------------------------------------------------------
  // The update of a background pixel
  // ---------------------------------------------------------------------------------------

  /** The 1-in-K test on one draw. */
  predicate UpdateFires(rate: Rate, d: Uint32)
    requires rate.Modulo? ==> rate.learningRate >= 1
  {
    match rate
    case Modulo(lr) => d % lr == 0
    case Bitmask(m) => BitAnd(d, m) == 0
  }

  /** The sample slot a draw selects. */
  function SampleSlot(r: Rule, d: Uint32): (s: nat)
    requires r.Valid()
    ensures s < r.nSamples
    ensures r.rate.Bitmask? ==> s <= r.rate.andMask
  {
    match r.rate
    case Modulo(_) => d % r.nSamples
    case Bitmask(m) => BitAnd(d, m)
  }

  /** In a `w`-wide raster, pixel `q` is at most `k` columns and `k` rows away from pixel `p`;
      for `k` = 1, `q` is `p` or one of its 8 neighbours. */
  predicate WithinRadius(q: nat, p: nat, w: nat, k: nat)
    requires w >= 1
  {
    p % w - k <= q % w <= p % w + k && p / w - k <= q / w <= p / w + k
  }

  /** What the random draws decide for a background pixel: the optional self-update slot, the
      optional neighbour update (neighbour pixel, slot), and the cursor after the last draw.
      The order is that of the code: update test, slot, neighbour test, neighbour direction,
      neighbour slot. */
  datatype Decisions = Decisions(selfSlot: Option<nat>, neighbor: Option<(nat, nat)>, next: nat)

  function BackgroundDraws(r: Rule, w: nat, h: nat, p: nat, draws: Draws, c: nat): (u: Decisions)
    requires r.Valid() && p < w * h
    ensures u.selfSlot.Some? ==> u.selfSlot.value < r.nSamples
    ensures u.neighbor.Some? ==> u.neighbor.value.0 < w * h && u.neighbor.value.1 < r.nSamples
    ensures c + 2 <= u.next <= c + 5
  {
    var self := SelfDraws(r, draws, c);
    var neighbor := NeighborDraws(r, w, h, p, draws, self.1);
    Decisions(self.0, neighbor.0, neighbor.1)
  }

  /** The self update's draws from cursor `c`: the test and, when it fires, the slot; and the
      cursor after them. */
  function SelfDraws(r: Rule, draws: Draws, c: nat): (d: (Option<nat>, nat))
    requires r.Valid()
    ensures d.0.Some? ==> d.0.value < r.nSamples
    ensures d.1 == if d.0.Some? then c + 2 else c + 1
  {
    if UpdateFires(r.rate, draws(c)) then (Some(SampleSlot(r, draws(c + 1))), c + 2) else (None, c + 1)
  }

  /** The neighbour update's draws from cursor `c`: the test and, when it fires, the direction
      and the slot, giving (neighbour pixel, slot); and the cursor after them. */
  function NeighborDraws(r: Rule, w: nat, h: nat, p: nat, draws: Draws, c: nat): (d: (Option<(nat, nat)>, nat))
    requires r.Valid() && p < w * h
    ensures d.0.Some? ==> d.0.value.0 < w * h && d.0.value.1 < r.nSamples
    ensures d.1 == if d.0.Some? then c + 3 else c + 1
  {
    if UpdateFires(r.rate, draws(c)) then
      (Some((NeighborTarget(w, h, p, draws(c + 1)), SampleSlot(r, draws(c + 2)))), c + 3)
    else
      (None, c + 1)
  }

  /** The flat offset of the neighbour of pixel `p` that the direction draw `d` picks. */
  function NeighborTarget(w: nat, h: nat, p: nat, d: Uint32): (q: nat)
    requires p < w * h
    ensures q < w * h
  {
    RasterCoords(p, w, h);
    var pos := NeighborPosition(p % w, p / w, w, h, d);
    RasterOffset(pos.0, pos.1, w, h);
    pos.1 * w + pos.0
  }

  /** The neighbour update writes pixel `p` itself or one of its 8 neighbours. */
  lemma NeighborUpdateIsAdjacent(r: Rule, w: nat, h: nat, p: nat, draws: Draws, c: nat)
    requires r.Valid() && p < w * h
    ensures var u := BackgroundDraws(r, w, h, p, draws, c);
      u.neighbor.Some? ==> w >= 1 && WithinRadius(u.neighbor.value.0, p, w, 1)
  {
    RasterCoords(p, w, h);
    var c1 := SelfDraws(r, draws, c).1;
    if UpdateFires(r.rate, draws(c1)) {
      var pos := NeighborPosition(p % w, p / w, w, h, draws(c1 + 1));
      RasterOffset(pos.0, pos.1, w, h);
    }
  }

  function WriteSample(S: Samples, n: nat, ch: nat, s: nat, q: nat, px: seq<Byte>): (S': Samples)
    requires s < |S| && |S[s]| == n * ch && q < n && |px| == ch
    ensures |S'| == |S| && forall t :: 0 <= t < |S| ==> |S'[t]| == |S[t]|
  {
    S[s := WritePixel(S[s], n, ch, q, px)]
  }

  // ---------------------------------------------------------------------------------------
  // One pixel and the whole raster scan
  // ---------------------------------------------------------------------------------------

  /** The sample set, the mask bytes written so far, and the cursor into the draws. */
  datatype State = State(samples: Samples, mask: seq<Byte>, cursor: nat)

  /** The body of the pixel loop for pixel `p`: classify, append the mask byte, and for a
      background pixel perform the drawn updates with the pixel's own value. */
  function Step(r: Rule, img: Img, draws: Draws, st: State, p: nat): (st': State)
    requires Fits(r, img, st.samples) && p < img.width * img.height
    ensures Fits(r, img, st'.samples) && |st'.mask| == |st.mask| + 1
  {
    var n := img.width * img.height;
    if IsForeground(r, img, st.samples, p) then
      State(st.samples, st.mask + [UcharMax], st.cursor)
    else
      var u := BackgroundDraws(r, img.width, img.height, p, draws, st.cursor);
      State(ApplyUpdates(st.samples, n, r.channels, p, Pixel(img.data, n, r.channels, p), u),
            st.mask + [0], u.next)
  }

  /** The samples after the updates `u` of background pixel `p` with value `px`: first the
      self update, then the neighbour update. */
  function ApplyUpdates(S: Samples, n: nat, ch: nat, p: nat, px: seq<Byte>, u: Decisions): (S': Samples)
    requires p < n && |px| == ch && forall s :: 0 <= s < |S| ==> |S[s]| == n * ch
    requires u.selfSlot.Some? ==> u.selfSlot.value < |S|
    requires u.neighbor.Some? ==> u.neighbor.value.0 < n && u.neighbor.value.1 < |S|
    ensures |S'| == |S| && forall s :: 0 <= s < |S| ==> |S'[s]| == n * ch
  {
    var s1 := if u.selfSlot.Some? then WriteSample(S, n, ch, u.selfSlot.value, p, px) else S;
    if u.neighbor.Some? then WriteSample(s1, n, ch, u.neighbor.value.1, u.neighbor.value.0, px) else s1
  }

  /** The state after the pixel loop has processed pixels 0 .. k-1 in raster order, starting
      from samples `S0` and cursor `c0`: the mask holds only 0 and `UCHAR_MAX`. */
  function Run(r: Rule, img: Img, S0: Samples, draws: Draws, c0: nat, k: nat): (st: State)
    requires Fits(r, img, S0) && k <= img.width * img.height
    ensures Fits(r, img, st.samples) && |st.mask| == k
    ensures forall i :: 0 <= i < k ==> st.mask[i] == 0 || st.mask[i] == UcharMax
  {
    if k == 0 then State(S0, [], c0)
    else Step(r, img, draws, Run(r, img, S0, draws, c0, k - 1), k - 1)
  }

  // ---------------------------------------------------------------------------------------
  // Properties of classification
  // ---------------------------------------------------------------------------------------

  /** Counting over more samples never finds fewer matches. */
  lemma {:induction false} MatchCountPrefixMonotone(r: Rule, img: Img, S: Samples, p: nat, j: nat, k: nat)
    requires Fits(r, img, S) && p < img.width * img.height && j <= k <= |S|
    ensures MatchCount(r, img, S, p, j) <= MatchCount(r, img, S, p, k)
  {
    if j < k {
      MatchCountPrefixMonotone(r, img, S, p, j, k - 1);
    }
  }

  /** A larger radius matches at least the samples a smaller one matches. */
  lemma {:induction false} MatchCountMonotoneInThreshold(r: Rule, t: nat, img: Img, S: Samples, p: nat, k: nat)
    requires Fits(r, img, S) && p < img.width * img.height && k <= |S| && r.threshold <= t
    ensures MatchCount(r, img, S, p, k) <= MatchCount(r.(threshold := t), img, S, p, k)
  {
    if k > 0 {
      MatchCountMonotoneInThreshold(r, t, img, S, p, k - 1);
    }
  }

  /** Raising the radius can turn a foreground pixel into background, never the reverse. */
  lemma ForegroundMonotoneInThreshold(r: Rule, t: nat, img: Img, S: Samples, p: nat)
    requires Fits(r, img, S) && p < img.width * img.height && r.threshold <= t
    ensures IsForeground(r.(threshold := t), img, S, p) ==> IsForeground(r, img, S, p)
  {
    MatchCountMonotoneInThreshold(r, t, img, S, p, r.nSamples);
  }

  /** Number of pixels among 0 .. k-1 that a rule classifies as foreground against fixed samples. */
  function ForegroundCount(r: Rule, img: Img, S: Samples, k: nat): (c: nat)
    requires Fits(r, img, S) && k <= img.width * img.height
    ensures c <= k
  {
    if k == 0 then 0
    else ForegroundCount(r, img, S, k - 1) + (if IsForeground(r, img, S, k - 1) then 1 else 0)
  }

  /** With the frame and the samples held fixed, a larger radius never yields more
      foreground pixels. */
  lemma {:induction false} ForegroundCountMonotoneInThreshold(r: Rule, t: nat, img: Img, S: Samples, k: nat)
    requires Fits(r, img, S) && k <= img.width * img.height && r.threshold <= t
    ensures ForegroundCount(r.(threshold := t), img, S, k) <= ForegroundCount(r, img, S, k)
  {
    if k > 0 {
      ForegroundCountMonotoneInThreshold(r, t, img, S, k - 1);
      ForegroundMonotoneInThreshold(r, t, img, S, k - 1);
    }
  }

  /** The decision for a pixel depends only on that pixel's bytes in the frame and in each
      sample, wherever the pixel sits: a band of a frame classifies its pixels as the whole
      frame would when given the same samples. */
  lemma {:induction false} MatchCountIsLocal(r: Rule, img1: Img, S1: Samples, p1: nat,
                                             img2: Img, S2: Samples, p2: nat, k: nat)
    requires Fits(r, img1, S1) && p1 < img1.width * img1.height
    requires Fits(r, img2, S2) && p2 < img2.width * img2.height
    requires k <= r.nSamples
    requires Pixel(img1.data, img1.width * img1.height, r.channels, p1)
          == Pixel(img2.data, img2.width * img2.height, r.channels, p2)
    requires forall s :: 0 <= s < r.nSamples ==>
      Pixel(S1[s], img1.width * img1.height, r.channels, p1) == Pixel(S2[s], img2.width * img2.height, r.channels, p2)
    ensures MatchCount(r, img1, S1, p1, k) == MatchCount(r, img2, S2, p2, k)
  {
    if k > 0 {
      MatchCountIsLocal(r, img1, S1, p1, img2, S2, p2, k - 1);
    }
  }

  lemma ClassificationIsLocal(r: Rule, img1: Img, S1: Samples, p1: nat, img2: Img, S2: Samples, p2: nat)
    requires Fits(r, img1, S1) && p1 < img1.width * img1.height
    requires Fits(r, img2, S2) && p2 < img2.width * img2.height
    requires Pixel(img1.data, img1.width * img1.height, r.channels, p1)
          == Pixel(img2.data, img2.width * img2.height, r.channels, p2)
    requires forall s :: 0 <= s < r.nSamples ==>
      Pixel(S1[s], img1.width * img1.height, r.channels, p1) == Pixel(S2[s], img2.width * img2.height, r.channels, p2)
    ensures IsForeground(r, img1, S1, p1) == IsForeground(r, img2, S2, p2)
  {
    MatchCountIsLocal(r, img1, S1, p1, img2, S2, p2, r.nSamples);
  }

  // ---------------------------------------------------------------------------------------
  // Properties of one step
  // ---------------------------------------------------------------------------------------

  /** A foreground pixel appends `UCHAR_MAX` and changes no sample and draws nothing. */
  lemma ForegroundStepWritesNothing(r: Rule, img: Img, draws: Draws, st: State, p: nat)
    requires Fits(r, img, st.samples) && p < img.width * img.height
    requires IsForeground(r, img, st.samples, p)
    ensures Step(r, img, draws, st, p) == State(st.samples, st.mask + [UcharMax], st.cursor)
  {}

  /** Sample `s` at pixel `q` is one of the (at most two) entries the decisions write. */
  predicate Written(u: Decisions, p: nat, s: nat, q: nat) {
    (u.selfSlot == Some(s) && q == p) || u.neighbor == Some((q, s))
  }

  /** A background pixel appends 0 and writes its own value into at most two sample entries:
      slot `selfSlot` at the pixel itself and slot `neighbor.1` at the adjacent pixel
      `neighbor.0`; every other pixel of every sample keeps its value. */
  lemma BackgroundStepWrites(r: Rule, img: Img, draws: Draws, st: State, p: nat, s: nat, q: nat)
    requires Fits(r, img, st.samples) && p < img.width * img.height
    requires !IsForeground(r, img, st.samples, p)
    requires s < r.nSamples && q < img.width * img.height
    ensures var n := img.width * img.height;
      var u := BackgroundDraws(r, img.width, img.height, p, draws, st.cursor);
      var st' := Step(r, img, draws, st, p);
      && st'.mask == st.mask + [0]
      && st'.cursor == u.next
      && Pixel(st'.samples[s], n, r.channels, q)
         == if Written(u, p, s, q) then Pixel(img.data, n, r.channels, p)
            else Pixel(st.samples[s], n, r.channels, q)
  {}

  // ---------------------------------------------------------------------------------------
  // Properties of the raster scan
  // ---------------------------------------------------------------------------------------

  /** Mask byte `p` of a scan is `UCHAR_MAX` exactly when pixel `p` was foreground against the
      samples as the scan had left them on reaching `p`. */
  lemma {:induction false} RunMaskIsClassification(r: Rule, img: Img, S0: Samples, draws: Draws,
                                                   c0: nat, k: nat, p: nat)
    requires Fits(r, img, S0) && p < k <= img.width * img.height
    ensures Run(r, img, S0, draws, c0, k).mask[p]
      == if IsForeground(r, img, Run(r, img, S0, draws, c0, p).samples, p) then UcharMax else 0
  {
    if p < k - 1 {
      RunMaskIsClassification(r, img, S0, draws, c0, k - 1, p);
    }
  }

  /** When the quota exceeds the number of samples, every pixel is foreground: the mask is all
      `UCHAR_MAX`, and neither the samples nor the cursor move. */
  lemma {:induction false} UnreachableQuotaIsAllForeground(r: Rule, img: Img, S0: Samples, draws: Draws,
                                                           c0: nat, k: nat)
    requires Fits(r, img, S0) && k <= img.width * img.height
    requires r.nRequired > r.nSamples
    ensures var st := Run(r, img, S0, draws, c0, k);
      st.samples == S0 && st.cursor == c0 && forall i :: 0 <= i < k ==> st.mask[i] == UcharMax
  {
    if k > 0 {
      UnreachableQuotaIsAllForeground(r, img, S0, draws, c0, k - 1);
    }
  }

  /** Every pixel of the frame is `u`. */
  predicate UniformFrame(img: Img, u: seq<Byte>)
    requires img.Valid()
  {
    forall q :: 0 <= q < img.width * img.height ==> Pixel(img.data, img.width * img.height, img.channels, q) == u
  }

  /** Every pixel of every sample is `v`. */
  predicate AllPixelsAre(S: Samples, n: nat, ch: nat, v: seq<Byte>)
    requires forall s :: 0 <= s < |S| ==> |S[s]| == n * ch
  {
    forall s, q :: 0 <= s < |S| && 0 <= q < n ==> Pixel(S[s], n, ch, q) == v
  }

  /** Every pixel of every sample is `u` or `v`. */
  predicate AllPixelsAmong(S: Samples, n: nat, ch: nat, u: seq<Byte>, v: seq<Byte>)
    requires forall s :: 0 <= s < |S| ==> |S[s]| == n * ch
  {
    forall s, q :: 0 <= s < |S| && 0 <= q < n ==> Pixel(S[s], n, ch, q) == u || Pixel(S[s], n, ch, q) == v
  }

  lemma {:induction false} AllMatch(r: Rule, img: Img, S: Samples, p: nat, k: nat)
    requires Fits(r, img, S) && p < img.width * img.height && k <= |S|
    requires forall s :: 0 <= s < k ==> Matches(r, img, S, p, s)
    ensures MatchCount(r, img, S, p, k) == k
  {
    if k > 0 {
      AllMatch(r, img, S, p, k - 1);
    }
  }

  lemma {:induction false} NoneMatch(r: Rule, img: Img, S: Samples, p: nat, k: nat)
    requires Fits(r, img, S) && p < img.width * img.height && k <= |S|
    requires forall s :: 0 <= s < k ==> !Matches(r, img, S, p, s)
    ensures MatchCount(r, img, S, p, k) == 0
  {
    if k > 0 {
      NoneMatch(r, img, S, p, k - 1);
    }
  }

  /** A uniform frame `u` against samples that are all `u` or `v`, where both lie within the
      radius of `u`, is all background: the mask is all 0 and the updates only ever write
      `u`, so every sample pixel stays `u` or `v`. */
  lemma {:induction false} NearUniformFrameIsBackground(r: Rule, img: Img, S0: Samples, draws: Draws,
                                                        c0: nat, k: nat, u: seq<Byte>, v: seq<Byte>)
    requires Fits(r, img, S0) && k <= img.width * img.height
    requires |u| == r.channels && |v| == r.channels
    requires r.nRequired <= r.nSamples
    requires 1 <= r.threshold && Distance(r, u, v) < r.threshold
    requires UniformFrame(img, u)
    requires AllPixelsAmong(S0, img.width * img.height, r.channels, u, v)
    ensures var st := Run(r, img, S0, draws, c0, k);
      AllPixelsAmong(st.samples, img.width * img.height, r.channels, u, v)
      && forall i :: 0 <= i < k ==> st.mask[i] == 0
  {
    if k > 0 {
      NearUniformFrameIsBackground(r, img, S0, draws, c0, k - 1, u, v);
      NearUniformStep(r, img, S0, draws, c0, k, u, v);
    }
  }

  /** One step of `NearUniformFrameIsBackground`: pixel `k - 1`. */
  lemma NearUniformStep(r: Rule, img: Img, S0: Samples, draws: Draws, c0: nat, k: nat,
                        u: seq<Byte>, v: seq<Byte>)
    requires Fits(r, img, S0) && 1 <= k <= img.width * img.height
    requires NearScenario(r, img, u, v)
    requires AllBackgroundSoFar(r, img, Run(r, img, S0, draws, c0, k - 1), k - 1, u, v)
    ensures AllBackgroundSoFar(r, img, Run(r, img, S0, draws, c0, k), k, u, v)
  {
    NearUniformPixel(r, img, draws, Run(r, img, S0, draws, c0, k - 1), k - 1, u, v);
  }

  /** The hypotheses of `NearUniformFrameIsBackground` on the frame and the rule. */
  predicate NearScenario(r: Rule, img: Img, u: seq<Byte>, v: seq<Byte>) {
    r.Valid() && img.Valid() && img.channels == r.channels && |u| == r.channels && |v| == r.channels
    && r.nRequired <= r.nSamples && 1 <= r.threshold && Distance(r, u, v) < r.threshold
    && UniformFrame(img, u)
  }

  /** The conclusion of `NearUniformFrameIsBackground` after `k` pixels. */
  predicate AllBackgroundSoFar(r: Rule, img: Img, st: State, k: nat, u: seq<Byte>, v: seq<Byte>) {
    Fits(r, img, st.samples) && k <= |st.mask|
    && AllPixelsAmong(st.samples, img.width * img.height, r.channels, u, v)
    && forall i :: 0 <= i < k ==> st.mask[i] == 0
  }

  /** Pixel `p` of a uniform frame `u`, against samples whose pixels are all `u` or `v`, is
      background and keeps every sample pixel `u` or `v`. */
  lemma NearUniformPixel(r: Rule, img: Img, draws: Draws, st: State, p: nat, u: seq<Byte>, v: seq<Byte>)
    requires NearScenario(r, img, u, v) && p < img.width * img.height
    requires AllBackgroundSoFar(r, img, st, p, u, v) && |st.mask| == p
    ensures AllBackgroundSoFar(r, img, Step(r, img, draws, st, p), p + 1, u, v)
  {
    var n := img.width * img.height;
    assert Pixel(img.data, n, r.channels, p) == u;
    DistanceToSelf(r, u);
    forall s | 0 <= s < r.nSamples
      ensures Matches(r, img, st.samples, p, s)
    {
      assert Pixel(st.samples[s], n, r.channels, p) == u || Pixel(st.samples[s], n, r.channels, p) == v;
    }
    AllMatch(r, img, st.samples, p, r.nSamples);
    var st' := Step(r, img, draws, st, p);
    forall s, q | 0 <= s < |st'.samples| && 0 <= q < n
      ensures Pixel(st'.samples[s], n, r.channels, q) == u || Pixel(st'.samples[s], n, r.channels, q) == v
    {
      BackgroundStepWrites(r, img, draws, st, p, s, q);
    }
    BackgroundStepWrites(r, img, draws, st, p, 0, p);
  }

  /** A uniform frame `u` against samples that are all `v`, with `v` outside the radius of `u`
      and a quota of at least one, is all foreground and leaves the samples as they were. */
  lemma {:induction false} FarUniformFrameIsForeground(r: Rule, img: Img, S0: Samples, draws: Draws,
                                                       c0: nat, k: nat, u: seq<Byte>, v: seq<Byte>)
    requires Fits(r, img, S0) && k <= img.width * img.height
    requires |u| == r.channels && |v| == r.channels
    requires r.nRequired >= 1
    requires Distance(r, u, v) >= r.threshold
    requires UniformFrame(img, u)
    requires AllPixelsAre(S0, img.width * img.height, r.channels, v)
    ensures var st := Run(r, img, S0, draws, c0, k);
      st.samples == S0 && st.cursor == c0 && forall i :: 0 <= i < k ==> st.mask[i] == UcharMax
  {
    if k > 0 {
      FarUniformFrameIsForeground(r, img, S0, draws, c0, k - 1, u, v);
      FarUniformStep(r, img, S0, draws, c0, k, u, v);
    }
  }

  /** One step of `FarUniformFrameIsForeground`: pixel `k - 1`. */
  lemma FarUniformStep(r: Rule, img: Img, S0: Samples, draws: Draws, c0: nat, k: nat,
                       u: seq<Byte>, v: seq<Byte>)
    requires Fits(r, img, S0) && 1 <= k <= img.width * img.height
    requires |u| == r.channels && |v| == r.channels
    requires r.nRequired >= 1
    requires Distance(r, u, v) >= r.threshold
    requires UniformFrame(img, u)
    requires AllPixelsAre(S0, img.width * img.height, r.channels, v)
    requires var st := Run(r, img, S0, draws, c0, k - 1);
      st.samples == S0 && st.cursor == c0 && forall i :: 0 <= i < k - 1 ==> st.mask[i] == UcharMax
    ensures var st := Run(r, img, S0, draws, c0, k);
      st.samples == S0 && st.cursor == c0 && forall i :: 0 <= i < k ==> st.mask[i] == UcharMax
  {
    var n := img.width * img.height;
    var p := k - 1;
    forall s | 0 <= s < r.nSamples
      ensures !Matches(r, img, S0, p, s)
    {
      assert Pixel(img.data, n, r.channels, p) == u;
      assert Pixel(S0[s], n, r.channels, p) == v;
    }
    NoneMatch(r, img, S0, p, r.nSamples);
    ForegroundStepWritesNothing(r, img, draws, Run(r, img, S0, draws, c0, p), p);
  }

  // ---------------------------------------------------------------------------------------
  // Sample-set initialisation
  // ---------------------------------------------------------------------------------------

  /** Flat index of the seed pixel copied into pixel `q` of a sample by the draw `d`: the
      draw becomes the `int` argument of `getSamplePosition_7x7_std2`. */
  function InitSource(w: nat, h: nat, q: nat, d: Uint32): (src: nat)
    requires q < w * h
    ensures src < w * h
  {
    RasterCoords(q, w, h);
    var x, y := q % w, q / w;
    var pos := SamplePosition(ToInt32(d), x, y, w, h);
    RasterOffset(pos.0, pos.1, w, h);
    pos.1 * w + pos.0
  }

  /** The seed pixel an initial sample pixel copies is at most 3 columns and 3 rows away. */
  lemma InitSourceIsNearby(w: nat, h: nat, q: nat, d: Uint32)
    requires q < w * h
    ensures w >= 1 && WithinRadius(InitSource(w, h, q, d), q, w, 3)
  {
    RasterCoords(q, w, h);
    var pos := SamplePosition(ToInt32(d), q % w, q / w, w, h);
    RasterOffset(pos.0, pos.1, w, h);
  }

  /** Pixels 0 .. k-1 of the buffer `buf` are what initialisation copies from `seed` when
      the draw for pixel `q` is number `base + q`. */
  predicate SampleFrom(buf: seq<Byte>, seed: Img, draws: Draws, base: nat, k: nat)
    requires seed.Valid() && |buf| == seed.width * seed.height * seed.channels
    requires k <= seed.width * seed.height
  {
    var n := seed.width * seed.height;
    forall q {:trigger Pixel(buf, n, seed.channels, q)} :: 0 <= q < k ==>
      Pixel(buf, n, seed.channels, q)
        == Pixel(seed.data, n, seed.channels, SampleSource(seed, draws, base, q))
  }

  /** The seed pixel that pixel `q` copies when the sample's first draw is number `base`. */
  function SampleSource(seed: Img, draws: Draws, base: nat, q: nat): (src: nat)
    requires q < seed.width * seed.height
    ensures src < seed.width * seed.height
  {
    InitSource(seed.width, seed.height, q, draws(base + q))
  }

  /** The sample set `S` is what initialisation from `seed` produces with draws from `c0` on:
      N buffers of the seed's size, and pixel `q` of sample `s` is the seed pixel selected by
      draw number `c0 + s * n + q` (samples outermost, then rows, then columns). */
  predicate InitializedFrom(S: Samples, seed: Img, nSamples: nat, draws: Draws, c0: nat)
  {
    var n := seed.width * seed.height;
    seed.Valid() && |S| == nSamples
    && (forall s :: 0 <= s < |S| ==> |S[s]| == n * seed.channels)
    && forall s :: 0 <= s < nSamples ==> SampleFrom(S[s], seed, draws, SampleBase(c0, s, n), n)
  }

  /** Number of the first draw that initialising sample `s` of `n` pixels consumes, when the
      first sample starts at draw `c0`. */
  function SampleBase(c0: nat, s: nat, n: nat): nat {
    c0 + s * n
  }

  /** Two buffers of `n` pixels that agree on every pixel are equal. */
  lemma PixelwiseEqual(a: seq<Byte>, b: seq<Byte>, n: nat, ch: nat)
    requires |a| == n * ch && |b| == n * ch
    requires forall q :: 0 <= q < n ==> Pixel(a, n, ch, q) == Pixel(b, n, ch, q)
    ensures a == b
  {
    forall i | 0 <= i < |a|
      ensures a[i] == b[i]
    {
      PixelByte(a, n, ch, i);
      PixelByte(b, n, ch, i);
      assert Pixel(a, n, ch, i / ch) == Pixel(b, n, ch, i / ch);
    }
  }

  /** Initialisation is deterministic: the seed frame and the draws fix every sample byte. */
  lemma InitializationIsDeterministic(S1: Samples, S2: Samples, seed: Img, nSamples: nat, draws: Draws, c0: nat)
    requires InitializedFrom(S1, seed, nSamples, draws, c0)
    requires InitializedFrom(S2, seed, nSamples, draws, c0)
    ensures S1 == S2
  {
    var n := seed.width * seed.height;
    forall s | 0 <= s < nSamples
      ensures S1[s] == S2[s]
    {
      PixelwiseEqual(S1[s], S2[s], n, seed.channels);
    }
  }

  /** Each initial sample pixel is a copy of an in-bounds seed pixel `src` at most 3 columns
      and 3 rows away. */
  lemma InitialSampleIsNearbySeedPixel(S: Samples, seed: Img, nSamples: nat, draws: Draws, c0: nat,
                                       s: nat, q: nat) returns (src: nat)
    requires InitializedFrom(S, seed, nSamples, draws, c0)
    requires s < nSamples && q < seed.width * seed.height
    ensures seed.width >= 1
    ensures src < seed.width * seed.height && WithinRadius(src, q, seed.width, 3)
    ensures Pixel(S[s], seed.width * seed.height, seed.channels, q)
         == Pixel(seed.data, seed.width * seed.height, seed.channels, src)
  {
    var n := seed.width * seed.height;
    var base := SampleBase(c0, s, n);
    assert SampleFrom(S[s], seed, draws, base, n);
    src := SampleSource(seed, draws, base, q);
    InitSourceIsNearby(seed.width, seed.height, q, draws(base + q));
  }

  /** A uniform seed frame yields uniform samples. */
  lemma UniformSeedGivesUniformSamples(S: Samples, seed: Img, nSamples: nat, draws: Draws, c0: nat, v: seq<Byte>)
    requires InitializedFrom(S, seed, nSamples, draws, c0)
    requires UniformFrame(seed, v)
    ensures AllPixelsAre(S, seed.width * seed.height, seed.channels, v)
  {
    var n := seed.width * seed.height;
    forall s, q | 0 <= s < |S| && 0 <= q < n
      ensures Pixel(S[s], n, seed.channels, q) == v
    {
      var base := SampleBase(c0, s, n);
      assert SampleFrom(S[s], seed, draws, base, n);
      var src := SampleSource(seed, draws, base, q);
      assert Pixel(S[s], n, seed.channels, q) == Pixel(seed.data, n, seed.channels, src);
    }
  }

  /** As written, C++ turns every draw of 2^31 or more into a negative `int`, and such an index
      always copies the seed pixel 3 columns left of and 3 rows above the origin (clamped). */
  lemma HighDrawCopiesUpperLeftCorner(w: nat, h: nat, q: nat, d: Uint32)
    requires q < w * h && d >= 0x8000_0000
    ensures InitSource(w, h, q, d) == Clamp(q / w - 3, h) * w + Clamp(q % w - 3, w)
  {
    NegativeIndexPicksCorner(ToInt32(d));
  }
}
