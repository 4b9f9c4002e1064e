# ViBe background subtraction, modelled in Dafny

This project models the core of a ViBe ("visual background extractor") background
subtractor. ViBe keeps N sample images of the scene's background. It classifies each pixel
of a new frame as foreground (mask byte 255) when fewer than `nRequired` samples lie within
the colour radius of the pixel. Otherwise it classifies the pixel as background (mask byte
0). A background pixel may then overwrite, with a small probability, one random sample of
itself and one random sample of a random 8-neighbour. The samples are initialised from a
seed frame: each sample pixel copies a seed pixel drawn from a 7x7 Gaussian-weighted
neighbourhood.

The repository has three variants, and all three are modelled:

* `BackgroundSubtractorViBe_1ch`: grayscale. It compares the L1 distance with R and
  updates when `rand % learningRate == 0`.
* `BackgroundSubtractorViBe_3ch`: colour. It compares the squared Euclidean distance with
  (3R)^2. It also has a banded variant (`initializeParallel` / `applyParallel`). That
  variant cuts the frame into T horizontal bands and keeps one sample set and one mask
  buffer per band.
* `VibeBGS`: colour, on flat byte buffers. It draws its 1-in-K test and its sample slot
  with `rand & ANDlearningRate`.

Structure:

* `Common.dfy`: bytes, 32-bit draws, the C++ `%`, `&` and `int` conversion, and raster
  pixel arithmetic.
* `VibeUtils.dfy`: `vibeUtils.hpp`, covering clamping, the 7x7 sampling kernel and the
  scalar distances.
* `ViBeKernels.dfy`: the inline helpers of `BackgroundSubtractorViBe.hpp`, covering the
  default parameters, `L2dist3Squared` and `getNeighborPosition_3x3`.
* `ViBeModel.dfy`: the value-level specification. `Run` is the raster-order
  classify-and-update pass for a `Rule`. `InitializedFrom` specifies sample
  initialisation. This file also holds the lemmas about both.
* `ViBeEngine.dfy` and `ViBeInit.dfy`: the loops, in imperative form over `array` buffers.
  Each is proved equal to the specification.
* `Bands.dfy` and `ViBeParallel.dfy`: the band split, the banded specification
  `ParallelRun`, and the band loops of `initializeParallel` / `applyParallel`.
* `Subtractors.dfy`: the three classes, with their fields and methods.

The random generator `Pcg32::fast()` is a parameter. `draws: nat -> Uint32` gives the
value of every draw. A cursor counts the draws consumed so far. Every method returns the
new cursor, so the order of draws is part of each contract.

## Model

| member | source | states |
|---|---|---|
| Common.ToInt32 | api/src/BackgroundSubtractorViBe.cpp:66 | A 32-bit draw passed as the `int` random index keeps its value below 2^31 and loses 2^32 above it. It is negative exactly when its top bit is set. |
| Common.CppRem | api/include/vibeUtils.hpp:40 | C++ `%` truncates toward zero: the remainder has the dividend's sign and magnitude `abs(a) mod b`. |
| Common.BitAnd | api/src/VibeBGS.cpp:108 | `a & b` never exceeds either operand. |
| Common.BitAndLowMask | api/src/VibeBGS.cpp:108-110 | With a mask 2^k - 1, `a & mask` equals `a mod 2^k`, so `(rand & mask) == 0` is a 1-in-2^k test. |
| Common.WritePixel | api/src/BackgroundSubtractorViBe.cpp:227 | Writing pixel q of a buffer sets that pixel to the new value and leaves every other pixel unchanged. |
| VibeUtils.Clamp | api/include/vibeUtils.hpp:24-33 | The clamped coordinate lies in `[0, size)` for a non-empty axis, and an in-range coordinate is unchanged. |
| VibeUtils.ClampImageCoords | api/include/vibeUtils.hpp:24-33 | Each coordinate is clamped to its own axis, independently of the other. |
| VibeUtils.ClampNearestAndIdempotent | api/include/vibeUtils.hpp:24-33 | The clamped coordinate is the in-range coordinate nearest to the input, and clamping twice equals clamping once. |
| VibeUtils.ClampStaysNear | api/include/vibeUtils.hpp:24-33 | Clamping a coordinate that is within k of an in-range coordinate o keeps it within k of o. |
| VibeUtils.WeightsPositive | api/include/vibeUtils.hpp:60-68 | Every cell of the 7x7 initialisation kernel has weight at least 2, so every cell can be chosen. |
| VibeUtils.KernelTotal | api/include/vibeUtils.hpp:59-68 | The 49 kernel weights sum to `s_nSamplesInitPatternTot` (512). |
| VibeUtils.KernelCell | api/include/vibeUtils.hpp:41-47 | The scan stops at the first cell whose cumulative weight reaches the target. Every target up to 512 stops inside the kernel. |
| VibeUtils.KernelCellIsFirst | api/include/vibeUtils.hpp:41-47 | The stopping cell is unique: any cell that is first to reach the target is `KernelCell`. |
| VibeUtils.KernelCellMonotone | api/include/vibeUtils.hpp:41-47 | A larger target never stops at an earlier cell. |
| VibeUtils.SmallTargetPicksFirstCell | api/include/vibeUtils.hpp:40-45 | A target of at most 2, which every negative random index produces, stops at the upper-left cell. |
| VibeUtils.ScanTarget | api/include/vibeUtils.hpp:40 | `1 + nRandIdx % 512` under C++ `%` lies in `[-510, 512]`, and it is at least 1 for a non-negative index. |
| VibeUtils.SampleOffset | api/include/vibeUtils.hpp:40-50 | The kernel offset is within 3 columns and 3 rows of the centre. |
| VibeUtils.NegativeIndexPicksCorner | api/include/vibeUtils.hpp:40-50 | A negative random index always gives the offset (-3, -3). |
| VibeUtils.TableWeight | api/include/vibeUtils.hpp:60-68 | Row-major cell (y, x) of the kernel table is the weight that the scan visits at step 7y + x. |
| VibeUtils.SamplePosition | api/include/vibeUtils.hpp:55-70 | The sampled position lies inside the image and within 3 columns and 3 rows of the original pixel. |
| VibeUtils.GetSamplePosition | api/include/vibeUtils.hpp:36-70 | The nested scan with its early exit and the final clamp compute `SamplePosition`. |
| VibeUtils.L1Dist | api/include/vibeUtils.hpp:119-123 | The result is zero exactly on equal bytes, and its square is the squared difference of the two bytes, so it is their distance. |
| VibeUtils.L1DistIsMetric | api/include/vibeUtils.hpp:119-123 | The L1 distance is symmetric, is zero exactly on equal bytes and fits in a byte. |
| VibeUtils.L2SqrDist | api/include/vibeUtils.hpp:110-117 | The squared difference of two bytes fits in 16 bits. |
| VibeUtils.L2SqrDistIsSquaredL1 | api/include/vibeUtils.hpp:110-117 | The squared L2 distance is the square of the L1 distance, is symmetric and is zero exactly on equal bytes. |
| ViBeKernels.DefaultsConsistent | api/include/BackgroundSubtractorViBe.hpp:42-49 | The default parameters (R 20, N 20, 2 required, rate 16) are a usable configuration, with a 3-channel squared radius of 3600. |
| ViBeKernels.L2Dist3Squared | api/include/BackgroundSubtractorViBe.hpp:88-93 | The squared colour distance is at most 3·255². |
| ViBeKernels.L2Dist3SquaredIsDistance | api/include/BackgroundSubtractorViBe.hpp:88-93 | The squared colour distance is symmetric and is zero exactly on equal pixels. |
| ViBeKernels.NeighborPatternIsCompass | api/include/BackgroundSubtractorViBe.hpp:97-102 | The pattern holds 8 pairwise-distinct offsets, each in {-1, 0, 1}² and none of them (0, 0). |
| ViBeKernels.NeighborPosition | api/include/BackgroundSubtractorViBe.hpp:95-115 | The chosen neighbour lies inside the image and within one column and one row of the pixel. |
| ViBeKernels.InteriorNeighborDiffers | api/include/BackgroundSubtractorViBe.hpp:103-115 | For an interior pixel, the result is the pixel moved by pattern entry `rand % 8`, and never the pixel itself. |
| ViBeKernels.GetNeighborPosition3x3 | api/include/BackgroundSubtractorViBe.hpp:95-115 | The method consumes exactly one draw and returns the `NeighborPosition` of that draw. |
| ViBeModel.DistanceIsSymmetric | api/src/BackgroundSubtractorViBe.cpp:213-222 | Both metrics (L1 on one channel, squared L2 on three) are symmetric and are zero exactly on equal pixels. |
| ViBeModel.DistanceToSelf | api/src/BackgroundSubtractorViBe.cpp:213-222 | A pixel is at distance 0 from itself. |
| ViBeModel.MatchCount | api/src/BackgroundSubtractorViBe.cpp:78-83 | The number of matching samples among the first k is at most k. |
| ViBeModel.MatchCountPrefixMonotone | api/src/BackgroundSubtractorViBe.cpp:213-222 | Counting over more samples never finds fewer matches. |
| ViBeModel.MatchCountMonotoneInThreshold | api/src/BackgroundSubtractorViBe.cpp:218-219 | A larger threshold never finds fewer matches. |
| ViBeModel.ForegroundMonotoneInThreshold | api/src/BackgroundSubtractorViBe.cpp:218-224 | A pixel that is foreground under a larger radius is foreground under the smaller one, against the same frame and samples, so widening the radius can only turn foreground into background. |
| ViBeModel.ForegroundCount | api/src/BackgroundSubtractorViBe.cpp:223-224 | At most k of the first k pixels are foreground. |
| ViBeModel.ForegroundCountMonotoneInThreshold | api/src/BackgroundSubtractorViBe.cpp:218-224 | Against the same frame and samples, a larger radius never yields more foreground pixels. |
| ViBeModel.MatchCountIsLocal | api/src/BackgroundSubtractorViBe.cpp:213-222 | The match count depends only on the pixel's value and on the samples' values at that pixel. |
| ViBeModel.ClassificationIsLocal | api/src/BackgroundSubtractorViBe.cpp:213-224 | The foreground decision depends only on the pixel's value and on its own samples, not on other pixels or on the frame size. |
| ViBeModel.SampleSlot | api/src/VibeBGS.cpp:110 | The drawn slot is a valid sample index. Under the bitmask rule it never exceeds the mask, so slots above the mask are never refreshed. |
| ViBeModel.SelfDraws | api/src/BackgroundSubtractorViBe.cpp:226-228 | The self update uses one draw when it does not fire and two when it does, and a firing update picks a valid slot. |
| ViBeModel.NeighborDraws | api/src/BackgroundSubtractorViBe.cpp:229-234 | The neighbour update uses one draw when it does not fire and three when it does (test, direction, slot). A firing update writes a pixel in the frame and a valid slot. |
| ViBeModel.BackgroundDraws | api/src/BackgroundSubtractorViBe.cpp:226-234 | A background pixel consumes between 2 and 5 draws, and every slot and pixel it writes is valid. |
| ViBeModel.NeighborTarget | api/src/BackgroundSubtractorViBe.cpp:230-233 | The neighbour's flat offset lies inside the frame. |
| ViBeModel.NeighborUpdateIsAdjacent | api/src/BackgroundSubtractorViBe.cpp:229-234 | The neighbour update writes the pixel itself or one of its 8 neighbours, never a pixel farther away. |
| ViBeModel.WriteSample | api/src/BackgroundSubtractorViBe.cpp:227 | Writing one sample pixel keeps the number and the sizes of all sample buffers. |
| ViBeModel.Step | api/src/BackgroundSubtractorViBe.cpp:213-235 | One pixel appends exactly one mask byte and keeps the sample-set layout. |
| ViBeModel.ApplyUpdates | api/src/BackgroundSubtractorViBe.cpp:226-234 | The self update followed by the neighbour update keeps every sample buffer's size. |
| ViBeModel.Run | api/src/BackgroundSubtractorViBe.cpp:206-238 | After k pixels the mask has k bytes, each 0 or `UCHAR_MAX`, and the sample set keeps its layout. |
| ViBeModel.ForegroundStepWritesNothing | api/src/BackgroundSubtractorViBe.cpp:223-224 | A foreground pixel writes 255 to the mask and neither changes a sample nor consumes a draw. |
| ViBeModel.BackgroundStepWrites | api/src/BackgroundSubtractorViBe.cpp:225-234 | A background pixel writes 0 and advances the cursor by its draws. Each sample pixel becomes the frame pixel if it was drawn for the update, and keeps its value otherwise. |
| ViBeModel.RunMaskIsClassification | api/src/BackgroundSubtractorViBe.cpp:206-238 | Mask byte p is 255 exactly when pixel p is foreground against the samples as updated by pixels 0 .. p-1, and 0 otherwise. |
| ViBeModel.UnreachableQuotaIsAllForeground | api/src/BackgroundSubtractorViBe.cpp:213-224 | When more matches are required than there are samples, every pixel is foreground, no draw is consumed and the samples stay untouched. |
| ViBeModel.AllMatch | api/src/BackgroundSubtractorViBe.cpp:213-222 | When every sample matches, the count equals the number of samples scanned. |
| ViBeModel.NoneMatch | api/src/BackgroundSubtractorViBe.cpp:213-222 | When no sample matches, the count is 0. |
| ViBeModel.NearUniformFrameIsBackground | api/src/BackgroundSubtractorViBe.cpp:206-238 | Take a uniform frame whose colour u is within the radius of colour v, with samples that hold only u and v. Then every pixel is background, and the samples still hold only u and v. |
| ViBeModel.FarUniformFrameIsForeground | api/src/BackgroundSubtractorViBe.cpp:206-238 | Take a uniform frame whose colour is outside the radius of the samples' single colour. Then every pixel is foreground, the samples are unchanged and no draw is consumed. |
| ViBeModel.InitSource | api/src/BackgroundSubtractorViBe.cpp:113-114 | The seed pixel that an initial sample pixel copies lies in the frame. |
| ViBeModel.InitSourceIsNearby | api/src/BackgroundSubtractorViBe.cpp:113-114 | That seed pixel is within 3 columns and 3 rows of the sample pixel. |
| ViBeModel.InitializationIsDeterministic | api/src/BackgroundSubtractorViBe.cpp:105-119 | The seed frame and the draws determine the initialised sample set completely. |
| ViBeModel.InitialSampleIsNearbySeedPixel | api/src/BackgroundSubtractorViBe.cpp:108-117 | Every pixel of every initial sample equals a seed pixel within 3 columns and 3 rows of it. |
| ViBeModel.UniformSeedGivesUniformSamples | api/src/BackgroundSubtractorViBe.cpp:105-119 | A uniform seed frame yields samples that hold that colour everywhere. |
| ViBeModel.HighDrawCopiesUpperLeftCorner | api/src/BackgroundSubtractorViBe.cpp:113 | A draw of 2^31 or more becomes a negative `int` index. The sample pixel then copies the seed pixel 3 columns left and 3 rows up (clamped) instead of a Gaussian-weighted one. |
| ViBeEngine.CountGoodSamples | api/src/BackgroundSubtractorViBe.cpp:213-222 | The early-exit loop returns `min(matches over all N samples, nRequired)`, and that is below `nRequired` exactly when the pixel is foreground. |
| ViBeEngine.CopyPixel | api/src/VibeBGS.cpp:111-113 | The buffer becomes `WritePixel` of its old contents: one pixel is replaced and the rest are unchanged. |
| ViBeEngine.WriteSampleAt | api/src/BackgroundSubtractorViBe.cpp:227 | The sample set's values change exactly as `WriteSample` says, and no other buffer changes. |
| ViBeEngine.ProcessPixel | api/src/BackgroundSubtractorViBe.cpp:213-235 | The samples and the cursor become those of `Step`, and only mask byte p changes, to `Step`'s byte. |
| ViBeEngine.UpdateBackground | api/src/BackgroundSubtractorViBe.cpp:226-234 | The samples become `ApplyUpdates` of the drawn decisions, and the cursor moves past exactly those draws. |
| ViBeEngine.UpdateSelf | api/src/BackgroundSubtractorViBe.cpp:226-228 | The drawn slot's pixel is overwritten when the test fires, and nothing changes otherwise. |
| ViBeEngine.UpdateNeighbor | api/src/BackgroundSubtractorViBe.cpp:229-234 | The drawn slot at the drawn neighbour is overwritten when the test fires, and nothing changes otherwise. |
| ViBeEngine.UpdateNeighborFired | api/src/BackgroundSubtractorViBe.cpp:230-233 | A fired neighbour update takes the direction draw and then the slot draw, and writes the frame pixel there. |
| ViBeEngine.NeighborTargetAt | api/src/BackgroundSubtractorViBe.cpp:231-233 | The (x, y) neighbour that the 2-D code computes is the flat offset `NeighborTarget`. |
| ViBeEngine.ClearMask | api/src/BackgroundSubtractorViBe.cpp:207 | Every mask byte becomes 0. |
| ViBeEngine.ApplyRaster | api/src/BackgroundSubtractorViBe.cpp:206-238 | The row and column loops leave the samples, the mask and the cursor equal to `Run` over the whole frame. |
| ViBeEngine.ApplyFlat | api/src/VibeBGS.cpp:80-125 | The flat pixel loop leaves the samples, the mask and the cursor equal to `Run` over the whole frame. |
| ViBeInit.InitSamples | api/src/BackgroundSubtractorViBe.cpp:108-117 | The method returns N new, pairwise-distinct buffers that satisfy `InitializedFrom` the seed. Exactly N·pixels draws are consumed. |
| ViBeInit.NewSample | api/src/BackgroundSubtractorViBe.cpp:109-116 | One new buffer of the seed's size, each pixel copied from its drawn seed pixel, one draw per pixel. |
| ViBeInit.FillSample | api/src/BackgroundSubtractorViBe.cpp:111-116 | Filling in raster order makes every pixel the seed pixel selected by its own draw. |
| ViBeInit.FillPixel | api/src/BackgroundSubtractorViBe.cpp:113-114 | One pixel copies the seed pixel selected by the next draw, and the pixels before it keep their values. |
| Bands.BandRect | api/src/BackgroundSubtractorViBe.cpp:182-186 | A band rectangle starts at column 0, spans the full width and ends inside the frame. |
| Bands.BandEnds | api/src/BackgroundSubtractorViBe.cpp:127-134 | Each band ends where the next one starts, and the last band ends at the frame height. |
| Bands.LastBandFits | api/src/BackgroundSubtractorViBe.cpp:130-131 | The last band starts inside the frame, so its height `H - y` is not negative. |
| Bands.BandTopMonotone | api/src/BackgroundSubtractorViBe.cpp:127-134 | Band tops never decrease. |
| Bands.HeightSumIsTop | api/src/BackgroundSubtractorViBe.cpp:127-134 | The heights of the bands before band k sum to its top, and all heights sum to the frame height. |
| Bands.BandsNonEmpty | api/src/BackgroundSubtractorViBe.cpp:128-131 | When there are at most as many bands as rows, every band has at least one row. |
| Bands.BandOf | api/src/BackgroundSubtractorViBe.cpp:125-136 | Every row of the frame lies in exactly one band. |
| Bands.BandsDisjoint | api/src/BackgroundSubtractorViBe.cpp:125-136 | No row lies in two different bands. |
| Bands.SubImage | api/src/BackgroundSubtractorViBe.cpp:133 | A band image is a valid image with the frame's width and channels and the rectangle's height. |
| Bands.SubImagePixel | api/src/BackgroundSubtractorViBe.cpp:133 | Pixel q of the band image is pixel `y·W + q` of the frame. |
| Bands.SplitImages | api/src/BackgroundSubtractorViBe.cpp:125-136 | The loop yields T band images, band i being the frame cut to `BandRect(i)`. |
| ViBeParallel.Band | api/src/BackgroundSubtractorViBe.cpp:133 | Band i is a valid image with the frame's width and channels and band i's height. |
| ViBeParallel.PixelsBeforeIsTop | api/src/BackgroundSubtractorViBe.cpp:199-201 | The pixels of the bands before band k are W times band k's top row, and all T bands hold W·H pixels. |
| ViBeParallel.ParallelRunFits | api/src/BackgroundSubtractorViBe.cpp:192-204 | After k bands each band's samples keep their layout, and the joined mask covers exactly the pixels of those k bands. |
| ViBeParallel.ParallelMaskIsBinary | api/src/BackgroundSubtractorViBe.cpp:192-204 | The joined mask holds only 0 and 255. |
| ViBeParallel.ParallelBandSamples | api/src/BackgroundSubtractorViBe.cpp:199-200 | Only band i's own pass changes band i's samples. Bands not yet processed keep their initial samples. |
| ViBeParallel.ParallelMaskPrefix | api/src/BackgroundSubtractorViBe.cpp:201 | Processing further bands only extends the joined mask and never rewrites rows already written. |
| ViBeParallel.ParallelBandMask | api/src/BackgroundSubtractorViBe.cpp:201 | The rows of band i in the joined mask are exactly band i's own mask. |
| ViBeParallel.BandReadsOnlyItsRows | api/src/BackgroundSubtractorViBe.cpp:199 | A band's image depends only on the frame rows inside that band. |
| ViBeParallel.BandPixelIsFramePixel | api/src/BackgroundSubtractorViBe.cpp:199 | Pixel q of band i is frame pixel `W·top(i) + q`. |
| ViBeParallel.TilingEquivalence | api/src/BackgroundSubtractorViBe.cpp:192-204 | When band i's samples hold, at its pixel q, the values the whole-frame samples hold at frame pixel `W·top(i) + q`, band i classifies q exactly as the whole frame classifies that pixel. |
| ViBeParallel.ParallelMaskPixel | api/src/BackgroundSubtractorViBe.cpp:199-201 | Mask byte `pixels-before(i) + q` is band i's classification of its pixel q, taken against band i's own samples as updated earlier in that band. |
| ViBeParallel.ParallelMaskIsClassification | api/src/BackgroundSubtractorViBe.cpp:192-204 | Every frame pixel p lies in one band i at offset q. Mask byte p is 255 exactly when q is foreground against band i's samples, so bands never see each other's samples. |
| ViBeParallel.ParallelCursorMonotone | api/src/BackgroundSubtractorViBe.cpp:192-204 | Processing more bands never moves the draw cursor back. |
| ViBeParallel.RunCursorMonotone | api/src/BackgroundSubtractorViBe.cpp:206-238 | A classify-and-update pass never moves the draw cursor back. |
| ViBeParallel.CopyToRows | api/src/BackgroundSubtractorViBe.cpp:201 | Copying a band mask into the frame mask replaces exactly the band's rows and keeps the rest. |
| ViBeParallel.ApplyBand | api/src/BackgroundSubtractorViBe.cpp:199-201 | The band's samples, band mask and cursor become `Run` on the band image, and that mask is spliced into the frame mask at the band's first row. |
| ViBeParallel.ApplyBandAt | api/src/BackgroundSubtractorViBe.cpp:197-202 | The same for band `np` of the member vectors: only band `np`'s sample set changes, band `np`'s mask buffer holds its mask, and every other band's mask buffer is untouched. |
| ViBeParallel.ApplyBandsInOrder | api/src/BackgroundSubtractorViBe.cpp:193-202 | Visiting the bands in `m_processSeq` order leaves all sample sets, the frame mask and the cursor equal to `ParallelRun`, and each band's mask buffer holds that band's mask (`BandMask`). |
| ViBeParallel.ApplyBands | api/src/BackgroundSubtractorViBe.cpp:192-204 | `applyParallel` over the split of the frame equals `ParallelRun`, and mask buffer i holds band i's mask. |
| ViBeParallel.InitCursor | api/src/BackgroundSubtractorViBe.cpp:160-179 | The draws of band k start no earlier than the first draw. |
| ViBeParallel.InitCursorMonotone | api/src/BackgroundSubtractorViBe.cpp:160-179 | Each band consumes N draws per pixel before the next band starts. |
| ViBeParallel.InitBand | api/src/BackgroundSubtractorViBe.cpp:163-180 | A band gets a new mask buffer of its size and N new distinct sample buffers initialised from the band image. |
| ViBeParallel.InitializeBands | api/src/BackgroundSubtractorViBe.cpp:144-190 | Band i gets number i, rectangle `BandRect(i)`, a mask buffer of its size and a sample set initialised from band image i. Every band starts drawing where the previous one stopped, and no buffer is shared. |
| ViBeParallel.InitBandsLoop | api/src/BackgroundSubtractorViBe.cpp:157-188 | The loop over `np` establishes the same per-band facts for any list of band images of the band sizes. |
| Subtractors.InitSampleSets | api/src/VibeBGS.cpp:28-31 | One sample set per band image, each initialised from its band, the bands drawing one after the other; every buffer is newly allocated, the buffers of a band are pairwise different and no two bands share a buffer. |
| Subtractors.ViBe1ch.constructor | api/src/BackgroundSubtractorViBe.cpp:23-32 | Stores R, N, the required matches and the learning rate. The object starts uninitialised. |
| Subtractors.ViBe1ch.Initialize | api/src/BackgroundSubtractorViBe.cpp:58-72 | Stores the seed's size, builds N new buffers `InitializedFrom` the grayscale seed and marks the object initialised. |
| Subtractors.ViBe1ch.Apply | api/src/BackgroundSubtractorViBe.cpp:74-97 | The samples, the mask and the cursor equal `Run` of the L1 / `% learningRate` rule over the frame. |
| Subtractors.ViBe3ch.constructor | api/src/BackgroundSubtractorViBe.cpp:99-101 | Stores the parameters and the squared radius (3R)². |
| Subtractors.ViBe3ch.Initialize | api/src/BackgroundSubtractorViBe.cpp:105-119 | Stores the seed's size and builds N new buffers `InitializedFrom` the colour seed. The banded state is left alone. |
| Subtractors.ViBe3ch.ApplyCmp | api/src/BackgroundSubtractorViBe.cpp:206-238 | On any sample set and mask, the result equals `Run` of the squared-L2 / `% learningRate` rule. |
| Subtractors.ViBe3ch.Apply | api/src/BackgroundSubtractorViBe.cpp:121-123 | `applyCmp` on the whole-frame samples. |
| Subtractors.ViBe3ch.InitializeParallel | api/src/BackgroundSubtractorViBe.cpp:144-190 | Stores T and the size. The banded fields satisfy `BandsReady`, and the band sample sets are initialised from `Split(img, T)`. The whole-frame samples are kept. |
| Subtractors.ViBe3ch.ApplyParallel | api/src/BackgroundSubtractorViBe.cpp:192-204 | The band sample sets, the frame mask and the cursor equal `ParallelRun` over the split of the frame, and `m_outSplit[i]` holds band i's mask. |
| Subtractors.VibeBgs.constructor | api/src/VibeBGS.cpp:8-13 | Stores the squared radius, N, the required matches and the AND mask, with no buffers. |
| Subtractors.VibeBgs.Initialize | api/src/VibeBGS.cpp:34-55 | `m_bgImgSamples` becomes N new distinct buffers `InitializedFrom` the seed, and the banded sets are kept. |
| Subtractors.VibeBgs.InitializeParallel | api/src/VibeBGS.cpp:24-32 | There is one sample set per band of `Split(img, T)`, each initialised from its band in order, in newly allocated buffers that are pairwise different within a band and shared by no two bands; the single-frame sample set is untouched. |
| Subtractors.VibeBgs.Apply | api/src/VibeBGS.cpp:57-59 | The samples, the mask and the cursor equal `Run` of the squared-L2 / bitmask rule. |
| Subtractors.VibeBgs.ApplyParallel | api/src/VibeBGS.cpp:67-78 | The body is empty: the mask, every sample set and the cursor are unchanged. |

## Left out

- `getBackgroundImage` (BackgroundSubtractorViBe.cpp:36-51) and `L2dist` (vibeUtils.hpp:125-133) are not modelled, because they compute in floating point.
- `Pcg32::fast()` is not modelled: its generator state and algorithm are outside the core. The draws are a parameter, so every contract holds for every draw sequence.
- Parallel execution is not modelled. `applyParallel` runs its bands under `std::execution::par`, and all bands share one `Pcg32` generator. The model runs the bands one after the other in band order, so the interleaving of draws between threads and any race on the generator are not captured.
- OpenCV `cv::Mat`, `cv::Rect`, `cv::Size` and `copyTo` are reduced to flat row-major byte buffers with sizes. Sub-matrix views that share storage with the frame are modelled as copies of the band's rows.
- `joinImages` (BackgroundSubtractorViBe.cpp:138-142) is not modelled, because nothing calls it: its only call is commented out.
- The commented-out code in the same file (lines 240-290) and in `vibeUtils.hpp` is not modelled.
- The class declarations in BackgroundSubtractorViBe.hpp declare `apply` with a `learningRate` argument and a different constructor signature. The model follows the definitions in BackgroundSubtractorViBe.cpp, which take the learning rate in the constructor.
- VibeBGSUtils.hpp is not part of this model. It holds `Params`, `Img`, `splitImg`, the pixel-offset `getNeighborPosition_3x3` and `sky360::getSamplePosition_7x7_std2`. The model takes these to match the `BackgroundSubtractorViBe` counterparts: the same band split, the same 3x3 neighbour choice with one draw, and the same 7x7 kernel.
- Subtractors.VibeBgs.constructor: it takes the derived squared radius and the AND mask directly, because the derivation from R and the learning rate lives in `Params`. The defaults of VibeBGS.hpp:12-18 are not modelled for the same reason.
- The `cv::Mat` overloads of `VibeBGS::initialize` and `apply` (VibeBGS.cpp:19-22, 61-65) are not modelled separately. They wrap the frame as an `Img` and call the same code as the `Img` overloads, which are modelled.
- Constructor arguments are not validated in the source. The model states their needs as preconditions instead (`Rule.Valid`): a non-zero learning rate and N, and an AND mask below N. A zero divisor or an out-of-range slot is undefined behaviour in the source.
- Subtractors.ViBe1ch.constructor: `m_voBGImg(nBGSamples)` creates N empty matrices. The model starts with no buffers, since neither holds data before `initialize`.
- Subtractors.ViBe3ch.constructor: `(R*3)*(R*3)` is computed in `size_t` and could wrap for huge R. The model uses the unbounded product.
- WeightedMovingVariance and the demo application are not modelled: they are not part of the ViBe core.
- Subtractors.ViBe1ch.Apply: it requires an initialised object whose stored size matches the frame. The source reads the samples unchecked, which is undefined behaviour otherwise.
- Subtractors.ViBe3ch.ApplyParallel: it requires the banded state of `initializeParallel` (at least one band). The source is a no-op on an empty `m_processSeq`, and that case is not modelled.
- Subtractors.ViBe3ch.InitializeParallel: the source sets `m_bInitialized` without building the whole-frame samples. The model keeps that, so `SerialReady` is not promised after it.
- ViBeParallel.InitializeBands: the contract does not say that the band buffers are newly allocated, only that no two of them alias. Freshness across the nested sequences was not proved.
- ViBeParallel.BandRun: for a band whose samples do not fit it, it yields an empty mask and leaves the samples and the draw cursor as they were. The source has no such case, and every method that reaches the band loop requires `BandsFit`, so this branch only makes the function total.
