/** The horizontal band partition of `BackgroundSubtractorViBe_3ch::splitImages` and
    `initializeParallel`: T bands of full width stacked from row 0, the first T - 1 of height
    H / T and the last one taking the remaining rows. */
module Bands {
  import opened Common

  /** `cv::Rect(x, y, width, height)`. */
  datatype Rect = Rect(x: nat, y: nat, width: nat, height: nat)

  /** First row of band `i`: the running `y` after `i` bands of height H / T. */
  function BandTop(H: nat, T: nat, i: nat): nat
    requires 1 <= T
  {
    i * (H / T)
  }

  /** Height of band `i`: `H / T`, except that the last band gets `H - y`. */
  function BandHeight(H: nat, T: nat, i: nat): nat
    requires 1 <= T && i < T
  {
    LastBandFits(H, T);
    if i == T - 1 then H - BandTop(H, T, T - 1) else H / T
  }

  /** The rectangle of band `i` of a `W` by `H` frame split into `T` bands. */
  function BandRect(W: nat, H: nat, T: nat, i: nat): (rc: Rect)
    requires 1 <= T && i < T
    ensures rc.x == 0 && rc.width == W && rc.y + rc.height <= H
  {
    BandEnds(H, T, i);
    Rect(0, BandTop(H, T, i), W, BandHeight(H, T, i))
  }

  /** The first T - 1 bands end no lower than row H. */
  lemma LastBandFits(H: nat, T: nat)
    requires 1 <= T
    ensures BandTop(H, T, T - 1) <= H
  {
    var q := H / T;
    MulMono(q, T - 1, T);
    assert (T - 1) * q <= T * q <= H;
  }

  /** Band `i` ends where band `i + 1` starts, and the last band ends at row H. */
  lemma BandEnds(H: nat, T: nat, i: nat)
    requires 1 <= T && i < T
    ensures i < T - 1 ==> BandTop(H, T, i) + BandHeight(H, T, i) == BandTop(H, T, i + 1)
    ensures i == T - 1 ==> BandTop(H, T, i) + BandHeight(H, T, i) == H
    ensures BandTop(H, T, i) + BandHeight(H, T, i) <= H
  {
    LastBandFits(H, T);
    var q := H / T;
    NextRow(i, q);
    if i < T - 1 {
      MulMono(q, i + 1, T - 1);
    }
  }

  /** Band tops do not decrease with the band number. */
  lemma BandTopMonotone(H: nat, T: nat, i: nat, j: nat)
    requires 1 <= T && i <= j
    ensures BandTop(H, T, i) <= BandTop(H, T, j)
  {
    MulMono(H / T, i, j);
  }

  /** Sum of the heights of bands 0 .. k-1. */
  function HeightSum(H: nat, T: nat, k: nat): nat
    requires 1 <= T && k <= T
  {
    if k == 0 then 0 else HeightSum(H, T, k - 1) + BandHeight(H, T, k - 1)
  }

  /** The first k bands cover rows 0 .. BandTop(k) - 1 back to back, so all T of them cover
      exactly the H rows. */
  lemma {:induction false} HeightSumIsTop(H: nat, T: nat, k: nat)
    requires 1 <= T && k <= T
    ensures k < T ==> HeightSum(H, T, k) == BandTop(H, T, k)
    ensures k == T ==> HeightSum(H, T, k) == H
  {
    if k > 0 {
      HeightSumIsTop(H, T, k - 1);
      BandEnds(H, T, k - 1);
    }
  }

  /** With at least one row per band every band is at least one row high. */
  lemma BandsNonEmpty(H: nat, T: nat, i: nat)
    requires 1 <= T <= H && i < T
    ensures BandHeight(H, T, i) >= 1
  {
    var q := H / T;
    assert H == T * q + H % T;
    if i == T - 1 {
      BandEnds(H, T, i);
      assert BandTop(H, T, i) + q == T * q by {
        NextRow(T - 1, q);
      }
    }
  }

  /** Every row lies in exactly one band; `i` is that band. */
  lemma BandOf(H: nat, T: nat, row: nat) returns (i: nat)
    requires 1 <= T && row < H
    ensures i < T && BandTop(H, T, i) <= row < BandTop(H, T, i) + BandHeight(H, T, i)
    ensures forall j :: 0 <= j < T && BandTop(H, T, j) <= row < BandTop(H, T, j) + BandHeight(H, T, j) ==> j == i
  {
    var q := H / T;
    if q == 0 || row / q >= T - 1 {
      i := T - 1;
      LastBandHolds(H, T, row);
    } else {
      i := row / q;
      InnerBandHolds(H, T, row);
    }
    forall j | 0 <= j < T && BandTop(H, T, j) <= row < BandTop(H, T, j) + BandHeight(H, T, j)
      ensures j == i
    {
      BandsDisjoint(H, T, row, i, j);
    }
  }

  /** A row at or below the start of the last band lies in the last band. */
  lemma LastBandHolds(H: nat, T: nat, row: nat)
    requires 1 <= T && row < H && (H / T == 0 || row / (H / T) >= T - 1)
    ensures BandTop(H, T, T - 1) <= row < BandTop(H, T, T - 1) + BandHeight(H, T, T - 1)
  {
    var q := H / T;
    BandEnds(H, T, T - 1);
    if q != 0 {
      MulMono(q, T - 1, row / q);
      assert q * (row / q) <= row;
    }
  }

  /** A row above the last band lies in band `row / (H / T)`. */
  lemma InnerBandHolds(H: nat, T: nat, row: nat)
    requires 1 <= T && row < H && H / T != 0 && row / (H / T) < T - 1
    ensures var i := row / (H / T); BandTop(H, T, i) <= row < BandTop(H, T, i) + BandHeight(H, T, i)
  {
    var q := H / T;
    var i := row / q;
    assert row == q * i + row % q;
    NextRow(i, q);
  }

  /** No row lies in two bands. */
  lemma BandsDisjoint(H: nat, T: nat, row: nat, i: nat, j: nat)
    requires 1 <= T && i < T && j < T
    requires BandTop(H, T, i) <= row < BandTop(H, T, i) + BandHeight(H, T, i)
    requires BandTop(H, T, j) <= row < BandTop(H, T, j) + BandHeight(H, T, j)
    ensures i == j
  {
    BandEnds(H, T, i);
    BandEnds(H, T, j);
    if j < i {
      BandTopMonotone(H, T, j + 1, i);
    } else if i < j {
      BandTopMonotone(H, T, i + 1, j);
    }
  }

  // ---------------------------------------------------------------------------------------
  // Band images
  // ---------------------------------------------------------------------------------------

  /** `inputImg(cv::Rect(0, y, W, h))` for a full-width rectangle: rows y .. y+h-1 of the
      frame, as a frame of its own. */
  function SubImage(img: Img, rc: Rect): (band: Img)
    requires img.Valid() && rc.x == 0 && rc.width == img.width && rc.y + rc.height <= img.height
    ensures band.Valid() && band.width == img.width && band.height == rc.height
    ensures band.channels == img.channels && |band.data| == img.width * rc.height * img.channels
  {
    RowsFit(img.width * img.channels, rc.y, rc.height, img.height);
    Img(img.width, rc.height, img.channels,
        img.data[rc.y * (img.width * img.channels) .. (rc.y + rc.height) * (img.width * img.channels)])
  }

  /** Rows y .. y+h-1 of a frame of H rows of `stride` bytes lie inside it. */
  lemma RowsFit(stride: nat, y: nat, h: nat, H: nat)
    requires y + h <= H
    ensures y * stride <= (y + h) * stride <= H * stride
    ensures (y + h) * stride - y * stride == h * stride
  {
    MulMono(stride, y, y + h);
    MulMono(stride, y + h, H);
  }

  /** Pixel `q` of a band image is pixel `p` = `y * W + q` of the frame. */
  lemma SubImagePixel(img: Img, rc: Rect, q: nat) returns (p: nat)
    requires img.Valid() && rc.x == 0 && rc.width == img.width && rc.y + rc.height <= img.height
    requires q < img.width * rc.height
    ensures p == rc.y * img.width + q && p < img.width * img.height
    ensures Pixel(SubImage(img, rc).data, img.width * rc.height, img.channels, q)
         == Pixel(img.data, img.width * img.height, img.channels, p)
  {
    var w, ch := img.width, img.channels;
    var y, h, stride := rc.y, rc.height, w * ch;
    MulNonneg(y, w);
    MulNonneg(y, stride);
    MulNonneg(y + h, stride);
    MulNonneg(ch, q);
    p := y * w + q;
    BandOffset(w, ch, y, h, img.height, q);
    PixelFits(q, w * h, ch);
    PixelFits(p, w * img.height, ch);
    RowsFit(stride, y, h, img.height);
    SliceOfSlice(img.data, y * stride, (y + h) * stride, ch * q, ch);
  }

  lemma SliceOfSlice(d: seq<Byte>, lo: nat, hi: nat, a: nat, len: nat)
    requires lo <= hi <= |d| && a + len <= hi - lo
    ensures d[lo..hi][a..a + len] == d[lo + a..lo + a + len]
  {
    var s, t := d[lo..hi][a..a + len], d[lo + a..lo + a + len];
    assert forall i :: 0 <= i < len ==> s[i] == t[i];
  }

  /** Byte and pixel arithmetic of `SubImagePixel`. */
  lemma BandOffset(w: nat, ch: nat, y: nat, h: nat, H: nat, q: nat)
    requires y + h <= H && q < w * h
    ensures y * w + q < w * H
    ensures ch * (y * w + q) == y * (w * ch) + ch * q
  {
    MulMono(w, y + h, H);
    assert y * w + w * h == w * (y + h);
  }

  /** `splitImages`: the running `y` and `h` give band `i` the rectangle `BandRect`. */
  method SplitImages(img: Img, T: nat) returns (bands: seq<Img>)
    requires img.Valid() && 1 <= T
    ensures |bands| == T
    ensures forall i :: 0 <= i < T ==> bands[i] == SubImage(img, BandRect(img.width, img.height, T, i))
  {
    var H := img.height;
    bands := [];
    var y := 0;
    var h := H / T;
    var i := 0;
    while i < T
      invariant i <= T && |bands| == i
      invariant i < T ==> y == BandTop(H, T, i) && h == H / T
      invariant forall j :: 0 <= j < i ==> bands[j] == SubImage(img, BandRect(img.width, H, T, j))
    {
      BandEnds(H, T, i);
      if i == T - 1 {
        h := H - y;
      }
      bands := bands + [SubImage(img, Rect(0, y, img.width, h))];
      y := y + h;
      i := i + 1;
    }
  }
}
