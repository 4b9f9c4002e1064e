/** Machine types, the random stream and flat image layout shared by every part of the model. */
module Common {

  /** An 8-bit unsigned pixel component (`uchar`). */
  newtype Byte = x: int | 0 <= x < 256

  /** `UCHAR_MAX`, the foreground value of a mask byte. */
  const UcharMax: Byte := 255

  /** A value of `uint32_t`. */
  type Uint32 = x: nat | x < 0x1_0000_0000

  /** The random generator `Pcg32::fast()` as an explicit stream: `draws(k)` is the value of
      the k-th call. Every operation that draws takes a cursor and returns the cursor after
      its last draw, so the order of consumption is part of each contract. */
  type Draws = nat -> Uint32

  datatype Option<T> = None | Some(value: T)

  /** Conversion of a `uint32_t` argument to an `int` parameter (two's complement, 32 bits). */
  function ToInt32(d: Uint32): (i: int)
    ensures -0x8000_0000 <= i < 0x8000_0000
    ensures i == d || i == d - 0x1_0000_0000
    ensures i < 0 <==> d >= 0x8000_0000
  {
    if d < 0x8000_0000 then d else d - 0x1_0000_0000
  }

  /** C++ `%` on `int`: the quotient truncates toward zero, so the remainder takes the sign of
      the dividend (Dafny's own `%` is Euclidean). */
  function CppRem(a: int, b: int): (r: int)
    requires b > 0
    ensures a >= 0 ==> 0 <= r < b
    ensures a < 0 ==> -b < r <= 0
    ensures (if r < 0 then -r else r) == (if a < 0 then -a else a) % b
  {
    if a >= 0 then a % b else -((-a) % b)
  }

  /** `a & b` on non-negative integers, bit by bit from the least significant one. */
  function BitAnd(a: nat, b: nat): (r: nat)
    ensures r <= a && r <= b
  {
    if a == 0 || b == 0 then 0
    else 2 * BitAnd(a / 2, b / 2) + (if a % 2 == 1 && b % 2 == 1 then 1 else 0)
  }

  function Pow2(k: nat): (r: nat)
    ensures r >= 1
  {
    if k == 0 then 1 else 2 * Pow2(k - 1)
  }

  /** Masking with 2^k - 1 keeps the k low bits, i.e. computes the remainder modulo 2^k. */
  lemma {:induction false} BitAndLowMask(a: nat, k: nat)
    ensures BitAnd(a, Pow2(k) - 1) == a % Pow2(k)
  {
    if k == 0 {
      ModUnique(a, 1, a, 0);
    } else if a == 0 {
      ModUnique(0, Pow2(k), 0, 0);
    } else {
      BitAndLowMask(a / 2, k - 1);
      LowMaskStep(a, k);
    }
  }

  /** One bit of `BitAndLowMask`: both sides split off the lowest bit of `a`. */
  lemma LowMaskStep(a: nat, k: nat)
    requires a > 0 && k > 0
    ensures BitAnd(a, Pow2(k) - 1) == 2 * BitAnd(a / 2, Pow2(k - 1) - 1) + a % 2
    ensures a % Pow2(k) == 2 * ((a / 2) % Pow2(k - 1)) + a % 2
  {
    var p := Pow2(k - 1);
    var m := 2 * p - 1;
    assert Pow2(k) - 1 == m;
    assert m / 2 == p - 1 && m % 2 == 1;
    ModDouble(a, p);
  }

  lemma MulMono(d: int, x: int, y: int)
    requires d >= 0 && x <= y
    ensures d * x <= d * y
  {}

  lemma MulNonneg(a: nat, b: nat)
    ensures a * b >= 0
  {}

  /** The start of row `y + 1` of a `w`-wide raster. */
  lemma NextRow(y: int, w: int)
    ensures (y + 1) * w == y * w + w && y * w == w * y
  {}

  /** Row `y` of a `w`-wide, `h`-high raster ends inside it. */
  lemma RowEnd(y: nat, w: nat, h: nat)
    requires y < h
    ensures y * w + w <= w * h
  {
    MulMono(w, y + 1, h);
  }

  lemma ModUnique(a: int, d: int, q: int, r: int)
    requires d > 0 && a == d * q + r && 0 <= r < d
    ensures a % d == r && a / d == q
  {
    var q0, r0 := a / d, a % d;
    assert a == d * q0 + r0;
    if q0 > q {
      MulMono(d, q + 1, q0);
    } else if q0 < q {
      MulMono(d, q0 + 1, q);
    }
  }

  lemma ModDouble(a: nat, p: nat)
    requires p >= 1
    ensures a % (2 * p) == 2 * ((a / 2) % p) + a % 2
  {
    var q := a / 2;
    var u, v := q / p, q % p;
    assert a == 2 * q + a % 2;
    assert q == p * u + v;
    assert a == (2 * p) * u + (2 * v + a % 2);
    ModUnique(a, 2 * p, u, 2 * v + a % 2);
  }

  /** The `ch` bytes of pixel `p` lie inside a buffer of `n` pixels. */
  lemma PixelFits(p: nat, n: nat, ch: nat)
    requires p < n
    ensures ch * p + ch <= n * ch
  {
    MulMono(ch, p + 1, n);
  }

  /** Two different pixels occupy disjoint byte ranges. */
  lemma PixelsDisjoint(p: nat, q: nat, ch: nat)
    requires p < q
    ensures ch * p + ch <= ch * q
  {
    MulMono(ch, p + 1, q);
  }

  /** Raster order: flat offset `p` of a `w`-wide, `h`-high image is pixel (p % w, p / w). */
  lemma RasterCoords(p: nat, w: nat, h: nat)
    requires p < w * h
    ensures w >= 1 && h >= 1
    ensures 0 <= p % w < w && 0 <= p / w < h
    ensures (p / w) * w + p % w == p
  {
    if p / w >= h {
      MulMono(w, h, p / w);
    }
    if p / w < 0 {
      MulMono(w, p / w, -1);
    }
  }

  /** Pixel (x, y) of a `w`-wide, `h`-high image has flat offset `y * w + x` inside it. */
  lemma RasterOffset(x: int, y: int, w: nat, h: nat)
    requires 0 <= x < w && 0 <= y < h
    ensures 0 <= y * w + x < w * h
    ensures (y * w + x) % w == x && (y * w + x) / w == y
  {
    MulMono(w, y + 1, h);
    ModUnique(y * w + x, w, y, x);
  }

  /** A frame: `width` by `height` pixels of `channels` interleaved bytes each, row after row,
      as a `cv::Mat` of type CV_8UC1 or CV_8UC3 lays them out. */
  datatype Img = Img(width: nat, height: nat, channels: nat, data: seq<Byte>) {
    predicate Valid() {
      |data| == width * height * channels
    }
  }

  /** The `ch` bytes of pixel `p` in a flat buffer of `n` pixels. */
  function Pixel(buf: seq<Byte>, n: nat, ch: nat, p: nat): (px: seq<Byte>)
    requires |buf| == n * ch && p < n
    ensures |px| == ch
  {
    PixelFits(p, n, ch);
    buf[ch * p .. ch * p + ch]
  }

  /** Byte `i` of a buffer is byte `i % ch` of pixel `i / ch`. */
  lemma PixelByte(buf: seq<Byte>, n: nat, ch: nat, i: nat)
    requires |buf| == n * ch && i < |buf|
    ensures ch >= 1 && 0 <= i / ch < n && i % ch < ch
    ensures Pixel(buf, n, ch, i / ch)[i % ch] == buf[i]
  {
    assert i < ch * n;
    RasterCoords(i, ch, n);
    var q, c := i / ch, i % ch;
    assert ch * q + c == i by {
      assert q * ch + c == i;
    }
    assert ch * q + ch <= n * ch by {
      PixelFits(q, n, ch);
    }
    assert Pixel(buf, n, ch, q)[c] == buf[ch * q + c];
  }

  /** `buf` with the bytes from `lo` on replaced by `px`. */
  function Splice(buf: seq<Byte>, lo: nat, px: seq<Byte>): (b: seq<Byte>)
    requires lo + |px| <= |buf|
    ensures |b| == |buf|
    ensures forall i :: 0 <= i < |b| ==> b[i] == if lo <= i < lo + |px| then px[i - lo] else buf[i]
  {
    buf[..lo] + px + buf[lo + |px|..]
  }

  /** Buffer `buf` of `n` pixels with pixel `q` overwritten by `px`: pixel `q` reads back as
      `px` and every other pixel keeps its value. */
  function WritePixel(buf: seq<Byte>, n: nat, ch: nat, q: nat, px: seq<Byte>): (b: seq<Byte>)
    requires |buf| == n * ch && q < n && |px| == ch
    ensures |b| == |buf|
    ensures Pixel(b, n, ch, q) == px
    ensures forall q' :: 0 <= q' < n && q' != q ==> Pixel(b, n, ch, q') == Pixel(buf, n, ch, q')
  {
    PixelFits(q, n, ch);
    var b := Splice(buf, ch * q, px);
    forall q' | 0 <= q' < n && q' != q
      ensures Pixel(b, n, ch, q') == Pixel(buf, n, ch, q')
    {
      SpliceKeepsPixel(buf, n, ch, q, px, q');
    }
    b
  }

  lemma SpliceKeepsPixel(buf: seq<Byte>, n: nat, ch: nat, q: nat, px: seq<Byte>, q': nat)
    requires |buf| == n * ch && q < n && |px| == ch && q' < n && q' != q
    requires ch * q + ch <= n * ch
    ensures Pixel(Splice(buf, ch * q, px), n, ch, q') == Pixel(buf, n, ch, q')
  {
    var b := Splice(buf, ch * q, px);
    PixelFits(q', n, ch);
    if q' < q {
      PixelsDisjoint(q', q, ch);
    } else {
      PixelsDisjoint(q, q', ch);
    }
    var lo := ch * q';
    assert forall i :: lo <= i < lo + ch ==> b[i] == buf[i];
    assert b[lo .. lo + ch] == buf[lo .. lo + ch];
  }
}
