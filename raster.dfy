/**
 * RGB rasters as the image library holds them, the conversion of the
 * encoder's byte buffer into one, and the NEAREST resampling that enlarges it.
 */
module Raster {

  newtype byte = x: int | 0 <= x < 256

  datatype Rgb = Rgb(red: byte, green: byte, blue: byte)

  /** An image of `width` by `height` pixels, as its rows from top to bottom. */
  datatype Image = Image(width: nat, height: nat, rows: seq<seq<Rgb>>)

  predicate Valid(img: Image) {
    |img.rows| == img.height && forall y :: 0 <= y < img.height ==> |img.rows[y]| == img.width
  }

  /** The pixel in column `x` of row `y`. */
  function At(img: Image, x: nat, y: nat): Rgb
    requires Valid(img) && x < img.width && y < img.height
  {
    img.rows[y][x]
  }

  /** If `a == d * q + m` with `0 <= m < d`, then `q` is the quotient. */
  lemma DivUnique(a: int, d: int, q: int, m: int)
    requires d > 0 && 0 <= m < d && a == d * q + m
    ensures a / d == q && a % d == m
  {
    var q', m' := a / d, a % d;
    if q' > q {
      assert d * q' >= d * (q + 1) by { MulMono(d, q + 1, q'); }
    } else if q' < q {
      assert d * q >= d * (q' + 1) by { MulMono(d, q' + 1, q); }
    }
  }

  lemma MulMono(d: int, a: int, b: int)
    requires d >= 0 && a <= b
    ensures d * a <= d * b
  {
    assert d * b - d * a == d * (b - a);
  }

  /** In a buffer of `h` rows of `w` pixels, pixel `(x, y)` starts at byte `3 * (y * w + x)`. */
  lemma Offset(x: nat, y: nat, w: nat, h: nat)
    requires x < w && y < h
    ensures 3 * (y * w + x) + 2 < 3 * (w * h)
  {
    MulMono(w, y + 1, h);
  }

  /** Two images of the same size are equal when they agree at every pixel. */
  lemma SamePixels(a: Image, b: Image)
    requires Valid(a) && Valid(b) && a.width == b.width && a.height == b.height
    requires forall x: nat, y: nat :: x < a.width && y < a.height ==> At(a, x, y) == At(b, x, y)
    ensures a == b
  {
    forall y | 0 <= y < a.height ensures a.rows[y] == b.rows[y] {
      assert forall x: nat :: x < a.width ==> a.rows[y][x] == At(a, x, y);
    }
  }

  /**
   * `Image.frombytes('RGB', (w, h), data)`: three bytes per pixel, red, green,
   * blue, row after row.
   */
  function FromBytes(w: nat, h: nat, data: seq<byte>): (img: Image)
    requires |data| == 3 * (w * h)
    ensures Valid(img) && img.width == w && img.height == h
  {
    Image(w, h, seq(h, y requires 0 <= y < h => seq(w, x requires 0 <= x < w =>
      Offset(x, y, w, h);
      Rgb(data[3 * (y * w + x)], data[3 * (y * w + x) + 1], data[3 * (y * w + x) + 2]))))
  }

  /** Pixel `(x, y)` of the raster is the byte triple at offset `3 * (y * w + x)`. */
  lemma FromBytesAt(w: nat, h: nat, data: seq<byte>, x: nat, y: nat)
    requires |data| == 3 * (w * h) && x < w && y < h
    ensures 3 * (y * w + x) + 2 < |data|
    ensures At(FromBytes(w, h, data), x, y)
         == Rgb(data[3 * (y * w + x)], data[3 * (y * w + x) + 1], data[3 * (y * w + x) + 2])
  {
    Offset(x, y, w, h);
  }

  /**
   * The source column (or row) that NEAREST resampling reads for output column
   * `x` when `from` columns are stretched to `to`: the one under the centre
   * of `x`, that is the floor of `(x + 1/2) * from / to`.
   */
  function Nearest(x: nat, to: nat, from: nat): (s: nat)
    requires x < to && from > 0
    ensures s < from
  {
    NearestBound(x, to, from);
    ((2 * x + 1) * from) / (2 * to)
  }

  lemma NearestBound(x: nat, to: nat, from: nat)
    requires x < to && from > 0
    ensures 0 <= ((2 * x + 1) * from) / (2 * to) < from
  {
    var a, d := (2 * x + 1) * from, 2 * to;
    MulMono(from, 2 * x + 1, d - 1);
    assert a < d * from;
    var s := a / d;
    assert d * s + a % d == a;
    if s >= from {
      MulMono(d, from, s);
    }
  }

  /** `img.resize((w, h), Image.Resampling.NEAREST)` */
  function Resize(img: Image, w: nat, h: nat): (r: Image)
    requires Valid(img) && img.width > 0 && img.height > 0
    ensures Valid(r) && r.width == w && r.height == h
  {
    Image(w, h, seq(h, y requires 0 <= y < h => seq(w, x requires 0 <= x < w =>
      At(img, Nearest(x, w, img.width), Nearest(y, h, img.height)))))
  }

  /** Each output pixel of a resize is the source pixel under its centre. */
  lemma ResizeAt(img: Image, w: nat, h: nat, x: nat, y: nat)
    requires Valid(img) && img.width > 0 && img.height > 0
    requires x < w && y < h
    ensures At(Resize(img, w, h), x, y) == At(img, Nearest(x, w, img.width), Nearest(y, h, img.height))
  {
  }

  /** Enlarging by a whole factor `k`, output column `x` reads source column `x / k`. */
  lemma NearestByFactor(x: nat, k: nat, n: nat)
    requires k > 0 && n > 0 && x < k * n
    ensures Nearest(x, k * n, n) == x / k
  {
    var q, m := x / k, x % k;
    var d, r := 2 * (k * n), (2 * m + 1) * n;
    assert 2 * x + 1 == 2 * k * q + (2 * m + 1);
    assert (2 * x + 1) * n == d * q + r by {
      MulAddRight(2 * k * q, 2 * m + 1, n);
      MulSwap(k, q, n);
    }
    assert r < d by {
      MulMono(n, 2 * m + 1, 2 * k - 1);
      MulAddRight(2 * k, -1, n);
    }
    DivUnique((2 * x + 1) * n, d, q, r);
  }

  lemma MulAddRight(a: int, b: int, c: int)
    ensures (a + b) * c == a * c + b * c
  {
  }

  lemma MulSwap(k: int, q: int, n: int)
    ensures (2 * k * q) * n == 2 * (k * n) * q
  {
  }

  /** Shrinking by a whole factor `k`, output column `x` reads source column `x * k + k / 2`. */
  lemma NearestShrink(x: nat, k: nat, n: nat)
    requires k > 0 && x < n
    ensures Nearest(x, n, k * n) == x * k + k / 2
  {
    assert (2 * x + 1) * (k * n) == (2 * n) * (x * k + k / 2) + n * (k % 2);
    MulMono(n, k % 2, 1);
    DivUnique((2 * x + 1) * (k * n), 2 * n, x * k + k / 2, n * (k % 2));
  }

  /**
   * Enlarging an image `k` times in each direction with NEAREST replicates
   * every pixel into a `k`-by-`k` block: pixel `(x, y)` of the result is pixel
   * `(x / k, y / k)` of the source.
   */
  lemma ResizeByFactor(img: Image, k: nat, x: nat, y: nat)
    requires Valid(img) && img.width > 0 && img.height > 0 && k > 0
    requires x < k * img.width && y < k * img.height
    ensures 0 <= x / k < img.width && 0 <= y / k < img.height
      && At(Resize(img, k * img.width, k * img.height), x, y) == At(img, x / k, y / k)
  {
    var w, h := img.width, img.height;
    assert x / k < w && Nearest(x, k * w, w) == x / k by { NearestByFactor(x, k, w); }
    assert y / k < h && Nearest(y, k * h, h) == y / k by { NearestByFactor(y, k, h); }
    ResizeAt(img, k * w, k * h, x, y);
  }

  /**
   * Shrinking a `k`-fold enlargement back to the original size with NEAREST
   * restores the original image exactly.
   */
  lemma ResizeBack(img: Image, k: nat)
    requires Valid(img) && img.width > 0 && img.height > 0 && k > 0
    ensures k * img.width > 0 && k * img.height > 0
    ensures Resize(Resize(img, k * img.width, k * img.height), img.width, img.height) == img
  {
    var w, h := img.width, img.height;
    MulMono(k, 1, w);
    MulMono(k, 1, h);
    var big := Resize(img, k * w, k * h);
    var back := Resize(big, w, h);
    forall x: nat, y: nat | x < w && y < h ensures At(back, x, y) == At(img, x, y) {
      ResizeAt(big, w, h, x, y);
      NearestShrink(x, k, w);
      NearestShrink(y, k, h);
      var sx, sy := x * k + k / 2, y * k + k / 2;
      DivUnique(sx, k, x, k / 2);
      DivUnique(sy, k, y, k / 2);
      MulMono(k, x + 1, w);
      MulMono(k, y + 1, h);
      ResizeByFactor(img, k, sx, sy);
    }
    SamePixels(back, img);
  }
}
