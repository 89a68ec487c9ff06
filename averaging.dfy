/**
 * The representative colour of a cell: the per-channel mean over a
 * rectangular block of the page image, truncated to an integer.
 */
module Averaging {
  import opened Palette

  /** The page image as numpy holds it: rows of RGB pixels, indexed
      img[y][x]. */
  type Image = seq<seq<Rgb>>

  datatype Channel = Red | Green | Blue

  function Chan(c: Rgb, k: Channel): int
  {
    match k
    case Red => c.r
    case Green => c.g
    case Blue => c.b
  }

  /** The block with top-left corner (left, top), `w` pixels wide and `h`
      pixels high, lies inside the image. */
  predicate Contains(img: Image, left: nat, top: nat, w: nat, h: nat)
  {
    top + h <= |img| && forall y :: top <= y < top + h ==> left + w <= |img[y]|
  }

  /** Sum of channel `k` over row[left..left+w]; never negative for
      non-negative pixels. */
  function RowSum(row: seq<Rgb>, left: nat, w: nat, k: Channel): (s: int)
    requires left + w <= |row|
    ensures (forall x :: left <= x < left + w ==> 0 <= Chan(row[x], k)) ==> 0 <= s
  {
    if w == 0 then 0 else RowSum(row, left, w - 1, k) + Chan(row[left + w - 1], k)
  }

  /** Sum of channel `k` over the block; never negative for non-negative
      pixels, so its floored quotient is also Python's truncated one. */
  function RegionSum(img: Image, left: nat, top: nat, w: nat, h: nat, k: Channel): (s: int)
    requires Contains(img, left, top, w, h)
    ensures NonNegative(img, left, top, w, h, k) ==> 0 <= s
  {
    if h == 0 then 0
    else RegionSum(img, left, top, w, h - 1, k) + RowSum(img[top + h - 1], left, w, k)
  }

  /** Every pixel of the block has a non-negative channel `k`. */
  predicate NonNegative(img: Image, left: nat, top: nat, w: nat, h: nat, k: Channel)
    requires Contains(img, left, top, w, h)
  {
    forall y, x :: top <= y < top + h && left <= x < left + w ==> 0 <= Chan(img[y][x], k)
  }

  /** Every pixel of the block has channel `k` within lo..hi. */
  predicate ChannelWithin(img: Image, left: nat, top: nat, w: nat, h: nat, k: Channel, lo: int, hi: int)
    requires Contains(img, left, top, w, h)
  {
    forall y, x :: top <= y < top + h && left <= x < left + w ==> lo <= Chan(img[y][x], k) <= hi
  }

  /** average_color_of_region: for a non-empty block inside the image, each
      channel of the result is the mean rounded down, i.e. the largest
      integer whose product with the pixel count does not exceed the sum. */
  function AverageColorOfRegion(img: Image, left: nat, top: nat, w: nat, h: nat): (avg: Rgb)
    requires 1 <= w && 1 <= h && Contains(img, left, top, w, h)
    ensures forall k :: Chan(avg, k) * (w * h) <= RegionSum(img, left, top, w, h, k)
                                                < (Chan(avg, k) + 1) * (w * h)
  {
    var n := w * h;
    var avg := Rgb(RegionSum(img, left, top, w, h, Red) / n,
                   RegionSum(img, left, top, w, h, Green) / n,
                   RegionSum(img, left, top, w, h, Blue) / n);
    forall k ensures Chan(avg, k) * n <= RegionSum(img, left, top, w, h, k) < (Chan(avg, k) + 1) * n {
      FloorDiv(RegionSum(img, left, top, w, h, k), n);
    }
    avg
  }

  lemma FloorDiv(s: int, n: int)
    requires n >= 1
    ensures (s / n) * n <= s < (s / n + 1) * n
  {
    assert s == (s / n) * n + s % n;
  }

  /** A row sum lies between w*lo and w*hi when every term does. */
  lemma {:induction false} RowSumWithin(row: seq<Rgb>, left: nat, w: nat, k: Channel, lo: int, hi: int)
    requires left + w <= |row|
    requires forall x :: left <= x < left + w ==> lo <= Chan(row[x], k) <= hi
    ensures w * lo <= RowSum(row, left, w, k) <= w * hi
  {
    if w > 0 {
      RowSumWithin(row, left, w - 1, k, lo, hi);
      assert w * lo == (w - 1) * lo + lo;
      assert w * hi == (w - 1) * hi + hi;
    }
  }

  /** A block sum lies between count*lo and count*hi when every pixel does. */
  lemma {:induction false} RegionSumWithin(img: Image, left: nat, top: nat, w: nat, h: nat, k: Channel, lo: int, hi: int)
    requires Contains(img, left, top, w, h)
    requires ChannelWithin(img, left, top, w, h, k, lo, hi)
    ensures (w * h) * lo <= RegionSum(img, left, top, w, h, k) <= (w * h) * hi
  {
    if h > 0 {
      var y := top + h - 1;
      assert ChannelWithin(img, left, top, w, h - 1, k, lo, hi);
      RegionSumWithin(img, left, top, w, h - 1, k, lo, hi);
      assert forall x :: left <= x < left + w ==> lo <= Chan(img[y][x], k) <= hi;
      RowSumWithin(img[y], left, w, k, lo, hi);
      var s1, s2 := RegionSum(img, left, top, w, h - 1, k), RowSum(img[y], left, w, k);
      assert RegionSum(img, left, top, w, h, k) == s1 + s2;
      SumOfBounds(w, h, lo, hi, s1, s2);
    }
  }

  /** Bounds of the first h-1 rows plus bounds of row h give bounds of h rows. */
  lemma SumOfBounds(w: nat, h: nat, lo: int, hi: int, s1: int, s2: int)
    requires h >= 1
    requires (w * (h - 1)) * lo <= s1 <= (w * (h - 1)) * hi
    requires w * lo <= s2 <= w * hi
    ensures (w * h) * lo <= s1 + s2 <= (w * h) * hi
  {
    assert w * h == w * (h - 1) + w;
    Distrib(w * (h - 1), w, lo);
    Distrib(w * (h - 1), w, hi);
  }

  /** The truncated mean of a channel lies between any bounds of that
      channel over the block, in particular between its minimum and its
      maximum. */
  lemma AverageWithin(img: Image, left: nat, top: nat, w: nat, h: nat, k: Channel, lo: int, hi: int)
    requires 1 <= w && 1 <= h && Contains(img, left, top, w, h)
    requires ChannelWithin(img, left, top, w, h, k, lo, hi)
    ensures lo <= Chan(AverageColorOfRegion(img, left, top, w, h), k) <= hi
  {
    RegionSumWithin(img, left, top, w, h, k, lo, hi);
    FloorWithin(RegionSum(img, left, top, w, h, k), w * h,
                Chan(AverageColorOfRegion(img, left, top, w, h), k), lo, hi);
  }

  /** A floored quotient lies within any bounds of the exact one. */
  lemma FloorWithin(s: int, n: int, a: int, lo: int, hi: int)
    requires n >= 1
    requires a * n <= s < (a + 1) * n
    requires n * lo <= s <= n * hi
    ensures lo <= a <= hi
  {
    if a < lo {
      MulLe(a + 1, lo, n);
    }
    if a > hi {
      MulLe(hi + 1, a, n);
    }
  }

  lemma Distrib(a: int, b: int, c: int)
    ensures (a + b) * c == a * c + b * c
  {
  }

  lemma MulLe(a: int, b: int, n: nat)
    requires a <= b
    ensures a * n <= b * n
  {
    assert b * n == a * n + (b - a) * n;
  }

  /** An image whose pixels are all 8-bit has 8-bit block averages. */
  lemma AverageIs8Bit(img: Image, left: nat, top: nat, w: nat, h: nat)
    requires 1 <= w && 1 <= h && Contains(img, left, top, w, h)
    requires forall y, x :: top <= y < top + h && left <= x < left + w ==> Is8Bit(img[y][x])
    ensures Is8Bit(AverageColorOfRegion(img, left, top, w, h))
  {
    AverageWithin(img, left, top, w, h, Red, 0, 255);
    AverageWithin(img, left, top, w, h, Green, 0, 255);
    AverageWithin(img, left, top, w, h, Blue, 0, 255);
  }

  /** A block of one colour averages to exactly that colour. */
  lemma AverageOfUniform(img: Image, left: nat, top: nat, w: nat, h: nat, c: Rgb)
    requires 1 <= w && 1 <= h && Contains(img, left, top, w, h)
    requires forall y, x :: top <= y < top + h && left <= x < left + w ==> img[y][x] == c
    ensures AverageColorOfRegion(img, left, top, w, h) == c
  {
    AverageWithin(img, left, top, w, h, Red, c.r, c.r);
    AverageWithin(img, left, top, w, h, Green, c.g, c.g);
    AverageWithin(img, left, top, w, h, Blue, c.b, c.b);
  }
}
