/**
 * Reductions over one float image or over the whole stack: the reference
 * choice (findIndex), the hue ghost score (hueMean, hueSquaredMean) and the
 * lightness statistics (maxLightness, averageLightness).
 */
module Stats {
  import opened Hsl
  import opened Pixels

  // ---------------------------------------------------------------- findIndex

  /** `k` is the first position holding the largest value of `data`. */
  predicate IsFirstMax(data: seq<real>, k: int)
  {
    0 <= k < |data| &&
    (forall j :: 0 <= j < |data| ==> data[j] <= data[k]) &&
    (forall j :: 0 <= j < k ==> data[j] < data[k])
  }

  /** At most one position can be the first maximum. */
  lemma FirstMaxUnique(data: seq<real>, k1: int, k2: int)
    requires IsFirstMax(data, k1) && IsFirstMax(data, k2)
    ensures k1 == k2
  {
    assert data[k1] == data[k2];
  }

  /** findIndex: the largest value (std::max_element), then its first position. */
  method FindIndex(data: seq<real>) returns (k: int)
    requires |data| > 0
    ensures IsFirstMax(data, k)
  {
    var max := data[0];
    for i := 1 to |data|
      invariant exists j :: 0 <= j < i && data[j] == max
      invariant forall j :: 0 <= j < i ==> data[j] <= max
    {
      if max < data[i] {
        max := data[i];
      }
    }
    k := 0;
    while data[k] != max
      invariant 0 <= k < |data|
      invariant forall j :: 0 <= j < k ==> data[j] != max
      invariant exists j :: k <= j < |data| && data[j] == max
      decreases |data| - k
    {
      k := k + 1;
    }
  }

  // ------------------------------------------------------------------ hueMean

  /** Left-to-right sum, the order of the accumulator loops. */
  function Sum(s: seq<real>): real
  {
    if s == [] then 0.0 else Sum(s[..|s| - 1]) + s[|s| - 1]
  }

  lemma SumAppend(s: seq<real>, v: real)
    ensures Sum(s + [v]) == Sum(s) + v
  {
    assert (s + [v])[..|s|] == s;
  }

  function Mean(s: seq<real>): real
    requires |s| > 0
  {
    Sum(s) / |s| as real
  }

  /** hueMean: the arithmetic mean of the hues. */
  method HueMean(hues: seq<real>) returns (mean: real)
    requires |hues| > 0
    ensures mean == Mean(hues)
  {
    var h := 0.0;
    for k := 0 to |hues|
      invariant h == Sum(hues[..k])
    {
      assert hues[..k + 1] == hues[..k] + [hues[k]];
      SumAppend(hues[..k], hues[k]);
      h := h + hues[k];
    }
    assert hues[..|hues|] == hues;
    mean := h / |hues| as real;
  }

  /** Every value between `lo` and `hi` puts the sum between `n * lo` and `n * hi`. */
  lemma {:induction false} SumBounds(s: seq<real>, lo: real, hi: real)
    requires forall i :: 0 <= i < |s| ==> lo <= s[i] <= hi
    ensures |s| as real * lo <= Sum(s) <= |s| as real * hi
  {
    if s != [] {
      SumBounds(s[..|s| - 1], lo, hi);
    }
  }

  /** A quotient by a positive count stays below a bound the dividend respects. */
  lemma QuotientAtMost(a: real, n: real, b: real)
    requires n > 0.0 && a <= n * b
    ensures a / n <= b
  {
    QuotientBounds(n * b - a, n);
    assert (n * b - a) / n == b - a / n;
  }

  /** A quotient by a positive count stays above a bound the dividend respects. */
  lemma QuotientAtLeast(a: real, n: real, b: real)
    requires n > 0.0 && n * b <= a
    ensures b <= a / n
  {
    QuotientAtMost(-a, n, -b);
    assert (-a) / n == -(a / n);
  }

  /** The mean lies between the smallest and the largest value; hue means lie in [0, 1]. */
  lemma MeanBounds(s: seq<real>, lo: real, hi: real)
    requires |s| > 0
    requires forall i :: 0 <= i < |s| ==> lo <= s[i] <= hi
    ensures lo <= Mean(s) <= hi
  {
    SumBounds(s, lo, hi);
    QuotientAtMost(Sum(s), |s| as real, hi);
    QuotientAtLeast(Sum(s), |s| as real, lo);
  }

  /** The mean of equal values is that value. */
  lemma MeanOfConstant(s: seq<real>, c: real)
    requires |s| > 0
    requires forall i :: 0 <= i < |s| ==> s[i] == c
    ensures Mean(s) == c
  {
    MeanBounds(s, c, c);
  }

  // ----------------------------------------------------------- hueSquaredMean

  /** A nonempty stack of images of one size. */
  predicate IsStack(st: seq<Image>, w: int, h: int)
  {
    0 <= w && 0 <= h && |st| > 0 && forall i :: 0 <= i < |st| ==> IsImage(st[i], w, h)
  }

  /** The images items 0 .. n-1 of the stack's buffers currently hold. */
  ghost function StackOf(Rs: seq<array2<real>>, Gs: seq<array2<real>>, Bs: seq<array2<real>>,
                         n: int): (st: seq<Image>)
    requires Stack(Rs, Gs, Bs) && 0 <= n <= |Rs|
    reads Rs, Gs, Bs
    ensures |st| == n
    ensures forall i :: 0 <= i < n ==> st[i] == ImageOf(Rs[i], Gs[i], Bs[i])
  {
    if n == 0 then []
    else
      assert SameShape(Rs[0], Gs[0], Bs[0], Rs[n - 1], Gs[n - 1], Bs[n - 1]);
      StackOf(Rs, Gs, Bs, n - 1) + [ImageOf(Rs[n - 1], Gs[n - 1], Bs[n - 1])]
  }

  /** The images the stack's buffers currently hold. */
  ghost function Images(Rs: seq<array2<real>>, Gs: seq<array2<real>>, Bs: seq<array2<real>>): (st: seq<Image>)
    requires Stack(Rs, Gs, Bs)
    reads Rs, Gs, Bs
    ensures IsStack(st, Rs[0].Length0, Rs[0].Length1) && |st| == |Rs|
    ensures forall i :: 0 <= i < |Rs| ==> st[i] == ImageOf(Rs[i], Gs[i], Bs[i])
  {
    var st := StackOf(Rs, Gs, Bs, |Rs|);
    assert forall i :: 0 <= i < |Rs| ==> SameShape(Rs[0], Gs[0], Bs[0], Rs[i], Gs[i], Bs[i]);
    st
  }

  /** A nonempty list of planes of one size. */
  predicate IsCube(c: seq<Plane>, w: int, h: int)
  {
    0 <= w && 0 <= h && |c| > 0 && forall i :: 0 <= i < |c| ==> IsPlane(c[i], w, h)
  }

  /** The hue plane of every image of the stack. */
  function HueCube(st: seq<Image>, w: int, h: int): (c: seq<Plane>)
    requires IsStack(st, w, h)
    ensures IsCube(c, w, h) && |c| == |st|
    ensures forall i :: 0 <= i < |st| ==> c[i] == HuePlane(st[i], w, h)
  {
    seq(|st|, i requires 0 <= i < |st| => HuePlane(st[i], w, h))
  }

  /** The values of planes 0 .. n-1 at (x, y): the `hues` buffer. */
  function HuesAt(c: seq<Plane>, w: int, h: int, n: int, x: int, y: int): (hs: seq<real>)
    requires IsCube(c, w, h) && 0 <= n <= |c| && 0 <= x < w && 0 <= y < h
    ensures |hs| == n
    ensures forall i :: 0 <= i < n ==> hs[i] == c[i][y][x]
  {
    if n == 0 then [] else HuesAt(c, w, h, n - 1, x, y) + [c[n - 1][y][x]]
  }

  /** Sum of the values of planes 0 .. n-1 at (x, y), in the loop's order. */
  function HueSum(c: seq<Plane>, w: int, h: int, n: int, x: int, y: int): real
    requires IsCube(c, w, h) && 0 <= n <= |c| && 0 <= x < w && 0 <= y < h
  {
    if n == 0 then 0.0 else HueSum(c, w, h, n - 1, x, y) + c[n - 1][y][x]
  }

  /** The `hues` buffer sums to the same total. */
  lemma {:induction false} HuesSum(c: seq<Plane>, w: int, h: int, n: int, x: int, y: int)
    requires IsCube(c, w, h) && 0 <= n <= |c| && 0 <= x < w && 0 <= y < h
    ensures Sum(HuesAt(c, w, h, n, x, y)) == HueSum(c, w, h, n, x, y)
  {
    if n > 0 {
      HuesSum(c, w, h, n - 1, x, y);
      SumAppend(HuesAt(c, w, h, n - 1, x, y), c[n - 1][y][x]);
    }
  }

  lemma SquareNonNegative(d: real)
    ensures d * d >= 0.0
  {
    if d < 0.0 {
      assert (-d) * (-d) > 0.0;
    } else if d > 0.0 {
      assert d * d > 0.0;
    }
  }

  function Square(d: real): (r: real)
    ensures r >= 0.0
  {
    SquareNonNegative(d);
    d * d
  }

  /** Squared distance between plane k's value and the mean value at one pixel. */
  function HueDeviation(c: seq<Plane>, w: int, h: int, k: int, x: int, y: int): real
    requires IsCube(c, w, h) && 0 <= k < |c| && 0 <= x < w && 0 <= y < h
  {
    Square(HueSum(c, w, h, |c|, x, y) / |c| as real - c[k][y][x])
  }

  /** Deviations of columns 0 .. x1-1 of row y. */
  function RowDeviationSum(c: seq<Plane>, w: int, h: int, k: int, y: int, x1: int): real
    requires IsCube(c, w, h) && 0 <= k < |c| && 0 <= y < h && 0 <= x1 <= w
  {
    if x1 == 0 then 0.0
    else RowDeviationSum(c, w, h, k, y, x1 - 1) + HueDeviation(c, w, h, k, x1 - 1, y)
  }

  /** Deviations of rows 0 .. y1-1. */
  function DeviationSum(c: seq<Plane>, w: int, h: int, k: int, y1: int): real
    requires IsCube(c, w, h) && 0 <= k < |c| && 0 <= y1 <= h
  {
    if y1 == 0 then 0.0
    else DeviationSum(c, w, h, k, y1 - 1) + RowDeviationSum(c, w, h, k, y1 - 1, w)
  }

  /** How far plane k strays from the mean of the planes, per pixel on average. */
  function GhostScore(c: seq<Plane>, w: int, h: int, k: int): real
    requires IsCube(c, w, h) && 0 <= k < |c|
  {
    Ratio(DeviationSum(c, w, h, k, h), (w * h) as real)
  }

  /** The hue ghost score of every plane of a hue cube: the `HE` array. */
  function ScoresOf(c: seq<Plane>, w: int, h: int): (he: seq<real>)
    requires IsCube(c, w, h)
    ensures |he| == |c| && forall k :: 0 <= k < |c| ==> he[k] == GhostScore(c, w, h, k)
  {
    seq(|c|, k requires 0 <= k < |c| => GhostScore(c, w, h, k))
  }

  /** `c` holds, plane by plane, the hue of every pixel of the stack's buffers. */
  ghost predicate HuesOf(c: seq<Plane>, Rs: seq<array2<real>>, Gs: seq<array2<real>>, Bs: seq<array2<real>>)
    reads Rs, Gs, Bs
  {
    Stack(Rs, Gs, Bs) && |c| == |Rs| && IsCube(c, Rs[0].Length0, Rs[0].Length1) &&
    forall i, y, x :: 0 <= i < |Rs| && 0 <= y < Rs[0].Length1 && 0 <= x < Rs[0].Length0 ==>
      c[i][y][x] == Hue(Rgb(Rs[i][x, y], Gs[i][x, y], Bs[i][x, y]))
  }

  /** The hue cube of the buffers' images is such a cube. */
  lemma CubeHues(Rs: seq<array2<real>>, Gs: seq<array2<real>>, Bs: seq<array2<real>>)
    requires Stack(Rs, Gs, Bs)
    ensures HuesOf(HueCube(Images(Rs, Gs, Bs), Rs[0].Length0, Rs[0].Length1), Rs, Gs, Bs)
  {
    var st := Images(Rs, Gs, Bs);
    var c := HueCube(st, Rs[0].Length0, Rs[0].Length1);
    forall i, y, x | 0 <= i < |Rs| && 0 <= y < Rs[0].Length1 && 0 <= x < Rs[0].Length0
      ensures c[i][y][x] == Hue(Rgb(Rs[i][x, y], Gs[i][x, y], Bs[i][x, y]))
    {
      assert SameShape(Rs[0], Gs[0], Bs[0], Rs[i], Gs[i], Bs[i]);
    }
  }

  /** The buffers determine their hue cube. */
  lemma HuesUnique(c1: seq<Plane>, c2: seq<Plane>, Rs: seq<array2<real>>, Gs: seq<array2<real>>, Bs: seq<array2<real>>)
    requires HuesOf(c1, Rs, Gs, Bs) && HuesOf(c2, Rs, Gs, Bs)
    ensures c1 == c2
  {
    var w, h := Rs[0].Length0, Rs[0].Length1;
    forall i | 0 <= i < |c1|
      ensures c1[i] == c2[i]
    {
      forall y | 0 <= y < h
        ensures c1[i][y] == c2[i][y]
      {
      }
    }
  }

  /** The innermost loop of hueSquaredMean: the hue of every item at pixel (x, y). */
  method StackHues(Rs: seq<array2<real>>, Gs: seq<array2<real>>, Bs: seq<array2<real>>,
                   w: int, h: int, ghost c: seq<Plane>, x: int, y: int) returns (hues: seq<real>)
    requires HuesOf(c, Rs, Gs, Bs) && w == Rs[0].Length0 && h == Rs[0].Length1
    requires 0 <= x < w && 0 <= y < h
    ensures hues == HuesAt(c, w, h, |c|, x, y)
  {
    hues := [];
    for i := 0 to |Rs|
      invariant hues == HuesAt(c, w, h, i, x, y)
    {
      assert SameShape(Rs[0], Gs[0], Bs[0], Rs[i], Gs[i], Bs[i]);
      var hsl := Rgb2Hsl(Rgb(Rs[i][x, y], Gs[i][x, y], Bs[i][x, y]));
      hues := hues + [hsl.h];
    }
  }

  /**
   * The squared distance of item k's hue from the mean of the `hues` buffer
   * is that pixel's deviation.
   */
  lemma HuesDeviation(c: seq<Plane>, w: int, h: int, k: int, x: int, y: int,
                      hues: seq<real>, mean: real, own: real, d2: real)
    requires IsCube(c, w, h) && 0 <= k < |c| && 0 <= x < w && 0 <= y < h
    requires hues == HuesAt(c, w, h, |c|, x, y) && mean == Mean(hues) && own == c[k][y][x]
    requires d2 == Square(mean - own)
    ensures d2 == HueDeviation(c, w, h, k, x, y)
  {
    HuesSum(c, w, h, |c|, x, y);
  }

  /** The body of hueSquaredMean's pixel loop: the squared hue deviation of item k at (x, y). */
  method PixelDeviation(Rs: seq<array2<real>>, Gs: seq<array2<real>>, Bs: seq<array2<real>>,
                        w: int, h: int, ghost c: seq<Plane>, k: int, x: int, y: int) returns (d2: real)
    requires HuesOf(c, Rs, Gs, Bs) && w == Rs[0].Length0 && h == Rs[0].Length1
    requires 0 <= k < |Rs| && 0 <= x < w && 0 <= y < h
    ensures d2 == HueDeviation(c, w, h, k, x, y)
  {
    var hues := StackHues(Rs, Gs, Bs, w, h, c, x, y);
    assert SameShape(Rs[0], Gs[0], Bs[0], Rs[k], Gs[k], Bs[k]);
    var hsl := Rgb2Hsl(Rgb(Rs[k][x, y], Gs[k][x, y], Bs[k][x, y]));
    var own := hsl.h;
    assert own == c[k][y][x];
    var mean := HueMean(hues);
    d2 := Square(mean - own);
    HuesDeviation(c, w, h, k, x, y, hues, mean, own, d2);
  }

  /** The pixel loop of hueSquaredMean over row y: the deviations of that row, summed. */
  method RowDeviation(Rs: seq<array2<real>>, Gs: seq<array2<real>>, Bs: seq<array2<real>>,
                      w: int, h: int, ghost c: seq<Plane>, k: int, y: int) returns (sum: real)
    requires HuesOf(c, Rs, Gs, Bs) && w == Rs[0].Length0 && h == Rs[0].Length1
    requires 0 <= k < |Rs| && 0 <= y < h
    ensures sum == RowDeviationSum(c, w, h, k, y, w)
  {
    sum := 0.0;
    for i := 0 to w
      invariant sum == RowDeviationSum(c, w, h, k, y, i)
    {
      var d2 := PixelDeviation(Rs, Gs, Bs, w, h, c, k, i, y);
      sum := sum + d2;
    }
  }

  /** The row loop of hueSquaredMean: the deviations of every row, summed. */
  method StackDeviation(Rs: seq<array2<real>>, Gs: seq<array2<real>>, Bs: seq<array2<real>>,
                        w: int, h: int, ghost c: seq<Plane>, k: int) returns (hs: real)
    requires HuesOf(c, Rs, Gs, Bs) && w == Rs[0].Length0 && h == Rs[0].Length1
    requires 0 <= k < |Rs|
    ensures hs == DeviationSum(c, w, h, k, h)
  {
    hs := 0.0;
    for j := 0 to h
      invariant hs == DeviationSum(c, w, h, k, j)
    {
      var row := RowDeviation(Rs, Gs, Bs, w, h, c, k, j);
      hs := hs + row;
    }
  }

  /** hueSquaredMean (float overload): the ghost score of item k, `c` being the stack's hue cube. */
  method HueSquaredMean(Rs: seq<array2<real>>, Gs: seq<array2<real>>, Bs: seq<array2<real>>,
                        ghost c: seq<Plane>, k: int) returns (score: real)
    requires HuesOf(c, Rs, Gs, Bs) && 0 <= k < |Rs|
    ensures score == GhostScore(c, Rs[0].Length0, Rs[0].Length1, k)
  {
    var width := Rs[0].Length0;
    var height := Rs[0].Length1;
    var hs := StackDeviation(Rs, Gs, Bs, width, height, c, k);
    score := Ratio(hs, (width * height) as real);
  }

  /** Row sums of squares are never negative. */
  lemma {:induction false} RowDeviationSumNonNegative(c: seq<Plane>, w: int, h: int, k: int, y: int, x1: int)
    requires IsCube(c, w, h) && 0 <= k < |c| && 0 <= y < h && 0 <= x1 <= w
    ensures RowDeviationSum(c, w, h, k, y, x1) >= 0.0
  {
    if x1 > 0 {
      RowDeviationSumNonNegative(c, w, h, k, y, x1 - 1);
    }
  }

  lemma {:induction false} DeviationSumNonNegative(c: seq<Plane>, w: int, h: int, k: int, y1: int)
    requires IsCube(c, w, h) && 0 <= k < |c| && 0 <= y1 <= h
    ensures DeviationSum(c, w, h, k, y1) >= 0.0
  {
    if y1 > 0 {
      DeviationSumNonNegative(c, w, h, k, y1 - 1);
      RowDeviationSumNonNegative(c, w, h, k, y1 - 1, w);
    }
  }

  /** A ghost score is never negative. */
  lemma GhostScoreNonNegative(c: seq<Plane>, w: int, h: int, k: int)
    requires IsCube(c, w, h) && 0 <= k < |c|
    ensures GhostScore(c, w, h, k) >= 0.0
  {
    DeviationSumNonNegative(c, w, h, k, h);
  }

  /** Every image of the stack holds the same pixels. */
  predicate Uniform(st: seq<Image>)
  {
    forall i :: 0 <= i < |st| ==> st[i] == st[0]
  }

  lemma CancelCount(n: real, v: real)
    requires n > 0.0
    ensures (n * v) / n == v
  {
    var q := (n * v) / n;
    assert q * n == n * v;
    assert (q - v) * n == 0.0;
  }

  /** Planes that agree at (x, y) sum to n times plane 0's value there. */
  lemma {:induction false} HueSumOfConstant(c: seq<Plane>, w: int, h: int, n: int, x: int, y: int)
    requires IsCube(c, w, h) && 0 <= n <= |c| && 0 <= x < w && 0 <= y < h
    requires forall i :: 0 <= i < |c| ==> c[i][y][x] == c[0][y][x]
    ensures HueSum(c, w, h, n, x, y) == n as real * c[0][y][x]
  {
    if n > 0 {
      HueSumOfConstant(c, w, h, n - 1, x, y);
      assert (n - 1) as real * c[0][y][x] + c[0][y][x] == n as real * c[0][y][x];
    }
  }

  lemma AgreeingDeviationZero(c: seq<Plane>, w: int, h: int, k: int, x: int, y: int)
    requires IsCube(c, w, h) && 0 <= k < |c| && 0 <= x < w && 0 <= y < h
    requires forall i :: 0 <= i < |c| ==> c[i][y][x] == c[0][y][x]
    ensures HueDeviation(c, w, h, k, x, y) == 0.0
  {
    HueSumOfConstant(c, w, h, |c|, x, y);
    CancelCount(|c| as real, c[0][y][x]);
  }

  lemma {:induction false} RowZero(c: seq<Plane>, w: int, h: int, k: int, y: int, x1: int)
    requires IsCube(c, w, h) && 0 <= k < |c| && 0 <= y < h && 0 <= x1 <= w
    requires forall x :: 0 <= x < x1 ==> HueDeviation(c, w, h, k, x, y) == 0.0
    ensures RowDeviationSum(c, w, h, k, y, x1) == 0.0
  {
    if x1 > 0 {
      RowZero(c, w, h, k, y, x1 - 1);
    }
  }

  lemma {:induction false} AgreeingSumZero(c: seq<Plane>, w: int, h: int, k: int, y1: int)
    requires IsCube(c, w, h) && 0 <= k < |c| && 0 <= y1 <= h
    requires forall i :: 0 <= i < |c| ==> c[i] == c[0]
    ensures DeviationSum(c, w, h, k, y1) == 0.0
  {
    if y1 > 0 {
      var y := y1 - 1;
      AgreeingSumZero(c, w, h, k, y);
      forall x | 0 <= x < w
        ensures HueDeviation(c, w, h, k, x, y) == 0.0
      {
        AgreeingDeviationZero(c, w, h, k, x, y);
      }
      RowZero(c, w, h, k, y, w);
    }
  }

  /** A stack of identical images scores 0 for every item: there is nothing to call a ghost. */
  lemma UniformStackScoresZero(st: seq<Image>, w: int, h: int, k: int)
    requires IsStack(st, w, h) && Uniform(st) && 0 <= k < |st|
    ensures GhostScore(HueCube(st, w, h), w, h, k) == 0.0
  {
    var c := HueCube(st, w, h);
    forall i | 0 <= i < |c|
      ensures c[i] == c[0]
    {
      assert st[i] == st[0];
    }
    AgreeingSumZero(c, w, h, k, h);
  }

  // ------------------------------------------- maxLightness, averageLightness

  /** Running maximum of `start` and values 0 .. x1-1 of a row. */
  function RowMax(row: seq<real>, x1: int, start: real): real
    requires 0 <= x1 <= |row|
  {
    if x1 == 0 then start else RealMax(RowMax(row, x1 - 1, start), row[x1 - 1])
  }

  /** Running maximum of 0 and the values of rows 0 .. y1-1, in row-major order. */
  function PlaneMax(p: Plane, w: int, y1: int): real
    requires IsPlane(p, w, |p|) && 0 <= y1 <= |p|
  {
    if y1 == 0 then 0.0 else RowMax(p[y1 - 1], w, PlaneMax(p, w, y1 - 1))
  }

  function RowSum(row: seq<real>, x1: int): real
    requires 0 <= x1 <= |row|
  {
    if x1 == 0 then 0.0 else RowSum(row, x1 - 1) + row[x1 - 1]
  }

  function PlaneSum(p: Plane, w: int, y1: int): real
    requires IsPlane(p, w, |p|) && 0 <= y1 <= |p|
  {
    if y1 == 0 then 0.0 else PlaneSum(p, w, y1 - 1) + RowSum(p[y1 - 1], w)
  }

  /** Mean value of a w-wide plane. */
  function PlaneMean(p: Plane, w: int): real
    requires IsPlane(p, w, |p|)
  {
    Ratio(PlaneSum(p, w, |p|), (w * |p|) as real)
  }

  /** The lightness plane of the image three channel buffers hold. */
  ghost function LightnessOf(R: array2<real>, G: array2<real>, B: array2<real>): (p: Plane)
    requires Fits(R, G, B)
    reads R, G, B
    ensures LightsOf(p, R, G, B)
  {
    LightnessPlane(ImageOf(R, G, B), R.Length0, R.Length1)
  }

  /** `p` holds the lightness of every pixel of the channel buffers. */
  ghost predicate LightsOf(p: Plane, R: array2<real>, G: array2<real>, B: array2<real>)
    reads R, G, B
  {
    Fits(R, G, B) && IsPlane(p, R.Length0, R.Length1) &&
    forall y, x :: 0 <= y < R.Length1 && 0 <= x < R.Length0 ==> p[y][x] == Lightness(Rgb(R[x, y], G[x, y], B[x, y]))
  }

  /** maxLightness: the largest pixel lightness, and 0 when every pixel is darker. */
  method MaxLightness(R: array2<real>, G: array2<real>, B: array2<real>, ghost p: Plane) returns (maxL: real)
    requires LightsOf(p, R, G, B)
    ensures maxL == PlaneMax(p, R.Length0, R.Length1)
  {
    var width := R.Length0;
    var height := R.Length1;
    maxL := 0.0;
    for y := 0 to height
      invariant maxL == PlaneMax(p, width, y)
    {
      for x := 0 to width
        invariant maxL == RowMax(p[y], x, PlaneMax(p, width, y))
      {
        var hsl := Rgb2Hsl(Rgb(R[x, y], G[x, y], B[x, y]));
        if hsl.l > maxL {
          maxL := hsl.l;
        }
      }
    }
  }

  /** averageLightness (float overload): total lightness over the pixel count. */
  method AverageLightness(R: array2<real>, G: array2<real>, B: array2<real>, ghost p: Plane) returns (avg: real)
    requires LightsOf(p, R, G, B)
    ensures avg == PlaneMean(p, R.Length0)
  {
    var width := R.Length0;
    var height := R.Length1;
    var sum := 0.0;
    for y := 0 to height
      invariant sum == PlaneSum(p, width, y)
    {
      for x := 0 to width
        invariant sum == PlaneSum(p, width, y) + RowSum(p[y], x)
      {
        var hsl := Rgb2Hsl(Rgb(R[x, y], G[x, y], B[x, y]));
        assert hsl.l == p[y][x];
        sum := sum + hsl.l;
      }
    }
    avg := Ratio(sum, (width * height) as real);
  }

  /**
   * The running maximum of a row is at least its start, bounds every value
   * of the row, and is the start or one of those values.
   */
  lemma {:induction false} RowMaxIsMax(row: seq<real>, x1: int, start: real)
    requires 0 <= x1 <= |row|
    ensures start <= RowMax(row, x1, start)
    ensures forall x :: 0 <= x < x1 ==> row[x] <= RowMax(row, x1, start)
    ensures RowMax(row, x1, start) == start || exists x :: 0 <= x < x1 && row[x] == RowMax(row, x1, start)
  {
    if x1 > 0 {
      RowMaxIsMax(row, x1 - 1, start);
    }
  }

  /**
   * maxLightness is at least 0, at least every pixel's lightness, and is
   * either 0 or the lightness of some pixel.
   */
  lemma {:induction false} PlaneMaxIsMax(p: Plane, w: int, y1: int)
    requires IsPlane(p, w, |p|) && 0 <= y1 <= |p|
    ensures 0.0 <= PlaneMax(p, w, y1)
    ensures forall y, x :: 0 <= y < y1 && 0 <= x < w ==> p[y][x] <= PlaneMax(p, w, y1)
    ensures PlaneMax(p, w, y1) == 0.0 ||
            exists y, x :: 0 <= y < y1 && 0 <= x < w && p[y][x] == PlaneMax(p, w, y1)
  {
    if y1 > 0 {
      PlaneMaxIsMax(p, w, y1 - 1);
      RowMaxIsMax(p[y1 - 1], w, PlaneMax(p, w, y1 - 1));
    }
  }

  lemma {:induction false} RowSumAtMost(row: seq<real>, x1: int, hi: real)
    requires 0 <= x1 <= |row|
    requires forall x :: 0 <= x < |row| ==> row[x] <= hi
    ensures RowSum(row, x1) <= x1 as real * hi
  {
    if x1 > 0 {
      RowSumAtMost(row, x1 - 1, hi);
      assert (x1 - 1) as real * hi + hi == x1 as real * hi;
    }
  }

  lemma {:induction false} PlaneSumAtMost(p: Plane, w: int, y1: int, hi: real)
    requires IsPlane(p, w, |p|) && 0 <= y1 <= |p|
    requires forall y, x :: 0 <= y < |p| && 0 <= x < w ==> p[y][x] <= hi
    ensures PlaneSum(p, w, y1) <= y1 as real * (w as real * hi)
  {
    if y1 > 0 {
      var rowHi := w as real * hi;
      PlaneSumAtMost(p, w, y1 - 1, hi);
      RowSumAtMost(p[y1 - 1], w, hi);
      assert (y1 - 1) as real * rowHi + rowHi == y1 as real * rowHi;
    }
  }

  /** The average lightness never exceeds the maximum lightness. */
  lemma MeanAtMostMax(p: Plane, w: int)
    requires IsPlane(p, w, |p|)
    ensures PlaneMean(p, w) <= PlaneMax(p, w, |p|)
  {
    var h := |p|;
    var m := PlaneMax(p, w, h);
    PlaneMaxIsMax(p, w, h);
    PlaneSumAtMost(p, w, h, m);
    var n := (w * h) as real;
    assert n == w as real * h as real;
    if n != 0.0 {
      assert h as real * (w as real * m) == n * m;
      QuotientAtMost(PlaneSum(p, w, h), n, m);
    }
  }

  lemma {:induction false} RowSumOfConstant(row: seq<real>, x1: int, v: real)
    requires 0 <= x1 <= |row|
    requires forall x :: 0 <= x < |row| ==> row[x] == v
    ensures RowSum(row, x1) == x1 as real * v
  {
    if x1 > 0 {
      RowSumOfConstant(row, x1 - 1, v);
      assert (x1 - 1) as real * v + v == x1 as real * v;
    }
  }

  lemma {:induction false} PlaneSumOfConstant(p: Plane, w: int, y1: int, v: real)
    requires IsPlane(p, w, |p|) && 0 <= y1 <= |p|
    requires forall y, x :: 0 <= y < |p| && 0 <= x < w ==> p[y][x] == v
    ensures PlaneSum(p, w, y1) == y1 as real * (w as real * v)
  {
    if y1 > 0 {
      var row := w as real * v;
      PlaneSumOfConstant(p, w, y1 - 1, v);
      RowSumOfConstant(p[y1 - 1], w, v);
      assert (y1 - 1) as real * row + row == y1 as real * row;
    }
  }

  /** A nonempty image whose pixels all have lightness v has average lightness v. */
  lemma PlaneMeanOfConstant(p: Plane, w: int, v: real)
    requires IsPlane(p, w, |p|) && 0 < w && 0 < |p|
    requires forall y, x :: 0 <= y < |p| && 0 <= x < w ==> p[y][x] == v
    ensures PlaneMean(p, w) == v
  {
    var h := |p|;
    PlaneSumOfConstant(p, w, h, v);
    var n := (w * h) as real;
    assert n == w as real * h as real;
    assert h as real * (w as real * v) == n * v;
    CancelCount(n, v);
  }
}
