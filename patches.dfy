/**
 * Patch-grid ghost detection and correction of the float stack
 * (comparePatches, copyPatch, copyPatches in HdrWizard/HdrCreationManager.cpp).
 *
 * The image is cut into cells of gridX x gridY pixels; cell (i, j) covers
 * columns i*gridX .. (i+1)*gridX - 1 and rows j*gridY .. (j+1)*gridY - 1.
 * `logf` is the parameter `ln`.
 */
module Patches {
  import opened Hsl
  import opened Pixels

  /**
   * The exposure offset `deltaEV` handed to comparePatches: a number, or NaN
   * (the logarithm of a missing exposure time), which fails every comparison.
   */
  datatype Delta = Finite(value: real) | NaN

  function Abs(x: real): (a: real)
    ensures 0.0 <= a && (a == x || a == -x)
  {
    if x < 0.0 then -x else x
  }

  /** The log-ratio of one channel, offset by the exposure difference, in the order comparePatches takes. */
  function LogOffset(a: real, b: real, d: real, ln: real -> real): real
  {
    if d < 0.0 then ln(a) - ln(b) - d else ln(b) - ln(a) + d
  }

  /**
   * A pixel strays when one of its channels' offset log-ratios exceeds
   * 0.7 times the exposure difference in magnitude.
   */
  predicate Strays(p1: Rgb, p2: Rgb, dEv: Delta, ln: real -> real)
  {
    match dEv
    case NaN => false
    case Finite(d) =>
      var t := 0.7 * Abs(d);
      Abs(LogOffset(p1.r, p2.r, d, ln)) > t ||
      Abs(LogOffset(p1.g, p2.g, d, ln)) > t ||
      Abs(LogOffset(p1.b, p2.b, d, ln)) > t
  }

  /** (x, y) is a pixel of all three channel buffers. */
  predicate Holds(R: array2<real>, G: array2<real>, B: array2<real>, x: int, y: int)
  {
    0 <= x && 0 <= y && x < R.Length0 && y < R.Length1 &&
    x < G.Length0 && y < G.Length1 && x < B.Length0 && y < B.Length1
  }

  /** The pixel at column x, row y of three channel buffers. */
  function PixelAt(R: array2<real>, G: array2<real>, B: array2<real>, x: int, y: int): Rgb
    requires Holds(R, G, B, x, y)
    reads R, G, B
  {
    Rgb(R[x, y], G[x, y], B[x, y])
  }

  /** Pixel (x, y) of item 2 strays from item 1's. */
  predicate StraysAt(R1: array2<real>, G1: array2<real>, B1: array2<real>,
                     R2: array2<real>, G2: array2<real>, B2: array2<real>,
                     dEv: Delta, ln: real -> real, x: int, y: int)
    reads R1, G1, B1, R2, G2, B2
  {
    Holds(R1, G1, B1, x, y) && Holds(R2, G2, B2, x, y) &&
    Strays(PixelAt(R1, G1, B1, x, y), PixelAt(R2, G2, B2, x, y), dEv, ln)
  }

  /** Cell (i, j) of size gx x gy lies inside a w x h image. */
  predicate CellInside(w: int, h: int, i: int, j: int, gx: int, gy: int)
  {
    0 <= i && 0 <= j && 0 < gx && 0 < gy && i * gx + gx <= w && j * gy + gy <= h
  }

  /** Pixel (x, y) lies in cell (i, j). */
  predicate InCell(x: int, y: int, i: int, j: int, gx: int, gy: int)
  {
    i * gx <= x < i * gx + gx && j * gy <= y < j * gy + gy
  }

  /** Stray pixels of row y among columns x0 .. x1-1. */
  function RowStrays(R1: array2<real>, G1: array2<real>, B1: array2<real>,
                     R2: array2<real>, G2: array2<real>, B2: array2<real>,
                     dEv: Delta, ln: real -> real, y: int, x0: int, x1: int): nat
    reads R1, G1, B1, R2, G2, B2
    decreases x1 - x0
  {
    if x1 <= x0 then 0
    else RowStrays(R1, G1, B1, R2, G2, B2, dEv, ln, y, x0, x1 - 1) +
         (if StraysAt(R1, G1, B1, R2, G2, B2, dEv, ln, x1 - 1, y) then 1 else 0)
  }

  /** Stray pixels of rows y0 .. y1-1 among columns x0 .. x1-1. */
  function BoxStrays(R1: array2<real>, G1: array2<real>, B1: array2<real>,
                     R2: array2<real>, G2: array2<real>, B2: array2<real>,
                     dEv: Delta, ln: real -> real, x0: int, x1: int, y0: int, y1: int): nat
    reads R1, G1, B1, R2, G2, B2
    decreases y1 - y0
  {
    if y1 <= y0 then 0
    else BoxStrays(R1, G1, B1, R2, G2, B2, dEv, ln, x0, x1, y0, y1 - 1) +
         RowStrays(R1, G1, B1, R2, G2, B2, dEv, ln, y1 - 1, x0, x1)
  }

  /** Stray pixels of cell (i, j). */
  function CellStrays(R1: array2<real>, G1: array2<real>, B1: array2<real>,
                      R2: array2<real>, G2: array2<real>, B2: array2<real>,
                      dEv: Delta, ln: real -> real, i: int, j: int, gx: int, gy: int): nat
    reads R1, G1, B1, R2, G2, B2
  {
    BoxStrays(R1, G1, B1, R2, G2, B2, dEv, ln, i * gx, i * gx + gx, j * gy, j * gy + gy)
  }

  /** comparePatches' verdict: the share of stray pixels in the cell exceeds the threshold. */
  predicate Ghosted(R1: array2<real>, G1: array2<real>, B1: array2<real>,
                    R2: array2<real>, G2: array2<real>, B2: array2<real>,
                    dEv: Delta, ln: real -> real, i: int, j: int, gx: int, gy: int, threshold: real)
    reads R1, G1, B1, R2, G2, B2
  {
    Ratio(CellStrays(R1, G1, B1, R2, G2, B2, dEv, ln, i, j, gx, gy) as real, (gx * gy) as real) > threshold
  }

  /** comparePatches (float overload): counts the stray pixels of cell (i, j) and compares their share. */
  method ComparePatches(R1: array2<real>, G1: array2<real>, B1: array2<real>,
                        R2: array2<real>, G2: array2<real>, B2: array2<real>,
                        i: int, j: int, gx: int, gy: int, threshold: real, dEv: Delta,
                        ln: real -> real) returns (ghosted: bool)
    requires SameShape(R1, G1, B1, R2, G2, B2) && CellInside(R1.Length0, R1.Length1, i, j, gx, gy)
    ensures ghosted == Ghosted(R1, G1, B1, R2, G2, B2, dEv, ln, i, j, gx, gy, threshold)
  {
    var x0 := i * gx;
    var y0 := j * gy;
    var count := 0;
    for y := y0 to y0 + gy
      invariant count == BoxStrays(R1, G1, B1, R2, G2, B2, dEv, ln, x0, x0 + gx, y0, y)
    {
      for x := x0 to x0 + gx
        invariant count == BoxStrays(R1, G1, B1, R2, G2, B2, dEv, ln, x0, x0 + gx, y0, y) +
                           RowStrays(R1, G1, B1, R2, G2, B2, dEv, ln, y, x0, x)
      {
        if Strays(Rgb(R1[x, y], G1[x, y], B1[x, y]), Rgb(R2[x, y], G2[x, y], B2[x, y]), dEv, ln) {
          count := count + 1;
        }
      }
    }
    ghosted := Ratio(count as real, (gx * gy) as real) > threshold;
  }

  // ------------------------------------------------------- comparePatches facts

  /** The exposure offset seen from the other item: the difference changes sign. */
  function Negate(dEv: Delta): Delta
  {
    match dEv
    case NaN => NaN
    case Finite(d) => Finite(-d)
  }

  /** Swapping the two pixels and the sign of the offset leaves the channel's deviation as large. */
  lemma LogOffsetSwap(a: real, b: real, d: real, ln: real -> real)
    ensures Abs(LogOffset(a, b, d, ln)) == Abs(LogOffset(b, a, -d, ln))
  {
  }

  /** A pixel strays against the reference exactly when the reference strays against it. */
  lemma StraysSymmetric(p1: Rgb, p2: Rgb, dEv: Delta, ln: real -> real)
    ensures Strays(p1, p2, dEv, ln) == Strays(p2, p1, Negate(dEv), ln)
  {
    if dEv.Finite? {
      var d := dEv.value;
      LogOffsetSwap(p1.r, p2.r, d, ln);
      LogOffsetSwap(p1.g, p2.g, d, ln);
      LogOffsetSwap(p1.b, p2.b, d, ln);
    }
  }

  /** Two comparisons that agree pixel by pixel on a row segment count alike. */
  lemma {:induction false} RowStraysAgree(R1: array2<real>, G1: array2<real>, B1: array2<real>,
                                          R2: array2<real>, G2: array2<real>, B2: array2<real>, d: Delta,
                                          S1: array2<real>, H1: array2<real>, C1: array2<real>,
                                          S2: array2<real>, H2: array2<real>, C2: array2<real>, e: Delta,
                                          ln: real -> real, y: int, x0: int, x1: int)
    requires forall x :: x0 <= x < x1 ==>
               StraysAt(R1, G1, B1, R2, G2, B2, d, ln, x, y) == StraysAt(S1, H1, C1, S2, H2, C2, e, ln, x, y)
    ensures RowStrays(R1, G1, B1, R2, G2, B2, d, ln, y, x0, x1) ==
            RowStrays(S1, H1, C1, S2, H2, C2, e, ln, y, x0, x1)
    decreases x1 - x0
  {
    if x1 > x0 {
      RowStraysAgree(R1, G1, B1, R2, G2, B2, d, S1, H1, C1, S2, H2, C2, e, ln, y, x0, x1 - 1);
    }
  }

  /** Two comparisons that agree pixel by pixel on a box count alike. */
  lemma {:induction false} BoxStraysAgree(R1: array2<real>, G1: array2<real>, B1: array2<real>,
                                          R2: array2<real>, G2: array2<real>, B2: array2<real>, d: Delta,
                                          S1: array2<real>, H1: array2<real>, C1: array2<real>,
                                          S2: array2<real>, H2: array2<real>, C2: array2<real>, e: Delta,
                                          ln: real -> real, x0: int, x1: int, y0: int, y1: int)
    requires forall y, x :: y0 <= y < y1 && x0 <= x < x1 ==>
               StraysAt(R1, G1, B1, R2, G2, B2, d, ln, x, y) == StraysAt(S1, H1, C1, S2, H2, C2, e, ln, x, y)
    ensures BoxStrays(R1, G1, B1, R2, G2, B2, d, ln, x0, x1, y0, y1) ==
            BoxStrays(S1, H1, C1, S2, H2, C2, e, ln, x0, x1, y0, y1)
    decreases y1 - y0
  {
    if y1 > y0 {
      BoxStraysAgree(R1, G1, B1, R2, G2, B2, d, S1, H1, C1, S2, H2, C2, e, ln, x0, x1, y0, y1 - 1);
      RowStraysAgree(R1, G1, B1, R2, G2, B2, d, S1, H1, C1, S2, H2, C2, e, ln, y1 - 1, x0, x1);
    }
  }

  /**
   * The verdict does not depend on which item is the reference, as long as
   * the exposure offset is taken from the same side.
   */
  lemma GhostedSymmetric(R1: array2<real>, G1: array2<real>, B1: array2<real>,
                         R2: array2<real>, G2: array2<real>, B2: array2<real>,
                         dEv: Delta, ln: real -> real, i: int, j: int, gx: int, gy: int, threshold: real)
    ensures Ghosted(R1, G1, B1, R2, G2, B2, dEv, ln, i, j, gx, gy, threshold) ==
            Ghosted(R2, G2, B2, R1, G1, B1, Negate(dEv), ln, i, j, gx, gy, threshold)
  {
    forall y, x | InCell(x, y, i, j, gx, gy)
      ensures StraysAt(R1, G1, B1, R2, G2, B2, dEv, ln, x, y) ==
              StraysAt(R2, G2, B2, R1, G1, B1, Negate(dEv), ln, x, y)
    {
      if Holds(R1, G1, B1, x, y) && Holds(R2, G2, B2, x, y) {
        StraysSymmetric(PixelAt(R1, G1, B1, x, y), PixelAt(R2, G2, B2, x, y), dEv, ln);
      }
    }
    BoxStraysAgree(R1, G1, B1, R2, G2, B2, dEv, R2, G2, B2, R1, G1, B1, Negate(dEv), ln,
                   i * gx, i * gx + gx, j * gy, j * gy + gy);
  }

  /**
   * comparePatches reads nothing outside cell (i, j): two pairs of images
   * that agree there get the same verdict.
   */
  lemma GhostedLocal(R1: array2<real>, G1: array2<real>, B1: array2<real>,
                     R2: array2<real>, G2: array2<real>, B2: array2<real>,
                     S1: array2<real>, H1: array2<real>, C1: array2<real>,
                     S2: array2<real>, H2: array2<real>, C2: array2<real>,
                     dEv: Delta, ln: real -> real, i: int, j: int, gx: int, gy: int, threshold: real)
    requires SameShape(R1, G1, B1, R2, G2, B2) && SameShape(R1, G1, B1, S1, H1, C1)
    requires SameShape(R1, G1, B1, S2, H2, C2)
    requires forall y, x :: InCell(x, y, i, j, gx, gy) && Holds(R1, G1, B1, x, y) ==>
               PixelAt(R1, G1, B1, x, y) == PixelAt(S1, H1, C1, x, y) &&
               PixelAt(R2, G2, B2, x, y) == PixelAt(S2, H2, C2, x, y)
    ensures Ghosted(R1, G1, B1, R2, G2, B2, dEv, ln, i, j, gx, gy, threshold) ==
            Ghosted(S1, H1, C1, S2, H2, C2, dEv, ln, i, j, gx, gy, threshold)
  {
    BoxStraysAgree(R1, G1, B1, R2, G2, B2, dEv, S1, H1, C1, S2, H2, C2, dEv, ln,
                   i * gx, i * gx + gx, j * gy, j * gy + gy);
  }

  /** A row segment where no pixel strays counts zero. */
  lemma {:induction false} RowStraysNone(R1: array2<real>, G1: array2<real>, B1: array2<real>,
                                         R2: array2<real>, G2: array2<real>, B2: array2<real>,
                                         dEv: Delta, ln: real -> real, y: int, x0: int, x1: int)
    requires forall x :: x0 <= x < x1 ==> !StraysAt(R1, G1, B1, R2, G2, B2, dEv, ln, x, y)
    ensures RowStrays(R1, G1, B1, R2, G2, B2, dEv, ln, y, x0, x1) == 0
    decreases x1 - x0
  {
    if x1 > x0 {
      RowStraysNone(R1, G1, B1, R2, G2, B2, dEv, ln, y, x0, x1 - 1);
    }
  }

  /** A box where no pixel strays counts zero. */
  lemma {:induction false} BoxStraysNone(R1: array2<real>, G1: array2<real>, B1: array2<real>,
                                         R2: array2<real>, G2: array2<real>, B2: array2<real>,
                                         dEv: Delta, ln: real -> real, x0: int, x1: int, y0: int, y1: int)
    requires forall y, x :: y0 <= y < y1 && x0 <= x < x1 ==> !StraysAt(R1, G1, B1, R2, G2, B2, dEv, ln, x, y)
    ensures BoxStrays(R1, G1, B1, R2, G2, B2, dEv, ln, x0, x1, y0, y1) == 0
    decreases y1 - y0
  {
    if y1 > y0 {
      BoxStraysNone(R1, G1, B1, R2, G2, B2, dEv, ln, x0, x1, y0, y1 - 1);
      RowStraysNone(R1, G1, B1, R2, G2, B2, dEv, ln, y1 - 1, x0, x1);
    }
  }

  /** Every channel of p1 is p2's times the exposure ratio: the log-ratio is exactly the offset. */
  predicate Consistent(p1: Rgb, p2: Rgb, d: real, ln: real -> real)
  {
    ln(p1.r) - ln(p2.r) == d && ln(p1.g) - ln(p2.g) == d && ln(p1.b) - ln(p2.b) == d
  }

  /**
   * A cell whose pixels differ from the reference's exactly by the exposure
   * ratio is never flagged for a nonnegative threshold; neither is any cell
   * when the offset is NaN.
   */
  lemma ConsistentCellNotGhosted(R1: array2<real>, G1: array2<real>, B1: array2<real>,
                                 R2: array2<real>, G2: array2<real>, B2: array2<real>,
                                 dEv: Delta, ln: real -> real, i: int, j: int, gx: int, gy: int, threshold: real)
    requires 0.0 <= threshold
    requires dEv.Finite? ==>
               forall y, x ::
                 InCell(x, y, i, j, gx, gy) && Holds(R1, G1, B1, x, y) && Holds(R2, G2, B2, x, y) ==>
                 Consistent(PixelAt(R1, G1, B1, x, y), PixelAt(R2, G2, B2, x, y), dEv.value, ln)
    ensures !Ghosted(R1, G1, B1, R2, G2, B2, dEv, ln, i, j, gx, gy, threshold)
  {
    BoxStraysNone(R1, G1, B1, R2, G2, B2, dEv, ln, i * gx, i * gx + gx, j * gy, j * gy + gy);
  }

  lemma {:induction false} RowStraysAtMost(R1: array2<real>, G1: array2<real>, B1: array2<real>,
                                           R2: array2<real>, G2: array2<real>, B2: array2<real>,
                                           dEv: Delta, ln: real -> real, y: int, x0: int, x1: int)
    requires x0 <= x1
    ensures RowStrays(R1, G1, B1, R2, G2, B2, dEv, ln, y, x0, x1) <= x1 - x0
    decreases x1 - x0
  {
    if x1 > x0 {
      RowStraysAtMost(R1, G1, B1, R2, G2, B2, dEv, ln, y, x0, x1 - 1);
    }
  }

  lemma {:induction false} BoxStraysAtMost(R1: array2<real>, G1: array2<real>, B1: array2<real>,
                                           R2: array2<real>, G2: array2<real>, B2: array2<real>,
                                           dEv: Delta, ln: real -> real, x0: int, x1: int, y0: int, y1: int)
    requires x0 <= x1 && y0 <= y1
    ensures BoxStrays(R1, G1, B1, R2, G2, B2, dEv, ln, x0, x1, y0, y1) <= (y1 - y0) * (x1 - x0)
    decreases y1 - y0
  {
    if y1 > y0 {
      BoxStraysAtMost(R1, G1, B1, R2, G2, B2, dEv, ln, x0, x1, y0, y1 - 1);
      RowStraysAtMost(R1, G1, B1, R2, G2, B2, dEv, ln, y1 - 1, x0, x1);
      assert (y1 - 1 - y0) * (x1 - x0) + (x1 - x0) == (y1 - y0) * (x1 - x0);
    }
  }

  lemma QuotientAtMostOne(a: real, b: real)
    requires 0.0 <= a <= b && 0.0 < b
    ensures a / b <= 1.0
  {
    assert a / b * b == a;
  }

  /** The share of stray pixels is at most one, so a threshold of 1 or more flags nothing. */
  lemma NoGhostAboveOne(R1: array2<real>, G1: array2<real>, B1: array2<real>,
                        R2: array2<real>, G2: array2<real>, B2: array2<real>,
                        dEv: Delta, ln: real -> real, i: int, j: int, gx: int, gy: int, threshold: real)
    requires 0 < gx && 0 < gy && 1.0 <= threshold
    ensures !Ghosted(R1, G1, B1, R2, G2, B2, dEv, ln, i, j, gx, gy, threshold)
  {
    var n := CellStrays(R1, G1, B1, R2, G2, B2, dEv, ln, i, j, gx, gy);
    BoxStraysAtMost(R1, G1, B1, R2, G2, B2, dEv, ln, i * gx, i * gx + gx, j * gy, j * gy + gy);
    assert n <= gy * gx;
    assert 0 < gx * gy;
    QuotientAtMostOne(n as real, (gx * gy) as real);
  }

  // ------------------------------------------------------------------ copyPatch

  /** Lightness of pixel (x, y), 0 off the buffers. */
  function LightAt(R: array2<real>, G: array2<real>, B: array2<real>, x: int, y: int): real
    reads R, G, B
  {
    if Holds(R, G, B, x, y) then Lightness(PixelAt(R, G, B, x, y)) else 0.0
  }

  /** Sum of the lightness of row y over columns x0 .. x1-1. */
  function RowLight(R: array2<real>, G: array2<real>, B: array2<real>, y: int, x0: int, x1: int): real
    reads R, G, B
    decreases x1 - x0
  {
    if x1 <= x0 then 0.0 else RowLight(R, G, B, y, x0, x1 - 1) + LightAt(R, G, B, x1 - 1, y)
  }

  /** Sum of the lightness of rows y0 .. y1-1 over columns x0 .. x1-1. */
  function BoxLight(R: array2<real>, G: array2<real>, B: array2<real>, x0: int, x1: int, y0: int, y1: int): real
    reads R, G, B
    decreases y1 - y0
  {
    if y1 <= y0 then 0.0 else BoxLight(R, G, B, x0, x1, y0, y1 - 1) + RowLight(R, G, B, y1 - 1, x0, x1)
  }

  /** Mean lightness of cell (i, j). */
  function CellLight(R: array2<real>, G: array2<real>, B: array2<real>, i: int, j: int, gx: int, gy: int): real
    reads R, G, B
  {
    Ratio(BoxLight(R, G, B, i * gx, i * gx + gx, j * gy, j * gy + gy), (gx * gy) as real)
  }

  /** copyPatch acts only when the reference cell's mean lightness is strictly between 0 and max_lightness. */
  predicate Active(R: array2<real>, G: array2<real>, B: array2<real>, i: int, j: int, gx: int, gy: int)
    reads R, G, B
  {
    0.0 < CellLight(R, G, B, i, j, gx, gy) < MaxLightness
  }

  /** Adds up the lightness of one row of a cell. */
  method RowLightness(R: array2<real>, G: array2<real>, B: array2<real>, y: int, x0: int, x1: int)
    returns (sum: real)
    requires x0 <= x1
    ensures sum == RowLight(R, G, B, y, x0, x1)
  {
    sum := 0.0;
    for x := x0 to x1
      invariant sum == RowLight(R, G, B, y, x0, x)
    {
      if Holds(R, G, B, x, y) {
        var hsl := Rgb2Hsl(Rgb(R[x, y], G[x, y], B[x, y]));
        sum := sum + hsl.l;
      }
    }
  }

  /** The first loop of copyPatch: the mean lightness of the reference cell. */
  method CellAverage(R: array2<real>, G: array2<real>, B: array2<real>, i: int, j: int, gx: int, gy: int)
    returns (avg: real)
    requires 0 < gx && 0 < gy
    ensures avg == CellLight(R, G, B, i, j, gx, gy)
  {
    var sum := 0.0;
    for y := j * gy to j * gy + gy
      invariant sum == BoxLight(R, G, B, i * gx, i * gx + gx, j * gy, y)
    {
      var row := RowLightness(R, G, B, y, i * gx, i * gx + gx);
      sum := sum + row;
    }
    avg := sum / (gx * gy) as real;
  }

  /** Writes the rescaled reference pixels into columns x0 .. x1-1 of row y of the target. */
  method RecolorRow(R1: array2<real>, G1: array2<real>, B1: array2<real>,
                    R2: array2<real>, G2: array2<real>, B2: array2<real>,
                    sf: real, y: int, x0: int, x1: int)
    requires SameShape(R1, G1, B1, R2, G2, B2) && Disjoint(R1, G1, B1, R2, G2, B2)
    requires 0 <= x0 <= x1 <= R1.Length0 && 0 <= y < R1.Length1
    modifies R2, G2, B2
    ensures forall x :: x0 <= x < x1 ==>
              Rgb(R2[x, y], G2[x, y], B2[x, y]) == Rescale(Rgb(old(R1[x, y]), old(G1[x, y]), old(B1[x, y])), sf, MaxLightness)
    ensures forall v, u :: 0 <= v < R1.Length1 && 0 <= u < R1.Length0 && !(v == y && x0 <= u < x1) ==>
              R2[u, v] == old(R2[u, v]) && G2[u, v] == old(G2[u, v]) && B2[u, v] == old(B2[u, v])
  {
    for x := x0 to x1
      invariant forall u :: x0 <= u < x ==>
                  Rgb(R2[u, y], G2[u, y], B2[u, y]) == Rescale(Rgb(old(R1[u, y]), old(G1[u, y]), old(B1[u, y])), sf, MaxLightness)
      invariant forall v, u :: 0 <= v < R1.Length1 && 0 <= u < R1.Length0 && !(v == y && x0 <= u < x) ==>
                  R2[u, v] == old(R2[u, v]) && G2[u, v] == old(G2[u, v]) && B2[u, v] == old(B2[u, v])
    {
      var c := Rescale(Rgb(R1[x, y], G1[x, y], B1[x, y]), sf, MaxLightness);
      R2[x, y] := c.r;
      G2[x, y] := c.g;
      B2[x, y] := c.b;
    }
  }

  /** The second loop of copyPatch: every pixel of cell (i, j) of the target becomes the rescaled reference pixel. */
  method RecolorCell(R1: array2<real>, G1: array2<real>, B1: array2<real>,
                     R2: array2<real>, G2: array2<real>, B2: array2<real>,
                     i: int, j: int, gx: int, gy: int, sf: real)
    requires SameShape(R1, G1, B1, R2, G2, B2) && Disjoint(R1, G1, B1, R2, G2, B2)
    requires CellInside(R1.Length0, R1.Length1, i, j, gx, gy)
    modifies R2, G2, B2
    ensures forall y, x :: 0 <= y < R1.Length1 && 0 <= x < R1.Length0 ==>
              Rgb(R2[x, y], G2[x, y], B2[x, y]) ==
              if InCell(x, y, i, j, gx, gy)
              then Rescale(Rgb(old(R1[x, y]), old(G1[x, y]), old(B1[x, y])), sf, MaxLightness)
              else Rgb(old(R2[x, y]), old(G2[x, y]), old(B2[x, y]))
  {
    var x0, x1, y0 := i * gx, i * gx + gx, j * gy;
    for y := y0 to y0 + gy
      invariant forall v, u :: y0 <= v < y && x0 <= u < x1 ==>
                  Rgb(R2[u, v], G2[u, v], B2[u, v]) == Rescale(Rgb(old(R1[u, v]), old(G1[u, v]), old(B1[u, v])), sf, MaxLightness)
      invariant forall v, u :: 0 <= v < R1.Length1 && 0 <= u < R1.Length0 && !(y0 <= v < y && x0 <= u < x1) ==>
                  R2[u, v] == old(R2[u, v]) && G2[u, v] == old(G2[u, v]) && B2[u, v] == old(B2[u, v])
    {
      RecolorRow(R1, G1, B1, R2, G2, B2, sf, y, x0, x1);
    }
  }

  /**
   * copyPatch (float overload): when the reference cell is neither black nor
   * saturated on average, every pixel of cell (i, j) of the target is replaced
   * by the reference pixel with its lightness scaled by `sf` (capped at
   * max_lightness) and its channels clamped to [0, max_rgb]; nothing else of
   * the target changes, and the reference is only read.
   */
  method CopyPatch(R1: array2<real>, G1: array2<real>, B1: array2<real>,
                   R2: array2<real>, G2: array2<real>, B2: array2<real>,
                   i: int, j: int, gx: int, gy: int, sf: real)
    requires SameShape(R1, G1, B1, R2, G2, B2) && Disjoint(R1, G1, B1, R2, G2, B2)
    requires CellInside(R1.Length0, R1.Length1, i, j, gx, gy)
    modifies R2, G2, B2
    ensures forall y, x :: 0 <= y < R1.Length1 && 0 <= x < R1.Length0 ==>
              Rgb(R2[x, y], G2[x, y], B2[x, y]) ==
              if InCell(x, y, i, j, gx, gy) && old(Active(R1, G1, B1, i, j, gx, gy))
              then Rescale(Rgb(old(R1[x, y]), old(G1[x, y]), old(B1[x, y])), sf, MaxLightness)
              else Rgb(old(R2[x, y]), old(G2[x, y]), old(B2[x, y]))
  {
    var avg := CellAverage(R1, G1, B1, i, j, gx, gy);
    if avg >= MaxLightness || avg <= 0.0 {
      return;
    }
    RecolorCell(R1, G1, B1, R2, G2, B2, i, j, gx, gy, sf);
  }

  /** A row segment of black pixels adds up to no lightness. */
  lemma {:induction false} RowLightDark(R: array2<real>, G: array2<real>, B: array2<real>, y: int, x0: int, x1: int)
    requires forall x :: x0 <= x < x1 ==> LightAt(R, G, B, x, y) == 0.0
    ensures RowLight(R, G, B, y, x0, x1) == 0.0
    decreases x1 - x0
  {
    if x1 > x0 {
      RowLightDark(R, G, B, y, x0, x1 - 1);
    }
  }

  /** A box of black pixels adds up to no lightness. */
  lemma {:induction false} BoxLightDark(R: array2<real>, G: array2<real>, B: array2<real>,
                                        x0: int, x1: int, y0: int, y1: int)
    requires forall y, x :: y0 <= y < y1 && x0 <= x < x1 ==> LightAt(R, G, B, x, y) == 0.0
    ensures BoxLight(R, G, B, x0, x1, y0, y1) == 0.0
    decreases y1 - y0
  {
    if y1 > y0 {
      BoxLightDark(R, G, B, x0, x1, y0, y1 - 1);
      RowLightDark(R, G, B, y1 - 1, x0, x1);
    }
  }

  /** copyPatch leaves the target alone when the reference cell is black. */
  lemma DarkCellInactive(R: array2<real>, G: array2<real>, B: array2<real>, i: int, j: int, gx: int, gy: int)
    requires forall y, x :: InCell(x, y, i, j, gx, gy) && Holds(R, G, B, x, y) ==> Max3(PixelAt(R, G, B, x, y)) == 0.0 == Min3(PixelAt(R, G, B, x, y))
    ensures !Active(R, G, B, i, j, gx, gy)
  {
    BoxLightDark(R, G, B, i * gx, i * gx + gx, j * gy, j * gy + gy);
  }

  // ---------------------------------------------------------------- copyPatches

  /** Cell (i, j) is exactly the set of pixels whose column / gx is i and row / gy is j. */
  lemma InCellByDivision(x: int, y: int, i: int, j: int, gx: int, gy: int)
    requires 0 < gx && 0 < gy
    ensures InCell(x, y, i, j, gx, gy) <==> x / gx == i && y / gy == j
  {
    DivisionBounds(x, gx, i);
    DivisionBounds(y, gy, j);
  }

  lemma DivisionBounds(x: int, g: int, i: int)
    requires 0 < g
    ensures i * g <= x < i * g + g <==> x / g == i
  {
    var q, r := x / g, x % g;
    assert x == q * g + r && 0 <= r < g;
    if q < i {
      assert q * g + g <= i * g by { MultiplyMonotone(q + 1, i, g); }
    } else if q > i {
      assert i * g + g <= q * g by { MultiplyMonotone(i + 1, q, g); }
    }
  }

  lemma MultiplyMonotone(a: int, b: int, g: int)
    requires a <= b && 0 < g
    ensures a * g <= b * g
  {
    assert b * g - a * g == (b - a) * g;
  }

  /** The grid of flags: GridSize x GridSize, `patches[i, j]` for cell (i, j). */
  predicate IsGrid(patches: array2<bool>)
  {
    patches.Length0 == GridSize && patches.Length1 == GridSize
  }

  /**
   * Pixel (x, y) lies in a flagged cell whose reference patch is active:
   * copyPatches replaces it.
   */
  predicate Replaced(R1: array2<real>, G1: array2<real>, B1: array2<real>, patches: array2<bool>,
                     gx: int, gy: int, x: int, y: int)
    requires IsGrid(patches) && 0 < gx && 0 < gy
    reads R1, G1, B1, patches
  {
    0 <= x && 0 <= y && x / gx < GridSize && y / gy < GridSize &&
    patches[x / gx, y / gy] && Active(R1, G1, B1, x / gx, y / gy, gx, gy)
  }

  /** The grid of gx x gy cells fits in a w x h image. */
  predicate GridFits(w: int, h: int, gx: int, gy: int)
  {
    0 < gx && 0 < gy && GridSize * gx <= w && GridSize * gy <= h
  }

  /** The body of copyPatches' inner loop: copyPatch on cell (i, j) when it is flagged. */
  method CopyFlaggedCell(R1: array2<real>, G1: array2<real>, B1: array2<real>,
                         R2: array2<real>, G2: array2<real>, B2: array2<real>,
                         patches: array2<bool>, i: int, j: int, gx: int, gy: int, sf: real)
    requires SameShape(R1, G1, B1, R2, G2, B2) && Disjoint(R1, G1, B1, R2, G2, B2)
    requires IsGrid(patches) && GridFits(R1.Length0, R1.Length1, gx, gy)
    requires 0 <= i < GridSize && 0 <= j < GridSize
    modifies R2, G2, B2
    ensures forall y, x :: 0 <= y < R1.Length1 && 0 <= x < R1.Length0 ==>
              Rgb(R2[x, y], G2[x, y], B2[x, y]) ==
              if x / gx == i && y / gy == j && old(patches[i, j] && Active(R1, G1, B1, i, j, gx, gy))
              then Rescale(Rgb(old(R1[x, y]), old(G1[x, y]), old(B1[x, y])), sf, MaxLightness)
              else Rgb(old(R2[x, y]), old(G2[x, y]), old(B2[x, y]))
  {
    forall x, y
      ensures InCell(x, y, i, j, gx, gy) <==> x / gx == i && y / gy == j
    {
      InCellByDivision(x, y, i, j, gx, gy);
    }
    if patches[i, j] {
      CopyPatch(R1, G1, B1, R2, G2, B2, i, j, gx, gy, sf);
    }
  }

  /** copyPatch over row j of the grid, for every flagged cell. */
  method CopyGridRow(R1: array2<real>, G1: array2<real>, B1: array2<real>,
                     R2: array2<real>, G2: array2<real>, B2: array2<real>,
                     patches: array2<bool>, j: int, gx: int, gy: int, sf: real)
    requires SameShape(R1, G1, B1, R2, G2, B2) && Disjoint(R1, G1, B1, R2, G2, B2)
    requires IsGrid(patches) && GridFits(R1.Length0, R1.Length1, gx, gy) && 0 <= j < GridSize
    modifies R2, G2, B2
    ensures forall y, x :: 0 <= y < R1.Length1 && 0 <= x < R1.Length0 ==>
              Rgb(R2[x, y], G2[x, y], B2[x, y]) ==
              if y / gy == j && old(Replaced(R1, G1, B1, patches, gx, gy, x, y))
              then Rescale(Rgb(old(R1[x, y]), old(G1[x, y]), old(B1[x, y])), sf, MaxLightness)
              else Rgb(old(R2[x, y]), old(G2[x, y]), old(B2[x, y]))
  {
    forall x | 0 <= x
      ensures 0 <= x / gx
    {
    }
    for i := 0 to GridSize
      invariant forall y, x :: 0 <= y < R1.Length1 && 0 <= x < R1.Length0 ==>
                  Rgb(R2[x, y], G2[x, y], B2[x, y]) ==
                  if y / gy == j && x / gx < i && old(Replaced(R1, G1, B1, patches, gx, gy, x, y))
                  then Rescale(Rgb(old(R1[x, y]), old(G1[x, y]), old(B1[x, y])), sf, MaxLightness)
                  else Rgb(old(R2[x, y]), old(G2[x, y]), old(B2[x, y]))
    {
      CopyFlaggedCell(R1, G1, B1, R2, G2, B2, patches, i, j, gx, gy, sf);
    }
  }

  /** copyPatch over the whole grid, for every flagged cell: one item of copyPatches. */
  method CopyGrid(R1: array2<real>, G1: array2<real>, B1: array2<real>,
                  R2: array2<real>, G2: array2<real>, B2: array2<real>,
                  patches: array2<bool>, gx: int, gy: int, sf: real)
    requires SameShape(R1, G1, B1, R2, G2, B2) && Disjoint(R1, G1, B1, R2, G2, B2)
    requires IsGrid(patches) && GridFits(R1.Length0, R1.Length1, gx, gy)
    modifies R2, G2, B2
    ensures forall y, x :: 0 <= y < R1.Length1 && 0 <= x < R1.Length0 ==>
              Rgb(R2[x, y], G2[x, y], B2[x, y]) ==
              if old(Replaced(R1, G1, B1, patches, gx, gy, x, y))
              then Rescale(Rgb(old(R1[x, y]), old(G1[x, y]), old(B1[x, y])), sf, MaxLightness)
              else Rgb(old(R2[x, y]), old(G2[x, y]), old(B2[x, y]))
  {
    forall y | 0 <= y
      ensures 0 <= y / gy
    {
    }
    for j := 0 to GridSize
      invariant forall y, x :: 0 <= y < R1.Length1 && 0 <= x < R1.Length0 ==>
                  Rgb(R2[x, y], G2[x, y], B2[x, y]) ==
                  if y / gy < j && old(Replaced(R1, G1, B1, patches, gx, gy, x, y))
                  then Rescale(Rgb(old(R1[x, y]), old(G1[x, y]), old(B1[x, y])), sf, MaxLightness)
                  else Rgb(old(R2[x, y]), old(G2[x, y]), old(B2[x, y]))
    {
      CopyGridRow(R1, G1, B1, R2, G2, B2, patches, j, gx, gy, sf);
    }
  }

  /** No channel buffer of the stack is the same object as another. */
  predicate Distinct(Rs: seq<array2<real>>, Gs: seq<array2<real>>, Bs: seq<array2<real>>)
  {
    |Gs| == |Rs| && |Bs| == |Rs| &&
    forall a, b :: 0 <= a < |Rs| && 0 <= b < |Rs| ==>
      Rs[a] != Gs[b] && Rs[a] != Bs[b] && Gs[a] != Bs[b] &&
      (a != b ==> Rs[a] != Rs[b] && Gs[a] != Gs[b] && Bs[a] != Bs[b])
  }

  /**
   * copyPatches (float overload): every item but the reference h0 gets, in
   * every flagged cell whose reference patch is active, the reference pixels
   * rescaled by the item's own scale factor; every other pixel of every item,
   * and the whole reference, keep their values.
   */
  method CopyPatches(Rs: seq<array2<real>>, Gs: seq<array2<real>>, Bs: seq<array2<real>>,
                     patches: array2<bool>, h0: int, sf: seq<real>, gx: int, gy: int)
    requires Stack(Rs, Gs, Bs) && Distinct(Rs, Gs, Bs)
    requires 0 <= h0 < |Rs| && |sf| == |Rs|
    requires IsGrid(patches) && GridFits(Rs[0].Length0, Rs[0].Length1, gx, gy)
    modifies Rs, Gs, Bs
    ensures forall k, y, x :: 0 <= k < |Rs| && 0 <= y < Rs[0].Length1 && 0 <= x < Rs[0].Length0 ==>
              Rgb(Rs[k][x, y], Gs[k][x, y], Bs[k][x, y]) ==
              if k != h0 && old(Replaced(Rs[h0], Gs[h0], Bs[h0], patches, gx, gy, x, y))
              then Rescale(Rgb(old(Rs[h0][x, y]), old(Gs[h0][x, y]), old(Bs[h0][x, y])), sf[k], MaxLightness)
              else Rgb(old(Rs[k][x, y]), old(Gs[k][x, y]), old(Bs[k][x, y]))
  {
    for h := 0 to |Rs|
      invariant forall k, y, x :: 0 <= k < |Rs| && 0 <= y < Rs[0].Length1 && 0 <= x < Rs[0].Length0 ==>
                  Rgb(Rs[k][x, y], Gs[k][x, y], Bs[k][x, y]) ==
                  if k < h && k != h0 && old(Replaced(Rs[h0], Gs[h0], Bs[h0], patches, gx, gy, x, y))
                  then Rescale(Rgb(old(Rs[h0][x, y]), old(Gs[h0][x, y]), old(Bs[h0][x, y])), sf[k], MaxLightness)
                  else Rgb(old(Rs[k][x, y]), old(Gs[k][x, y]), old(Bs[k][x, y]))
      invariant unchanged(Rs[h0], Gs[h0], Bs[h0])
    {
      if h != h0 {
        assert SameShape(Rs[0], Gs[0], Bs[0], Rs[h], Gs[h], Bs[h]);
        assert SameShape(Rs[0], Gs[0], Bs[0], Rs[h0], Gs[h0], Bs[h0]);
        CopyGrid(Rs[h0], Gs[h0], Bs[h0], Rs[h], Gs[h], Bs[h], patches, gx, gy, sf[h]);
      }
    }
  }
}
