/**
 * Pixel buffers and the per-pixel lightness rescaling shared by copyPatch and
 * the float blend (HdrWizard/HdrCreationManager.cpp).
 *
 * A float channel (pfs::Array2Df) is an `array2<real>` read as `c[x, y]`:
 * `Length0` is the width (columns), `Length1` the height (rows).
 */
module Pixels {
  import opened Hsl

  /** `max_rgb`: largest value a corrected channel may hold. */
  const MaxRgb: real := 65535.0

  /** `max_lightness`: cap on scaled lightness in copyPatch, and its degenerate-patch bound. */
  const MaxLightness: real := 65535.0

  /** `gridSize`: the patch grid is GridSize x GridSize cells. */
  const GridSize: int := 40

  /** The three channels of one float image share one size. */
  predicate Fits(R: array2<real>, G: array2<real>, B: array2<real>)
  {
    G.Length0 == R.Length0 && G.Length1 == R.Length1 &&
    B.Length0 == R.Length0 && B.Length1 == R.Length1
  }

  /** Two float images (three channels each) share one size. */
  predicate SameShape(R1: array2<real>, G1: array2<real>, B1: array2<real>,
                      R2: array2<real>, G2: array2<real>, B2: array2<real>)
  {
    Fits(R1, G1, B1) && Fits(R2, G2, B2) &&
    R2.Length0 == R1.Length0 && R2.Length1 == R1.Length1
  }

  /** The channel buffers of every item share the first item's size. */
  predicate Stack(Rs: seq<array2<real>>, Gs: seq<array2<real>>, Bs: seq<array2<real>>)
  {
    |Rs| > 0 && |Gs| == |Rs| && |Bs| == |Rs| &&
    forall i :: 0 <= i < |Rs| ==> SameShape(Rs[0], Gs[0], Bs[0], Rs[i], Gs[i], Bs[i])
  }

  /** Six channel buffers, none of them the same object as another. */
  predicate Disjoint(R1: array2<real>, G1: array2<real>, B1: array2<real>,
                     R2: array2<real>, G2: array2<real>, B2: array2<real>)
  {
    R2 != G2 && R2 != B2 && G2 != B2 &&
    R1 != R2 && R1 != G2 && R1 != B2 &&
    G1 != R2 && G1 != G2 && G1 != B2 &&
    B1 != R2 && B1 != G2 && B1 != B2
  }

  /**
   * An image as a value: rows of pixels, `img[y][x]`. Specifications are
   * stated on these values; methods work on the channel buffers.
   */
  type Image = seq<seq<Rgb>>

  /** `img` has `h` rows of `w` pixels. */
  predicate IsImage(img: Image, w: int, h: int)
  {
    0 <= w && |img| == h && forall y :: 0 <= y < h ==> |img[y]| == w
  }

  /** Pixels 0 .. n-1 of row y of the channel buffers. */
  ghost function RowOf(R: array2<real>, G: array2<real>, B: array2<real>, y: int, n: int): (row: seq<Rgb>)
    requires Fits(R, G, B) && 0 <= y < R.Length1 && 0 <= n <= R.Length0
    reads R, G, B
    ensures |row| == n
    ensures forall x :: 0 <= x < n ==> row[x] == Rgb(R[x, y], G[x, y], B[x, y])
  {
    if n == 0 then [] else RowOf(R, G, B, y, n - 1) + [Rgb(R[n - 1, y], G[n - 1, y], B[n - 1, y])]
  }

  /** Rows 0 .. n-1 of the channel buffers. */
  ghost function RowsOf(R: array2<real>, G: array2<real>, B: array2<real>, n: int): (img: Image)
    requires Fits(R, G, B) && 0 <= n <= R.Length1
    reads R, G, B
    ensures IsImage(img, R.Length0, n)
    ensures forall y, x :: 0 <= y < n && 0 <= x < R.Length0 ==> img[y][x] == Rgb(R[x, y], G[x, y], B[x, y])
  {
    if n == 0 then [] else RowsOf(R, G, B, n - 1) + [RowOf(R, G, B, n - 1, R.Length0)]
  }

  /** The image the three channel buffers currently hold. */
  ghost function ImageOf(R: array2<real>, G: array2<real>, B: array2<real>): (img: Image)
    requires Fits(R, G, B)
    reads R, G, B
    ensures IsImage(img, R.Length0, R.Length1)
    ensures forall y, x :: 0 <= y < R.Length1 && 0 <= x < R.Length0 ==>
              img[y][x] == Rgb(R[x, y], G[x, y], B[x, y])
  {
    RowsOf(R, G, B, R.Length1)
  }

  /** HSL lightness of one pixel, as rgb2hsl computes it. */
  function Lightness(c: Rgb): real
  {
    Rgb2Hsl(c).l
  }

  /** HSL hue of one pixel, as rgb2hsl computes it. */
  function Hue(c: Rgb): real
  {
    Rgb2Hsl(c).h
  }

  /** One real value per pixel (lightness or hue), rows of values: `p[y][x]`. */
  type Plane = seq<seq<real>>

  /** `p` has `h` rows of `w` values. */
  predicate IsPlane(p: Plane, w: int, h: int)
  {
    0 <= w && |p| == h && forall y :: 0 <= y < h ==> |p[y]| == w
  }

  /** The lightness of every pixel of an image. */
  function LightnessPlane(img: Image, w: int, h: int): (p: Plane)
    requires IsImage(img, w, h)
    ensures IsPlane(p, w, h)
    ensures forall y, x :: 0 <= y < h && 0 <= x < w ==> p[y][x] == Lightness(img[y][x])
  {
    seq(h, y requires 0 <= y < h => seq(w, x requires 0 <= x < w => Lightness(img[y][x])))
  }

  /** The hue of every pixel of an image. */
  function HuePlane(img: Image, w: int, h: int): (p: Plane)
    requires IsImage(img, w, h)
    ensures IsPlane(p, w, h)
    ensures forall y, x :: 0 <= y < h && 0 <= x < w ==> p[y][x] == Hue(img[y][x])
  {
    seq(h, y requires 0 <= y < h => seq(w, x requires 0 <= x < w => Hue(img[y][x])))
  }

  /** The clamps of copyPatch and blend: first to at most max_rgb, then to at least 0. */
  function ClampRgb(x: real): (y: real)
    ensures 0.0 <= y <= MaxRgb
    ensures 0.0 <= x <= MaxRgb ==> y == x
  {
    var capped := if x > MaxRgb then MaxRgb else x;
    if capped < 0.0 then 0.0 else capped
  }

  /** Lightness times the scale factor, capped. */
  function ScaledLightness(l: real, sf: real, cap: real): real
  {
    var scaled := l * sf;
    if scaled > cap then cap else scaled
  }

  /** The color with the same hue and saturation and the scaled lightness, before clamping. */
  function Recolored(c: Rgb, sf: real, cap: real): (out: Rgb)
    ensures var l := ScaledLightness(Rgb2Hsl(c).l, sf, cap);
            !Chromatic(c) || PureRed(c) ==> out == Rgb(l, l, l)
  {
    var hsl := Rgb2Hsl(c);
    assert PureRed(c) ==> hsl.h == 1.0 by {
      if PureRed(c) { PureRedAtOne(c); }
    }
    Hsl2Rgb(HslColor(hsl.h, hsl.s, ScaledLightness(hsl.l, sf, cap)))
  }

  predicate InRange(c: Rgb)
  {
    0.0 <= c.r <= MaxRgb && 0.0 <= c.g <= MaxRgb && 0.0 <= c.b <= MaxRgb
  }

  /**
   * One corrected pixel: lightness multiplied by `sf` and capped at `cap`,
   * hue and saturation kept, converted back and every channel clamped.
   */
  function Rescale(c: Rgb, sf: real, cap: real): (out: Rgb)
    ensures InRange(out)
    ensures InRange(Recolored(c, sf, cap)) ==> out == Recolored(c, sf, cap)
  {
    var o := Recolored(c, sf, cap);
    Rgb(ClampRgb(o.r), ClampRgb(o.g), ClampRgb(o.b))
  }

  /**
   * When no channel needs clamping and the hexcone stays upright, the
   * corrected pixel's lightness is exactly the scaled, capped lightness.
   */
  lemma RescaleSetsLightness(c: Rgb, sf: real, cap: real)
    requires InRange(Recolored(c, sf, cap))
    requires var hsl := Rgb2Hsl(c);
             var l := ScaledLightness(hsl.l, sf, cap);
             0.0 < HexValue(HslColor(hsl.h, hsl.s, l)) && l <= HexValue(HslColor(hsl.h, hsl.s, l))
    ensures Rgb2Hsl(Rescale(c, sf, cap)).l == ScaledLightness(Rgb2Hsl(c).l, sf, cap)
  {
    var hsl := Rgb2Hsl(c);
    HueRange(c);
    LightnessKept(HslColor(hsl.h, hsl.s, ScaledLightness(hsl.l, sf, cap)));
  }

  /** A black-or-gray pixel becomes the gray of the scaled lightness, clamped. */
  lemma RescaleGray(c: Rgb, sf: real, cap: real)
    requires c.r == c.g == c.b
    ensures var l := ClampRgb(ScaledLightness(c.r, sf, cap));
            Rescale(c, sf, cap) == Rgb(l, l, l)
  {
  }

  /**
   * As written, a pure-red pixel loses its hue: the corrected pixel is the
   * gray of its scaled lightness, clamped.
   */
  lemma RescalePureRed(c: Rgb, sf: real, cap: real)
    requires PureRed(c)
    ensures var l := ClampRgb(ScaledLightness(Rgb2Hsl(c).l, sf, cap));
            Rescale(c, sf, cap) == Rgb(l, l, l)
  {
  }

  /** (1000, 0, 0) with factor 1 is written back as (500, 500, 500). */
  lemma RedPixelTurnsGray()
    ensures Rescale(Rgb(1000.0, 0.0, 0.0), 1.0, MaxLightness) == Rgb(500.0, 500.0, 500.0)
  {
    var c := Rgb(1000.0, 0.0, 0.0);
    assert Max3(c) == 1000.0 && Min3(c) == 0.0;
    RescalePureRed(c, 1.0, MaxLightness);
  }
}
