/**
 * Lightness/hue conversion used by every anti-ghosting algorithm:
 * `rgb2hsl` and `hsl2rgb` of HdrWizard/HdrCreationManager.cpp, over exact reals.
 */
module Hsl {

  datatype Rgb = Rgb(r: real, g: real, b: real)

  datatype HslColor = HslColor(h: real, s: real, l: real)

  function RealMax(a: real, b: real): real { if a < b then b else a }

  function RealMin(a: real, b: real): real { if b < a then b else a }

  /** Largest component, as `std::max(std::max(r, g), b)`. */
  function Max3(c: Rgb): (v: real)
    ensures c.r <= v && c.g <= v && c.b <= v
    ensures v == c.r || v == c.g || v == c.b
  {
    RealMax(RealMax(c.r, c.g), c.b)
  }

  /** Smallest component, as `std::min(std::min(r, g), b)`. */
  function Min3(c: Rgb): (m: real)
    ensures m <= c.r && m <= c.g && m <= c.b
    ensures m == c.r || m == c.g || m == c.b
  {
    RealMin(RealMin(c.r, c.g), c.b)
  }

  /**
   * Quotient of a float division whose divisor may be zero. IEEE arithmetic
   * gives an infinity or NaN there, which a real cannot hold; the model uses 0.
   */
  function Ratio(a: real, b: real): real
  {
    if b == 0.0 then 0.0 else a / b
  }

  /** C's float-to-int cast, which truncates toward zero. */
  function Trunc(x: real): (t: int)
    ensures 0.0 <= x ==> t as real <= x < t as real + 1.0
  {
    if x >= 0.0 then x.Floor else -((-x).Floor)
  }

  /** A color that carries hue: positive lightness and a nonzero chroma span. */
  predicate Chromatic(c: Rgb)
  {
    (Max3(c) + Min3(c)) / 2.0 > 0.0 && Min3(c) < Max3(c)
  }

  /** Signs and bounds of a quotient by a positive divisor. */
  lemma QuotientBounds(a: real, d: real)
    requires d > 0.0
    ensures 0.0 <= a ==> 0.0 <= a / d
    ensures 0.0 < a ==> 0.0 < a / d
    ensures a <= d ==> a / d <= 1.0
    ensures a < d ==> a / d < 1.0
    ensures a == d ==> a / d == 1.0
  {
    var q := a / d;
    assert q * d == a;
    assert (1.0 - q) * d == d - a;
  }

  /** Where `x` sits between the largest `v` and the smallest `m` component, as a fraction from `v`. */
  lemma FractionBounds(v: real, m: real, x: real)
    requires m <= x <= v && m < v
    ensures 0.0 <= (v - x) / (v - m) <= 1.0
    ensures x < v ==> 0.0 < (v - x) / (v - m)
    ensures m < x ==> (v - x) / (v - m) < 1.0
    ensures x == m ==> (v - x) / (v - m) == 1.0
    ensures x == v ==> (v - x) / (v - m) == 0.0
  {
    QuotientBounds(v - x, v - m);
  }

  /** Hue sextant offset: which component is largest and which is smallest. */
  function HueTimesSix(c: Rgb): real
    requires Min3(c) < Max3(c)
  {
    var v := Max3(c);
    var m := Min3(c);
    var vm := v - m;
    var r2 := (v - c.r) / vm;
    var g2 := (v - c.g) / vm;
    var b2 := (v - c.b) / vm;
    if c.r == v then (if c.g == m then 5.0 + b2 else 1.0 - g2)
    else if c.g == v then (if c.b == m then 1.0 + r2 else 3.0 - b2)
    else (if c.r == m then 3.0 + g2 else 5.0 - r2)
  }

  /**
   * rgb2hsl. Lightness is the mean of the largest and smallest component;
   * black-or-darker and gray colors get hue and saturation 0.
   */
  function Rgb2Hsl(c: Rgb): (hsl: HslColor)
    ensures hsl.l == (Max3(c) + Min3(c)) / 2.0
    ensures !Chromatic(c) ==> hsl.h == 0.0 && hsl.s == 0.0
  {
    var v := Max3(c);
    var m := Min3(c);
    var l := (m + v) / 2.0;
    if l <= 0.0 || !(v - m > 0.0) then HslColor(0.0, 0.0, l)
    else
      var s := Ratio(v - m, if l <= 0.5 then v + m else 2.0 - v - m);
      HslColor(HueTimesSix(c) / 6.0, s, l)
  }

  /** The hue offset lies in [0, 6]. */
  lemma HueTimesSixRange(c: Rgb)
    requires Min3(c) < Max3(c)
    ensures 0.0 <= HueTimesSix(c) <= 6.0
  {
    var v := Max3(c);
    var m := Min3(c);
    FractionBounds(v, m, c.r);
    FractionBounds(v, m, c.g);
    FractionBounds(v, m, c.b);
  }

  /** rgb2hsl's hue lies in [0, 1]. */
  lemma HueRange(c: Rgb)
    ensures 0.0 <= Rgb2Hsl(c).h <= 1.0
  {
    if Min3(c) < Max3(c) {
      HueTimesSixRange(c);
    }
  }

  /** The hexcone value `v` that hsl2rgb rebuilds from lightness and saturation. */
  function HexValue(hsl: HslColor): real
  {
    if hsl.l <= 0.5 then hsl.l * (1.0 + hsl.s) else hsl.l + hsl.s - hsl.l * hsl.s
  }

  /** The `switch (sextant)` of hsl2rgb; a sextant outside 0..5 leaves the gray (l, l, l). */
  function SextantColor(sextant: int, v: real, m: real, vsf: real, l: real): Rgb
  {
    var mid1 := m + vsf;
    var mid2 := v - vsf;
    if sextant == 0 then Rgb(v, mid1, m)
    else if sextant == 1 then Rgb(mid2, v, m)
    else if sextant == 2 then Rgb(m, v, mid1)
    else if sextant == 3 then Rgb(m, mid2, v)
    else if sextant == 4 then Rgb(mid1, m, v)
    else if sextant == 5 then Rgb(v, m, mid2)
    else Rgb(l, l, l)
  }

  /**
   * hsl2rgb as written: the sextant is `(int)(h * 6)`, so h == 1 gives
   * sextant 6, which no case handles.
   */
  function Hsl2Rgb(hsl: HslColor): (c: Rgb)
    ensures HexValue(hsl) <= 0.0 ==> c == Rgb(hsl.l, hsl.l, hsl.l)
    ensures hsl.h == 1.0 ==> c == Rgb(hsl.l, hsl.l, hsl.l)
  {
    var v := HexValue(hsl);
    if v > 0.0 then
      var m := hsl.l + hsl.l - v;
      var h6 := hsl.h * 6.0;
      var sextant := Trunc(h6);
      SextantColor(sextant, v, m, (v - m) * (h6 - sextant as real), hsl.l)
    else Rgb(hsl.l, hsl.l, hsl.l)
  }

  /**
   * hsl2rgb with hue read modulo 1: sextant 6 (h == 1, the same hue as
   * h == 0) takes the case of sextant 0. The corrected half of the
   * sextant-6 finding; the copy and blend passes use Hsl2Rgb as written.
   */
  function Hsl2RgbWrapped(hsl: HslColor): Rgb
  {
    var v := HexValue(hsl);
    if v > 0.0 then
      var m := hsl.l + hsl.l - v;
      var h6 := hsl.h * 6.0;
      var sextant := Trunc(h6);
      SextantColor(if sextant == 6 then 0 else sextant, v, m, (v - m) * (h6 - sextant as real), hsl.l)
    else Rgb(hsl.l, hsl.l, hsl.l)
  }

  /** Below h == 1 the written and the corrected conversion agree. */
  lemma AsWrittenBelowOne(hsl: HslColor)
    requires 0.0 <= hsl.h < 1.0
    ensures Hsl2Rgb(hsl) == Hsl2RgbWrapped(hsl)
  {
    assert Trunc(hsl.h * 6.0) < 6;
  }

  /** hsl2rgb's `v` for lightness at most one half, with the saturation rgb2hsl gives. */
  lemma HexValueDark(v: real, m: real, hsl: HslColor)
    requires v + m > 0.0 && hsl.l == (v + m) / 2.0 <= 0.5 && hsl.s == (v - m) / (v + m)
    ensures HexValue(hsl) == v
  {
    var p := v + m;
    var l := hsl.l;
    var s := hsl.s;
    assert s * p == v - m;
    calc {
      l * (1.0 + s);
      p / 2.0 + (s * p) / 2.0;
      p / 2.0 + (v - m) / 2.0;
    }
  }

  /** hsl2rgb's `v` for lightness above one half, with the saturation rgb2hsl gives. */
  lemma HexValueBright(v: real, m: real, hsl: HslColor)
    requires v + m != 2.0 && hsl.l == (v + m) / 2.0 > 0.5 && hsl.s == (v - m) / (2.0 - v - m)
    ensures HexValue(hsl) == v
  {
    var d := 2.0 - v - m;
    var l := hsl.l;
    var s := hsl.s;
    assert s * d == v - m;
    calc {
      l + s - l * s;
      l + s * (1.0 - l);
      l + (s * d) / 2.0;
      l + (v - m) / 2.0;
    }
  }

  /** The largest component is rebuilt exactly from (s, l) unless the saturation divisor was 0. */
  lemma HexValueRecovered(c: Rgb)
    requires Chromatic(c) && Max3(c) + Min3(c) != 2.0
    ensures HexValue(Rgb2Hsl(c)) == Max3(c)
  {
    var v := Max3(c);
    var m := Min3(c);
    var hsl := Rgb2Hsl(c);
    if hsl.l <= 0.5 {
      assert hsl.s == (v - m) / (v + m);
      HexValueDark(v, m, hsl);
    } else {
      assert hsl.s == (v - m) / (2.0 - v - m);
      HexValueBright(v, m, hsl);
    }
  }

  /** `(int)(k + f)` for a whole k and a fraction f in [0, 1). */
  lemma TruncAt(k: int, f: real)
    requires 0 <= k && 0.0 <= f < 1.0
    ensures Trunc(k as real + f) == k
  {
  }

  /** `(v - m) * fract` lands back on the component the fraction was taken from. */
  lemma SpanTimesFraction(v: real, m: real, x: real)
    requires m < v
    ensures (v - m) * ((v - x) / (v - m)) == v - x
    ensures (v - m) * (1.0 - (v - x) / (v - m)) == x - m
  {
  }

  /** hsl2rgb's hexcone position for a given hue: the sextant case taken and its fraction. */
  function HueWheel(h6: real, v: real, m: real, l: real): Rgb
  {
    var sextant := Trunc(h6);
    SextantColor(if sextant == 6 then 0 else sextant, v, m, (v - m) * (h6 - sextant as real), l)
  }

  /** The corrected conversion, once `v` and `m` are known to be rebuilt. */
  lemma WrappedAt(hsl: HslColor, v: real, m: real)
    requires HexValue(hsl) == v && v > 0.0 && hsl.l + hsl.l - v == m
    ensures Hsl2RgbWrapped(hsl) == HueWheel(hsl.h * 6.0, v, m, hsl.l)
  {
  }

  /** Hue sextants 5, 0 and 1 (red largest) put every component back. */
  lemma {:induction false} RedLargestRebuilt(c: Rgb, l: real)
    requires Min3(c) < Max3(c) && c.r == Max3(c)
    ensures HueWheel(HueTimesSix(c), Max3(c), Min3(c), l) == c
  {
    var v := Max3(c);
    var m := Min3(c);
    var h6 := HueTimesSix(c);
    FractionBounds(v, m, c.g);
    FractionBounds(v, m, c.b);
    SpanTimesFraction(v, m, c.g);
    SpanTimesFraction(v, m, c.b);
    if c.g == m {
      if c.b == m {
        assert h6 == 6.0 && Trunc(h6) == 6;
      } else {
        TruncAt(5, (v - c.b) / (v - m));
      }
    } else if c.g == v {
      assert h6 == 1.0 && Trunc(h6) == 1;
    } else {
      assert c.b == m;
      TruncAt(0, 1.0 - (v - c.g) / (v - m));
    }
  }

  /** Hue sextants 1, 2 and 3 (green largest, red not) put every component back. */
  lemma {:induction false} GreenLargestRebuilt(c: Rgb, l: real)
    requires Min3(c) < Max3(c) && c.r != Max3(c) && c.g == Max3(c)
    ensures HueWheel(HueTimesSix(c), Max3(c), Min3(c), l) == c
  {
    var v := Max3(c);
    var m := Min3(c);
    var h6 := HueTimesSix(c);
    FractionBounds(v, m, c.r);
    FractionBounds(v, m, c.b);
    SpanTimesFraction(v, m, c.r);
    SpanTimesFraction(v, m, c.b);
    if c.b == m {
      if c.r == m {
        assert h6 == 2.0 && Trunc(h6) == 2;
      } else {
        TruncAt(1, (v - c.r) / (v - m));
      }
    } else if c.b == v {
      assert h6 == 3.0 && Trunc(h6) == 3;
    } else {
      assert c.r == m;
      TruncAt(2, 1.0 - (v - c.b) / (v - m));
    }
  }

  /** Hue sextants 3, 4 and 5 (blue largest alone) put every component back. */
  lemma {:induction false} BlueLargestRebuilt(c: Rgb, l: real)
    requires Min3(c) < Max3(c) && c.r != Max3(c) && c.g != Max3(c)
    ensures HueWheel(HueTimesSix(c), Max3(c), Min3(c), l) == c
  {
    var v := Max3(c);
    var m := Min3(c);
    var h6 := HueTimesSix(c);
    assert c.b == v;
    FractionBounds(v, m, c.r);
    FractionBounds(v, m, c.g);
    SpanTimesFraction(v, m, c.r);
    SpanTimesFraction(v, m, c.g);
    if c.r == m {
      if c.g == m {
        assert h6 == 4.0 && Trunc(h6) == 4;
      } else {
        TruncAt(3, (v - c.g) / (v - m));
      }
    } else {
      assert c.g == m;
      TruncAt(4, 1.0 - (v - c.r) / (v - m));
    }
  }

  /**
   * Round trip of the corrected conversion: every chromatic color whose
   * saturation divisor is nonzero comes back exactly.
   */
  lemma {:induction false} RoundTrip(c: Rgb)
    requires Chromatic(c) && Max3(c) + Min3(c) != 2.0
    ensures Hsl2RgbWrapped(Rgb2Hsl(c)) == c
  {
    var v := Max3(c);
    var m := Min3(c);
    var hsl := Rgb2Hsl(c);
    HexValueRecovered(c);
    assert hsl.h * 6.0 == HueTimesSix(c);
    WrappedAt(hsl, v, m);
    if c.r == v {
      RedLargestRebuilt(c, hsl.l);
    } else if c.g == v {
      GreenLargestRebuilt(c, hsl.l);
    } else {
      BlueLargestRebuilt(c, hsl.l);
    }
  }

  /**
   * The as-written conversion round-trips every chromatic color except those
   * whose red is the largest and whose green and blue are both the smallest.
   */
  lemma {:induction false} RoundTripAsWritten(c: Rgb)
    requires Chromatic(c) && Max3(c) + Min3(c) != 2.0
    ensures Hsl2Rgb(Rgb2Hsl(c)) == c <==> !(c.r == Max3(c) && c.g == Min3(c) && c.b == Min3(c))
  {
    var v := Max3(c);
    var m := Min3(c);
    var hsl := Rgb2Hsl(c);
    HexValueRecovered(c);
    RoundTrip(c);
    var h6 := hsl.h * 6.0;
    assert h6 == HueTimesSix(c);
    FractionBounds(v, m, c.r);
    FractionBounds(v, m, c.g);
    FractionBounds(v, m, c.b);
    if c.r == v && c.g == m && c.b == m {
      assert h6 == 6.0;
      assert Hsl2Rgb(hsl) == Rgb(hsl.l, hsl.l, hsl.l);
      assert hsl.l < v;
    } else {
      assert Trunc(h6) != 6;
    }
  }

  /** A fraction of the span between `m` and `v` stays inside it. */
  lemma SpanFraction(d: real, f: real, t: real)
    requires 0.0 <= d && 0.0 <= f <= 1.0 && t == d * f
    ensures 0.0 <= t <= d
  {
    if d > 0.0 && f > 0.0 {
      assert d * f > 0.0;
    }
    if d > 0.0 && f < 1.0 {
      var e := 1.0 - f;
      assert d * e > 0.0;
      assert d * e + d * f == d * (e + f);
    }
  }

  /** A color with every component in [m, v], one of them v and one m, spans exactly [m, v]. */
  lemma SpanOf(c: Rgb, v: real, m: real)
    requires m <= c.r <= v && m <= c.g <= v && m <= c.b <= v
    requires c.r == v || c.g == v || c.b == v
    requires c.r == m || c.g == m || c.b == m
    ensures Max3(c) == v && Min3(c) == m
  {
  }

  /** Every hexcone case has `v` as its largest and `m` as its smallest component. */
  lemma SextantSpan(sextant: int, v: real, m: real, vsf: real, l: real)
    requires 0 <= sextant <= 5 && 0.0 <= vsf <= v - m
    ensures Max3(SextantColor(sextant, v, m, vsf, l)) == v
    ensures Min3(SextantColor(sextant, v, m, vsf, l)) == m
  {
    SpanOf(SextantColor(sextant, v, m, vsf, l), v, m);
  }

  /**
   * The corrected hsl2rgb builds a color whose lightness is the one asked
   * for, whenever its hexcone value is positive and not below that lightness.
   */
  lemma {:induction false} WrappedLightnessKept(hsl: HslColor)
    requires 0.0 <= hsl.h <= 1.0 && 0.0 < HexValue(hsl) && hsl.l <= HexValue(hsl)
    ensures Rgb2Hsl(Hsl2RgbWrapped(hsl)).l == hsl.l
  {
    var v := HexValue(hsl);
    var m := hsl.l + hsl.l - v;
    WrappedAt(hsl, v, m);
    WheelSpan(hsl.h * 6.0, v, m, hsl.l);
  }

  /**
   * hsl2rgb as written keeps the lightness too: below h == 1 it is the
   * corrected conversion, and at h == 1 its gray (l, l, l) has lightness l.
   */
  lemma {:induction false} LightnessKept(hsl: HslColor)
    requires 0.0 <= hsl.h <= 1.0 && 0.0 < HexValue(hsl) && hsl.l <= HexValue(hsl)
    ensures Rgb2Hsl(Hsl2Rgb(hsl)).l == hsl.l
  {
    if hsl.h < 1.0 {
      AsWrittenBelowOne(hsl);
      WrappedLightnessKept(hsl);
    } else {
      var g := Rgb(hsl.l, hsl.l, hsl.l);
      assert Hsl2Rgb(hsl) == g;
      assert Max3(g) == hsl.l && Min3(g) == hsl.l;
    }
  }

  /** Every hue from 0 to 6 sextants lands on a color spanning exactly [m, v]. */
  lemma WheelSpan(h6: real, v: real, m: real, l: real)
    requires 0.0 <= h6 <= 6.0 && m <= v
    ensures Max3(HueWheel(h6, v, m, l)) == v && Min3(HueWheel(h6, v, m, l)) == m
  {
    var k := Trunc(h6);
    var f := h6 - k as real;
    assert 0 <= k <= 6 && 0.0 <= f < 1.0;
    var vsf := (v - m) * f;
    SpanFraction(v - m, f, vsf);
    var c := SextantColor(if k == 6 then 0 else k, v, m, vsf, l);
    assert HueWheel(h6, v, m, l) == c;
    SextantSpan(if k == 6 then 0 else k, v, m, vsf, l);
  }

  /** A chromatic color whose red is the largest and whose green and blue are both the smallest. */
  predicate PureRed(c: Rgb)
  {
    Chromatic(c) && c.r == Max3(c) && c.g == Min3(c) && c.b == Min3(c)
  }

  /** rgb2hsl puts every pure-red color at h == 1, the sextant hsl2rgb has no case for. */
  lemma PureRedAtOne(c: Rgb)
    requires PureRed(c)
    ensures Rgb2Hsl(c).h == 1.0
  {
    var v := Max3(c);
    var m := Min3(c);
    FractionBounds(v, m, c.b);
    assert HueTimesSix(c) == 5.0 + (v - c.b) / (v - m) == 6.0;
  }

  /** Pure red comes back as mid-gray from the as-written conversion. */
  lemma PureRedLosesHue()
    ensures Rgb2Hsl(Rgb(1.0, 0.0, 0.0)) == HslColor(1.0, 1.0, 0.5)
    ensures Hsl2Rgb(HslColor(1.0, 1.0, 0.5)) == Rgb(0.5, 0.5, 0.5)
    ensures Hsl2RgbWrapped(HslColor(1.0, 1.0, 0.5)) == Rgb(1.0, 0.0, 0.0)
  {
    assert Max3(Rgb(1.0, 0.0, 0.0)) == 1.0;
    assert Min3(Rgb(1.0, 0.0, 0.0)) == 0.0;
    assert HexValue(HslColor(1.0, 1.0, 0.5)) == 1.0;
    assert Trunc(6.0) == 6;
  }
}
