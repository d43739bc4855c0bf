/**
 * The manual anti-ghosting blend of the float stack (the pfs::Array2Df
 * overload of blend in HdrWizard/HdrCreationManager.cpp): where either mask
 * is painted, an item's pixel is mixed with the good item's pixel, whose
 * lightness is first brought to the item's own average.
 */
module Blending {
  import opened Hsl
  import opened Pixels
  import opened Stats
  import opened Raster

  /** The weight of the good image: the good mask's alpha when painted, otherwise the item's own, over 255. */
  function Weight(a1: int, ag: int): (alpha: real)
    requires 0 <= a1 < 256 && 0 <= ag < 256
    ensures 0.0 <= alpha <= 1.0
    ensures alpha == 1.0 <==> ag == 255 || (ag == 0 && a1 == 255)
  {
    (if ag == 0 then a1 else ag) as real / 255.0
  }

  /** (1 - alpha) * a + alpha * b. */
  function Mix(a: real, b: real, alpha: real): real
  {
    (1.0 - alpha) * a + alpha * b
  }

  /**
   * One pixel of blend: `c1` the item's pixel, `c2` the good item's, `a1`
   * and `ag` the alphas of their masks, `sf` the lightness ratio and `cap`
   * the lightness cap.
   */
  function BlendPixel(c1: Rgb, c2: Rgb, a1: int, ag: int, sf: real, cap: real): (c: Rgb)
    requires 0 <= a1 < 256 && 0 <= ag < 256
    ensures a1 == 0 && ag == 0 ==> c == c1
  {
    if a1 == 0 && ag == 0 then c1
    else
      var alpha := Weight(a1, ag);
      var s := Rescale(c2, sf, cap);
      Rgb(Mix(c1.r, s.r, alpha), Mix(c1.g, s.g, alpha), Mix(c1.b, s.b, alpha))
  }

  /** A mix with weight between 0 and 1 lies between its two ends. */
  lemma MixBetween(a: real, b: real, alpha: real)
    requires 0.0 <= alpha <= 1.0
    ensures RealMin(a, b) <= Mix(a, b, alpha) <= RealMax(a, b)
  {
    var d := b - a;
    assert Mix(a, b, alpha) == a + alpha * d;
    PartOf(alpha, d);
  }

  /** A fraction of a difference lies between 0 and the difference. */
  lemma PartOf(k: real, d: real)
    requires 0.0 <= k <= 1.0
    ensures 0.0 <= d ==> 0.0 <= k * d <= d
    ensures d <= 0.0 ==> d <= k * d <= 0.0
  {
    assert d - k * d == (1.0 - k) * d;
  }

  /** Both ends at the same value: the mix is that value. */
  lemma MixSame(a: real, alpha: real)
    ensures Mix(a, a, alpha) == a
  {
    assert (1.0 - alpha) * a + alpha * a == a;
  }

  /** A fully opaque mask replaces the pixel by the good pixel, rescaled. */
  lemma OpaqueTakesGood(c1: Rgb, c2: Rgb, a1: int, ag: int, sf: real, cap: real)
    requires 0 <= a1 < 256 && 0 <= ag < 256
    requires ag == 255 || (ag == 0 && a1 == 255)
    ensures BlendPixel(c1, c2, a1, ag, sf, cap) == Rescale(c2, sf, cap)
  {
    var s := Rescale(c2, sf, cap);
    assert Weight(a1, ag) == 1.0;
    assert Mix(c1.r, s.r, 1.0) == s.r && Mix(c1.g, s.g, 1.0) == s.g && Mix(c1.b, s.b, 1.0) == s.b;
  }

  /** Where the good image's mask is painted, the item's own mask does not matter. */
  lemma GoodMaskDecides(c1: Rgb, c2: Rgb, a1: int, b1: int, ag: int, sf: real, cap: real)
    requires 0 <= a1 < 256 && 0 <= b1 < 256 && 0 < ag < 256
    ensures BlendPixel(c1, c2, a1, ag, sf, cap) == BlendPixel(c1, c2, b1, ag, sf, cap)
  {
  }

  /** A pixel already equal to the rescaled good pixel is left as it is, whatever the masks. */
  lemma BlendMatchedPixel(c1: Rgb, c2: Rgb, a1: int, ag: int, sf: real, cap: real)
    requires 0 <= a1 < 256 && 0 <= ag < 256
    requires c1 == Rescale(c2, sf, cap)
    ensures BlendPixel(c1, c2, a1, ag, sf, cap) == c1
  {
    var alpha := Weight(a1, ag);
    MixSame(c1.r, alpha);
    MixSame(c1.g, alpha);
    MixSame(c1.b, alpha);
  }

  /** A pixel within [0, max_rgb] stays within it: the good pixel is clamped and the mix is convex. */
  lemma BlendKeepsRange(c1: Rgb, c2: Rgb, a1: int, ag: int, sf: real, cap: real)
    requires 0 <= a1 < 256 && 0 <= ag < 256
    requires InRange(c1)
    ensures InRange(BlendPixel(c1, c2, a1, ag, sf, cap))
  {
    if !(a1 == 0 && ag == 0) {
      var alpha := Weight(a1, ag);
      var s := Rescale(c2, sf, cap);
      MixBetween(c1.r, s.r, alpha);
      MixBetween(c1.g, s.g, alpha);
      MixBetween(c1.b, s.b, alpha);
    }
  }

  /** The masks cover the w x h channels. */
  predicate Covers(mask: Picture, w: int, h: int)
  {
    Valid(mask) && w <= mask.width && h <= mask.height
  }

  /** Blends row j of the item with row j of the good item. */
  method BlendRow(R1: array2<real>, G1: array2<real>, B1: array2<real>,
                  R2: array2<real>, G2: array2<real>, B2: array2<real>,
                  mask: Picture, maskGood: Picture, sf: real, maxL: real, j: int)
    requires SameShape(R1, G1, B1, R2, G2, B2) && Disjoint(R2, G2, B2, R1, G1, B1)
    requires Covers(mask, R1.Length0, R1.Length1) && Covers(maskGood, R1.Length0, R1.Length1)
    requires 0 <= j < R1.Length1
    modifies R1, G1, B1
    ensures forall y, x :: 0 <= y < R1.Length1 && 0 <= x < R1.Length0 ==>
              Rgb(R1[x, y], G1[x, y], B1[x, y]) ==
              if y == j
              then BlendPixel(Rgb(old(R1[x, y]), old(G1[x, y]), old(B1[x, y])), Rgb(R2[x, y], G2[x, y], B2[x, y]),
                              AlphaAt(mask, x, y), AlphaAt(maskGood, x, y), sf, maxL)
              else Rgb(old(R1[x, y]), old(G1[x, y]), old(B1[x, y]))
  {
    for i := 0 to R1.Length0
      invariant forall y, x :: 0 <= y < R1.Length1 && 0 <= x < R1.Length0 ==>
                  Rgb(R1[x, y], G1[x, y], B1[x, y]) ==
                  if y == j && x < i
                  then BlendPixel(Rgb(old(R1[x, y]), old(G1[x, y]), old(B1[x, y])), Rgb(R2[x, y], G2[x, y], B2[x, y]),
                                  AlphaAt(mask, x, y), AlphaAt(maskGood, x, y), sf, maxL)
                  else Rgb(old(R1[x, y]), old(G1[x, y]), old(B1[x, y]))
    {
      var a1, ag := AlphaAt(mask, i, j), AlphaAt(maskGood, i, j);
      if a1 == 0 && ag == 0 {
        continue;
      }
      var c := BlendPixel(Rgb(R1[i, j], G1[i, j], B1[i, j]), Rgb(R2[i, j], G2[i, j], B2[i, j]), a1, ag, sf, maxL);
      R1[i, j] := c.r;
      G1[i, j] := c.g;
      B1[i, j] := c.b;
    }
  }

  /** The pixel loops of blend, for a given lightness ratio and cap. */
  method BlendRows(R1: array2<real>, G1: array2<real>, B1: array2<real>,
                   R2: array2<real>, G2: array2<real>, B2: array2<real>,
                   mask: Picture, maskGood: Picture, sf: real, maxL: real)
    requires SameShape(R1, G1, B1, R2, G2, B2) && Disjoint(R2, G2, B2, R1, G1, B1)
    requires Covers(mask, R1.Length0, R1.Length1) && Covers(maskGood, R1.Length0, R1.Length1)
    modifies R1, G1, B1
    ensures forall y, x :: 0 <= y < R1.Length1 && 0 <= x < R1.Length0 ==>
              Rgb(R1[x, y], G1[x, y], B1[x, y]) ==
              BlendPixel(Rgb(old(R1[x, y]), old(G1[x, y]), old(B1[x, y])), Rgb(R2[x, y], G2[x, y], B2[x, y]),
                         AlphaAt(mask, x, y), AlphaAt(maskGood, x, y), sf, maxL)
  {
    for j := 0 to R1.Length1
      invariant forall y, x :: 0 <= y < R1.Length1 && 0 <= x < R1.Length0 ==>
                  Rgb(R1[x, y], G1[x, y], B1[x, y]) ==
                  if y < j
                  then BlendPixel(Rgb(old(R1[x, y]), old(G1[x, y]), old(B1[x, y])), Rgb(R2[x, y], G2[x, y], B2[x, y]),
                                  AlphaAt(mask, x, y), AlphaAt(maskGood, x, y), sf, maxL)
                  else Rgb(old(R1[x, y]), old(G1[x, y]), old(B1[x, y]))
    {
      BlendRow(R1, G1, B1, R2, G2, B2, mask, maskGood, sf, maxL, j);
    }
  }

  /**
   * blend (float overload): the item (R1, G1, B1) is blended, pixel by pixel,
   * with the good item (R2, G2, B2) under the two masks; the good item's
   * lightness is scaled by the ratio of the two average lightnesses and capped
   * at the larger of the two maximum lightnesses. `p1` and `p2` are the
   * lightness planes of the two items before the call.
   */
  method Blend(R1: array2<real>, G1: array2<real>, B1: array2<real>,
               R2: array2<real>, G2: array2<real>, B2: array2<real>,
               mask: Picture, maskGood: Picture, ghost p1: Plane, ghost p2: Plane)
    returns (ghost sf: real, ghost maxL: real)
    requires SameShape(R1, G1, B1, R2, G2, B2) && Disjoint(R2, G2, B2, R1, G1, B1)
    requires Covers(mask, R1.Length0, R1.Length1) && Covers(maskGood, R1.Length0, R1.Length1)
    requires LightsOf(p1, R1, G1, B1) && LightsOf(p2, R2, G2, B2)
    modifies R1, G1, B1
    ensures sf == Ratio(PlaneMean(p1, R1.Length0), PlaneMean(p2, R1.Length0))
    ensures maxL == RealMax(PlaneMax(p1, R1.Length0, R1.Length1), PlaneMax(p2, R1.Length0, R1.Length1))
    ensures forall y, x :: 0 <= y < R1.Length1 && 0 <= x < R1.Length0 ==>
              Rgb(R1[x, y], G1[x, y], B1[x, y]) ==
              BlendPixel(Rgb(old(R1[x, y]), old(G1[x, y]), old(B1[x, y])), Rgb(R2[x, y], G2[x, y], B2[x, y]),
                         AlphaAt(mask, x, y), AlphaAt(maskGood, x, y), sf, maxL)
  {
    var avg1 := AverageLightness(R1, G1, B1, p1);
    var avg2 := AverageLightness(R2, G2, B2, p2);
    var ratio := Ratio(avg1, avg2);
    var maxL1 := Stats.MaxLightness(R1, G1, B1, p1);
    var maxL2 := Stats.MaxLightness(R2, G2, B2, p2);
    var cap := RealMax(maxL1, maxL2);
    sf, maxL := ratio, cap;
    BlendRows(R1, G1, B1, R2, G2, B2, mask, maskGood, ratio, cap);
  }
}
