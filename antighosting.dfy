/**
 * The two anti-ghosting passes over the float stack
 * (HdrWizard/HdrCreationManager.cpp): doAntiGhosting blends every item with
 * a chosen good item under hand-painted masks, doAutoAntiGhostingMDR copies
 * the reference item's patches into every other item where they disagree.
 */
module AntiGhosting {
  import opened Hsl
  import opened Pixels
  import Stats
  import opened Patches
  import opened Blending
  import opened Raster
  import opened Calibration
  import opened Ghosting

  /** One mask per item, each covering the w x h channels. */
  predicate MasksCover(masks: seq<Picture>, w: int, h: int, n: int)
  {
    |masks| == n && forall k :: 0 <= k < n ==> Covers(masks[k], w, h)
  }

  /**
   * What blend makes of pixel (x, y) of an item with lightness plane pk and
   * colour c, against the good item with lightness plane pg and colour g.
   */
  function Blended(c: Rgb, g: Rgb, mask: Picture, maskGood: Picture, pk: Plane, pg: Plane,
                   w: int, h: int, x: int, y: int): Rgb
    requires IsPlane(pk, w, h) && IsPlane(pg, w, h) && Covers(mask, w, h) && Covers(maskGood, w, h)
    requires 0 <= x < w && 0 <= y < h
  {
    BlendPixel(c, g, AlphaAt(mask, x, y), AlphaAt(maskGood, x, y),
               Ratio(Stats.PlaneMean(pk, w), Stats.PlaneMean(pg, w)),
               RealMax(Stats.PlaneMax(pk, w, h), Stats.PlaneMax(pg, w, h)))
  }

  /** One blend of doAntiGhosting: item idx against the good item. */
  method BlendItem(Rs: seq<array2<real>>, Gs: seq<array2<real>>, Bs: seq<array2<real>>,
                   masks: seq<Picture>, good: int, idx: int, ghost ps: seq<Plane>)
    requires Stack(Rs, Gs, Bs) && Distinct(Rs, Gs, Bs) && |ps| == |Rs|
    requires 0 <= good < |Rs| && 0 <= idx < |Rs| && idx != good
    requires MasksCover(masks, Rs[0].Length0, Rs[0].Length1, |Rs|)
    requires Stats.LightsOf(ps[idx], Rs[idx], Gs[idx], Bs[idx]) && Stats.LightsOf(ps[good], Rs[good], Gs[good], Bs[good])
    modifies Rs[idx], Gs[idx], Bs[idx]
    ensures forall y, x :: 0 <= y < Rs[0].Length1 && 0 <= x < Rs[0].Length0 ==>
              Rgb(Rs[idx][x, y], Gs[idx][x, y], Bs[idx][x, y]) ==
              Blended(Rgb(old(Rs[idx][x, y]), old(Gs[idx][x, y]), old(Bs[idx][x, y])),
                      Rgb(Rs[good][x, y], Gs[good][x, y], Bs[good][x, y]),
                      masks[idx], masks[good], ps[idx], ps[good], Rs[0].Length0, Rs[0].Length1, x, y)
  {
    assert SameShape(Rs[0], Gs[0], Bs[0], Rs[idx], Gs[idx], Bs[idx]);
    assert SameShape(Rs[0], Gs[0], Bs[0], Rs[good], Gs[good], Bs[good]);
    var _, _ := Blend(Rs[idx], Gs[idx], Bs[idx], Rs[good], Gs[good], Bs[good],
                      masks[idx], masks[good], ps[idx], ps[good]);
  }

  /**
   * The float branch of doAntiGhosting: every item but the good one is
   * blended with the good one under its own mask and the good one's mask;
   * the good item keeps its pixels. `ps` are the lightness planes of the
   * items before the call: the lightness ratio and cap of each blend come
   * from them.
   */
  method BlendStack(Rs: seq<array2<real>>, Gs: seq<array2<real>>, Bs: seq<array2<real>>,
                    masks: seq<Picture>, good: int, ghost ps: seq<Plane>)
    requires Stack(Rs, Gs, Bs) && Distinct(Rs, Gs, Bs) && PlanesOf(ps, Rs, Gs, Bs)
    requires 0 <= good < |Rs| && MasksCover(masks, Rs[0].Length0, Rs[0].Length1, |Rs|)
    modifies Rs, Gs, Bs
    ensures forall k :: 0 <= k < |Rs| ==> IsPlane(ps[k], Rs[0].Length0, Rs[0].Length1)
    ensures forall k, y, x {:trigger Rs[k][x, y]} :: 0 <= k < |Rs| && 0 <= y < Rs[0].Length1 && 0 <= x < Rs[0].Length0 ==>
              Rgb(Rs[k][x, y], Gs[k][x, y], Bs[k][x, y]) ==
              if k == good then Rgb(old(Rs[k][x, y]), old(Gs[k][x, y]), old(Bs[k][x, y]))
              else Blended(Rgb(old(Rs[k][x, y]), old(Gs[k][x, y]), old(Bs[k][x, y])),
                           Rgb(old(Rs[good][x, y]), old(Gs[good][x, y]), old(Bs[good][x, y])),
                           masks[k], masks[good], ps[k], ps[good], Rs[0].Length0, Rs[0].Length1, x, y)
  {
    var w, h := Rs[0].Length0, Rs[0].Length1;
    forall k | 0 <= k < |Rs|
      ensures IsPlane(ps[k], w, h)
    {
      assert SameShape(Rs[0], Gs[0], Bs[0], Rs[k], Gs[k], Bs[k]);
    }
    for idx := 0 to |Rs|
      invariant forall k :: 0 <= k < |Rs| && (idx <= k || k == good) ==> Stats.LightsOf(ps[k], Rs[k], Gs[k], Bs[k])
      invariant unchanged(Rs[good], Gs[good], Bs[good])
      invariant forall k, y, x {:trigger Rs[k][x, y]} :: 0 <= k < |Rs| && 0 <= y < h && 0 <= x < w ==>
                  Rgb(Rs[k][x, y], Gs[k][x, y], Bs[k][x, y]) ==
                  if k == good || idx <= k then Rgb(old(Rs[k][x, y]), old(Gs[k][x, y]), old(Bs[k][x, y]))
                  else Blended(Rgb(old(Rs[k][x, y]), old(Gs[k][x, y]), old(Bs[k][x, y])),
                               Rgb(old(Rs[good][x, y]), old(Gs[good][x, y]), old(Bs[good][x, y])),
                               masks[k], masks[good], ps[k], ps[good], w, h, x, y)
    {
      if idx != good {
        BlendItem(Rs, Gs, Bs, masks, good, idx, ps);
      }
    }
  }

  /**
   * The reference item of doAutoAntiGhostingMDR: the first item with the
   * largest hue ghost score. `c` is the stack's hue cube.
   */
  method ReferenceItem(Rs: seq<array2<real>>, Gs: seq<array2<real>>, Bs: seq<array2<real>>,
                       ghost c: seq<Plane>) returns (h0: int)
    requires Stats.HuesOf(c, Rs, Gs, Bs)
    ensures 0 <= h0 < |Rs| && Stats.IsFirstMax(Stats.ScoresOf(c, Rs[0].Length0, Rs[0].Length1), h0)
  {
    var he := HueScores(Rs, Gs, Bs, c);
    h0 := Stats.FindIndex(he);
  }

  /**
   * `sf` holds, for every lightness plane of `ps`, its mean over the mean of
   * plane h0 (0 when that mean is 0).
   */
  predicate ScaledTo(sf: seq<real>, ps: seq<Plane>, h0: int, w: int, h: int)
  {
    (forall k :: 0 <= k < |ps| ==> IsPlane(ps[k], w, h)) && Scaled(sf, Means(ps, w), h0)
  }

  /**
   * The scale factors of doAutoAntiGhostingMDR: every item's average
   * lightness over the reference's (0 when the reference's is 0).
   */
  method ScaleFactorsOf(Rs: seq<array2<real>>, Gs: seq<array2<real>>, Bs: seq<array2<real>>, ghost ps: seq<Plane>,
                        h0: int) returns (sf: seq<real>)
    requires Stack(Rs, Gs, Bs) && PlanesOf(ps, Rs, Gs, Bs) && 0 <= h0 < |Rs|
    ensures ScaledTo(sf, ps, h0, Rs[0].Length0, Rs[0].Length1)
  {
    forall k | 0 <= k < |Rs|
      ensures IsPlane(ps[k], Rs[0].Length0, Rs[0].Length1)
    {
      assert SameShape(Rs[0], Gs[0], Bs[0], Rs[k], Gs[k], Bs[k]);
    }
    var avg := AverageLightnesses(Rs, Gs, Bs, ps);
    sf := ScaleFactors(avg, h0);
    assert avg == Means(ps, Rs[0].Length0);
  }

  /**
   * The patch grid of doAutoAntiGhostingMDR, all clear at first, then set
   * wherever an item is ghosted against the reference h0: copyPatches then
   * replaces exactly the pixels Corrected names.
   */
  method FlagGrid(Rs: seq<array2<real>>, Gs: seq<array2<real>>, Bs: seq<array2<real>>, es: seq<ExpoTime>,
                  h0: int, gx: int, gy: int, threshold: real, ln: real -> real) returns (patches: array2<bool>)
    requires Stack(Rs, Gs, Bs) && |es| == |Rs| && 0 <= h0 < |Rs|
    requires GridFits(Rs[0].Length0, Rs[0].Length1, gx, gy)
    ensures fresh(patches) && IsGrid(patches)
    ensures forall x, y :: Replaced(Rs[h0], Gs[h0], Bs[h0], patches, gx, gy, x, y) <==>
                           Corrected(Rs, Gs, Bs, es, h0, ln, gx, gy, threshold, x, y)
  {
    patches := new bool[GridSize, GridSize]((_, _) => false);
    label Clear:
    FlagGhosts(Rs, Gs, Bs, es, h0, patches, gx, gy, threshold, ln);
    forall x, y
      ensures Replaced(Rs[h0], Gs[h0], Bs[h0], patches, gx, gy, x, y) <==>
              Corrected(Rs, Gs, Bs, es, h0, ln, gx, gy, threshold, x, y)
    {
      if 0 <= x && 0 <= y && x / gx < GridSize && y / gy < GridSize {
        assert !old@Clear(patches[x / gx, y / gy]);
      }
    }
  }

  /**
   * The second half of doAutoAntiGhostingMDR: flag the grid against the
   * reference h0, then copy the reference's active flagged patches, each
   * rescaled by the item's factor, into every other item.
   */
  method CorrectGhosts(Rs: seq<array2<real>>, Gs: seq<array2<real>>, Bs: seq<array2<real>>, es: seq<ExpoTime>,
                       h0: int, sf: seq<real>, threshold: real, ln: real -> real)
    requires Stack(Rs, Gs, Bs) && Distinct(Rs, Gs, Bs) && |es| == |Rs| && 0 <= h0 < |Rs| && |sf| == |Rs|
    requires GridSize <= Rs[0].Length0 && GridSize <= Rs[0].Length1
    modifies Rs, Gs, Bs
    ensures forall k, y, x {:trigger Rs[k][x, y]} :: 0 <= k < |Rs| && 0 <= y < Rs[0].Length1 && 0 <= x < Rs[0].Length0 ==>
              Rgb(Rs[k][x, y], Gs[k][x, y], Bs[k][x, y]) ==
              if k != h0 && old(Corrected(Rs, Gs, Bs, es, h0, ln, Rs[0].Length0 / GridSize, Rs[0].Length1 / GridSize, threshold, x, y))
              then Rescale(Rgb(old(Rs[h0][x, y]), old(Gs[h0][x, y]), old(Bs[h0][x, y])), sf[k], MaxLightness)
              else Rgb(old(Rs[k][x, y]), old(Gs[k][x, y]), old(Bs[k][x, y]))
  {
    var gx, gy := Rs[0].Length0 / GridSize, Rs[0].Length1 / GridSize;
    var patches := FlagGrid(Rs, Gs, Bs, es, h0, gx, gy, threshold, ln);
    CopyPatches(Rs, Gs, Bs, patches, h0, sf, gx, gy);
  }

  /**
   * doAutoAntiGhostingMDR: every item k but the reference h0 gets, at every
   * pixel of a grid cell that some item flags against the reference and
   * whose reference patch is active, the reference pixel rescaled by k's
   * scale factor; all other pixels, and the whole reference, keep their
   * values. `ps` are the lightness planes of the items before the call.
   */
  method AutoAntiGhost(Rs: seq<array2<real>>, Gs: seq<array2<real>>, Bs: seq<array2<real>>, es: seq<ExpoTime>,
                       threshold: real, ln: real -> real, ghost ps: seq<Plane>, ghost hues: seq<Plane>)
    returns (ghost h0: int, ghost sf: seq<real>)
    requires Stack(Rs, Gs, Bs) && Distinct(Rs, Gs, Bs) && PlanesOf(ps, Rs, Gs, Bs) && |es| == |Rs|
    requires Stats.HuesOf(hues, Rs, Gs, Bs)
    requires GridSize <= Rs[0].Length0 && GridSize <= Rs[0].Length1
    modifies Rs, Gs, Bs
    ensures 0 <= h0 < |Rs| && Stats.IsFirstMax(Stats.ScoresOf(hues, Rs[0].Length0, Rs[0].Length1), h0)
    ensures ScaledTo(sf, ps, h0, Rs[0].Length0, Rs[0].Length1)
    ensures forall k, y, x {:trigger Rs[k][x, y]} :: 0 <= k < |Rs| && 0 <= y < Rs[0].Length1 && 0 <= x < Rs[0].Length0 ==>
              Rgb(Rs[k][x, y], Gs[k][x, y], Bs[k][x, y]) ==
              if k != h0 && old(Corrected(Rs, Gs, Bs, es, h0, ln, Rs[0].Length0 / GridSize, Rs[0].Length1 / GridSize, threshold, x, y))
              then Rescale(Rgb(old(Rs[h0][x, y]), old(Gs[h0][x, y]), old(Bs[h0][x, y])), sf[k], MaxLightness)
              else Rgb(old(Rs[k][x, y]), old(Gs[k][x, y]), old(Bs[k][x, y]))
  {
    var ref := ReferenceItem(Rs, Gs, Bs, hues);
    var factors := ScaleFactorsOf(Rs, Gs, Bs, ps, ref);
    CorrectGhosts(Rs, Gs, Bs, es, ref, factors, threshold, ln);
    h0, sf := ref, factors;
  }
}
