/**
 * The steps of automatic anti-ghosting on the float stack
 * (doAutoAntiGhostingMDR in HdrWizard/HdrCreationManager.cpp): average
 * lightness and hue ghost score of every item, the reference item, the
 * scale factors, and the grid of patches flagged by comparing every item
 * with the reference.
 */
module Ghosting {
  import opened Hsl
  import opened Pixels
  import opened Stats
  import opened Patches
  import opened Calibration

  /** ln 2, to 16 digits: logf(t) of an exposure time t = 2^ev is ev * ln 2. */
  const Ln2: real := 0.6931471805599453

  /**
   * deltaEV = logf(expotimes[h0]) - logf(expotimes[h]): a number when both
   * times are known, NaN when either is -1 or already NaN.
   */
  function DeltaEv(e0: ExpoTime, eh: ExpoTime): (d: Delta)
    ensures d.Finite? <==> e0.Ev? && eh.Ev?
    ensures d.Finite? ==> (d.value == 0.0 <==> e0 == eh)
    ensures d.Finite? ==> (d.value > 0.0 <==> e0.ev > eh.ev)
  {
    if e0.Ev? && eh.Ev? then Finite((e0.ev - eh.ev) * Ln2) else NaN
  }

  /** Seen from the other item, the exposure offset changes sign. */
  lemma DeltaEvSwap(e0: ExpoTime, eh: ExpoTime)
    ensures DeltaEv(eh, e0) == Negate(DeltaEv(e0, eh))
  {
    if e0.Ev? && eh.Ev? {
      assert (eh.ev - e0.ev) * Ln2 == -((e0.ev - eh.ev) * Ln2);
    }
  }

  /**
   * The verdict on a cell does not depend on which of the two items is taken
   * as the reference, when the offset is taken from their exposure times.
   */
  lemma VerdictSwap(R1: array2<real>, G1: array2<real>, B1: array2<real>,
                    R2: array2<real>, G2: array2<real>, B2: array2<real>,
                    e1: ExpoTime, e2: ExpoTime, ln: real -> real,
                    i: int, j: int, gx: int, gy: int, threshold: real)
    ensures Ghosted(R1, G1, B1, R2, G2, B2, DeltaEv(e1, e2), ln, i, j, gx, gy, threshold) ==
            Ghosted(R2, G2, B2, R1, G1, B1, DeltaEv(e2, e1), ln, i, j, gx, gy, threshold)
  {
    DeltaEvSwap(e1, e2);
    GhostedSymmetric(R1, G1, B1, R2, G2, B2, DeltaEv(e1, e2), ln, i, j, gx, gy, threshold);
  }

  /** Item h, compared with the reference h0, marks cell (i, j). */
  predicate Marks(Rs: seq<array2<real>>, Gs: seq<array2<real>>, Bs: seq<array2<real>>, es: seq<ExpoTime>,
                  h0: int, h: int, ln: real -> real, i: int, j: int, gx: int, gy: int, threshold: real)
    requires |Gs| == |Rs| && |Bs| == |Rs| && |es| == |Rs| && 0 <= h0 < |Rs| && 0 <= h < |Rs|
    reads Rs, Gs, Bs
  {
    h != h0 &&
    Ghosted(Rs[h0], Gs[h0], Bs[h0], Rs[h], Gs[h], Bs[h], DeltaEv(es[h0], es[h]), ln, i, j, gx, gy, threshold)
  }

  /** One of items 0 .. n-1 marks cell (i, j). */
  predicate Flagged(Rs: seq<array2<real>>, Gs: seq<array2<real>>, Bs: seq<array2<real>>, es: seq<ExpoTime>,
                    h0: int, n: int, ln: real -> real, i: int, j: int, gx: int, gy: int, threshold: real)
    requires |Gs| == |Rs| && |Bs| == |Rs| && |es| == |Rs| && 0 <= h0 < |Rs| && 0 <= n <= |Rs|
    reads Rs, Gs, Bs
  {
    n > 0 &&
    (Flagged(Rs, Gs, Bs, es, h0, n - 1, ln, i, j, gx, gy, threshold) ||
     Marks(Rs, Gs, Bs, es, h0, n - 1, ln, i, j, gx, gy, threshold))
  }

  /** A cell is flagged exactly when some item other than the reference marks it. */
  lemma {:induction false} FlaggedByOne(Rs: seq<array2<real>>, Gs: seq<array2<real>>, Bs: seq<array2<real>>,
                                        es: seq<ExpoTime>, h0: int, n: int, ln: real -> real,
                                        i: int, j: int, gx: int, gy: int, threshold: real)
    requires |Gs| == |Rs| && |Bs| == |Rs| && |es| == |Rs| && 0 <= h0 < |Rs| && 0 <= n <= |Rs|
    ensures Flagged(Rs, Gs, Bs, es, h0, n, ln, i, j, gx, gy, threshold) <==>
            exists h :: 0 <= h < n && h != h0 &&
              Ghosted(Rs[h0], Gs[h0], Bs[h0], Rs[h], Gs[h], Bs[h], DeltaEv(es[h0], es[h]), ln, i, j, gx, gy, threshold)
  {
    if n > 0 {
      FlaggedByOne(Rs, Gs, Bs, es, h0, n - 1, ln, i, j, gx, gy, threshold);
      if Marks(Rs, Gs, Bs, es, h0, n - 1, ln, i, j, gx, gy, threshold) {
        assert (n - 1) != h0;
      }
    }
  }

  /** The reference alone flags nothing: a stack of one image has no ghosts. */
  lemma {:induction false} ReferenceAloneFlagsNothing(Rs: seq<array2<real>>, Gs: seq<array2<real>>, Bs: seq<array2<real>>,
                                                      es: seq<ExpoTime>, h0: int, ln: real -> real,
                                                      i: int, j: int, gx: int, gy: int, threshold: real)
    requires |Gs| == |Rs| && |Bs| == |Rs| && |es| == |Rs| && |Rs| == 1 && h0 == 0
    ensures !Flagged(Rs, Gs, Bs, es, h0, |Rs|, ln, i, j, gx, gy, threshold)
  {
    assert !Flagged(Rs, Gs, Bs, es, h0, 0, ln, i, j, gx, gy, threshold);
  }

  /** The lightness planes of the items of the stack. */
  ghost predicate PlanesOf(ps: seq<Plane>, Rs: seq<array2<real>>, Gs: seq<array2<real>>, Bs: seq<array2<real>>)
    reads Rs, Gs, Bs
  {
    |ps| == |Rs| && |Gs| == |Rs| && |Bs| == |Rs| &&
    forall k :: 0 <= k < |Rs| ==> LightsOf(ps[k], Rs[k], Gs[k], Bs[k])
  }

  /** The lightness planes the stack's buffers currently hold. */
  ghost function Planes(Rs: seq<array2<real>>, Gs: seq<array2<real>>, Bs: seq<array2<real>>): (ps: seq<Plane>)
    requires Stack(Rs, Gs, Bs)
    reads Rs, Gs, Bs
    ensures PlanesOf(ps, Rs, Gs, Bs)
  {
    seq(|Rs|, k requires 0 <= k < |Rs| reads Rs, Gs, Bs =>
      assert SameShape(Rs[0], Gs[0], Bs[0], Rs[k], Gs[k], Bs[k]);
      LightnessOf(Rs[k], Gs[k], Bs[k]))
  }

  /** The first loop of doAutoAntiGhostingMDR: the average lightness of every item. */
  method AverageLightnesses(Rs: seq<array2<real>>, Gs: seq<array2<real>>, Bs: seq<array2<real>>,
                            ghost ps: seq<Plane>) returns (avg: seq<real>)
    requires Stack(Rs, Gs, Bs) && PlanesOf(ps, Rs, Gs, Bs)
    ensures |avg| == |Rs|
    ensures forall k :: 0 <= k < |Rs| ==> avg[k] == PlaneMean(ps[k], Rs[0].Length0)
  {
    avg := [];
    for k := 0 to |Rs|
      invariant |avg| == k
      invariant forall m :: 0 <= m < k ==> avg[m] == PlaneMean(ps[m], Rs[0].Length0)
    {
      assert SameShape(Rs[0], Gs[0], Bs[0], Rs[k], Gs[k], Bs[k]);
      var a := AverageLightness(Rs[k], Gs[k], Bs[k], ps[k]);
      avg := avg + [a];
    }
  }

  /** The second loop of doAutoAntiGhostingMDR: the hue ghost score of every item. */
  method HueScores(Rs: seq<array2<real>>, Gs: seq<array2<real>>, Bs: seq<array2<real>>,
                   ghost c: seq<Plane>) returns (he: seq<real>)
    requires HuesOf(c, Rs, Gs, Bs)
    ensures he == ScoresOf(c, Rs[0].Length0, Rs[0].Length1)
  {
    he := [];
    for k := 0 to |Rs|
      invariant |he| == k
      invariant forall m :: 0 <= m < k ==> he[m] == GhostScore(c, Rs[0].Length0, Rs[0].Length1, m)
    {
      var s := HueSquaredMean(Rs, Gs, Bs, c, k);
      he := he + [s];
    }
  }

  /** The mean of every plane. */
  function Means(ps: seq<Plane>, w: int): (m: seq<real>)
    requires forall k :: 0 <= k < |ps| ==> IsPlane(ps[k], w, |ps[k]|)
    ensures |m| == |ps| && forall k :: 0 <= k < |ps| ==> m[k] == PlaneMean(ps[k], w)
  {
    seq(|ps|, k requires 0 <= k < |ps| => PlaneMean(ps[k], w))
  }

  /**
   * `sf` holds, for every average of `avg`, the factor that takes the
   * average of item h0 to it (sf[k] * avg[h0] == avg[k]), and 0 throughout
   * when avg[h0] is 0.
   */
  predicate Scaled(sf: seq<real>, avg: seq<real>, h0: int)
  {
    |sf| == |avg| && 0 <= h0 < |avg| &&
    forall k :: 0 <= k < |avg| ==> if avg[h0] == 0.0 then sf[k] == 0.0 else sf[k] * avg[h0] == avg[k]
  }

  /**
   * The scale factors: every item's average lightness over the reference's
   * (0 when the reference's average is 0). The reference gets 1 unless it is black.
   */
  method ScaleFactors(avg: seq<real>, h0: int) returns (sf: seq<real>)
    requires 0 <= h0 < |avg|
    ensures Scaled(sf, avg, h0)
    ensures avg[h0] != 0.0 ==> sf[h0] == 1.0
  {
    sf := [];
    for k := 0 to |avg|
      invariant |sf| == k
      invariant forall m :: 0 <= m < k ==> sf[m] == Ratio(avg[m], avg[h0])
    {
      sf := sf + [Ratio(avg[k], avg[h0])];
    }
    if avg[h0] != 0.0 {
      var a := avg[h0];
      assert sf[h0] == a / a;
      assert a / a == 1.0;
    }
  }

  /** Cell (i, j) of a grid that fits lies inside the image. */
  lemma GridCellInside(w: int, h: int, i: int, j: int, gx: int, gy: int)
    requires GridFits(w, h, gx, gy) && 0 <= i < GridSize && 0 <= j < GridSize
    ensures CellInside(w, h, i, j, gx, gy)
  {
    MultiplyMonotone(i + 1, GridSize, gx);
    MultiplyMonotone(j + 1, GridSize, gy);
  }

  /** The innermost loop of the flagging: item h against the reference over row j of the grid. */
  method FlagRow(Rs: seq<array2<real>>, Gs: seq<array2<real>>, Bs: seq<array2<real>>, es: seq<ExpoTime>,
                 h0: int, h: int, patches: array2<bool>, j: int, gx: int, gy: int, threshold: real,
                 ln: real -> real)
    requires Stack(Rs, Gs, Bs) && |es| == |Rs| && 0 <= h0 < |Rs| && 0 <= h < |Rs| && h != h0
    requires IsGrid(patches) && GridFits(Rs[0].Length0, Rs[0].Length1, gx, gy) && 0 <= j < GridSize
    modifies patches
    ensures forall a, b :: 0 <= a < GridSize && 0 <= b < GridSize ==>
              patches[a, b] == (old(patches[a, b]) || (b == j && Marks(Rs, Gs, Bs, es, h0, h, ln, a, b, gx, gy, threshold)))
  {
    assert SameShape(Rs[0], Gs[0], Bs[0], Rs[h], Gs[h], Bs[h]);
    assert SameShape(Rs[0], Gs[0], Bs[0], Rs[h0], Gs[h0], Bs[h0]);
    for i := 0 to GridSize
      invariant forall a, b :: 0 <= a < GridSize && 0 <= b < GridSize ==>
                  patches[a, b] == (old(patches[a, b]) || (b == j && a < i && Marks(Rs, Gs, Bs, es, h0, h, ln, a, b, gx, gy, threshold)))
    {
      var deltaEv := DeltaEv(es[h0], es[h]);
      GridCellInside(Rs[0].Length0, Rs[0].Length1, i, j, gx, gy);
      var ghosted := ComparePatches(Rs[h0], Gs[h0], Bs[h0], Rs[h], Gs[h], Bs[h], i, j, gx, gy, threshold, deltaEv, ln);
      if ghosted {
        patches[i, j] := true;
      }
    }
  }

  /** Item h against the reference over the whole grid. */
  method FlagItem(Rs: seq<array2<real>>, Gs: seq<array2<real>>, Bs: seq<array2<real>>, es: seq<ExpoTime>,
                  h0: int, h: int, patches: array2<bool>, gx: int, gy: int, threshold: real,
                  ln: real -> real)
    requires Stack(Rs, Gs, Bs) && |es| == |Rs| && 0 <= h0 < |Rs| && 0 <= h < |Rs| && h != h0
    requires IsGrid(patches) && GridFits(Rs[0].Length0, Rs[0].Length1, gx, gy)
    modifies patches
    ensures forall a, b :: 0 <= a < GridSize && 0 <= b < GridSize ==>
              patches[a, b] == (old(patches[a, b]) || Marks(Rs, Gs, Bs, es, h0, h, ln, a, b, gx, gy, threshold))
  {
    for j := 0 to GridSize
      invariant forall a, b :: 0 <= a < GridSize && 0 <= b < GridSize ==>
                  patches[a, b] == (old(patches[a, b]) || (b < j && Marks(Rs, Gs, Bs, es, h0, h, ln, a, b, gx, gy, threshold)))
    {
      FlagRow(Rs, Gs, Bs, es, h0, h, patches, j, gx, gy, threshold, ln);
    }
  }

  /**
   * The flagging loops of doAutoAntiGhostingMDR: a cell is set when any item
   * but the reference is ghosted there against the reference.
   */
  method FlagGhosts(Rs: seq<array2<real>>, Gs: seq<array2<real>>, Bs: seq<array2<real>>, es: seq<ExpoTime>,
                    h0: int, patches: array2<bool>, gx: int, gy: int, threshold: real, ln: real -> real)
    requires Stack(Rs, Gs, Bs) && |es| == |Rs| && 0 <= h0 < |Rs|
    requires IsGrid(patches) && GridFits(Rs[0].Length0, Rs[0].Length1, gx, gy)
    modifies patches
    ensures forall a, b :: 0 <= a < GridSize && 0 <= b < GridSize ==>
              patches[a, b] == (old(patches[a, b]) || Flagged(Rs, Gs, Bs, es, h0, |Rs|, ln, a, b, gx, gy, threshold))
  {
    for h := 0 to |Rs|
      invariant forall a, b :: 0 <= a < GridSize && 0 <= b < GridSize ==>
                  patches[a, b] == (old(patches[a, b]) || Flagged(Rs, Gs, Bs, es, h0, h, ln, a, b, gx, gy, threshold))
    {
      if h != h0 {
        FlagItem(Rs, Gs, Bs, es, h0, h, patches, gx, gy, threshold, ln);
      }
    }
  }

  /**
   * Pixel (x, y) lies in a flagged cell whose reference patch is active:
   * automatic anti-ghosting replaces it in every item but the reference.
   */
  predicate Corrected(Rs: seq<array2<real>>, Gs: seq<array2<real>>, Bs: seq<array2<real>>, es: seq<ExpoTime>,
                      h0: int, ln: real -> real, gx: int, gy: int, threshold: real, x: int, y: int)
    requires |Gs| == |Rs| && |Bs| == |Rs| && |es| == |Rs| && 0 <= h0 < |Rs| && 0 < gx && 0 < gy
    reads Rs, Gs, Bs
  {
    0 <= x && 0 <= y && x / gx < GridSize && y / gy < GridSize &&
    Flagged(Rs, Gs, Bs, es, h0, |Rs|, ln, x / gx, y / gy, gx, gy, threshold) &&
    Active(Rs[h0], Gs[h0], Bs[h0], x / gx, y / gy, gx, gy)
  }
}
