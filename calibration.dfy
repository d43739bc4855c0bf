/**
 * Exposure values of the stack, as checkEVvalues and setEV see them
 * (HdrWizard/HdrCreationManager.cpp). Exposure times are kept in the EV
 * (log2) domain, so that exp2f and log2f cancel.
 */
module Calibration {
  /**
   * One entry of `expotimes`: the -1 that marks a file without EXIF data,
   * a time whose log2f is NaN (what a shift makes of the -1), or a time
   * 2^ev.
   */
  datatype ExpoTime = Missing | Undefined | Ev(ev: real)

  /** The largest exposure value checkEVvalues accepts without a shift, and minus the smallest. */
  const EvLimit: real := 10.0

  /** Running maximum of the EVs of es[..n], from the initial -20; entries without an EV never compare greater. */
  function TopEv(es: seq<ExpoTime>, n: int): real
    requires 0 <= n <= |es|
  {
    if n == 0 then -20.0
    else
      var m := TopEv(es, n - 1);
      if es[n - 1].Ev? && es[n - 1].ev > m then es[n - 1].ev else m
  }

  /** Running minimum of the EVs of es[..n], from the initial 20. */
  function BottomEv(es: seq<ExpoTime>, n: int): real
    requires 0 <= n <= |es|
  {
    if n == 0 then 20.0
    else
      var m := BottomEv(es, n - 1);
      if es[n - 1].Ev? && es[n - 1].ev < m then es[n - 1].ev else m
  }

  /** log2f(t) - d through exp2f: an EV moves by d, anything else becomes NaN. */
  function ShiftEv(e: ExpoTime, d: real): ExpoTime
  {
    match e
    case Ev(v) => Ev(v - d)
    case _ => Undefined
  }

  /** Every entry shifted down by d. */
  function Shifted(es: seq<ExpoTime>, d: real): (r: seq<ExpoTime>)
    ensures |r| == |es|
    ensures forall i :: 0 <= i < |es| ==> r[i] == ShiftEv(es[i], d)
  {
    seq(|es|, i requires 0 <= i < |es| => ShiftEv(es[i], d))
  }

  /** checkEVvalues: pull the largest EV down to 10 if it is above, else the smallest up to -10 if it is below. */
  function Calibrated(es: seq<ExpoTime>): seq<ExpoTime>
  {
    var top, bottom := TopEv(es, |es|), BottomEv(es, |es|);
    if top > EvLimit then Shifted(es, top - EvLimit)
    else if bottom < -EvLimit then Shifted(es, bottom + EvLimit)
    else es
  }

  /** The running maximum is at least -20, bounds every EV, and is -20 or one of them. */
  lemma {:induction false} TopEvIsMax(es: seq<ExpoTime>, n: int)
    requires 0 <= n <= |es|
    ensures -20.0 <= TopEv(es, n)
    ensures forall i :: 0 <= i < n && es[i].Ev? ==> es[i].ev <= TopEv(es, n)
    ensures TopEv(es, n) == -20.0 || exists i :: 0 <= i < n && es[i] == Ev(TopEv(es, n))
  {
    if n > 0 {
      TopEvIsMax(es, n - 1);
    }
  }

  /** The running minimum is at most 20, bounds every EV from below, and is 20 or one of them. */
  lemma {:induction false} BottomEvIsMin(es: seq<ExpoTime>, n: int)
    requires 0 <= n <= |es|
    ensures BottomEv(es, n) <= 20.0
    ensures forall i :: 0 <= i < n && es[i].Ev? ==> BottomEv(es, n) <= es[i].ev
    ensures BottomEv(es, n) == 20.0 || exists i :: 0 <= i < n && es[i] == Ev(BottomEv(es, n))
  {
    if n > 0 {
      BottomEvIsMin(es, n - 1);
    }
  }

  /** The shift is uniform: the difference between any two EVs is kept. */
  lemma CalibratedKeepsDifferences(es: seq<ExpoTime>, i: int, j: int)
    requires 0 <= i < |es| && 0 <= j < |es| && es[i].Ev? && es[j].Ev?
    ensures |Calibrated(es)| == |es|
    ensures Calibrated(es)[i].Ev? && Calibrated(es)[j].Ev?
    ensures Calibrated(es)[i].ev - Calibrated(es)[j].ev == es[i].ev - es[j].ev
  {
  }

  /**
   * Entries with an EV keep having one; a -1 survives only when nothing
   * moves, and otherwise turns into NaN.
   */
  lemma CalibratedKinds(es: seq<ExpoTime>, i: int)
    requires 0 <= i < |es|
    ensures |Calibrated(es)| == |es|
    ensures Calibrated(es)[i].Ev? <==> es[i].Ev?
    ensures Calibrated(es)[i] == Missing ==> es[i] == Missing && Calibrated(es) == es
  {
  }

  /** EVs never more than 20 apart. */
  predicate Span20(es: seq<ExpoTime>)
  {
    forall i, j :: 0 <= i < |es| && 0 <= j < |es| && es[i].Ev? && es[j].Ev? ==> es[i].ev - es[j].ev <= 2.0 * EvLimit
  }

  /**
   * When the EVs are at most 20 apart, calibration brings every one of them
   * into [-10, 10].
   */
  lemma CalibratedInRange(es: seq<ExpoTime>)
    requires Span20(es)
    ensures forall i :: 0 <= i < |es| && Calibrated(es)[i].Ev? ==> -EvLimit <= Calibrated(es)[i].ev <= EvLimit
  {
    var n := |es|;
    var top, bottom := TopEv(es, n), BottomEv(es, n);
    TopEvIsMax(es, n);
    BottomEvIsMin(es, n);
    var r := Calibrated(es);
    if top > EvLimit {
      var k :| 0 <= k < n && es[k] == Ev(top);
      assert forall i :: 0 <= i < n && es[i].Ev? ==> es[i].ev - es[k].ev >= -2.0 * EvLimit;
    } else if bottom < -EvLimit {
      var k :| 0 <= k < n && es[k] == Ev(bottom);
      assert forall i :: 0 <= i < n && es[i].Ev? ==> es[i].ev - es[k].ev <= 2.0 * EvLimit;
    }
  }

  /** Once calibrated, a stack whose EVs are at most 20 apart is left alone by a second calibration. */
  lemma CalibratedIdempotent(es: seq<ExpoTime>)
    requires Span20(es)
    ensures Calibrated(Calibrated(es)) == Calibrated(es)
  {
    var r := Calibrated(es);
    CalibratedInRange(es);
    TopEvIsMax(r, |r|);
    BottomEvIsMin(r, |r|);
  }

  /** When the largest EV is above 10, the entry that held it ends at exactly 10. */
  lemma CalibratedTopAtLimit(es: seq<ExpoTime>)
    requires TopEv(es, |es|) > EvLimit
    ensures exists i :: 0 <= i < |es| && Calibrated(es)[i] == Ev(EvLimit)
  {
    TopEvIsMax(es, |es|);
    var k :| 0 <= k < |es| && es[k] == Ev(TopEv(es, |es|));
    assert Calibrated(es)[k] == Ev(EvLimit);
  }

  /** When no EV is above 10 and the smallest is below -10, the entry that held it ends at exactly -10. */
  lemma CalibratedBottomAtLimit(es: seq<ExpoTime>)
    requires TopEv(es, |es|) <= EvLimit && BottomEv(es, |es|) < -EvLimit
    ensures exists i :: 0 <= i < |es| && Calibrated(es)[i] == Ev(-EvLimit)
  {
    BottomEvIsMin(es, |es|);
    var k :| 0 <= k < |es| && es[k] == Ev(BottomEv(es, |es|));
    assert Calibrated(es)[k] == Ev(-EvLimit);
  }

  /** The first loop of checkEVvalues: the largest and the smallest EV, from -20 and 20. */
  method EvBounds(es: seq<ExpoTime>) returns (top: real, bottom: real)
    ensures top == TopEv(es, |es|) && bottom == BottomEv(es, |es|)
  {
    top, bottom := -20.0, 20.0;
    for i := 0 to |es|
      invariant top == TopEv(es, i) && bottom == BottomEv(es, i)
    {
      if es[i].Ev? {
        var v := es[i].ev;
        if v > top {
          top := v;
        }
        if v < bottom {
          bottom := v;
        }
      }
    }
  }
}
