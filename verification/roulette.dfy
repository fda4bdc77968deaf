/**
 * Fitness-proportionate (roulette-wheel) choice over a list of weights:
 * walk the list accumulating weight and stop at the first position whose
 * cumulative weight reaches the drawn value.  Weights are exact reals here;
 * the programs accumulate doubles.
 */
module Roulette {
  import opened Bits

  /** Sum of the first k weights. */
  function Cumulative(w: seq<real>, k: nat): real
    requires k <= |w|
  {
    if k == 0 then 0.0 else Cumulative(w, k - 1) + w[k - 1]
  }

  function Total(w: seq<real>): real { Cumulative(w, |w|) }

  /** The cumulative weight up to and including position j reaches r. */
  predicate Reaches(w: seq<real>, r: real, j: nat)
  {
    j < |w| && Cumulative(w, j + 1) >= r
  }

  /** First position at or after k whose cumulative weight reaches r. */
  function Scan(w: seq<real>, r: real, k: nat): (o: Option<nat>)
    requires k <= |w|
    ensures o.Some? ==> k <= o.value < |w|
    decreases |w| - k
  {
    if k == |w| then None
    else if Reaches(w, r, k) then Some(k)
    else Scan(w, r, k + 1)
  }

  /** A draw in [0, 1) scaled to the total weight. */
  function Scaled(draw: real, total: real): real { draw * total }

  /** The position a spin with drawn value r stops at, if any. */
  function Spin(w: seq<real>, r: real): Option<nat> { Scan(w, r, 0) }

  lemma {:induction false} ScanFacts(w: seq<real>, r: real, k: nat)
    requires k <= |w|
    ensures Scan(w, r, k).Some? ==>
      var p := Scan(w, r, k).value;
      Reaches(w, r, p) && forall j :: k <= j < p ==> !Reaches(w, r, j)
    ensures Scan(w, r, k).None? <==> forall j :: k <= j < |w| ==> !Reaches(w, r, j)
    decreases |w| - k
  {
    if k < |w| && !Reaches(w, r, k) {
      ScanFacts(w, r, k + 1);
    }
  }

  /**
   * A spin stops at the first position whose cumulative weight reaches r,
   * and stops nowhere exactly when no cumulative weight reaches r.
   */
  lemma SpinIsFirstReaching(w: seq<real>, r: real)
    ensures Spin(w, r).Some? ==>
      var p := Spin(w, r).value;
      p < |w| && Reaches(w, r, p) && forall j :: 0 <= j < p ==> !Reaches(w, r, j)
    ensures Spin(w, r).None? <==> forall j :: 0 <= j < |w| ==> !Reaches(w, r, j)
  {
    ScanFacts(w, r, 0);
  }

  lemma {:induction false} CumulativePositive(w: seq<real>, k: nat)
    requires k <= |w| && forall i :: 0 <= i < |w| ==> w[i] > 0.0
    ensures k > 0 ==> Cumulative(w, k) > 0.0
  {
    if k > 0 {
      CumulativePositive(w, k - 1);
    }
  }

  /**
   * With positive weights, a draw in [0, 1) scaled by the total weight is
   * always reached: the spin never falls off the end.
   */
  lemma PositiveWeightsAlwaysReach(w: seq<real>, draw: real)
    requires |w| > 0 && forall i :: 0 <= i < |w| ==> w[i] > 0.0
    requires 0.0 <= draw < 1.0
    ensures Spin(w, Scaled(draw, Total(w))).Some?
  {
    CumulativePositive(w, |w|);
    var t := Total(w);
    assert t == Cumulative(w, |w|);
    var r := ScaledBelow(draw, t);
    ReachedAtEnd(w, r);
    SpinIsFirstReaching(w, r);
  }

  /** A value no larger than the total weight is reached at the last position at the latest. */
  lemma ReachedAtEnd(w: seq<real>, r: real)
    requires |w| > 0 && r <= Total(w)
    ensures Reaches(w, r, |w| - 1)
  {
  }

  /** A fraction below one of a positive total stays below the total. */
  lemma ScaledBelow(fraction: real, total: real) returns (scaled: real)
    requires 0.0 <= fraction < 1.0 && total > 0.0
    ensures scaled == Scaled(fraction, total) && scaled < total
  {
    scaled := fraction * total;
    assert (1.0 - fraction) * total > 0.0;
  }
}
