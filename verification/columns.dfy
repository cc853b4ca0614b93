/** Columns of a data frame, aligned by row position, and the NaN-aware
    arithmetic the indicators are built from. */
module Columns {
  import opened Wrappers

  /** One optional value per row; None stands for a missing (NaN) cell. */
  type Column = seq<Option<real>>

  /** Every cell of `w` is defined. */
  predicate AllDefined(w: Column) {
    forall j :: 0 <= j < |w| ==> w[j].Some?
  }

  /** Every defined cell of `w` lies in the closed interval [lo, hi]. */
  predicate Within(w: Column, lo: real, hi: real) {
    forall j :: 0 <= j < |w| && w[j].Some? ==> lo <= w[j].value <= hi
  }

  /** 1 for a defined cell, 0 for a missing one. */
  function Present(x: Option<real>): nat {
    if x.Some? then 1 else 0
  }

  /** The contribution of a cell to a sum that skips missing cells. */
  function Contribution(x: Option<real>): real {
    if x.Some? then x.value else 0.0
  }

  /** Number of defined cells of `w` (pandas' `nobs` of a window). */
  function Count(w: Column): (c: nat)
    ensures c <= |w|
  {
    if |w| == 0 then 0 else Count(w[..|w| - 1]) + Present(w[|w| - 1])
  }

  /** Sum of the defined cells of `w`; missing cells are skipped. */
  function Total(w: Column): real {
    if |w| == 0 then 0.0 else Total(w[..|w| - 1]) + Contribution(w[|w| - 1])
  }

  /** Sum with NaN propagation: one missing cell makes the sum missing. */
  function NanSum(w: Column): (r: Option<real>)
    ensures r.Some? <==> AllDefined(w)
    ensures r.Some? ==> r.value == Total(w)
  {
    if |w| == 0 then Some(0.0)
    else
      var last := w[|w| - 1];
      match NanSum(w[..|w| - 1])
      case None => None
      case Some(t) => if last.Some? then Some(t + last.value) else None
  }

  /** Element-wise subtraction of two cells, as pandas subtracts columns:
      missing if either operand is missing. */
  function Diff(a: Option<real>, b: Option<real>): (r: Option<real>)
    ensures r.Some? <==> a.Some? && b.Some?
    ensures r.Some? ==> r.value + b.value == a.value
  {
    if a.Some? && b.Some? then Some(a.value - b.value) else None
  }

  /** Position of the first defined cell of `w`, if any. */
  function FirstDefined(w: Column): (r: Option<nat>)
    ensures r.Some? ==> r.value < |w| && w[r.value].Some?
    ensures r.Some? ==> forall j :: 0 <= j < r.value ==> w[j].None?
    ensures r.None? ==> forall j :: 0 <= j < |w| ==> w[j].None?
  {
    if |w| == 0 then None
    else if w[0].Some? then Some(0)
    else
      match FirstDefined(w[1..])
      case None => None
      case Some(f) => Some(f + 1)
  }

  /** A window is full exactly when every one of its cells is counted. */
  lemma {:induction false} CountAll(w: Column)
    ensures Count(w) == |w| <==> AllDefined(w)
  {
    if |w| > 0 {
      var front := w[..|w| - 1];
      CountAll(front);
      assert forall j :: 0 <= j < |front| ==> front[j] == w[j];
    }
  }

  /** Removing the oldest cell of a window removes exactly its count and
      its contribution: the step pandas takes when the window slides. */
  lemma {:induction false} DropOldest(w: Column)
    requires |w| > 0
    ensures Count(w) == Present(w[0]) + Count(w[1..])
    ensures Total(w) == Contribution(w[0]) + Total(w[1..])
  {
    if |w| > 1 {
      var front := w[..|w| - 1];
      DropOldest(front);
      assert front[1..] == w[1..][..|w[1..]| - 1];
    } else {
      assert w[..|w| - 1] == [];
      assert w[1..] == [];
    }
  }

  /** A fully defined window whose cells lie in [lo, hi] sums to between
      |w|*lo and |w|*hi. */
  lemma {:induction false} TotalBounds(w: Column, lo: real, hi: real)
    requires AllDefined(w) && Within(w, lo, hi)
    ensures |w| as real * lo <= Total(w) <= |w| as real * hi
  {
    if |w| > 0 {
      var front := w[..|w| - 1];
      assert forall j :: 0 <= j < |front| ==> front[j] == w[j];
      TotalBounds(front, lo, hi);
      var m := |front| as real;
      assert |w| as real == m + 1.0;
      assert (m + 1.0) * lo == m * lo + lo && (m + 1.0) * hi == m * hi + hi;
      assert Total(w) == Total(front) + w[|w| - 1].value;
    }
  }
}
