/** The simple moving average: `df[reference].rolling(n).mean()` with
    pandas' default `min_periods = n`. */
module SimpleAverage {
  import opened Wrappers
  import opened Columns

  /** The trailing window of length n that ends at row i. */
  function Window(s: Column, n: nat, i: nat): Column
    requires 1 <= n <= i + 1 <= |s|
  {
    s[i + 1 - n .. i + 1]
  }

  /** The rolling mean at row i: missing until n rows exist, missing when
      any cell of the window is missing, otherwise the window's mean. */
  function SmaAt(s: Column, n: nat, i: nat): Option<real>
    requires n >= 1 && i < |s|
  {
    if i + 1 < n then None
    else
      match NanSum(Window(s, n, i))
      case None => None
      case Some(t) => Some(t / n as real)
  }

  /** The SMA column of `s` with window n. */
  function Sma(s: Column, n: nat): (r: Column)
    requires n >= 1
    ensures |r| == |s|
    ensures forall i :: 0 <= i < |s| ==>
      (r[i].Some? <==> n <= i + 1 && AllDefined(Window(s, n, i)))
    ensures forall i :: 0 <= i < |s| && n <= i + 1 && r[i].Some? ==>
      r[i].value * n as real == Total(Window(s, n, i))
  {
    seq(|s|, i requires 0 <= i < |s| => SmaAt(s, n, i))
  }

  /** The SMA of the first m rows is the first m rows of the SMA: the
      window is trailing, so row i depends on rows up to i only. */
  lemma SmaCausal(s: Column, n: nat, m: nat)
    requires n >= 1 && m <= |s|
    ensures Sma(s[..m], n) == Sma(s, n)[..m]
  {
    forall i | 0 <= i < m
      ensures Sma(s[..m], n)[i] == Sma(s, n)[i]
    {
      if n <= i + 1 {
        assert Window(s[..m], n, i) == Window(s, n, i);
      }
    }
  }

  /** Left end of the window after the first i rows have been consumed. */
  function Oldest(i: nat, n: nat): nat {
    if i >= n then i - n else 0
  }

  /** The number of defined cells among the rows the window holds after
      the first i rows have been consumed. */
  function SeenCount(s: Column, n: nat, i: nat): nat
    requires i <= |s|
  {
    Count(s[Oldest(i, n)..i])
  }

  /** The sum of the defined cells the window holds after i rows. */
  function SeenTotal(s: Column, n: nat, i: nat): real
    requires i <= |s|
  {
    Total(s[Oldest(i, n)..i])
  }

  /** How the window's count and total change when row i enters and,
      once n rows have passed, row i-n leaves. */
  lemma Slide(s: Column, n: nat, i: nat)
    requires n >= 1 && i < |s|
    ensures SeenCount(s, n, i + 1) ==
      SeenCount(s, n, i) + Present(s[i]) - (if i >= n then Present(s[i - n]) else 0)
    ensures SeenTotal(s, n, i + 1) ==
      SeenTotal(s, n, i) + Contribution(s[i]) - (if i >= n then Contribution(s[i - n]) else 0.0)
  {
    var before := s[Oldest(i, n)..i + 1];
    assert before[..|before| - 1] == s[Oldest(i, n)..i];
    if i >= n {
      DropOldest(before);
      assert before[1..] == s[Oldest(i + 1, n)..i + 1];
    }
  }

  /** What pandas emits for a window ending at row i that holds `count`
      defined cells summing to `total` is the SMA cell at row i. */
  lemma Emit(s: Column, n: nat, i: nat, count: int, total: real)
    requires n >= 1 && i < |s|
    requires count == SeenCount(s, n, i + 1) && total == SeenTotal(s, n, i + 1)
    ensures (if count >= n then Some(total / count as real) else None) == SmaAt(s, n, i)
  {
    var w := s[Oldest(i + 1, n)..i + 1];
    if i + 1 >= n {
      assert w == Window(s, n, i);
      CountAll(w);
    }
  }

  /** pandas' rolling-mean algorithm: one pass that keeps the sum and the
      count of defined cells in the window, adding the entering cell and
      subtracting the leaving one, and emits sum/count once the window
      holds n observations. It computes exactly the SMA column. */
  method SmaRolling(s: Column, n: nat) returns (r: Column)
    requires n >= 1
    ensures r == Sma(s, n)
  {
    r := [];
    var total := 0.0;
    var count := 0;
    for i := 0 to |s|
      invariant |r| == i
      invariant forall j :: 0 <= j < i ==> r[j] == SmaAt(s, n, j)
      invariant count == SeenCount(s, n, i) && total == SeenTotal(s, n, i)
    {
      Slide(s, n, i);
      // the entering cell
      total, count := total + Contribution(s[i]), count + Present(s[i]);
      // the leaving cell, once the window is full length
      if i >= n {
        total, count := total - Contribution(s[i - n]), count - Present(s[i - n]);
      }
      Emit(s, n, i, count, total);
      r := r + [if count >= n then Some(total / count as real) else None];
    }
    CellwiseSma(s, n, r);
  }

  /** A column that agrees with SmaAt on every row is the SMA column. */
  lemma CellwiseSma(s: Column, n: nat, r: Column)
    requires n >= 1 && |r| == |s|
    requires forall j :: 0 <= j < |s| ==> r[j] == SmaAt(s, n, j)
    ensures r == Sma(s, n)
  {
  }

  /** From v*n == t and n*lo <= t <= n*hi with n > 0 follows lo <= v <= hi. */
  lemma MeanWithin(v: real, n: real, t: real, lo: real, hi: real)
    requires n > 0.0 && v * n == t && n * lo <= t <= n * hi
    ensures lo <= v <= hi
  {
    assert (v - lo) * n >= 0.0;
    assert (hi - v) * n >= 0.0;
  }

  /** Averaging never leaves the range of the input, row by row: when
      every defined cell of `s` lies in [lo, hi], so does the SMA at row i. */
  lemma SmaWithinAt(s: Column, n: nat, lo: real, hi: real, i: nat)
    requires n >= 1 && i < |s| && Within(s, lo, hi)
    ensures Sma(s, n)[i].Some? ==> lo <= Sma(s, n)[i].value <= hi
  {
    var r := Sma(s, n);
    if r[i].Some? {
      var w := Window(s, n, i);
      assert forall j :: 0 <= j < |w| ==> w[j] == s[i + 1 - n + j];
      assert Within(w, lo, hi);
      TotalBounds(w, lo, hi);
      MeanWithin(r[i].value, n as real, Total(w), lo, hi);
    }
  }

  /** Column form of SmaWithinAt. */
  lemma SmaWithin(s: Column, n: nat, lo: real, hi: real)
    requires n >= 1 && Within(s, lo, hi)
    ensures Within(Sma(s, n), lo, hi)
  {
    forall i | 0 <= i < |s| {
      SmaWithinAt(s, n, lo, hi, i);
    }
  }

  /** If the input is defined exactly from row f on, the SMA is defined
      exactly from row f + n - 1 on: the first full window ends there. */
  lemma SmaFromRow(s: Column, n: nat, f: nat)
    requires n >= 1
    requires forall i :: 0 <= i < |s| ==> (s[i].Some? <==> f <= i)
    ensures forall i :: 0 <= i < |s| ==> (Sma(s, n)[i].Some? <==> f + n <= i + 1)
  {
    forall i | 0 <= i < |s| && n <= i + 1
      ensures AllDefined(Window(s, n, i)) <==> f + n <= i + 1
    {
      var w := Window(s, n, i);
      assert forall j :: 0 <= j < |w| ==> w[j] == s[i + 1 - n + j];
      assert w[0] == s[i + 1 - n];
    }
  }
}
