/** The exponential moving average as the source computes it: a single
    forward pass that waits for the first defined seed cell, copies it, and
    from the next row on blends the reference column into the previous
    value with smoothing factor k = 2/(n+1). */
module ExponentialAverage {
  import opened Wrappers
  import opened Columns

  /** The smoothing factor k = 2/(n+1); a weight strictly between 0 and 1,
      reaching 1 only for n = 1. */
  function Smoothing(n: nat): (k: real)
    requires n >= 1
    ensures 0.0 < k <= 1.0
    ensures k == 1.0 <==> n == 1
  {
    2.0 / (n + 1) as real
  }

  /** One recurrence step x*k + prev*(1-k); a missing operand (NaN in the
      source) makes the result missing. The step moves the previous value
      the fraction k of the way towards the new one. */
  function Blend(x: Option<real>, prev: Option<real>, k: real): (r: Option<real>)
    ensures r.Some? <==> x.Some? && prev.Some?
    ensures r.Some? ==> r.value - prev.value == (x.value - prev.value) * k
  {
    if x.Some? && prev.Some? then Some(x.value * k + prev.value * (1.0 - k)) else None
  }

  /** The two states of the pass: still waiting for a seed (`isStart` is
      false), or running with the value written at the previous row. */
  datatype Phase = Waiting | Running(last: Option<real>)

  /** One row of the pass: the new phase and the cell written at this row. */
  function Step(p: Phase, seed: Option<real>, x: Option<real>, k: real): (Phase, Option<real>) {
    match p
    case Waiting =>
      if seed.Some? then (Running(seed), seed) else (Waiting, None)
    case Running(prev) =>
      var v := Blend(x, prev, k);
      (Running(v), v)
  }

  /** Some seed cell among the first m rows is defined. */
  predicate SeededWithin(seed: Column, m: nat) {
    exists j :: 0 <= j < m && j < |seed| && seed[j].Some?
  }

  /** The phase and the cells written after the pass has consumed the first
      m rows. The pass is running exactly when a seed cell has been seen,
      and then it remembers the last cell it wrote. */
  function Scan(seed: Column, ref: Column, k: real, m: nat): (r: (Phase, Column))
    requires |seed| == |ref| && m <= |seed|
    ensures |r.1| == m
    ensures r.0.Running? <==> SeededWithin(seed, m)
    ensures r.0.Running? ==> m > 0 && r.0.last == r.1[m - 1]
  {
    if m == 0 then (Waiting, [])
    else
      var (p, cells) := Scan(seed, ref, k, m - 1);
      var (p', v) := Step(p, seed[m - 1], ref[m - 1], k);
      (p', cells + [v])
  }

  /** The EMA column with window n, seeded from `seed` and driven by `ref`. */
  function Ema(seed: Column, ref: Column, n: nat): (r: Column)
    requires n >= 1 && |seed| == |ref|
    ensures |r| == |seed|
  {
    Scan(seed, ref, Smoothing(n), |seed|).1
  }

  /** Later rows never change what the pass wrote at earlier rows. */
  lemma {:induction false} ScanPrefix(seed: Column, ref: Column, k: real, m: nat, m': nat)
    requires |seed| == |ref| && m <= m' <= |seed|
    ensures Scan(seed, ref, k, m').1[..m] == Scan(seed, ref, k, m).1
  {
    if m < m' {
      ScanPrefix(seed, ref, k, m, m' - 1);
      var cells := Scan(seed, ref, k, m' - 1).1;
      assert Scan(seed, ref, k, m').1[..m' - 1] == cells;
      assert Scan(seed, ref, k, m').1[..m] == cells[..m];
    }
  }

  /** The pass never looks ahead: run over the first m rows only, it goes
      through the same phases and writes the same cells as over the whole
      columns. */
  lemma {:induction false} ScanCausal(seed: Column, ref: Column, k: real, m: nat, j: nat)
    requires |seed| == |ref| && j <= m <= |seed|
    ensures Scan(seed[..m], ref[..m], k, j) == Scan(seed, ref, k, j)
  {
    if j > 0 {
      ScanCausal(seed, ref, k, m, j - 1);
    }
  }

  /** The EMA of the first m rows is the first m rows of the EMA: row i
      depends on rows up to i only. */
  lemma EmaCausal(seed: Column, ref: Column, n: nat, m: nat)
    requires n >= 1 && |seed| == |ref| && m <= |seed|
    ensures Ema(seed[..m], ref[..m], n) == Ema(seed, ref, n)[..m]
  {
    ScanCausal(seed, ref, Smoothing(n), m, m);
    ScanPrefix(seed, ref, Smoothing(n), m, |seed|);
  }

  /** The EMA cell at row i in closed form: before any seed was seen it is
      the seed cell itself if defined, else missing; afterwards it is the
      recurrence step from the previous EMA cell. */
  lemma EmaCell(seed: Column, ref: Column, n: nat, i: nat)
    requires n >= 1 && |seed| == |ref| && i < |seed|
    ensures var r := Ema(seed, ref, n);
      if SeededWithin(seed, i) then i > 0 && r[i] == Blend(ref[i], r[i - 1], Smoothing(n))
      else r[i] == seed[i]
  {
    var k := Smoothing(n);
    ScanPrefix(seed, ref, k, i + 1, |seed|);
    ScanPrefix(seed, ref, k, i, |seed|);
    var r := Ema(seed, ref, n);
    assert r[i] == Scan(seed, ref, k, i + 1).1[i];
    if SeededWithin(seed, i) {
      assert r[i - 1] == Scan(seed, ref, k, i).1[i - 1];
    }
  }

  /** Before the first defined seed cell the EMA is missing, at it the EMA
      equals the seed exactly, and with no defined seed cell at all (for
      instance a series shorter than the window) the whole column is
      missing. */
  lemma EmaSeed(seed: Column, ref: Column, n: nat)
    requires n >= 1 && |seed| == |ref|
    ensures FirstDefined(seed).None? ==>
      forall i :: 0 <= i < |seed| ==> Ema(seed, ref, n)[i].None?
    ensures FirstDefined(seed).Some? ==>
      var f := FirstDefined(seed).value;
      (forall i :: 0 <= i < f ==> Ema(seed, ref, n)[i].None?) && Ema(seed, ref, n)[f] == seed[f]
  {
    var first := FirstDefined(seed);
    forall i | 0 <= i < |seed| && (first.None? || i <= first.value)
      ensures Ema(seed, ref, n)[i] == seed[i]
    {
      EmaCell(seed, ref, n, i);
    }
  }

  /** After the seed row every EMA cell is the recurrence
      ref[i]*k + EMA[i-1]*(1-k), missing if either operand is missing. */
  lemma EmaRecurrence(seed: Column, ref: Column, n: nat)
    requires n >= 1 && |seed| == |ref| && FirstDefined(seed).Some?
    ensures forall i :: FirstDefined(seed).value < i < |seed| ==>
      Ema(seed, ref, n)[i] == Blend(ref[i], Ema(seed, ref, n)[i - 1], Smoothing(n))
  {
    var f := FirstDefined(seed).value;
    forall i | f < i < |seed|
      ensures Ema(seed, ref, n)[i] == Blend(ref[i], Ema(seed, ref, n)[i - 1], Smoothing(n))
    {
      assert SeededWithin(seed, i) by { assert seed[f].Some?; }
      EmaCell(seed, ref, n, i);
    }
  }

  /** Row i of the EMA depends on the seed column only through its first
      defined row and the value there: two seed columns that agree on
      those give the same cell. */
  lemma {:induction false} SeedOnlyAtStartAt(seed: Column, seed': Column, ref: Column, n: nat, i: nat)
    requires n >= 1 && |seed| == |seed'| == |ref| && i < |seed|
    requires FirstDefined(seed) == FirstDefined(seed')
    requires FirstDefined(seed).Some? ==> seed[FirstDefined(seed).value] == seed'[FirstDefined(seed).value]
    ensures Ema(seed, ref, n)[i] == Ema(seed', ref, n)[i]
  {
    EmaSeed(seed, ref, n);
    EmaSeed(seed', ref, n);
    var first := FirstDefined(seed);
    if first.Some? && first.value < i {
      EmaRecurrence(seed, ref, n);
      EmaRecurrence(seed', ref, n);
      SeedOnlyAtStartAt(seed, seed', ref, n, i - 1);
    }
  }

  /** Once the pass has started it never looks at the seed column again:
      the EMA is the same for any two seed columns with the same first
      defined row and the same value there. */
  lemma SeedOnlyAtStart(seed: Column, seed': Column, ref: Column, n: nat)
    requires n >= 1 && |seed| == |seed'| == |ref|
    requires FirstDefined(seed) == FirstDefined(seed')
    requires FirstDefined(seed).Some? ==> seed[FirstDefined(seed).value] == seed'[FirstDefined(seed).value]
    ensures Ema(seed, ref, n) == Ema(seed', ref, n)
  {
    forall i | 0 <= i < |seed| {
      SeedOnlyAtStartAt(seed, seed', ref, n, i);
    }
  }

  /** Which EMA cells are defined: exactly those at or after the first
      defined seed row f such that every reference cell in (f, i] is
      defined. One missing reference cell after the seed leaves the rest of
      the column missing, since the pass never looks at the seed again. */
  lemma {:induction false} EmaDefinedAt(seed: Column, ref: Column, n: nat, i: nat)
    requires n >= 1 && |seed| == |ref| && i < |seed|
    ensures Ema(seed, ref, n)[i].Some? <==>
      FirstDefined(seed).Some? && FirstDefined(seed).value <= i &&
      forall j :: FirstDefined(seed).value < j <= i ==> ref[j].Some?
  {
    EmaSeed(seed, ref, n);
    var first := FirstDefined(seed);
    if first.Some? && first.value < i {
      EmaRecurrence(seed, ref, n);
      EmaDefinedAt(seed, ref, n, i - 1);
    }
  }

  /** If the seed column is defined exactly from row f on and the
      reference column is defined from f on, the EMA is defined exactly
      from row f on. */
  lemma EmaFromRow(seed: Column, ref: Column, n: nat, f: nat)
    requires n >= 1 && |seed| == |ref|
    requires forall i :: 0 <= i < |seed| ==> (seed[i].Some? <==> f <= i)
    requires forall i :: f <= i < |ref| ==> ref[i].Some?
    ensures forall i :: 0 <= i < |seed| ==> (Ema(seed, ref, n)[i].Some? <==> f <= i)
  {
    if f < |seed| {
      assert seed[f].Some?;
      assert FirstDefined(seed) == Some(f);
    }
    forall i | 0 <= i < |seed| {
      EmaDefinedAt(seed, ref, n, i);
    }
  }

  /** Sign rule for products of reals. */
  lemma NonNegativeProduct(a: real, b: real)
    requires a >= 0.0 && b >= 0.0
    ensures a * b >= 0.0
  {
  }

  /** A blend of two values in [lo, hi] with weight k in (0, 1] stays in
      [lo, hi]. */
  lemma BlendWithin(x: real, prev: real, k: real, lo: real, hi: real)
    requires lo <= x <= hi && lo <= prev <= hi && 0.0 < k <= 1.0
    ensures lo <= x * k + prev * (1.0 - k) <= hi
  {
    var v := x * k + prev * (1.0 - k);
    NonNegativeProduct(x - lo, k);
    NonNegativeProduct(prev - lo, 1.0 - k);
    assert v - lo == (x - lo) * k + (prev - lo) * (1.0 - k);
    NonNegativeProduct(hi - x, k);
    NonNegativeProduct(hi - prev, 1.0 - k);
    assert hi - v == (hi - x) * k + (hi - prev) * (1.0 - k);
  }

  /** The EMA never leaves the range of its inputs: when every defined seed
      and reference cell lies in [lo, hi], so does every defined EMA cell. */
  lemma {:induction false} EmaWithinAt(seed: Column, ref: Column, n: nat, lo: real, hi: real, i: nat)
    requires n >= 1 && |seed| == |ref| && i < |seed|
    requires Within(seed, lo, hi) && Within(ref, lo, hi)
    ensures Ema(seed, ref, n)[i].Some? ==> lo <= Ema(seed, ref, n)[i].value <= hi
  {
    var r := Ema(seed, ref, n);
    EmaCell(seed, ref, n, i);
    if SeededWithin(seed, i) && r[i].Some? {
      EmaWithinAt(seed, ref, n, lo, hi, i - 1);
      BlendWithin(ref[i].value, r[i - 1].value, Smoothing(n), lo, hi);
    }
  }

  /** Column form of EmaWithinAt. */
  lemma EmaWithin(seed: Column, ref: Column, n: nat, lo: real, hi: real)
    requires n >= 1 && |seed| == |ref|
    requires Within(seed, lo, hi) && Within(ref, lo, hi)
    ensures Within(Ema(seed, ref, n), lo, hi)
  {
    forall i | 0 <= i < |seed| {
      EmaWithinAt(seed, ref, n, lo, hi, i);
    }
  }

  /** The source's loop: a flag `isStart`, the seed copied at the first
      defined seed row, the recurrence from then on, and cells left missing
      before the seed. It computes exactly the EMA column. */
  method EmaLoop(seed: Column, ref: Column, n: nat) returns (r: Column)
    requires n >= 1 && |seed| == |ref|
    ensures r == Ema(seed, ref, n)
  {
    var k := Smoothing(n);
    var isStart := false;
    r := [];
    for i := 0 to |seed|
      invariant Scan(seed, ref, k, i).1 == r
      invariant isStart <==> Scan(seed, ref, k, i).0.Running?
    {
      if !isStart && seed[i].Some? {
        r := r + [seed[i]];
        isStart := true;
      } else if isStart {
        r := r + [Blend(ref[i], r[i - 1], k)];
      } else {
        r := r + [None];
      }
    }
  }
}
