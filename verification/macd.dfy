/** MACD as the source composes it: EMA(12) - EMA(26) of the close, a
    9-row SMA of that difference, and a "signal" EMA(9) whose seed AND
    reference are both the SMA-of-MACD column (not the MACD column). */
module Macd {
  import opened Wrappers
  import opened Columns
  import opened SimpleAverage
  import opened ExponentialAverage

  /** The indicator pairing the source uses for a price column: SMA_cal with
      window n, then EMA_cal seeded by that SMA and driven by the prices. */
  function SeededEma(s: Column, n: nat): (r: Column)
    requires n >= 1
    ensures |r| == |s|
  {
    Ema(Sma(s, n), s, n)
  }

  /** Row-wise difference of two columns of equal length. */
  function Subtract(a: Column, b: Column): (r: Column)
    requires |a| == |b|
    ensures |r| == |a|
    ensures forall i :: 0 <= i < |a| ==> (r[i].Some? <==> a[i].Some? && b[i].Some?)
    ensures forall i :: 0 <= i < |a| && r[i].Some? ==> r[i].value + b[i].value == a[i].value
  {
    seq(|a|, i requires 0 <= i < |a| => Diff(a[i], b[i]))
  }

  /** The columns MACD_cal attaches to the frame. */
  datatype Indicators = Indicators(
    sma12: Column,      // SMA(12)
    ema12: Column,      // EMA(12)
    sma26: Column,      // SMA(26)
    ema26: Column,      // EMA(26)
    macd: Column,       // MACD
    smaOfMacd: Column,  // SMA_of_MACD(9)
    signal: Column)     // EMA_of_MACD(9)

  /** Every column MACD_cal produces, from the close column alone. */
  function MacdOf(close: Column): (ind: Indicators)
    ensures |ind.sma12| == |ind.ema12| == |ind.sma26| == |ind.ema26| == |close|
    ensures |ind.macd| == |ind.smaOfMacd| == |ind.signal| == |close|
    ensures forall i :: 0 <= i < |close| ==>
      (ind.macd[i].Some? <==> ind.ema12[i].Some? && ind.ema26[i].Some?)
    ensures forall i :: 0 <= i < |close| && ind.macd[i].Some? ==>
      ind.macd[i].value == ind.ema12[i].value - ind.ema26[i].value
  {
    var sma12 := Sma(close, 12);
    var ema12 := Ema(sma12, close, 12);
    var sma26 := Sma(close, 26);
    var ema26 := Ema(sma26, close, 26);
    var macd := Subtract(ema12, ema26);
    var smaOfMacd := Sma(macd, 9);
    var signal := Ema(smaOfMacd, smaOfMacd, 9);
    Indicators(sma12, ema12, sma26, ema26, macd, smaOfMacd, signal)
  }

  /** The histogram the chart draws: MACD minus signal, row by row. */
  function Histogram(ind: Indicators): (h: Column)
    requires |ind.macd| == |ind.signal|
    ensures |h| == |ind.macd|
    ensures forall i :: 0 <= i < |h| ==> (h[i].Some? <==> ind.macd[i].Some? && ind.signal[i].Some?)
    ensures forall i :: 0 <= i < |h| && h[i].Some? ==> h[i].value + ind.signal[i].value == ind.macd[i].value
  {
    Subtract(ind.macd, ind.signal)
  }

  /** MACD_cal never looks ahead: computed from the first m closes, the
      MACD and signal columns are the first m rows of those computed from
      the whole series. */
  lemma MacdCausal(close: Column, m: nat)
    requires m <= |close|
    ensures MacdOf(close[..m]).macd == MacdOf(close).macd[..m]
    ensures MacdOf(close[..m]).signal == MacdOf(close).signal[..m]
  {
    var full := MacdOf(close);
    SmaCausal(close, 12, m);
    EmaCausal(full.sma12, close, 12, m);
    SmaCausal(close, 26, m);
    EmaCausal(full.sma26, close, 26, m);
    assert Subtract(full.ema12[..m], full.ema26[..m]) == full.macd[..m];
    SmaCausal(full.macd, 9, m);
    EmaCausal(full.smaOfMacd, full.smaOfMacd, 9, m);
  }

  /** Where an SMA first becomes defined: never before row n-1. */
  lemma SmaSeedRow(s: Column, n: nat)
    requires n >= 1
    ensures FirstDefined(Sma(s, n)).Some? ==> FirstDefined(Sma(s, n)).value >= n - 1
  {
    var first := FirstDefined(Sma(s, n));
    if first.Some? {
      assert Sma(s, n)[first.value].Some?;
    }
  }

  /** A series shorter than the window has no SMA and no EMA at all. */
  lemma ShortSeries(s: Column, n: nat)
    requires n >= 1 && |s| < n
    ensures forall i :: 0 <= i < |s| ==> Sma(s, n)[i].None? && SeededEma(s, n)[i].None?
  {
    EmaSeed(Sma(s, n), s, n);
  }

  /** Before row n-1 the seeded EMA is missing, whatever the prices. */
  lemma SeededEmaEarly(s: Column, n: nat)
    requires n >= 1
    ensures forall i :: 0 <= i < |s| && i + 1 < n ==> SeededEma(s, n)[i].None?
  {
    SmaSeedRow(s, n);
    EmaSeed(Sma(s, n), s, n);
  }

  /** On a series without gaps the seeded EMA is defined exactly from row
      n-1 onwards: the seed lands at row n-1 and no NaN follows it. */
  lemma SeededEmaFullSeries(s: Column, n: nat)
    requires n >= 1 && AllDefined(s)
    ensures forall i :: 0 <= i < |s| ==> (SeededEma(s, n)[i].Some? <==> n <= i + 1)
  {
    SmaFromRow(s, n, 0);
    EmaFromRow(Sma(s, n), s, n, n - 1);
  }

  /** A constant price series is a fixed point: every defined SMA and EMA
      cell equals the constant, since c*k + c*(1-k) = c. */
  lemma ConstantSeries(s: Column, n: nat, c: real)
    requires n >= 1 && Within(s, c, c)
    ensures Within(Sma(s, n), c, c) && Within(SeededEma(s, n), c, c)
  {
    SmaWithin(s, n, c, c);
    EmaWithin(Sma(s, n), s, n, c, c);
  }

  /** MACD is missing on every row below 25, where EMA(26) cannot yet exist. */
  lemma MacdEarly(close: Column)
    ensures forall i :: 0 <= i < |close| && i < 25 ==> MacdOf(close).macd[i].None?
  {
    assert MacdOf(close).ema26 == SeededEma(close, 26);
    SeededEmaEarly(close, 26);
  }

  /** The signal is missing on every row below 33: its seed, SMA_of_MACD(9),
      needs nine consecutive MACD cells, the first of which is at row 25. */
  lemma SignalEarly(close: Column)
    ensures forall i :: 0 <= i < |close| && i < 33 ==> MacdOf(close).signal[i].None?
  {
    var ind := MacdOf(close);
    MacdEarly(close);
    var first := FirstDefined(ind.smaOfMacd);
    if first.Some? {
      var f := first.value;
      assert ind.smaOfMacd[f].Some?;
      assert ind.macd[f - 8] == Window(ind.macd, 9, f)[0];
    }
    EmaSeed(ind.smaOfMacd, ind.smaOfMacd, 9);
  }

  /** The signal line as written: an EMA(9) that is missing until the first
      defined SMA_of_MACD(9) row f, equals SMA_of_MACD(9) there, and after
      it blends SMA_of_MACD(9) (not MACD) into its previous value. */
  lemma SignalOfSmoothedMacd(close: Column)
    ensures var ind := MacdOf(close);
      var first := FirstDefined(ind.smaOfMacd);
      && (first.None? ==> forall i :: 0 <= i < |close| ==> ind.signal[i].None?)
      && (first.Some? ==>
            && (forall i :: 0 <= i < first.value ==> ind.signal[i].None?)
            && ind.signal[first.value] == ind.smaOfMacd[first.value]
            && forall i :: first.value < i < |close| ==>
                 ind.signal[i] == Blend(ind.smaOfMacd[i], ind.signal[i - 1], Smoothing(9)))
  {
    var ind := MacdOf(close);
    EmaSeed(ind.smaOfMacd, ind.smaOfMacd, 9);
    if FirstDefined(ind.smaOfMacd).Some? {
      EmaRecurrence(ind.smaOfMacd, ind.smaOfMacd, 9);
    }
  }

  /** On a close series without gaps MACD is defined exactly from row 25
      and the signal exactly from row 33. */
  lemma MacdFullSeries(close: Column)
    requires AllDefined(close)
    ensures forall i :: 0 <= i < |close| ==> (MacdOf(close).macd[i].Some? <==> i >= 25)
    ensures forall i :: 0 <= i < |close| ==> (MacdOf(close).signal[i].Some? <==> i >= 33)
  {
    var ind := MacdOf(close);
    assert ind.ema12 == SeededEma(close, 12) && ind.ema26 == SeededEma(close, 26);
    SeededEmaFullSeries(close, 12);
    SeededEmaFullSeries(close, 26);
    SmaFromRow(ind.macd, 9, 25);
    EmaFromRow(ind.smaOfMacd, ind.smaOfMacd, 9, 33);
  }

  /** On a constant close series every defined MACD, signal and histogram
      cell is zero. */
  lemma MacdConstant(close: Column, c: real)
    requires Within(close, c, c)
    ensures var ind := MacdOf(close);
      Within(ind.macd, 0.0, 0.0) && Within(ind.signal, 0.0, 0.0) && Within(Histogram(ind), 0.0, 0.0)
  {
    var ind := MacdOf(close);
    ConstantSeries(close, 12, c);
    ConstantSeries(close, 26, c);
    assert Within(ind.macd, 0.0, 0.0);
    SmaWithin(ind.macd, 9, 0.0, 0.0);
    EmaWithin(ind.smaOfMacd, ind.smaOfMacd, 9, 0.0, 0.0);
  }

  /** Thirty daily closes all equal to 100: SMA(12) and EMA(12) are missing
      on rows 0..10 and equal to 100 from row 11 on. */
  lemma FlatHundredScenario(close: Column)
    requires |close| == 30 && forall i :: 0 <= i < 30 ==> close[i] == Some(100.0)
    ensures forall i :: 0 <= i < 11 ==> MacdOf(close).sma12[i].None? && MacdOf(close).ema12[i].None?
    ensures forall i :: 11 <= i < 30 ==>
      MacdOf(close).sma12[i] == Some(100.0) && MacdOf(close).ema12[i] == Some(100.0)
  {
    SmaFromRow(close, 12, 0);
    SeededEmaFullSeries(close, 12);
    ConstantSeries(close, 12, 100.0);
  }
}
