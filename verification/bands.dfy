/** The price geometry of the take-profit and stop-loss bands: where the
    two filled bands sit relative to the entry price, and the percentage
    move each one labels. Drawing is not modelled; whether the two date
    strings parse is an input, since the parser belongs to another
    library. */
module Bands {
  import opened Wrappers

  /** A straight line between two dates, given by its price at each end. */
  datatype Segment = Segment(startPrice: real, endPrice: real)

  /** A filled band between a given segment and a copy of it shifted down
      by the band's height. With a negative height the shifted copy lies
      above the edge. */
  datatype Band = Band(edge: Segment, shifted: Segment)

  /** The band add_parallel_line fills: the given segment and the same
      segment shifted down by `height`. */
  function ParallelBand(startPrice: real, endPrice: real, height: real): (b: Band)
    ensures b.edge == Segment(startPrice, endPrice)
    ensures b.edge.startPrice - b.shifted.startPrice == height
    ensures b.edge.endPrice - b.shifted.endPrice == height
  {
    Band(Segment(startPrice, endPrice), Segment(startPrice - height, endPrice - height))
  }

  /** A horizontal band whose edge is at price `at` and whose shifted copy
      is at price `from`: it covers the prices between the two, whichever
      is larger. */
  predicate Spans(b: Band, from: real, at: real) {
    b.edge == Segment(at, at) && b.shifted == Segment(from, from)
  }

  /** The errors add_SL_or_TP can raise: division by a zero entry price,
      and a date string that does not have the form YYYY-MM-DD. */
  datatype Error = ZeroDivision | MalformedDate

  /** Percentage move from `price` to `target`: target/price*100 - 100. */
  function PercentChange(target: real, price: real): (p: real)
    requires price != 0.0
    ensures p * price == (target - price) * 100.0
  {
    target / price * 100.0 - 100.0
  }

  /** The two bands and their percentage labels (before rounding). */
  datatype Levels = Levels(takeProfit: Band, profitPercent: real, stopLoss: Band, lossPercent: real)

  /** add_SL_or_TP's arithmetic: the take-profit band spans the prices from
      the entry to the target, the stop-loss band from the stop to the
      entry; each is labelled with its percentage move. A zero entry price
      raises when the first label is computed; otherwise a malformed date
      raises when the first band parses its dates. Either way nothing is
      drawn. `datesParse` says whether both date strings parse. */
  function SlOrTp(price: real, takeProfit: real, stopLoss: real, datesParse: bool): (r: Result<Levels, Error>)
    ensures r.Failure? <==> price == 0.0 || !datesParse
    ensures price == 0.0 ==> r == Failure(ZeroDivision)
    ensures price != 0.0 && !datesParse ==> r == Failure(MalformedDate)
    ensures r.Success? ==> Spans(r.value.takeProfit, price, takeProfit)
    ensures r.Success? ==> Spans(r.value.stopLoss, stopLoss, price)
    ensures r.Success? ==> r.value.profitPercent * price == (takeProfit - price) * 100.0
    ensures r.Success? ==> r.value.lossPercent * price == (stopLoss - price) * 100.0
  {
    if price == 0.0 then Failure(ZeroDivision)
    else if !datesParse then Failure(MalformedDate)
    else
      var rangeProfit := takeProfit - price;
      var profitPercent := PercentChange(takeProfit, price);
      var profitBand := ParallelBand(price + rangeProfit, price + rangeProfit, rangeProfit);
      var rangeStopLoss := price - stopLoss;
      var lossPercent := PercentChange(stopLoss, price);
      var lossBand := ParallelBand(price, price, rangeStopLoss);
      Success(Levels(profitBand, profitPercent, lossBand, lossPercent))
  }

  /** For a positive entry price the take-profit label is positive exactly
      when the target is above the entry, and the stop-loss label is
      negative exactly when the stop is below it. */
  lemma PercentSigns(price: real, takeProfit: real, stopLoss: real)
    requires price > 0.0
    ensures SlOrTp(price, takeProfit, stopLoss, true).Success?
    ensures SlOrTp(price, takeProfit, stopLoss, true).value.profitPercent > 0.0 <==> takeProfit > price
    ensures SlOrTp(price, takeProfit, stopLoss, true).value.lossPercent < 0.0 <==> stopLoss < price
  {
    var levels := SlOrTp(price, takeProfit, stopLoss, true).value;
    SignOfQuotient(levels.profitPercent, price, (takeProfit - price) * 100.0);
    SignOfQuotient(levels.lossPercent, price, (stopLoss - price) * 100.0);
  }

  /** From p*q == t with q > 0, p and t have the same sign. */
  lemma SignOfQuotient(p: real, q: real, t: real)
    requires q > 0.0 && p * q == t
    ensures p > 0.0 <==> t > 0.0
    ensures p < 0.0 <==> t < 0.0
  {
    if p > 0.0 {
      assert p * q > 0.0 * q;
    } else if p < 0.0 {
      assert (-p) * q > 0.0 * q;
    }
  }

  /** Entry 100, target 110, stop 95: a band 10 high from 100 to 110
      labelled +10%, and a band 5 high from 95 to 100 labelled -5%. */
  lemma EntryHundredScenario()
    ensures SlOrTp(100.0, 110.0, 95.0, true) == Success(Levels(
      Band(Segment(110.0, 110.0), Segment(100.0, 100.0)), 10.0,
      Band(Segment(100.0, 100.0), Segment(95.0, 95.0)), -5.0))
  {
  }
}
