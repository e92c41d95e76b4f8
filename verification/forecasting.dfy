/**
 The forecasting page (modules/forecasting.py): the clean-up of the price
 table down to its numeric closes, the guard that needs five of them, the
 linear-regression projection of close against row number over the next
 days, each dated one calendar day after the previous one, and the number
 formatting used in the language-model prompt.
 */
module Forecasting {
  import opened Values
  import opened Frames
  import opened Stats
  import opened Ols
  import opened Format

  // ---------------------------------------------------------------------
  // Cleaning

  /** Reference definition: the closes that convert to numbers, in row order. */
  function CleanCloses(cells: seq<Value>, parse: string -> Option<real>): (ys: seq<real>)
    ensures |ys| <= |cells|
    decreases |cells|
  {
    if |cells| == 0 then []
    else
      var rest := CleanCloses(cells[..|cells| - 1], parse);
      var v := ToNumeric(cells[|cells| - 1], parse);
      if v.Num? then rest + [v.x] else rest
  }

  /**
   preprocess_forecast_data: None for an empty table or one without a Close
   column; otherwise a one-column table of the numeric closes, the rows
   whose close is missing or unparsable dropped.
   */
  function Preprocess(f: Frame, parse: string -> Option<real>): (r: Option<Frame>)
    requires WellFormed(f)
    ensures r.None? <==> Empty(f) || !Has(f, "Close")
    ensures r.Some? ==> WellFormed(r.value) && Names(r.value) == ["Close"]
    ensures r.Some? ==> AllNum(Lookup(r.value, "Close"))
  {
    if Empty(f) || !Has(f, "Close") then None
    else
      var cells := Coerce(Lookup(f, "Close"), parse);
      var g := Frame(f.index, [Column("Close", cells)]);
      var out := KeepRows(g, NotNullMask(cells));
      LookupUnique(out, 0);
      Some(out)
  }

  lemma {:induction false} CleanClosesFilter(cells: seq<Value>, parse: string -> Option<real>)
    ensures Filter(Coerce(cells, parse), NumericMask(cells, parse)) == Nums(CleanCloses(cells, parse))
    decreases |cells|
  {
    if |cells| > 0 {
      var n := |cells| - 1;
      CleanClosesFilter(cells[..n], parse);
      assert Coerce(cells, parse)[..n] == Coerce(cells[..n], parse);
      assert NumericMask(cells, parse)[..n] == NumericMask(cells[..n], parse);
      var rest := CleanCloses(cells[..n], parse);
      if ToNumeric(cells[n], parse).Num? {
        assert Nums(rest + [ToNumeric(cells[n], parse).x]) == Nums(rest) + [Coerce(cells, parse)[n]];
      }
    }
  }

  /**
   The cleaned table holds, in order, exactly the rows whose close converts
   to a number: its dates are those rows' dates and its closes their values.
   */
  lemma PreprocessRows(f: Frame, parse: string -> Option<real>)
    requires WellFormed(f) && Preprocess(f, parse).Some?
    ensures var out := Preprocess(f, parse).value;
      && out.index == Filter(f.index, NumericMask(Lookup(f, "Close"), parse))
      && Lookup(out, "Close") == Nums(CleanCloses(Lookup(f, "Close"), parse))
  {
    var closes := Lookup(f, "Close");
    var cells := Coerce(closes, parse);
    var g := Frame(f.index, [Column("Close", cells)]);
    var mask := NotNullMask(cells);
    var out := KeepRows(g, mask);
    CoercedMasks(closes, parse);
    TakeIsFilter(f.index, mask);
    LookupUnique(g, 0);
    LookupKeepRows(g, mask, "Close");
    TakeIsFilter(cells, mask);
    CleanClosesFilter(closes, parse);
  }

  /** A row of the input survives cleaning exactly when its close converts to a number. */
  lemma CleanClosesCount(cells: seq<Value>, parse: string -> Option<real>)
    ensures |CleanCloses(cells, parse)| == NumCount(Coerce(cells, parse))
  {
    CleanClosesNumCount(cells, parse);
  }

  lemma {:induction false} CleanClosesNumCount(cells: seq<Value>, parse: string -> Option<real>)
    ensures |CleanCloses(cells, parse)| == NumCount(Coerce(cells, parse))
    decreases |cells|
  {
    if |cells| > 0 {
      var n := |cells| - 1;
      CleanClosesNumCount(cells[..n], parse);
      assert Coerce(cells, parse)[..n] == Coerce(cells[..n], parse);
    }
  }

  // ---------------------------------------------------------------------
  // The linear projection

  /** One projected row: its date as a day number and the predicted close. */
  datatype ForecastPoint = ForecastPoint(date: int, predicted: real)

  /** The failures of generate_ml_forecast: fitting no rows, or predicting no days. */
  datatype ForecastError = NoHistory | NoHorizon

  /**
   generate_ml_forecast, linear branch: fit close against row numbers
   0..n-1, predict at n..n+days-1, and date the predictions from the day
   after the last historical date, one calendar day apart.
   */
  function LinearForecast(dates: seq<int>, ys: seq<real>, days: int)
    : (r: Result<seq<ForecastPoint>, ForecastError>)
    requires |dates| == |ys|
    ensures r.Err? <==> |ys| == 0 || days < 1
    ensures r.Err? ==> (r.error == NoHistory <==> |ys| == 0)
    ensures r.Ok? ==> |r.value| == days
  {
    if |ys| == 0 then Err(NoHistory)
    else if days < 1 then Err(NoHorizon)
    else
      var m := Fit(ys);
      var n := |ys|;
      Ok(seq(days, k requires 0 <= k < days =>
             ForecastPoint(dates[n - 1] + 1 + k, Predict(m, (n + k) as real))))
  }

  /** The dates start the day after the last historical date and advance one day at a time, weekends included. */
  lemma ForecastDates(dates: seq<int>, ys: seq<real>, days: int)
    requires |dates| == |ys| && LinearForecast(dates, ys, days).Ok?
    ensures var ps := LinearForecast(dates, ys, days).value;
      && ps[0].date == dates[|dates| - 1] + 1
      && forall k :: 0 < k < |ps| ==> ps[k].date == ps[k - 1].date + 1
  {
  }

  /**
   With at least two closes, every prediction lies on the one line whose
   squared error over the history is least: any line at least as good as
   every other line gives the same predictions.
   */
  lemma ForecastLeastSquares(dates: seq<int>, ys: seq<real>, days: int, m: Line)
    requires |dates| == |ys| && |ys| >= 2 && days >= 1
    requires forall l: Line :: Sse(ys, m) <= Sse(ys, l)
    ensures var ps := LinearForecast(dates, ys, days).value;
      forall k :: 0 <= k < days ==> ps[k].predicted == Predict(m, (|ys| + k) as real)
  {
    FitUnique(ys, m);
  }

  /** The predictions come from a line no other line beats on the history. */
  lemma ForecastOptimal(dates: seq<int>, ys: seq<real>, days: int, other: Line)
    requires |dates| == |ys| && |ys| >= 1 && days >= 1
    ensures var ps := LinearForecast(dates, ys, days).value;
      exists m: Line :: Sse(ys, m) <= Sse(ys, other)
        && forall k :: 0 <= k < days ==> ps[k].predicted == Predict(m, (|ys| + k) as real)
  {
    LeastSquares(ys, other);
    var ps := LinearForecast(dates, ys, days).value;
    assert forall k :: 0 <= k < days ==> ps[k].predicted == Predict(Fit(ys), (|ys| + k) as real);
  }

  /** Closes lying exactly on a line a + b*i are continued along that line. */
  lemma ForecastExactLine(dates: seq<int>, ys: seq<real>, days: int, l: Line)
    requires |dates| == |ys| && |ys| >= 2 && days >= 1
    requires forall i :: 0 <= i < |ys| ==> ys[i] == Predict(l, i as real)
    ensures var ps := LinearForecast(dates, ys, days).value;
      forall k :: 0 <= k < days ==> ps[k].predicted == Predict(l, (|ys| + k) as real)
  {
    ExactLine(ys, l);
  }

  /** A flat history, even a single close, is projected flat. */
  lemma ForecastConstant(dates: seq<int>, ys: seq<real>, days: int, c: real)
    requires |dates| == |ys| && |ys| >= 1 && days >= 1
    requires forall i :: 0 <= i < |ys| ==> ys[i] == c
    ensures var ps := LinearForecast(dates, ys, days).value;
      forall k :: 0 <= k < days ==> ps[k].predicted == c
  {
    var flat := Line(c, 0.0);
    if |ys| >= 2 {
      ExactLine(ys, flat);
    } else {
      SingleRowSums(ys);
      assert Sum(ys) == c by {
        assert ys[..0] == [];
      }
      assert Disc(1.0, 0.0, 0.0) == 0.0;
      assert Fit(ys) == flat;
    }
    assert forall x :: Predict(flat, x) == c;
  }

  // ---------------------------------------------------------------------
  // The page

  const MinimumCloses: nat := 5

  const TooFewMessage := "Minimum 5 days of closing prices required"

  /** What show_forecasting puts on the page: the error banner, or the cleaned closes and the projection. */
  datatype Outcome =
    | Rejected(message: string)
    | Projected(closes: seq<real>, forecast: seq<ForecastPoint>)

  /**
   show_forecasting followed by display_ml_forecast with the slider's
   horizon (1 to 90 days): clean the table, refuse fewer than five closes,
   otherwise project the closes.
   */
  function ShowForecast(f: Frame, parse: string -> Option<real>, horizon: int): (r: Outcome)
    requires WellFormed(f) && 1 <= horizon <= 90
    ensures r.Projected? <==>
      !Empty(f) && Has(f, "Close") && |CleanCloses(Lookup(f, "Close"), parse)| >= MinimumCloses
    ensures r.Rejected? ==> r.message == TooFewMessage
    ensures r.Projected? ==> r.closes == CleanCloses(Lookup(f, "Close"), parse)
    ensures r.Projected? ==> |r.forecast| == horizon
    ensures r.Projected? ==>
      var dates := Filter(f.index, NumericMask(Lookup(f, "Close"), parse));
      |dates| == |r.closes| && LinearForecast(dates, r.closes, horizon) == Ok(r.forecast)
  {
    var cleaned := Preprocess(f, parse);
    if cleaned.None? then Rejected(TooFewMessage)
    else
      PreprocessRows(f, parse);
      var out := cleaned.value;
      if Rows(out) < MinimumCloses then Rejected(TooFewMessage)
      else
        var ys := Reals(Lookup(out, "Close"));
        assert Nums(ys) == Lookup(out, "Close");
        NumsInjective(ys, CleanCloses(Lookup(f, "Close"), parse));
        var fc := LinearForecast(out.index, ys, horizon);
        Projected(ys, fc.value)
  }

  lemma NumsInjective(xs: seq<real>, ys: seq<real>)
    requires Nums(xs) == Nums(ys)
    ensures xs == ys
  {
    assert |xs| == |Nums(xs)|;
    assert forall i :: 0 <= i < |xs| ==> Nums(xs)[i] == Num(xs[i]) && Nums(ys)[i] == Num(ys[i]);
  }

  /** The guard counts only closes that convert: four are refused, five accepted, whatever else the table holds. */
  lemma ForecastGuardBoundary(f: Frame, parse: string -> Option<real>, horizon: int)
    requires WellFormed(f) && 1 <= horizon <= 90 && Has(f, "Close")
    ensures NumCount(Coerce(Lookup(f, "Close"), parse)) == 4 ==> ShowForecast(f, parse, horizon).Rejected?
    ensures NumCount(Coerce(Lookup(f, "Close"), parse)) == 5 ==> ShowForecast(f, parse, horizon).Projected?
  {
    CleanClosesCount(Lookup(f, "Close"), parse);
  }

  // ---------------------------------------------------------------------
  // Prompt formatting

  /**
   safe_format: a float (NaN included) printed with two decimals; anything
   that is not a number, None or a string, becomes "N/A".
   */
  function SafeFormat(v: Value): (s: string)
    ensures s == "N/A" <==> !IsNumberType(v)
  {
    if IsNumberType(v) then FormatNumber(v, 2, false) else "N/A"
  }

  /**
   A formatted number is an optional minus sign, the integer digits, a point
   and two digits, and those digits spell the magnitude rounded to cents.
   */
  lemma SafeFormatReadsBack(x: real)
    ensures var q := Scaled(x, 2);
      && SafeFormat(Num(x)) == (if x < 0.0 then "-" else "") + Digits(Units(q, 2)) + ("." + FracDigits(q, 2))
      && ReadDigits(Digits(Units(q, 2)) + FracDigits(q, 2)) == q
  {
    var q := Scaled(x, 2);
    FixedReadsBack(x, 2, false);
    assert WholePart(q, 2, false) == Digits(Units(q, 2));
    assert FracPart(q, 2) == "." + FracDigits(q, 2);
    UngroupDigits(Digits(Units(q, 2)));
  }
}
