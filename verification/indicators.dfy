/**
 calculate_technical_indicators: the moving averages MA20/MA50, the 14-row
 RSI and MACD/Signal, each added as a column only when the table is long
 enough, followed by dropping the rows that are null in every column.
 */
module Indicators {
  import opened Values
  import opened Frames
  import opened Stats
  import opened Ewm

  // ---------------------------------------------------------------------
  // Moving averages

  /** rolling(window=min(w, len), min_periods=1).mean() of the price column. */
  function MovingAverage(close: seq<Value>, w: nat): (ma: seq<Value>)
    requires w >= 1 && |close| >= 1
    ensures |ma| == |close|
  {
    RollingMean(close, if w <= |close| then w else |close|)
  }

  /** Capping the window at the table length changes nothing: MA_w[i] still averages rows max(0,i-w+1)..i. */
  lemma MovingAverageWindow(close: seq<Value>, w: nat)
    requires w >= 1 && |close| >= 1
    ensures MovingAverage(close, w) == RollingMean(close, w)
  {
    var cap := if w <= |close| then w else |close|;
    forall i | 0 <= i < |close|
      ensures WindowStart(i, cap) == WindowStart(i, w)
    {
    }
  }

  /** The first moving-average value is the first close itself. */
  lemma MovingAverageFirst(close: seq<Value>, w: nat)
    requires w >= 1 && |close| >= 1 && close[0].Num?
    ensures MovingAverage(close, w)[0] == close[0]
  {
    MovingAverageWindow(close, w);
    assert close[0..1] == [close[0]];
    assert NumCount([close[0]]) == 1 by {
      assert [close[0]][..0] == [];
    }
    assert NumSum([close[0]]) == close[0].x by {
      assert [close[0]][..0] == [];
    }
  }

  /**
   A moving-average value is NaN exactly when its window holds no number,
   and otherwise lies within any bounds of the numbers in its window.
   */
  lemma MovingAverageBounds(close: seq<Value>, w: nat, i: nat, lo: real, hi: real)
    requires w >= 1 && i < |close|
    requires forall j :: WindowStart(i, w) <= j <= i && close[j].Num? ==> lo <= close[j].x <= hi
    ensures MovingAverage(close, w)[i].Num? <==> HasNum(Window(close, w, i))
    ensures MovingAverage(close, w)[i].Num? ==> lo <= MovingAverage(close, w)[i].x <= hi
  {
    MovingAverageWindow(close, w);
    var win := Window(close, w, i);
    NumCountPositive(win);
    forall k | 0 <= k < |win| && win[k].Num?
      ensures lo <= win[k].x <= hi
    {
      assert win[k] == close[WindowStart(i, w) + k];
    }
    MeanBounds(win, lo, hi);
  }

  /**
   With no null close and a full window, consecutive averages differ by the
   entering close minus the leaving one, over w.
   */
  lemma MovingAverageSlide(close: seq<Value>, w: nat, i: nat)
    requires w >= 1 && w <= i < |close| && AllNum(close)
    ensures MovingAverage(close, w)[i].Num? && MovingAverage(close, w)[i - 1].Num?
    ensures MovingAverage(close, w)[i].x
         == MovingAverage(close, w)[i - 1].x + (close[i].x - close[i - w].x) / w as real
  {
    MovingAverageWindow(close, w);
    var xs := Reals(close);
    var a := i + 1 - w;
    var s1, s0 := Sum(xs[a..i + 1]), Sum(xs[a - 1..i]);
    WindowMean(close, w, i);
    WindowMean(close, w, i - 1);
    assert RollingMean(close, w)[i] == Num(s1 / w as real);
    assert RollingMean(close, w)[i - 1] == Num(s0 / w as real);
    SlideSum(xs, a, i);
    assert close[i].x == xs[i] && close[a - 1].x == xs[a - 1];
    SlideMean(s1, s0, close[i].x, close[i - w].x, w as real,
      MovingAverage(close, w)[i].x, MovingAverage(close, w)[i - 1].x);
  }

  lemma SlideMean(s1: real, s0: real, enter: real, leave: real, c: real, m1: real, m0: real)
    requires c > 0.0 && s1 == s0 + enter - leave
    requires m1 == s1 / c && m0 == s0 / c
    ensures m1 == m0 + (enter - leave) / c
  {
    assert s1 / c == s0 / c + (enter - leave) / c;
  }

  /** A full window over a column with no null cell averages its reals. */
  lemma WindowMean(close: seq<Value>, w: nat, i: nat)
    requires w >= 1 && w <= i + 1 && i < |close| && AllNum(close)
    ensures RollingMean(close, w)[i] == Num(Sum(Reals(close)[i + 1 - w..i + 1]) / w as real)
  {
    var a := i + 1 - w;
    assert Window(close, w, i) == close[a..i + 1];
    MeanAllNum(close[a..i + 1]);
    assert Reals(close[a..i + 1]) == Reals(close)[a..i + 1];
  }

  lemma SlideSum(xs: seq<real>, a: nat, i: nat)
    requires 1 <= a <= i < |xs|
    ensures Sum(xs[a..i + 1]) == Sum(xs[a - 1..i]) + xs[i] - xs[a - 1]
  {
    SumBack(xs, a, i);
    SumFront(xs[a - 1..i]);
    assert xs[a - 1..i][1..] == xs[a..i];
  }

  // ---------------------------------------------------------------------
  // RSI

  /** Series.diff(): NaN at row 0 and wherever either neighbour is NaN. */
  function Delta(close: seq<Value>): (d: seq<Value>)
    ensures |d| == |close|
    ensures forall i :: 0 < i < |close| && close[i].Num? && close[i - 1].Num? ==>
      d[i] == Num(close[i].x - close[i - 1].x)
  {
    seq(|close|, i requires 0 <= i < |close| =>
      if i == 0 then Missing else Minus(close[i], close[i - 1]))
  }

  /** delta.where(delta > 0, 0): a NaN delta fails the comparison and becomes 0. */
  function Gain(d: Value): real {
    if d.Num? && d.x > 0.0 then d.x else 0.0
  }

  /** -delta.where(delta < 0, 0) */
  function Loss(d: Value): real {
    if d.Num? && d.x < 0.0 then -d.x else 0.0
  }

  lemma GainLoss(close: seq<Value>, i: nat)
    requires i < |close|
    ensures Gain(Delta(close)[i]) >= 0.0 && Loss(Delta(close)[i]) >= 0.0
    ensures Gain(Delta(close)[i]) == 0.0 || Loss(Delta(close)[i]) == 0.0
    ensures i == 0 ==> Gain(Delta(close)[i]) == 0.0 && Loss(Delta(close)[i]) == 0.0
    ensures Delta(close)[i].Num? ==>
      Gain(Delta(close)[i]) - Loss(Delta(close)[i]) == Delta(close)[i].x
  {
  }

  function Gains(close: seq<Value>): (g: seq<Value>)
    ensures |g| == |close| && AllNum(g)
  {
    var d := Delta(close);
    Nums(seq(|d|, i requires 0 <= i < |d| => Gain(d[i])))
  }

  function Losses(close: seq<Value>): (l: seq<Value>)
    ensures |l| == |close| && AllNum(l)
  {
    var d := Delta(close);
    Nums(seq(|d|, i requires 0 <= i < |d| => Loss(d[i])))
  }

  /** Over a column with no null cell every rolling mean is a number. */
  lemma RollingMeanAllNum(vs: seq<Value>, w: nat)
    requires w >= 1 && AllNum(vs)
    ensures AllNum(RollingMean(vs, w))
  {
    forall i | 0 <= i < |vs|
      ensures RollingMean(vs, w)[i].Num?
    {
      var win := Window(vs, w, i);
      assert win[|win| - 1] == vs[i];
      NumCountPositive(win);
    }
  }

  /** avg_gain / avg_loss: the 14-row rolling means of gain and loss. */
  function AvgGain(close: seq<Value>): (ag: seq<real>)
    ensures |ag| == |close|
    ensures Nums(ag) == RollingMean(Gains(close), 14)
  {
    RollingMeanAllNum(Gains(close), 14);
    Reals(RollingMean(Gains(close), 14))
  }

  function AvgLoss(close: seq<Value>): (al: seq<real>)
    ensures |al| == |close|
    ensures Nums(al) == RollingMean(Losses(close), 14)
  {
    RollingMeanAllNum(Losses(close), 14);
    Reals(RollingMean(Losses(close), 14))
  }

  /** 100 - 100 / (1 + avg_gain / avg_loss), in float64 arithmetic. */
  function RsiFormula(avgGain: real, avgLoss: real): Float {
    FSub(Fin(100.0), FDiv(Fin(100.0), FAdd(Fin(1.0), FDiv(Fin(avgGain), Fin(avgLoss)))))
  }

  /**
   For non-negative averages the formula is NaN exactly when both are 0, is
   100 when only the loss average is 0, and is otherwise
   100*gain/(gain+loss), which lies in [0, 100).
   */
  lemma RsiCases(g: real, l: real)
    requires g >= 0.0 && l >= 0.0
    ensures RsiFormula(g, l).NaN? <==> g == 0.0 && l == 0.0
    ensures l == 0.0 && g > 0.0 ==> RsiFormula(g, l) == Fin(100.0)
    ensures l > 0.0 ==> RsiFormula(g, l) == Fin(100.0 * g / (g + l))
    ensures l > 0.0 ==> 0.0 <= 100.0 * g / (g + l) < 100.0
    ensures RsiFormula(g, l).Fin? || RsiFormula(g, l).NaN?
  {
    if l > 0.0 {
      RatioForm(g, l);
      assert FDiv(Fin(g), Fin(l)) == Fin(g / l);
      assert FDiv(Fin(100.0), Fin(1.0 + g / l)) == Fin(100.0 * l / (g + l));
    } else if g > 0.0 {
      assert FDiv(Fin(g), Fin(l)) == PosInf;
      assert FDiv(Fin(100.0), PosInf) == Fin(0.0);
    } else {
      assert FDiv(Fin(g), Fin(l)).NaN?;
    }
  }

  lemma RatioForm(g: real, l: real)
    requires g >= 0.0 && l > 0.0
    ensures 100.0 / (1.0 + g / l) == 100.0 * l / (g + l)
    ensures 100.0 - 100.0 * l / (g + l) == 100.0 * g / (g + l)
    ensures 0.0 <= 100.0 * g / (g + l) < 100.0
  {
    var rs := g / l;
    assert rs * l == g;
    var d := 1.0 + rs;
    assert d * l == g + l;
    var t := 100.0 / d;
    assert t * d == 100.0;
    var u := 100.0 * l / (g + l);
    var v := 100.0 * g / (g + l);
    assert u * (g + l) == 100.0 * l;
    assert v * (g + l) == 100.0 * g;
    assert t * (g + l) == 100.0 * l by {
      assert t * (g + l) == (t * d) * l;
    }
    assert (t - u) * (g + l) == 0.0;
    ZeroFactor(t - u, g + l);
    assert (u + v - 100.0) * (g + l) == 0.0;
    ZeroFactor(u + v - 100.0, g + l);
    assert (100.0 - v) * (g + l) == 100.0 * l;
  }

  lemma ZeroFactor(a: real, b: real)
    requires b > 0.0 && a * b == 0.0
    ensures a == 0.0
  {
  }

  function RsiCell(g: real, l: real): (v: Value)
    requires g >= 0.0 && l >= 0.0
  {
    RsiCases(g, l);
    CellOf(RsiFormula(g, l))
  }

  lemma AveragesNonNegative(close: seq<Value>, i: nat)
    requires i < |close|
    ensures AvgGain(close)[i] >= 0.0 && AvgLoss(close)[i] >= 0.0
  {
    GainsLossesNonNegative(close);
    RollingMeanNonNegative(Gains(close), 14, i);
    RollingMeanNonNegative(Losses(close), 14, i);
    assert Nums(AvgGain(close))[i] == RollingMean(Gains(close), 14)[i];
    assert Nums(AvgLoss(close))[i] == RollingMean(Losses(close), 14)[i];
  }

  lemma GainsLossesNonNegative(close: seq<Value>)
    ensures forall k :: 0 <= k < |close| ==> Gains(close)[k].x >= 0.0 && Losses(close)[k].x >= 0.0
  {
    forall k | 0 <= k < |close|
      ensures Gains(close)[k].x >= 0.0 && Losses(close)[k].x >= 0.0
    {
      GainLoss(close, k);
    }
  }

  lemma {:induction false} NumSumNonNegative(vs: seq<Value>)
    requires forall k :: 0 <= k < |vs| && vs[k].Num? ==> vs[k].x >= 0.0
    ensures NumSum(vs) >= 0.0
    decreases |vs|
  {
    if |vs| > 0 {
      NumSumNonNegative(vs[..|vs| - 1]);
    }
  }

  lemma RollingMeanNonNegative(vs: seq<Value>, w: nat, i: nat)
    requires w >= 1 && i < |vs|
    requires forall k :: 0 <= k < |vs| && vs[k].Num? ==> vs[k].x >= 0.0
    ensures RollingMean(vs, w)[i].Num? ==> RollingMean(vs, w)[i].x >= 0.0
  {
    var win := Window(vs, w, i);
    assert forall k :: 0 <= k < |win| ==> win[k] == vs[WindowStart(i, w) + k];
    NumSumNonNegative(win);
  }

  /** The RSI column: one cell per row, NaN where the formula is 0/0. */
  function Rsi(close: seq<Value>): (r: seq<Value>)
    ensures |r| == |close|
  {
    var ag := AvgGain(close);
    var al := AvgLoss(close);
    seq(|close|, i requires 0 <= i < |close| =>
      AveragesNonNegative(close, i);
      RsiCell(ag[i], al[i]))
  }

  /** Per-row RSI cases in terms of the two rolling averages. */
  lemma RsiColumnCases(close: seq<Value>, i: nat)
    requires i < |close|
    ensures var g, l := AvgGain(close)[i], AvgLoss(close)[i];
      && g >= 0.0 && l >= 0.0
      && (Rsi(close)[i] == Undefined <==> g == 0.0 && l == 0.0)
      && (l == 0.0 && g > 0.0 ==> Rsi(close)[i] == Num(100.0))
      && (l > 0.0 ==> Rsi(close)[i] == Num(100.0 * g / (g + l)))
      && (Rsi(close)[i].Num? ==> 0.0 <= Rsi(close)[i].x <= 100.0)
  {
    AveragesNonNegative(close, i);
    RsiCases(AvgGain(close)[i], AvgLoss(close)[i]);
  }

  /** A rolling mean of cells that are all the number 0 is 0. */
  lemma MeanOfZeros(vs: seq<Value>)
    requires |vs| > 0 && forall k :: 0 <= k < |vs| ==> vs[k] == Num(0.0)
    ensures Mean(vs) == Num(0.0)
  {
    assert vs[0].Num?;
    NumCountPositive(vs);
    NumSumBounds(vs, 0.0, 0.0);
    ScaleIsProduct(NumCount(vs), 0.0);
  }

  /** Row 0 has no defined change, so its gain and loss averages are 0 and its RSI is NaN. */
  lemma RsiFirstUndefined(close: seq<Value>)
    requires |close| >= 1
    ensures Rsi(close)[0] == Undefined
  {
    GainLoss(close, 0);
    assert Window(Gains(close), 14, 0) == [Gains(close)[0]];
    assert Window(Losses(close), 14, 0) == [Losses(close)[0]];
    MeanOfZeros([Gains(close)[0]]);
    MeanOfZeros([Losses(close)[0]]);
    assert Nums(AvgGain(close))[0] == Mean([Gains(close)[0]]);
    assert Nums(AvgLoss(close))[0] == Mean([Losses(close)[0]]);
    RsiColumnCases(close, 0);
  }

  /** A series whose numbers never change has RSI NaN on every row. */
  lemma RsiConstantUndefined(close: seq<Value>, c: real)
    requires forall j :: 0 <= j < |close| && close[j].Num? ==> close[j].x == c
    ensures forall i :: 0 <= i < |close| ==> Rsi(close)[i] == Undefined
  {
    ConstantGainsLosses(close, c);
    forall i | 0 <= i < |close|
      ensures Rsi(close)[i] == Undefined
    {
      var gw := Window(Gains(close), 14, i);
      var lw := Window(Losses(close), 14, i);
      WindowConstant(Gains(close), 14, i, Num(0.0));
      WindowConstant(Losses(close), 14, i, Num(0.0));
      MeanOfZeros(gw);
      MeanOfZeros(lw);
      assert Nums(AvgGain(close))[i] == Mean(gw);
      assert Nums(AvgLoss(close))[i] == Mean(lw);
      RsiColumnCases(close, i);
    }
  }

  lemma ConstantGainsLosses(close: seq<Value>, c: real)
    requires forall j :: 0 <= j < |close| && close[j].Num? ==> close[j].x == c
    ensures forall j :: 0 <= j < |close| ==> Gains(close)[j] == Num(0.0) && Losses(close)[j] == Num(0.0)
  {
    forall j | 0 <= j < |close|
      ensures Gains(close)[j] == Num(0.0) && Losses(close)[j] == Num(0.0)
    {
      ConstantDelta(close, c, j);
    }
  }

  lemma WindowConstant<T>(vs: seq<T>, w: nat, i: nat, v: T)
    requires w >= 1 && i < |vs|
    requires forall j :: 0 <= j < |vs| ==> vs[j] == v
    ensures forall k :: 0 <= k < |Window(vs, w, i)| ==> Window(vs, w, i)[k] == v
  {
    var s := WindowStart(i, w);
    forall k | 0 <= k < |Window(vs, w, i)|
      ensures Window(vs, w, i)[k] == v
    {
      assert Window(vs, w, i)[k] == vs[s + k];
    }
  }

  lemma ConstantDelta(close: seq<Value>, c: real, j: nat)
    requires j < |close|
    requires forall k :: 0 <= k < |close| && close[k].Num? ==> close[k].x == c
    ensures Gain(Delta(close)[j]) == 0.0 && Loss(Delta(close)[j]) == 0.0
  {
    if j > 0 && close[j].Num? && close[j - 1].Num? {
      assert Delta(close)[j] == Num(0.0);
    }
  }

  /** A sum of non-negative numbers with a positive one among them is positive. */
  lemma {:induction false} NumSumPositive(vs: seq<Value>, j: nat)
    requires j < |vs| && vs[j].Num? && vs[j].x > 0.0
    requires forall k :: 0 <= k < |vs| && vs[k].Num? ==> vs[k].x >= 0.0
    ensures NumSum(vs) > 0.0
    decreases |vs|
  {
    var init := vs[..|vs| - 1];
    if j < |vs| - 1 {
      NumSumPositive(init, j);
    } else {
      NumSumNonNegative(init);
    }
  }

  /** On a strictly rising series with no null close, RSI is 100 from row 1 on. */
  lemma RsiRising(close: seq<Value>, i: nat)
    requires AllNum(close) && 1 <= i < |close|
    requires forall j :: 0 < j < |close| ==> close[j - 1].x < close[j].x
    ensures Rsi(close)[i] == Num(100.0)
  {
    RisingNoLoss(close, i);
    RisingGain(close, i);
    RsiColumnCases(close, i);
  }

  lemma RisingNoLoss(close: seq<Value>, i: nat)
    requires AllNum(close) && i < |close|
    requires forall j :: 0 < j < |close| ==> close[j - 1].x < close[j].x
    ensures AvgLoss(close)[i] == 0.0
  {
    var lw := Window(Losses(close), 14, i);
    forall k | 0 <= k < |lw| ensures lw[k] == Num(0.0) {
      var j := WindowStart(i, 14) + k;
      assert lw[k] == Losses(close)[j];
      GainLoss(close, j);
    }
    MeanOfZeros(lw);
    assert Nums(AvgLoss(close))[i] == Mean(lw);
  }

  lemma RisingGain(close: seq<Value>, i: nat)
    requires AllNum(close) && 1 <= i < |close|
    requires forall j :: 0 < j < |close| ==> close[j - 1].x < close[j].x
    ensures AvgGain(close)[i] > 0.0
  {
    var gw := Window(Gains(close), 14, i);
    var s := WindowStart(i, 14);
    GainsLossesNonNegative(close);
    assert Gains(close)[i].x > 0.0 by {
      assert Delta(close)[i] == Num(close[i].x - close[i - 1].x);
    }
    WindowPositive(Gains(close), 14, i);
    assert Nums(AvgGain(close))[i] == Mean(gw);
  }

  /** A window of non-negative numbers ending on a positive one has a positive mean. */
  lemma WindowPositive(vs: seq<Value>, w: nat, i: nat)
    requires w >= 1 && i < |vs| && AllNum(vs) && vs[i].x > 0.0
    requires forall k :: 0 <= k < |vs| ==> vs[k].x >= 0.0
    ensures Mean(Window(vs, w, i)).Num? && Mean(Window(vs, w, i)).x > 0.0
  {
    var gw := Window(vs, w, i);
    var s := WindowStart(i, w);
    assert forall k :: 0 <= k < |gw| ==> gw[k] == vs[s + k];
    NumSumPositive(gw, i - s);
    NumCountPositive(gw);
  }

  // ---------------------------------------------------------------------
  // MACD and Signal

  /** exp12 - exp26 with ewm(span=12/26, adjust=False). */
  function Macd(close: seq<Value>): (m: seq<Value>)
    ensures |m| == |close|
  {
    var e12 := EwmMean(close, Alpha(12));
    var e26 := EwmMean(close, Alpha(26));
    seq(|close|, i requires 0 <= i < |close| => Minus(e12[i], e26[i]))
  }

  /** MACD.ewm(span=9, adjust=False).mean() */
  function Signal(close: seq<Value>): (s: seq<Value>)
    ensures |s| == |close|
  {
    EwmMean(Macd(close), Alpha(9))
  }

  /** Both averages start at the first close, so MACD and Signal start at 0. */
  lemma MacdFirst(close: seq<Value>)
    requires |close| >= 1 && close[0].Num?
    ensures Macd(close)[0] == Num(0.0) && Signal(close)[0] == Num(0.0)
  {
    EwmFirst(close, Alpha(12));
    EwmFirst(close, Alpha(26));
    EwmFirst(Macd(close), Alpha(9));
  }

  /** With no null close, MACD is the difference of the two textbook recurrences. */
  lemma MacdNoGaps(close: seq<Value>, i: nat)
    requires AllNum(close) && i < |close|
    ensures Macd(close)[i]
         == Num(Recurrence(Reals(close), Alpha(12))[i] - Recurrence(Reals(close), Alpha(26))[i])
  {
    EwmNoGaps(close, Alpha(12));
    EwmNoGaps(close, Alpha(26));
  }

  /** A constant series with no null close has MACD and Signal 0 on every row. */
  lemma MacdConstant(close: seq<Value>, c: real)
    requires AllNum(close)
    requires forall j :: 0 <= j < |close| ==> close[j].x == c
    ensures forall i :: 0 <= i < |close| ==> Macd(close)[i] == Num(0.0)
    ensures forall i :: 0 <= i < |close| ==> Signal(close)[i] == Num(0.0)
  {
    EwmConstant(close, Alpha(12), c);
    EwmConstant(close, Alpha(26), c);
    forall i | 0 <= i < |close|
      ensures Macd(close)[i] == Num(0.0)
    {
      RunDefined(close[..i + 1], Alpha(12));
      RunDefined(close[..i + 1], Alpha(26));
      assert close[..i + 1][0].Num?;
    }
    var m := Macd(close);
    EwmConstant(m, Alpha(9), 0.0);
    forall i | 0 <= i < |close|
      ensures Signal(close)[i] == Num(0.0)
    {
      RunDefined(m[..i + 1], Alpha(9));
      assert m[..i + 1][0].Num?;
    }
  }

  // ---------------------------------------------------------------------
  // The table step

  /** The indicator columns, in the order they are computed. */
  const IndicatorNames: seq<string> := ["MA20", "MA50", "RSI", "MACD", "Signal"]

  /** No indicator column is named Close (their names differ in length). */
  lemma CloseNotIndicator()
    ensures "Close" !in IndicatorNames
  {
    assert forall k :: 0 <= k < |IndicatorNames| ==> |IndicatorNames[k]| != 5;
  }

  /** The row count from which each indicator column is added (w // 2 for the moving averages). */
  function Threshold(name: string): nat {
    if name == "MA20" then 20 / 2
    else if name == "MA50" then 50 / 2
    else if name == "RSI" then 14
    else 26
  }

  /** The cells of an indicator column computed from the price column. */
  function Indicator(name: string, close: seq<Value>): (cells: seq<Value>)
    requires name in IndicatorNames && |close| >= 1
    ensures |cells| == |close|
  {
    if name == "MA20" then MovingAverage(close, 20)
    else if name == "MA50" then MovingAverage(close, 50)
    else if name == "RSI" then Rsi(close)
    else if name == "MACD" then Macd(close)
    else Signal(close)
  }

  /** Add one indicator column when the table has at least its threshold of rows. */
  function AddIndicator(f: Frame, close: seq<Value>, name: string): (g: Frame)
    requires WellFormed(f) && |close| == Rows(f) && name in IndicatorNames
    ensures WellFormed(g) && g.index == f.index
    ensures forall n :: Has(g, n) <==> Has(f, n) || (n == name && Rows(f) >= Threshold(name))
    ensures forall n :: Has(f, n) && n != name ==> Lookup(g, n) == Lookup(f, n)
    ensures Rows(f) >= Threshold(name) ==> Has(g, name) && Lookup(g, name) == Indicator(name, close)
    ensures |Names(f)| <= |Names(g)| && Names(g)[..|Names(f)|] == Names(f)
    ensures forall k :: |Names(f)| <= k < |Names(g)| ==> Names(g)[k] == name
  {
    if Rows(f) >= Threshold(name) then Assign(f, name, Indicator(name, close)) else f
  }

  /** Add the indicator columns named in names, left to right. */
  function AddAll(f: Frame, close: seq<Value>, names: seq<string>): (g: Frame)
    requires WellFormed(f) && |close| == Rows(f)
    requires forall k :: 0 <= k < |names| ==> names[k] in IndicatorNames
    ensures WellFormed(g) && g.index == f.index
    decreases |names|
  {
    if |names| == 0 then f
    else AddAll(AddIndicator(f, close, names[0]), close, names[1..])
  }

  /** A column is present afterwards iff it was before or is a listed indicator the length allows. */
  lemma {:induction false} AddAllHas(f: Frame, close: seq<Value>, names: seq<string>)
    requires WellFormed(f) && |close| == Rows(f)
    requires forall k :: 0 <= k < |names| ==> names[k] in IndicatorNames
    ensures forall n :: Has(AddAll(f, close, names), n) <==>
      Has(f, n) || (n in names && Rows(f) >= Threshold(n))
    decreases |names|
  {
    if |names| > 0 {
      AddAllHas(AddIndicator(f, close, names[0]), close, names[1..]);
      assert forall n :: n in names <==> n == names[0] || n in names[1..];
    }
  }

  /** Columns not listed keep their cells. */
  lemma {:induction false} AddAllKeeps(f: Frame, close: seq<Value>, names: seq<string>, n: string)
    requires WellFormed(f) && |close| == Rows(f)
    requires forall k :: 0 <= k < |names| ==> names[k] in IndicatorNames
    requires Has(f, n) && n !in names
    ensures Has(AddAll(f, close, names), n)
    ensures Lookup(AddAll(f, close, names), n) == Lookup(f, n)
    decreases |names|
  {
    if |names| > 0 {
      assert n != names[0] && n !in names[1..];
      AddAllKeeps(AddIndicator(f, close, names[0]), close, names[1..], n);
    }
  }

  /** Each listed indicator the length allows holds its computed cells. */
  lemma {:induction false} AddAllValues(f: Frame, close: seq<Value>, names: seq<string>, n: string)
    requires WellFormed(f) && |close| == Rows(f)
    requires forall k :: 0 <= k < |names| ==> names[k] in IndicatorNames
    requires n in names && Rows(f) >= Threshold(n)
    ensures Has(AddAll(f, close, names), n)
    ensures Lookup(AddAll(f, close, names), n) == Indicator(n, close)
    decreases |names|
  {
    var f1 := AddIndicator(f, close, names[0]);
    if n in names[1..] {
      AddAllValues(f1, close, names[1..], n);
    } else {
      assert n == names[0];
      AddAllKeeps(f1, close, names[1..], n);
    }
  }

  /** Existing columns keep their places; every column added after them is a listed indicator. */
  lemma {:induction false} AddAllNames(f: Frame, close: seq<Value>, names: seq<string>)
    requires WellFormed(f) && |close| == Rows(f)
    requires forall k :: 0 <= k < |names| ==> names[k] in IndicatorNames
    ensures var g := AddAll(f, close, names);
      && |Names(f)| <= |Names(g)| && Names(g)[..|Names(f)|] == Names(f)
      && forall k :: |Names(f)| <= k < |Names(g)| ==> Names(g)[k] in names
    decreases |names|
  {
    if |names| > 0 {
      var f1 := AddIndicator(f, close, names[0]);
      var g := AddAll(f1, close, names[1..]);
      AddAllNames(f1, close, names[1..]);
      PrefixOfPrefix(Names(f), Names(f1), Names(g));
      forall k | |Names(f)| <= k < |Names(g)|
        ensures Names(g)[k] in names
      {
        if k < |Names(f1)| {
          assert Names(g)[k] == Names(g)[..|Names(f1)|][k];
        } else {
          assert Names(g)[k] in names[1..];
        }
      }
    }
  }

  lemma PrefixOfPrefix<T>(a: seq<T>, b: seq<T>, c: seq<T>)
    requires |a| <= |b| <= |c| && b[..|a|] == a && c[..|b|] == b
    ensures c[..|a|] == a
  {
    assert c[..|a|] == c[..|b|][..|a|];
  }

  /** Copy Adj Close into Close when only the former exists. */
  function WithClose(f: Frame): (g: Frame)
    requires WellFormed(f)
    ensures WellFormed(g) && g.index == f.index
    ensures Has(g, "Close") <==> Has(f, "Close") || Has(f, "Adj Close")
    ensures forall n :: n != "Close" ==> (Has(g, n) <==> Has(f, n))
    ensures forall n :: Has(f, n) ==> Lookup(g, n) == Lookup(f, n)
    ensures |Names(f)| <= |Names(g)| && Names(g)[..|Names(f)|] == Names(f)
    ensures forall k :: |Names(f)| <= k < |Names(g)| ==> Names(g)[k] == "Close"
  {
    if !Has(f, "Close") && Has(f, "Adj Close") then Assign(f, "Close", Lookup(f, "Adj Close"))
    else f
  }

  /** The table after every indicator its length allows has been added. */
  function Annotate(f: Frame): (g: Frame)
    requires WellFormed(f) && Has(f, "Close")
    ensures WellFormed(g) && g.index == f.index
  {
    AddAll(f, Lookup(f, "Close"), IndicatorNames)
  }

  /** The price column the indicators read must hold numbers or nulls, never text. */
  predicate PriceNumeric(f: Frame)
    requires WellFormed(f)
  {
    && (Has(f, "Close") ==> NumericCells(Lookup(f, "Close")))
    && (!Has(f, "Close") && Has(f, "Adj Close") ==> NumericCells(Lookup(f, "Adj Close")))
  }

  /** The returned table, and whether the error handler returned the input instead. */
  datatype Outcome = Outcome(frame: Frame, raised: bool)

  /**
   calculate_technical_indicators. Without a price column a table of 10 or
   more rows fails at the first moving average and is returned as given.
   */
  function CalculateTechnicalIndicators(f: Frame): (r: Outcome)
    requires WellFormed(f) && PriceNumeric(f)
    ensures WellFormed(r.frame)
  {
    var g := WithClose(f);
    if Has(g, "Close") then Outcome(DropAllNullRows(Annotate(g)), false)
    else if Rows(g) >= 10 then Outcome(f, true)
    else Outcome(DropAllNullRows(g), false)
  }

  // ---------------------------------------------------------------------

  /** When only Adj Close exists, Close becomes a copy of it and nothing else changes. */
  lemma AdjCloseCopied(f: Frame)
    requires WellFormed(f) && !Has(f, "Close") && Has(f, "Adj Close")
    ensures Has(WithClose(f), "Close")
    ensures Lookup(WithClose(f), "Close") == Lookup(f, "Adj Close")
    ensures Names(WithClose(f)) == Names(f) + ["Close"]
    ensures forall n :: Has(f, n) ==> Lookup(WithClose(f), n) == Lookup(f, n)
  {
  }

  /** The price column the indicators are computed from. */
  function PriceColumn(f: Frame): (close: seq<Value>)
    requires WellFormed(f) && (Has(f, "Close") || Has(f, "Adj Close"))
    ensures |close| == Rows(f)
  {
    Lookup(WithClose(f), "Close")
  }

  /** The rows the final dropna keeps, in order. */
  function KeptRows(f: Frame): (ps: seq<nat>)
    requires WellFormed(f) && (Has(f, "Close") || Has(f, "Adj Close"))
  {
    var a := Annotate(WithClose(f));
    Positions(NotAllNullMask(a))
  }

  /**
   An indicator column is present in the result exactly when the table has at
   least its threshold of rows or already had such a column.
   */
  lemma IndicatorPresence(f: Frame, name: string)
    requires WellFormed(f) && PriceNumeric(f) && (Has(f, "Close") || Has(f, "Adj Close"))
    requires name in IndicatorNames
    ensures !CalculateTechnicalIndicators(f).raised
    ensures Has(CalculateTechnicalIndicators(f).frame, name) <==> Rows(f) >= Threshold(name) || Has(f, name)
  {
    var g := WithClose(f);
    CloseNotIndicator();
    assert Has(g, name) <==> Has(f, name);
    AddAllHas(g, Lookup(g, "Close"), IndicatorNames);
    var a := Annotate(g);
    assert Has(a, name) <==> Has(g, name) || Rows(g) >= Threshold(name);
    assert CalculateTechnicalIndicators(f).frame == DropAllNullRows(a);
    assert Names(DropAllNullRows(a)) == Names(a);
  }

  /** Every added column holds the indicator over the price column, on the kept rows. */
  lemma IndicatorValues(f: Frame, name: string)
    requires WellFormed(f) && PriceNumeric(f) && (Has(f, "Close") || Has(f, "Adj Close"))
    requires name in IndicatorNames && Rows(f) >= Threshold(name)
    ensures Has(CalculateTechnicalIndicators(f).frame, name)
    ensures Lookup(CalculateTechnicalIndicators(f).frame, name)
         == Take(Indicator(name, PriceColumn(f)), KeptRows(f))
  {
    var g := WithClose(f);
    AddAllValues(g, Lookup(g, "Close"), IndicatorNames, name);
    var a := Annotate(g);
    assert CalculateTechnicalIndicators(f).frame == DropAllNullRows(a);
    LookupKeepRows(a, NotAllNullMask(a), name);
  }

  /**
   Only indicator columns (and Close, when copied) are added after the
   existing ones; every other existing column keeps its values on the kept
   rows, in their original order.
   */
  lemma ExistingColumnsKept(f: Frame, name: string)
    requires WellFormed(f) && PriceNumeric(f) && (Has(f, "Close") || Has(f, "Adj Close"))
    requires Has(f, name) && name !in IndicatorNames
    ensures var out := CalculateTechnicalIndicators(f).frame;
      && Has(out, name)
      && Lookup(out, name) == Take(Lookup(f, name), KeptRows(f))
    ensures forall k, l :: 0 <= k < l < |KeptRows(f)| ==> KeptRows(f)[k] < KeptRows(f)[l]
  {
    var g := WithClose(f);
    assert Has(g, name) && Lookup(g, name) == Lookup(f, name);
    AddAllKeeps(g, Lookup(g, "Close"), IndicatorNames, name);
    var a := Annotate(g);
    var mask := NotAllNullMask(a);
    LookupKeepRows(a, mask, name);
    assert KeptRows(f) == Positions(mask);
    assert CalculateTechnicalIndicators(f).frame == DropAllNullRows(a) == KeepRows(a, mask);
  }

  /** The existing columns keep their places; only indicator columns and Close are added after them. */
  lemma AddedColumns(f: Frame)
    requires WellFormed(f) && PriceNumeric(f) && (Has(f, "Close") || Has(f, "Adj Close"))
    ensures var out := CalculateTechnicalIndicators(f).frame;
      && |Names(f)| <= |Names(out)| && Names(out)[..|Names(f)|] == Names(f)
      && forall k :: |Names(f)| <= k < |Names(out)| ==> Names(out)[k] in IndicatorNames + ["Close"]
  {
    var g := WithClose(f);
    AddAllNames(g, Lookup(g, "Close"), IndicatorNames);
    var a := Annotate(g);
    assert CalculateTechnicalIndicators(f).frame == DropAllNullRows(a);
    AppendedLabels(Names(f), Names(g), Names(a), IndicatorNames);
  }

  /** Labels appended in two steps, first Close and then listed names, extend the original labels. */
  lemma AppendedLabels(nf: seq<string>, ng: seq<string>, na: seq<string>, names: seq<string>)
    requires |nf| <= |ng| <= |na| && ng[..|nf|] == nf && na[..|ng|] == ng
    requires forall k :: |nf| <= k < |ng| ==> ng[k] == "Close"
    requires forall k :: |ng| <= k < |na| ==> na[k] in names
    ensures na[..|nf|] == nf
    ensures forall k :: |nf| <= k < |na| ==> na[k] in names + ["Close"]
  {
    PrefixOfPrefix(nf, ng, na);
    forall k | |nf| <= k < |na|
      ensures na[k] in names + ["Close"]
    {
      if k < |ng| {
        assert na[k] == na[..|ng|][k];
      }
    }
  }

  /** The final filter never drops a row whose close is a number or text. */
  lemma CloseRowKept(f: Frame, i: nat)
    requires WellFormed(f) && PriceNumeric(f) && (Has(f, "Close") || Has(f, "Adj Close"))
    requires i < Rows(f) && !IsNull(PriceColumn(f)[i])
    ensures i in KeptRows(f)
  {
    var g := WithClose(f);
    var close := Lookup(g, "Close");
    CloseNotIndicator();
    AddAllKeeps(g, close, IndicatorNames, "Close");
    var a := Annotate(g);
    var j := Find(a, "Close");
    LookupUnique(a, j);
    assert !IsNull(a.columns[j].cells[i]);
    assert NotAllNullMask(a)[i];
  }

  /** Without Close or Adj Close, 10 or more rows fail and return the input; fewer add nothing. */
  lemma NoPriceColumn(f: Frame)
    requires WellFormed(f) && !Has(f, "Close") && !Has(f, "Adj Close")
    ensures var r := CalculateTechnicalIndicators(f);
      && (r.raised <==> Rows(f) >= 10)
      && (r.raised ==> r.frame == f)
      && (!r.raised ==> Names(r.frame) == Names(f))
  {
  }
}
