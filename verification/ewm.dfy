/**
 pandas' Series.ewm(span=s, adjust=False).mean() with the default
 ignore_na=False: a running weighted value that starts at the first number,
 and at each later number c becomes (oldWt*w + alpha*c) / (oldWt + alpha),
 where oldWt is 1 - alpha after an unbroken run and decays by another factor
 1 - alpha for every NaN cell skipped since the last number.
 */
module Ewm {
  import opened Values

  /** The smoothing factor 2/(span+1) for a span of at least 1. */
  function Alpha(span: nat): (a: real)
    requires span >= 1
    ensures 0.0 < a <= 1.0
  {
    2.0 / (span as real + 1.0)
  }

  /** The running value (absent until the first number) and the weight it carries. */
  datatype State = State(weighted: Option<real>, oldWt: real)

  predicate ValidState(st: State) {
    0.0 <= st.oldWt <= 1.0
  }

  function Start(v: Value): (st: State)
    ensures ValidState(st)
  {
    State(if v.Num? then Some(v.x) else None, 1.0)
  }

  /** The weight of the running value after one more row: oldWt * (1 - alpha). */
  function Decay(wt: real, alpha: real): (d: real)
    requires 0.0 <= wt <= 1.0 && 0.0 < alpha <= 1.0
    ensures 0.0 <= d <= wt
  {
    ProductBounds(wt, 1.0 - alpha);
    wt * (1.0 - alpha)
  }

  lemma ProductBounds(a: real, b: real)
    requires 0.0 <= a && 0.0 <= b <= 1.0
    ensures 0.0 <= a * b <= a
  {
    assert a * (1.0 - b) >= 0.0;
  }

  /** Blend the running value w with a new number c, as pandas does. */
  function Blend(decayed: real, w: real, alpha: real, c: real): real
    requires 0.0 <= decayed && 0.0 < alpha
  {
    if w != c then (decayed * w + alpha * c) / (decayed + alpha) else w
  }

  function Step(st: State, v: Value, alpha: real): (r: State)
    requires 0.0 < alpha <= 1.0 && ValidState(st)
    ensures ValidState(r)
  {
    match st.weighted
    case Some(w) =>
      var decayed := Decay(st.oldWt, alpha);
      if v.Num? then
        State(Some(Blend(decayed, w, alpha, v.x)), 1.0)
      else State(Some(w), decayed)
    case None =>
      if v.Num? then State(Some(v.x), st.oldWt) else st
  }

  /** The state after the cells of xs have been consumed in order. */
  function Run(xs: seq<Value>, alpha: real): (st: State)
    requires |xs| > 0 && 0.0 < alpha <= 1.0
    ensures ValidState(st)
    decreases |xs|
  {
    if |xs| == 1 then Start(xs[0])
    else Step(Run(xs[..|xs| - 1], alpha), xs[|xs| - 1], alpha)
  }

  function Output(st: State): Value {
    if st.weighted.Some? then Num(st.weighted.value) else Missing
  }

  /** ewm(alpha, adjust=False).mean(): one output per input row. */
  function EwmMean(xs: seq<Value>, alpha: real): (ys: seq<Value>)
    requires 0.0 < alpha <= 1.0
    ensures |ys| == |xs|
    ensures forall i :: 0 <= i < |xs| ==> ys[i] == Output(Run(xs[..i + 1], alpha))
  {
    seq(|xs|, i requires 0 <= i < |xs| => Output(Run(xs[..i + 1], alpha)))
  }

  /** One step of the textbook recurrence: alpha*c + (1-alpha)*e. */
  function Update(e: real, c: real, alpha: real): real {
    alpha * c + (1.0 - alpha) * e
  }

  /** The textbook recurrence: e[0] = x[0], e[i] = alpha*x[i] + (1-alpha)*e[i-1]. */
  function Recurrence(xs: seq<real>, alpha: real): (es: seq<real>)
    ensures |es| == |xs|
    decreases |xs|
  {
    if |xs| == 0 then []
    else if |xs| == 1 then [xs[0]]
    else
      var es := Recurrence(xs[..|xs| - 1], alpha);
      es + [Update(es[|es| - 1], xs[|xs| - 1], alpha)]
  }

  // ---------------------------------------------------------------------

  /** Without NaN cells the state always holds a value and carries full weight. */
  lemma {:induction false} RunNoGaps(xs: seq<Value>, alpha: real)
    requires |xs| > 0 && 0.0 < alpha <= 1.0 && AllNum(xs)
    ensures Run(xs, alpha).weighted.Some? && Run(xs, alpha).oldWt == 1.0
    ensures Run(xs, alpha).weighted.value == Recurrence(Reals(xs), alpha)[|xs| - 1]
    decreases |xs|
  {
    if |xs| > 1 {
      var init := xs[..|xs| - 1];
      RunNoGaps(init, alpha);
      assert Reals(xs)[..|xs| - 1] == Reals(init);
      var w := Run(init, alpha).weighted.value;
      var c := xs[|xs| - 1].x;
      BlendUnbroken(w, alpha, c);
    }
  }

  /** After an unbroken run the blend is the textbook update. */
  lemma BlendUnbroken(w: real, alpha: real, c: real)
    requires 0.0 < alpha <= 1.0
    ensures Decay(1.0, alpha) == 1.0 - alpha
    ensures Blend(1.0 - alpha, w, alpha, c) == Update(w, c, alpha)
  {
    assert (1.0 - alpha) + alpha == 1.0;
  }

  /** Over a column with no NaN the pandas algorithm is the textbook recurrence. */
  lemma EwmNoGaps(xs: seq<Value>, alpha: real)
    requires 0.0 < alpha <= 1.0 && AllNum(xs)
    ensures EwmMean(xs, alpha) == Nums(Recurrence(Reals(xs), alpha))
  {
    var ys := EwmMean(xs, alpha);
    var es := Recurrence(Reals(xs), alpha);
    forall i | 0 <= i < |xs|
      ensures ys[i] == Num(es[i])
    {
      RunNoGaps(xs[..i + 1], alpha);
      assert Reals(xs[..i + 1]) == Reals(xs)[..i + 1];
      RecurrencePrefix(Reals(xs), alpha, i + 1);
    }
  }

  lemma {:induction false} RecurrencePrefix(xs: seq<real>, alpha: real, k: nat)
    requires k <= |xs|
    ensures Recurrence(xs[..k], alpha) == Recurrence(xs, alpha)[..k]
    decreases |xs|
  {
    if k < |xs| {
      assert xs[..|xs| - 1][..k] == xs[..k];
      RecurrencePrefix(xs[..|xs| - 1], alpha, k);
    } else {
      assert xs[..k] == xs;
    }
  }

  /** The running value is a weighted average of the numbers seen so far. */
  lemma {:induction false} RunBounds(xs: seq<Value>, alpha: real, lo: real, hi: real)
    requires |xs| > 0 && 0.0 < alpha <= 1.0
    requires forall i :: 0 <= i < |xs| && xs[i].Num? ==> lo <= xs[i].x <= hi
    ensures Run(xs, alpha).weighted.Some? ==> lo <= Run(xs, alpha).weighted.value <= hi
    decreases |xs|
  {
    if |xs| > 1 {
      var init := xs[..|xs| - 1];
      RunBounds(init, alpha, lo, hi);
      assert forall i :: 0 <= i < |init| ==> init[i] == xs[i];
      StepBounds(Run(init, alpha), xs[|xs| - 1], alpha, lo, hi);
    }
  }

  lemma StepBounds(st: State, v: Value, alpha: real, lo: real, hi: real)
    requires 0.0 < alpha <= 1.0 && ValidState(st)
    requires st.weighted.Some? ==> lo <= st.weighted.value <= hi
    requires v.Num? ==> lo <= v.x <= hi
    ensures Step(st, v, alpha).weighted.Some? ==> lo <= Step(st, v, alpha).weighted.value <= hi
  {
    if st.weighted.Some? && v.Num? && st.weighted.value != v.x {
      WeightedAverageBounds(Decay(st.oldWt, alpha), st.weighted.value, alpha, v.x, lo, hi);
    }
  }

  lemma WeightedAverageBounds(p: real, w: real, q: real, c: real, lo: real, hi: real)
    requires p >= 0.0 && q > 0.0 && lo <= w <= hi && lo <= c <= hi
    ensures lo <= (p * w + q * c) / (p + q) <= hi
  {
    var r := (p * w + q * c) / (p + q);
    assert r * (p + q) == p * w + q * c;
    assert p * (w - lo) >= 0.0 && q * (c - lo) >= 0.0;
    assert p * (hi - w) >= 0.0 && q * (hi - c) >= 0.0;
    assert (p + q) * lo <= p * w + q * c <= (p + q) * hi;
    assert (p + q) * (r - lo) >= 0.0 && (p + q) * (hi - r) >= 0.0;
  }

  /** Each smoothed value lies within any bounds of the numbers up to its row. */
  lemma EwmBounds(xs: seq<Value>, alpha: real, i: nat, lo: real, hi: real)
    requires 0.0 < alpha <= 1.0 && i < |xs|
    requires forall j :: 0 <= j <= i && xs[j].Num? ==> lo <= xs[j].x <= hi
    ensures EwmMean(xs, alpha)[i].Num? ==> lo <= EwmMean(xs, alpha)[i].x <= hi
  {
    RunBounds(xs[..i + 1], alpha, lo, hi);
  }

  /** A smoothed value is NaN exactly while no number has been seen. */
  lemma {:induction false} RunDefined(xs: seq<Value>, alpha: real)
    requires |xs| > 0 && 0.0 < alpha <= 1.0
    ensures Run(xs, alpha).weighted.Some? <==> exists j :: 0 <= j < |xs| && xs[j].Num?
    decreases |xs|
  {
    if |xs| > 1 {
      var init := xs[..|xs| - 1];
      RunDefined(init, alpha);
      if exists j :: 0 <= j < |init| && init[j].Num? {
        var j :| 0 <= j < |init| && init[j].Num?;
        assert xs[j].Num?;
      }
      if exists j :: 0 <= j < |xs| && xs[j].Num? {
        var j :| 0 <= j < |xs| && xs[j].Num?;
        if j < |init| {
          assert init[j].Num?;
        }
      }
    }
  }

  /** The first smoothed value is the first cell itself. */
  lemma EwmFirst(xs: seq<Value>, alpha: real)
    requires 0.0 < alpha <= 1.0 && |xs| > 0
    ensures EwmMean(xs, alpha)[0] == (if xs[0].Num? then xs[0] else Missing)
  {
    assert xs[..1] == [xs[0]];
  }

  /** Smoothing a column whose numbers all equal c gives c wherever a number has been seen. */
  lemma EwmConstant(xs: seq<Value>, alpha: real, c: real)
    requires 0.0 < alpha <= 1.0
    requires forall j :: 0 <= j < |xs| && xs[j].Num? ==> xs[j].x == c
    ensures forall i :: 0 <= i < |xs| && EwmMean(xs, alpha)[i].Num? ==> EwmMean(xs, alpha)[i].x == c
  {
    forall i | 0 <= i < |xs| && EwmMean(xs, alpha)[i].Num?
      ensures EwmMean(xs, alpha)[i].x == c
    {
      EwmBounds(xs, alpha, i, c, c);
    }
  }
}
