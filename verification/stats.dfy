/**
 Sums, means and pandas' rolling(w, min_periods=1).mean(): the mean over the
 rows max(0, i-w+1)..i of the cells that are numbers, NaN cells skipped, and
 NaN when the window holds no number at all.
 */
module Stats {
  import opened Values

  function Sum(xs: seq<real>): real
    decreases |xs|
  {
    if |xs| == 0 then 0.0 else Sum(xs[..|xs| - 1]) + xs[|xs| - 1]
  }

  /** Sum of the number cells of a column; null cells are skipped. */
  function NumSum(vs: seq<Value>): real
    decreases |vs|
  {
    if |vs| == 0 then 0.0
    else NumSum(vs[..|vs| - 1]) + (if vs[|vs| - 1].Num? then vs[|vs| - 1].x else 0.0)
  }

  /** Number of number cells in a column. */
  function NumCount(vs: seq<Value>): (c: nat)
    ensures c <= |vs|
    decreases |vs|
  {
    if |vs| == 0 then 0
    else NumCount(vs[..|vs| - 1]) + (if vs[|vs| - 1].Num? then 1 else 0)
  }

  predicate HasNum(vs: seq<Value>) {
    exists i :: 0 <= i < |vs| && vs[i].Num?
  }

  /** Series.mean() with skipna: NaN when no number is present. */
  function Mean(vs: seq<Value>): (m: Value)
    ensures m.Num? || m == Missing
  {
    if NumCount(vs) == 0 then Missing else Num(NumSum(vs) / NumCount(vs) as real)
  }

  /** First row of the trailing window of width w that ends at row i. */
  function WindowStart(i: nat, w: nat): (s: nat)
    requires w >= 1
    ensures s <= i
    ensures s == 0 || i - s + 1 == w
    ensures i - s + 1 <= w
  {
    if i + 1 >= w then i + 1 - w else 0
  }

  /** The cells of the trailing window of width w that ends at row i. */
  function Window<T>(vs: seq<T>, w: nat, i: nat): seq<T>
    requires w >= 1 && i < |vs|
  {
    vs[WindowStart(i, w)..i + 1]
  }

  /** rolling(window=w, min_periods=1).mean() */
  function RollingMean(vs: seq<Value>, w: nat): (ms: seq<Value>)
    requires w >= 1
    ensures |ms| == |vs|
    ensures forall i :: 0 <= i < |vs| ==> ms[i] == Mean(Window(vs, w, i))
  {
    seq(|vs|, i requires 0 <= i < |vs| => Mean(Window(vs, w, i)))
  }

  // ---------------------------------------------------------------------
  // Facts about counts and sums

  lemma {:induction false} NumCountPositive(vs: seq<Value>)
    ensures NumCount(vs) > 0 <==> HasNum(vs)
    decreases |vs|
  {
    if |vs| > 0 {
      var init := vs[..|vs| - 1];
      NumCountPositive(init);
      if HasNum(init) {
        var i :| 0 <= i < |init| && init[i].Num?;
        assert vs[i].Num?;
      }
      if HasNum(vs) && !vs[|vs| - 1].Num? {
        var i :| 0 <= i < |vs| && vs[i].Num?;
        assert init[i].Num?;
      }
    }
  }

  lemma {:induction false} NumCountAll(vs: seq<Value>)
    requires AllNum(vs)
    ensures NumCount(vs) == |vs|
    ensures NumSum(vs) == Sum(Reals(vs))
    decreases |vs|
  {
    if |vs| > 0 {
      NumCountAll(vs[..|vs| - 1]);
      assert Reals(vs)[..|vs| - 1] == Reals(vs[..|vs| - 1]);
    }
  }

  /** n copies of k added up; keeps the bound proofs free of products. */
  function Scale(n: nat, k: real): real
  {
    if n == 0 then 0.0 else Scale(n - 1, k) + k
  }

  lemma {:induction false} ScaleIsProduct(n: nat, k: real)
    ensures Scale(n, k) == n as real * k
  {
    if n > 0 {
      ScaleIsProduct(n - 1, k);
      assert (n - 1) as real * k + k == n as real * k;
    }
  }

  /** A sum of numbers that all lie in [lo, hi] lies in [count*lo, count*hi]. */
  lemma {:induction false} NumSumBounds(vs: seq<Value>, lo: real, hi: real)
    requires forall i :: 0 <= i < |vs| && vs[i].Num? ==> lo <= vs[i].x <= hi
    ensures Scale(NumCount(vs), lo) <= NumSum(vs) <= Scale(NumCount(vs), hi)
    decreases |vs|
  {
    if |vs| > 0 {
      var n := |vs| - 1;
      var init := vs[..n];
      NumSumBounds(init, lo, hi);
      if vs[n].Num? {
        assert lo <= vs[n].x <= hi;
        assert NumCount(vs) == NumCount(init) + 1;
      } else {
        assert NumCount(vs) == NumCount(init);
      }
    }
  }

  /** A mean lies within any bounds of the numbers it averages. */
  lemma MeanBounds(vs: seq<Value>, lo: real, hi: real)
    requires forall i :: 0 <= i < |vs| && vs[i].Num? ==> lo <= vs[i].x <= hi
    ensures Mean(vs).Num? ==> lo <= Mean(vs).x <= hi
  {
    NumSumBounds(vs, lo, hi);
    if NumCount(vs) > 0 {
      DivideScaled(NumSum(vs), NumCount(vs), lo, hi);
    }
  }

  lemma DivideScaled(s: real, n: nat, lo: real, hi: real)
    requires n > 0 && Scale(n, lo) <= s <= Scale(n, hi)
    ensures lo <= s / n as real <= hi
  {
    ScaleIsProduct(n, lo);
    ScaleIsProduct(n, hi);
    DivideBounds(s, n as real, lo, hi);
  }

  lemma DivideBounds(s: real, c: real, lo: real, hi: real)
    requires c > 0.0 && c * lo <= s <= c * hi
    ensures lo <= s / c <= hi
  {
    var q := s / c;
    assert s == c * q;
    assert c * (q - lo) >= 0.0 && c * (hi - q) >= 0.0;
  }

  /** Over a column with no null cell the mean is the plain arithmetic mean. */
  lemma MeanAllNum(vs: seq<Value>)
    requires AllNum(vs) && |vs| > 0
    ensures Mean(vs) == Num(Sum(Reals(vs)) / |vs| as real)
  {
    NumCountAll(vs);
  }

  lemma {:induction false} SumFront(xs: seq<real>)
    requires |xs| > 0
    ensures Sum(xs) == xs[0] + Sum(xs[1..])
    decreases |xs|
  {
    if |xs| > 1 {
      SumFront(xs[..|xs| - 1]);
      assert xs[..|xs| - 1][1..] == xs[1..][..|xs| - 2];
    }
  }

  lemma SumBack(xs: seq<real>, a: nat, b: nat)
    requires a <= b < |xs|
    ensures Sum(xs[a..b + 1]) == Sum(xs[a..b]) + xs[b]
  {
    assert xs[a..b + 1][..b - a] == xs[a..b];
  }
}
