/** The running statistics the dispatchers keep while folding in results: sums, and the
    running maximum and minimum of a block time updated with `if (t > max) max = t` and
    `if (t < min) min = t`. Times are opaque integers here. */
module Stats {

  /** The sum of the values, folded in order. */
  function Sum(xs: seq<int>): int
  {
    if |xs| == 0 then 0 else Sum(xs[..|xs| - 1]) + xs[|xs| - 1]
  }

  /** Maximum kept by `if (x > m) m = x` over `xs`, starting from `init`. */
  function RunningMax(init: int, xs: seq<int>): int
  {
    if |xs| == 0 then init
    else
      var m := RunningMax(init, xs[..|xs| - 1]);
      if xs[|xs| - 1] > m then xs[|xs| - 1] else m
  }

  /** Minimum kept by `if (x < m) m = x` over `xs`, starting from `init`. */
  function RunningMin(init: int, xs: seq<int>): int
  {
    if |xs| == 0 then init
    else
      var m := RunningMin(init, xs[..|xs| - 1]);
      if xs[|xs| - 1] < m then xs[|xs| - 1] else m
  }

  /** Folding one more value. */
  lemma FoldOneMore(xs: seq<int>, x: int, maxInit: int, minInit: int)
    ensures Sum(xs + [x]) == Sum(xs) + x
    ensures RunningMax(maxInit, xs + [x]) == (if x > RunningMax(maxInit, xs) then x else RunningMax(maxInit, xs))
    ensures RunningMin(minInit, xs + [x]) == (if x < RunningMin(minInit, xs) then x else RunningMin(minInit, xs))
  {
    assert (xs + [x])[..|xs|] == xs;
  }

  /** Sum seen from the front. */
  lemma {:induction false} SumCons(x: int, xs: seq<int>)
    ensures Sum([x] + xs) == x + Sum(xs)
    decreases |xs|
  {
    if |xs| > 0 {
      var n := |xs| - 1;
      assert ([x] + xs)[..n + 1] == [x] + xs[..n];
      SumCons(x, xs[..n]);
    }
  }

  /** The running maximum is at least its start and every value, and it is one of them. */
  lemma {:induction false} RunningMaxBounds(init: int, xs: seq<int>)
    ensures RunningMax(init, xs) >= init
    ensures forall i :: 0 <= i < |xs| ==> xs[i] <= RunningMax(init, xs)
    ensures RunningMax(init, xs) == init || exists i :: 0 <= i < |xs| && RunningMax(init, xs) == xs[i]
  {
    if |xs| > 0 {
      var n := |xs| - 1;
      RunningMaxBounds(init, xs[..n]);
      assert forall i :: 0 <= i < n ==> xs[..n][i] == xs[i];
      if RunningMax(init, xs[..n]) != init && RunningMax(init, xs) != xs[n] {
        var i :| 0 <= i < n && RunningMax(init, xs[..n]) == xs[..n][i];
        assert RunningMax(init, xs) == xs[i];
      }
    }
  }

  /** The running minimum is at most its start and every value, and it is one of them. */
  lemma {:induction false} RunningMinBounds(init: int, xs: seq<int>)
    ensures RunningMin(init, xs) <= init
    ensures forall i :: 0 <= i < |xs| ==> RunningMin(init, xs) <= xs[i]
    ensures RunningMin(init, xs) == init || exists i :: 0 <= i < |xs| && RunningMin(init, xs) == xs[i]
  {
    if |xs| > 0 {
      var n := |xs| - 1;
      RunningMinBounds(init, xs[..n]);
      assert forall i :: 0 <= i < n ==> xs[..n][i] == xs[i];
      if RunningMin(init, xs[..n]) != init && RunningMin(init, xs) != xs[n] {
        var i :| 0 <= i < n && RunningMin(init, xs[..n]) == xs[..n][i];
        assert RunningMin(init, xs) == xs[i];
      }
    }
  }

  /** Once one value has been folded in, the minimum is no more than the maximum, whatever the starts. */
  lemma MinNotAboveMax(minInit: int, maxInit: int, xs: seq<int>)
    requires |xs| > 0
    ensures RunningMin(minInit, xs) <= RunningMax(maxInit, xs)
  {
    RunningMinBounds(minInit, xs);
    RunningMaxBounds(maxInit, xs);
  }

  /** Sums respect a pointwise bound. */
  lemma {:induction false} SumPointwise(xs: seq<int>, ys: seq<int>)
    requires |xs| == |ys|
    requires forall i :: 0 <= i < |xs| ==> xs[i] <= ys[i]
    ensures Sum(xs) <= Sum(ys)
    decreases |xs|
  {
    if |xs| > 0 {
      var n := |xs| - 1;
      assert forall i :: 0 <= i < n ==> xs[..n][i] == xs[i] && ys[..n][i] == ys[i];
      SumPointwise(xs[..n], ys[..n]);
    }
  }
}
