/**
 * The binomial short-rate tree with geometric steps, and the values of a straight
 * and of a callable bond computed by backward induction on it (Back-end/callable_bond.cpp).
 *
 * exp is a parameter: the model does not fix the exponential, and the lemmas that need
 * a property of it (non-negativity) require that property.
 */
module CallableBond {

  import opened RealArith

  /** x to the power k. */
  function Power(x: real, k: nat): real
  {
    if k == 0 then 1.0 else x * Power(x, k - 1)
  }

  lemma {:induction false} PowerPositive(x: real, k: nat)
    requires x > 0.0
    ensures Power(x, k) > 0.0
  {
    if k > 0 {
      PowerPositive(x, k - 1);
    }
  }

  /** The rate at node (i, j) of the tree: j up moves and i - j down moves from r0. */
  function GbmRate(r0: real, u: real, d: real, i: nat, j: nat): real
    requires j <= i
  {
    r0 * Power(u, j) * Power(d, i - j)
  }

  /** The tree recombines: from node (i, j) a down move leads to (i + 1, j), an up move to (i + 1, j + 1). */
  lemma GbmRateSteps(r0: real, u: real, d: real, i: nat, j: nat)
    requires j <= i
    ensures GbmRate(r0, u, d, i + 1, j) == d * GbmRate(r0, u, d, i, j)
    ensures GbmRate(r0, u, d, i + 1, j + 1) == u * GbmRate(r0, u, d, i, j)
  {
    var pu, pd := Power(u, j), Power(d, i - j);
    assert GbmRate(r0, u, d, i + 1, j) == r0 * pu * (d * pd);
    assert GbmRate(r0, u, d, i + 1, j + 1) == r0 * (u * pu) * pd;
  }

  /** With a positive initial rate and positive move factors, every rate in the tree is positive. */
  lemma GbmRatePositive(r0: real, u: real, d: real, i: nat, j: nat)
    requires j <= i && r0 > 0.0 && u > 0.0 && d > 0.0
    ensures GbmRate(r0, u, d, i, j) > 0.0
  {
    PowerPositive(u, j);
    PowerPositive(d, i - j);
    var pu, pd := Power(u, j), Power(d, i - j);
    assert r0 * pu > 0.0;
  }

  /** interest_rate_trees_gbm_build: row i holds the i + 1 rates of period i. */
  method BuildTree(r0: real, u: real, d: real, n: int) returns (tree: seq<seq<real>>)
    ensures |tree| == (if n > 0 then n else 0) + 1
    ensures forall i :: 0 <= i < |tree| ==> |tree[i]| == i + 1
    ensures forall i, j :: 0 <= j <= i < |tree| ==> tree[i][j] == GbmRate(r0, u, d, i, j)
  {
    var r := [r0];
    tree := [r];
    var i := 1;
    while i <= n
      invariant 1 <= i && (n > 0 ==> i <= n + 1) && (n <= 0 ==> i == 1)
      invariant |tree| == i && r == tree[i - 1] && |r| == i
      invariant forall k :: 0 <= k < |tree| ==> |tree[k]| == k + 1
      invariant forall k, j :: 0 <= j <= k < |tree| ==> tree[k][j] == GbmRate(r0, u, d, k, j)
    {
      var rtop := r[|r| - 1] * u;
      GbmRateSteps(r0, u, d, i - 1, i - 1);
      for j := 0 to i
        invariant |r| == i
        invariant forall k :: 0 <= k < j ==> r[k] == GbmRate(r0, u, d, i, k)
        invariant forall k :: j <= k < i ==> r[k] == GbmRate(r0, u, d, i - 1, k)
      {
        GbmRateSteps(r0, u, d, i - 1, j);
        r := r[j := d * r[j]];
      }
      r := r + [rtop];
      tree := tree + [r];
      i := i + 1;
    }
  }

  /** The tree covers every node the valuation of n cash flows reads: rows 0 .. n - 2, entries 0 .. t. */
  ghost predicate CoversPeriods(rTree: seq<seq<real>>, n: nat)
  {
    n <= |rTree| + 1 && forall t :: 0 <= t < n - 1 ==> |rTree[t]| >= t + 1
  }

  /** std::min(a, b). */
  function MinOf(a: real, b: real): (m: real)
    ensures m <= a && m <= b && (m == a || m == b)
  {
    if b < a then b else a
  }

  /**
   * A node's value: its cash flow c plus the expected next-period value, discounted by e.
   * The successor at the same index (next, reached when the rate moves down by d) has
   * weight q; the successor one index up (nextUp, the rate moving up by u) has weight 1 - q.
   */
  function NodeValue(c: real, e: real, q: real, next: real, nextUp: real): real
  {
    c + e * (q * next + (1.0 - q) * nextUp)
  }

  /**
   * values[t][i] of interest_rate_trees_gbm_value_of_cashflows: the final cash flow at the
   * last period, otherwise this period's cash flow plus the expected next-period value
   * discounted at exp(-r).
   */
  function StraightValue(cflow: seq<real>, rTree: seq<seq<real>>, q: real, exp: real -> real, t: nat, i: nat): real
    requires 1 <= |cflow| && CoversPeriods(rTree, |cflow|) && t < |cflow| && i <= t
    decreases |cflow| - t
  {
    var n := |cflow|;
    if t == n - 1 then cflow[n - 1]
    else NodeValue(cflow[t], exp(-rTree[t][i]), q, StraightValue(cflow, rTree, q, exp, t + 1, i), StraightValue(cflow, rTree, q, exp, t + 1, i + 1))
  }

  /**
   * values[t][i] of interest_rate_trees_gbm_value_of_callable_bond: as for the straight bond,
   * but from the first call time on the issuer calls, so the value is capped at the call price.
   * The last period is never capped.
   */
  function CallableValue(cflows: seq<real>, rTree: seq<seq<real>>, q: real, exp: real -> real,
                         firstCallTime: int, callPrice: real, t: nat, i: nat): (v: real)
    requires 1 <= |cflows| && CoversPeriods(rTree, |cflows|) && t < |cflows| && i <= t
    ensures t < |cflows| - 1 && t + 1 >= firstCallTime ==> v <= callPrice
    ensures t == |cflows| - 1 ==> v == cflows[t]
    decreases |cflows| - t
  {
    var n := |cflows|;
    if t == n - 1 then cflows[n - 1]
    else
      var v := NodeValue(cflows[t], exp(-rTree[t][i]), q, CallableValue(cflows, rTree, q, exp, firstCallTime, callPrice, t + 1, i),
                         CallableValue(cflows, rTree, q, exp, firstCallTime, callPrice, t + 1, i + 1));
      if t + 1 >= firstCallTime then MinOf(v, callPrice) else v
  }

  /** interest_rate_trees_gbm_value_of_cashflows: an n x n table filled from the last period back. */
  method ValueOfCashflows(cflow: seq<real>, rTree: seq<seq<real>>, q: real, exp: real -> real) returns (value: real)
    requires 1 <= |cflow| && CoversPeriods(rTree, |cflow|)
    ensures value == StraightValue(cflow, rTree, q, exp, 0, 0)
  {
    var n := |cflow|;
    var values := seq(n, _ => seq(n, _ => 0.0));
    var row := values[n - 1];
    for i := 0 to n
      invariant |row| == n
      invariant forall k :: 0 <= k < i ==> row[k] == cflow[n - 1]
    {
      row := row[i := cflow[n - 1]];
    }
    values := values[n - 1 := row];
    var t := n - 2;
    ghost var done := n - 1;  // the row already valued, t + 1
    while t >= 0
      invariant -1 <= t <= n - 2 && done == t + 1 && |values| == n
      invariant forall k :: 0 <= k < n ==> |values[k]| == n
      invariant forall k :: 0 <= k <= done ==> values[done][k] == StraightValue(cflow, rTree, q, exp, done, k)
    {
      var next := values[t + 1];
      row := values[t];
      for i := 0 to t + 1
        invariant |row| == n
        invariant forall k :: 0 <= k < i ==> row[k] == StraightValue(cflow, rTree, q, exp, t, k)
      {
        row := row[i := NodeValue(cflow[t], exp(-rTree[t][i]), q, next[i], next[i + 1])];
      }
      values := values[t := row];
      t := t - 1;
      done := done - 1;
    }
    value := values[0][0];
  }

  /** interest_rate_trees_gbm_value_of_callable_bond: one row per period, row t - 1 built from row t. */
  method ValueOfCallableBond(cflows: seq<real>, rTree: seq<seq<real>>, q: real, exp: real -> real,
                             firstCallTime: int, callPrice: real) returns (result: real)
    requires 1 <= |cflows| && CoversPeriods(rTree, |cflows|)
    ensures result == CallableValue(cflows, rTree, q, exp, firstCallTime, callPrice, 0, 0)
  {
    var n := |cflows|;
    var values: seq<seq<real>> := seq(n, _ => []);
    var last := seq(n, _ => 0.0);
    for i := 0 to n
      invariant |last| == n
      invariant forall k :: 0 <= k < i ==> last[k] == cflows[n - 1]
    {
      last := last[i := cflows[n - 1]];
    }
    values := values[n - 1 := last];
    var t := n - 1;
    while t > 0
      invariant 0 <= t <= n - 1 && |values| == n
      invariant |values[t]| >= t + 1
      invariant forall k :: 0 <= k <= t ==> values[t][k] == CallableValue(cflows, rTree, q, exp, firstCallTime, callPrice, t, k)
    {
      var next := values[t];
      var value := seq(t, _ => 0.0);
      for i := 0 to t
        invariant |value| == t
        invariant forall k :: 0 <= k < i ==> value[k] == CallableValue(cflows, rTree, q, exp, firstCallTime, callPrice, t - 1, k)
      {
        var v := NodeValue(cflows[t - 1], exp(-rTree[t - 1][i]), q, next[i], next[i + 1]);
        if t >= firstCallTime {
          v := MinOf(v, callPrice);
        }
        value := value[i := v];
      }
      values := values[t - 1 := value];
      t := t - 1;
    }
    result := values[0][0];
  }

  /** With a single cash flow both valuations are that cash flow. */
  lemma SingleCashFlow(cflows: seq<real>, rTree: seq<seq<real>>, q: real, exp: real -> real,
                       firstCallTime: int, callPrice: real)
    requires |cflows| == 1 && CoversPeriods(rTree, 1)
    ensures StraightValue(cflows, rTree, q, exp, 0, 0) == cflows[0]
    ensures CallableValue(cflows, rTree, q, exp, firstCallTime, callPrice, 0, 0) == cflows[0]
  {
  }

  /** Without a call inside the horizon the callable bond is the straight bond, node by node. */
  lemma {:induction false} NoCallIsStraight(cflows: seq<real>, rTree: seq<seq<real>>, q: real, exp: real -> real,
                                            firstCallTime: int, callPrice: real, t: nat, i: nat)
    requires 1 <= |cflows| && CoversPeriods(rTree, |cflows|) && t < |cflows| && i <= t
    requires firstCallTime >= |cflows|
    ensures CallableValue(cflows, rTree, q, exp, firstCallTime, callPrice, t, i) == StraightValue(cflows, rTree, q, exp, t, i)
    decreases |cflows| - t
  {
    if t < |cflows| - 1 {
      NoCallIsStraight(cflows, rTree, q, exp, firstCallTime, callPrice, t + 1, i);
      NoCallIsStraight(cflows, rTree, q, exp, firstCallTime, callPrice, t + 1, i + 1);
    }
  }

  ghost predicate NonNegativeExp(exp: real -> real)
  {
    forall x :: exp(x) >= 0.0
  }

  /** With q in [0, 1] and a non-negative discount, a node's value is monotone in both successors. */
  lemma NodeValueMonotone(c: real, e: real, q: real, next: real, nextUp: real, next': real, nextUp': real)
    requires e >= 0.0 && 0.0 <= q <= 1.0 && next <= next' && nextUp <= nextUp'
    ensures NodeValue(c, e, q, next, nextUp) <= NodeValue(c, e, q, next', nextUp')
  {
    ProductNonNegative(q, next' - next);
    ProductNonNegative(1.0 - q, nextUp' - nextUp);
    var x, x' := q * next + (1.0 - q) * nextUp, q * next' + (1.0 - q) * nextUp';
    assert x' - x == q * (next' - next) + (1.0 - q) * (nextUp' - nextUp);
    ProductNonNegative(e, x' - x);
    assert e * x' - e * x == e * (x' - x);
  }

  /**
   * The call option belongs to the issuer: with a risk-neutral probability in [0, 1]
   * and a non-negative exp, the callable bond is never worth more than the straight bond.
   */
  lemma {:induction false} CallableAtMostStraight(cflows: seq<real>, rTree: seq<seq<real>>, q: real, exp: real -> real,
                                                  firstCallTime: int, callPrice: real, t: nat, i: nat)
    requires 1 <= |cflows| && CoversPeriods(rTree, |cflows|) && t < |cflows| && i <= t
    requires 0.0 <= q <= 1.0 && NonNegativeExp(exp)
    ensures CallableValue(cflows, rTree, q, exp, firstCallTime, callPrice, t, i) <= StraightValue(cflows, rTree, q, exp, t, i)
    decreases |cflows| - t
  {
    if t < |cflows| - 1 {
      CallableAtMostStraight(cflows, rTree, q, exp, firstCallTime, callPrice, t + 1, i);
      CallableAtMostStraight(cflows, rTree, q, exp, firstCallTime, callPrice, t + 1, i + 1);
      NodeValueMonotone(cflows[t], exp(-rTree[t][i]), q,
        CallableValue(cflows, rTree, q, exp, firstCallTime, callPrice, t + 1, i),
        CallableValue(cflows, rTree, q, exp, firstCallTime, callPrice, t + 1, i + 1),
        StraightValue(cflows, rTree, q, exp, t + 1, i),
        StraightValue(cflows, rTree, q, exp, t + 1, i + 1));
    }
  }

  /** Non-negative cash flows give a non-negative straight bond value at every node. */
  lemma {:induction false} StraightValueNonNegative(cflow: seq<real>, rTree: seq<seq<real>>, q: real, exp: real -> real, t: nat, i: nat)
    requires 1 <= |cflow| && CoversPeriods(rTree, |cflow|) && t < |cflow| && i <= t
    requires 0.0 <= q <= 1.0 && NonNegativeExp(exp)
    requires forall k :: 0 <= k < |cflow| ==> cflow[k] >= 0.0
    ensures StraightValue(cflow, rTree, q, exp, t, i) >= 0.0
    decreases |cflow| - t
  {
    if t < |cflow| - 1 {
      StraightValueNonNegative(cflow, rTree, q, exp, t + 1, i);
      StraightValueNonNegative(cflow, rTree, q, exp, t + 1, i + 1);
      NodeValueMonotone(cflow[t], exp(-rTree[t][i]), q, 0.0, 0.0,
        StraightValue(cflow, rTree, q, exp, t + 1, i), StraightValue(cflow, rTree, q, exp, t + 1, i + 1));
      assert NodeValue(cflow[t], exp(-rTree[t][i]), q, 0.0, 0.0) == cflow[t];
    }
  }
}
