/**
 * The time series of outstanding cash-flow sets and the European call option
 * on a bond priced by backward induction over a Ho-Lee lattice
 * (test/TimeContingentCashFlows.cpp).
 *
 * The lattice enters the pricer only through two abstract inputs: the one-period
 * discount factor d(1) of node (t, i), and the price of a cash-flow set discounted
 * with the curve of terminal node (T, i).
 */
module CashFlows {

  import opened RealArith

  /** TimeContingentCashFlows: cash-flow times and amounts, paired by index. */
  datatype CashFlowSet = CashFlowSet(times: seq<real>, cashFlows: seq<real>)

  /** Every time has an amount (the loops read cash_flows[i] for each i < times.size()). */
  predicate Paired(s: CashFlowSet)
  {
    |s.times| <= |s.cashFlows|
  }

  // ---------------------------------------------------------------------
  // One pass of the projection: shift by one period, keep what is still due
  // ---------------------------------------------------------------------

  /** The inner loop after its first k iterations. */
  function ShiftPrefix(times: seq<real>, cflows: seq<real>, k: nat): (r: CashFlowSet)
    requires k <= |times| <= |cflows|
    ensures |r.times| == |r.cashFlows| <= k
    ensures forall j :: 0 <= j < |r.times| ==> r.times[j] >= 0.0
  {
    if k == 0 then CashFlowSet([], [])
    else
      var r := ShiftPrefix(times, cflows, k - 1);
      if times[k - 1] - 1.0 >= 0.0 then CashFlowSet(r.times + [times[k - 1] - 1.0], r.cashFlows + [cflows[k - 1]])
      else r
  }

  /** The set one period later: every time reduced by 1.0, entries falling below 0 dropped. */
  function Shift(s: CashFlowSet): CashFlowSet
    requires Paired(s)
  {
    ShiftPrefix(s.times, s.cashFlows, |s.times|)
  }

  /** Indices below k whose time is still due one period later, in increasing order. */
  function KeptIndices(times: seq<real>, k: nat): (idx: seq<nat>)
    requires k <= |times|
    ensures forall j :: 0 <= j < |idx| ==> idx[j] < k && times[idx[j]] - 1.0 >= 0.0
    ensures forall j1, j2 :: 0 <= j1 < j2 < |idx| ==> idx[j1] < idx[j2]
    ensures forall i :: 0 <= i < k && times[i] - 1.0 >= 0.0 ==> i in idx
  {
    if k == 0 then []
    else if times[k - 1] - 1.0 >= 0.0 then KeptIndices(times, k - 1) + [k - 1]
    else KeptIndices(times, k - 1)
  }

  /** A shift is an order-preserving filter: entry j comes from input entry KeptIndices[j], with its amount. */
  lemma {:induction false} ShiftIsFilter(times: seq<real>, cflows: seq<real>, k: nat)
    requires k <= |times| <= |cflows|
    ensures var r, idx := ShiftPrefix(times, cflows, k), KeptIndices(times, k);
            |r.times| == |idx| &&
            forall j :: 0 <= j < |idx| ==> r.times[j] == times[idx[j]] - 1.0 && r.cashFlows[j] == cflows[idx[j]]
  {
    if k > 0 {
      ShiftIsFilter(times, cflows, k - 1);
      var r', idx' := ShiftPrefix(times, cflows, k - 1), KeptIndices(times, k - 1);
      var r, idx := ShiftPrefix(times, cflows, k), KeptIndices(times, k);
      if times[k - 1] - 1.0 >= 0.0 {
        assert r.times == r'.times + [times[k - 1] - 1.0];
        assert r.cashFlows == r'.cashFlows + [cflows[k - 1]];
        assert idx == idx' + [k - 1];
        forall j | 0 <= j < |idx|
          ensures r.times[j] == times[idx[j]] - 1.0 && r.cashFlows[j] == cflows[idx[j]]
        {
          if j < |idx'| {
            assert r.times[j] == r'.times[j] && r.cashFlows[j] == r'.cashFlows[j] && idx[j] == idx'[j];
          }
        }
      } else {
        assert r == r' && idx == idx';
      }
    }
  }

  // ---------------------------------------------------------------------
  // Horizon: the number of sets the projection emits
  // ---------------------------------------------------------------------

  function Max(a: real, b: real): real
  {
    if a < b then b else a
  }

  /** Largest of the first k times. */
  function MaxPrefix(ts: seq<real>, k: nat): real
    requires 1 <= k <= |ts|
  {
    if k == 1 then ts[0] else Max(MaxPrefix(ts, k - 1), ts[k - 1])
  }

  function MaxTime(ts: seq<real>): real
    requires ts != []
  {
    MaxPrefix(ts, |ts|)
  }

  /** Sets emitted for a schedule: none when empty, else one more than the whole periods before its last time. */
  function Horizon(ts: seq<real>): nat
  {
    if ts == [] then 0
    else if MaxTime(ts) < 0.0 then 1
    else MaxTime(ts).Floor + 1
  }

  lemma {:induction false} MaxPrefixAppend(ts: seq<real>, x: real, k: nat)
    requires 1 <= k <= |ts|
    ensures MaxPrefix(ts + [x], k) == MaxPrefix(ts, k)
  {
    if k > 1 {
      MaxPrefixAppend(ts, x, k - 1);
    }
  }

  /** After the first k entries are shifted, the largest time is one less, or nothing is left. */
  lemma {:induction false} ShiftPrefixMax(times: seq<real>, cflows: seq<real>, k: nat)
    requires 1 <= k <= |times| <= |cflows|
    ensures var r := ShiftPrefix(times, cflows, k);
            if MaxPrefix(times, k) < 1.0 then r.times == []
            else r.times != [] && MaxTime(r.times) == MaxPrefix(times, k) - 1.0
  {
    var r := ShiftPrefix(times, cflows, k);
    var t := times[k - 1];
    if k > 1 {
      ShiftPrefixMax(times, cflows, k - 1);
      var r' := ShiftPrefix(times, cflows, k - 1);
      if t - 1.0 >= 0.0 && r'.times != [] {
        MaxPrefixAppend(r'.times, t - 1.0, |r'.times|);
      }
    }
  }

  /** Each pass shortens the remaining horizon by exactly one period. */
  lemma ShiftHorizon(s: CashFlowSet)
    requires Paired(s) && s.times != []
    ensures Horizon(Shift(s).times) == Horizon(s.times) - 1
  {
    ShiftPrefixMax(s.times, s.cashFlows, |s.times|);
    var m := MaxTime(s.times);
    if m >= 1.0 {
      assert (m - 1.0).Floor == m.Floor - 1;
    }
  }

  // ---------------------------------------------------------------------
  // The projection (build_time_series_of_bond_time_contingent_cash_flows)
  // ---------------------------------------------------------------------

  /** The sets the source's while loop emits, as a recursive definition. */
  function Projection(s: CashFlowSet): seq<CashFlowSet>
    requires Paired(s)
    decreases Horizon(s.times)
  {
    if s.times == [] then []
    else
      ShiftHorizon(s);
      [s] + Projection(Shift(s))
  }

  /** The projection of a non-empty schedule has one element per period up to its last time (floor), or one. */
  lemma {:induction false} ProjectionLength(s: CashFlowSet)
    requires Paired(s)
    ensures |Projection(s)| == Horizon(s.times)
    decreases Horizon(s.times)
  {
    if s.times != [] {
      ShiftHorizon(s);
      ProjectionLength(Shift(s));
    }
  }

  /**
   * Element 0 is the input unchanged, each further element is the shift of the one before,
   * none is empty, the entry count never grows, and the set after the last one is empty.
   */
  lemma {:induction false} ProjectionElements(s: CashFlowSet, k: nat)
    requires Paired(s) && k < |Projection(s)|
    ensures Projection(s)[0] == s
    ensures Paired(Projection(s)[k]) && Projection(s)[k].times != []
    ensures k + 1 < |Projection(s)| ==> Projection(s)[k + 1] == Shift(Projection(s)[k]) &&
                                         |Projection(s)[k + 1].times| <= |Projection(s)[k].times|
    ensures k + 1 == |Projection(s)| ==> Shift(Projection(s)[k]).times == []
    decreases k
  {
    ShiftHorizon(s);
    if k > 0 {
      ProjectionElements(Shift(s), k - 1);
    }
  }

  /** build_time_series_of_bond_time_contingent_cash_flows. */
  method BuildTimeSeries(initialTimes: seq<real>, initialCflows: seq<real>) returns (vecCf: seq<CashFlowSet>)
    requires |initialTimes| <= |initialCflows|
    ensures vecCf == Projection(CashFlowSet(initialTimes, initialCflows))
  {
    vecCf := [];
    var times, cflows := initialTimes, initialCflows;
    while |times| > 0
      invariant |times| <= |cflows|
      invariant vecCf + Projection(CashFlowSet(times, cflows)) == Projection(CashFlowSet(initialTimes, initialCflows))
      decreases Horizon(times)
    {
      var current := CashFlowSet(times, cflows);
      vecCf := vecCf + [current];
      var tmpTimes: seq<real> := [];
      var tmpCflows: seq<real> := [];
      for i := 0 to |times|
        invariant CashFlowSet(tmpTimes, tmpCflows) == ShiftPrefix(times, cflows, i)
      {
        if times[i] - 1.0 >= 0.0 {
          tmpTimes := tmpTimes + [times[i] - 1.0];
          tmpCflows := tmpCflows + [cflows[i]];
        }
      }
      ShiftHorizon(current);
      assert Projection(current) == [current] + Projection(CashFlowSet(tmpTimes, tmpCflows));
      times, cflows := tmpTimes, tmpCflows;
    }
  }

  // ---------------------------------------------------------------------
  // European call option on a bond (price_european_call_option_on_bond_using_ho_lee)
  // ---------------------------------------------------------------------

  /** C++ conversion of a double to int: truncation toward zero. */
  function Trunc(x: real): (n: int)
    ensures 0.0 <= x ==> n as real <= x < n as real + 1.0
    ensures x < 0.0 ==> n as real - 1.0 < x <= n as real
  {
    if x >= 0.0 then x.Floor else -((-x).Floor)
  }

  /** The number of lattice periods to expiry: int(option_time_to_maturity + 0.0001). */
  function ExpirySteps(optionTimeToMaturity: real): int
  {
    Trunc(optionTimeToMaturity + 0.0001)
  }

  /**
   * The horizon guard as written, `T + 1 >= vec_cf.size()`, where the int T + 1 is
   * converted to the unsigned size type, so that a negative T + 1 compares as huge.
   */
  predicate HorizonGuardAsWritten(T: int, count: nat)
  {
    T + 1 < 0 || T + 1 >= count
  }

  /** The guard the pricer needs: reject also T = -1, for which there are no terminal values. */
  predicate HorizonUnavailable(T: int, count: nat)
  {
    T < 0 || T + 1 >= count
  }

  /**
   * As written, a maturity such as -1.5 gives T = -1, passes the guard whenever the
   * projection is non-empty, and leaves a value vector of T + 1 = 0 entries whose
   * element 0 is then returned.
   */
  lemma GuardAdmitsEmptyValues()
    ensures ExpirySteps(-1.5) == -1
    ensures !HorizonGuardAsWritten(ExpirySteps(-1.5), 1) && ExpirySteps(-1.5) + 1 == 0
  {
  }

  /** The corrected guard lets through exactly the steps with terminal values and a projected set to price. */
  lemma GuardCorrected(T: int, count: nat)
    ensures !HorizonUnavailable(T, count) <==> 0 <= T && T + 1 < count
    ensures !HorizonUnavailable(T, count) ==> !HorizonGuardAsWritten(T, count)
  {
  }

  /** std::max(0.0, x). */
  function Payoff(x: real): (r: real)
    ensures r >= 0.0 && r >= x && (r == x || r == 0.0)
  {
    if 0.0 < x then x else 0.0
  }

  /** Payoffs at the T + 1 terminal nodes: the residual bond priced on node (T, i), less the strike. */
  function TerminalValues(cf: CashFlowSet, T: nat, K: real, bondPrice: (CashFlowSet, nat) -> real): (v: seq<real>)
    ensures |v| == T + 1
  {
    seq(T + 1, i requires 0 <= i <= T => Payoff(bondPrice(cf, i) - K))
  }

  /**
   * One step of the backward induction from row t + 1 (|values| == t + 2) to row t:
   * the probability-weighted continuation discounted with node (t, i)'s d(1).
   */
  function BackwardStep(values: seq<real>, pi: real, nodeDiscount: (nat, nat) -> real): (r: seq<real>)
    requires |values| >= 2
    ensures |r| == |values| - 1
  {
    var t := |values| - 2;
    seq(t + 1, i requires 0 <= i <= t => (pi * values[i + 1] + (1.0 - pi) * values[i]) * nodeDiscount(t, i))
  }

  /** Backward induction down to the root row. */
  function Rollback(values: seq<real>, pi: real, nodeDiscount: (nat, nat) -> real): (r: seq<real>)
    requires |values| >= 1
    ensures |r| == 1
    decreases |values|
  {
    if |values| == 1 then values else Rollback(BackwardStep(values, pi, nodeDiscount), pi, nodeDiscount)
  }

  /** The option value at the root of the lattice. */
  function OptionValue(cf: CashFlowSet, T: nat, K: real, pi: real,
                       nodeDiscount: (nat, nat) -> real, bondPrice: (CashFlowSet, nat) -> real): real
  {
    Rollback(TerminalValues(cf, T, K, bondPrice), pi, nodeDiscount)[0]
  }

  /** pi * a + (1 - pi) * b, the expected continuation value, is monotone in both values. */
  lemma ExpectationMonotone(pi: real, a: real, b: real, a': real, b': real)
    requires 0.0 <= pi <= 1.0 && a >= a' && b >= b'
    ensures pi * a + (1.0 - pi) * b >= pi * a' + (1.0 - pi) * b'
  {
    ProductNonNegative(pi, a - a');
    ProductNonNegative(1.0 - pi, b - b');
    assert pi * a + (1.0 - pi) * b - (pi * a' + (1.0 - pi) * b') == pi * (a - a') + (1.0 - pi) * (b - b');
  }

  ghost predicate NonNegativeDiscounts(nodeDiscount: (nat, nat) -> real)
  {
    forall t: nat, i: nat :: nodeDiscount(t, i) >= 0.0
  }

  /** With 0 <= pi <= 1 and non-negative discounts, backward induction keeps values non-negative. */
  lemma {:induction false} RollbackNonNegative(values: seq<real>, pi: real, nodeDiscount: (nat, nat) -> real)
    requires |values| >= 1 && 0.0 <= pi <= 1.0 && NonNegativeDiscounts(nodeDiscount)
    requires forall i :: 0 <= i < |values| ==> values[i] >= 0.0
    ensures Rollback(values, pi, nodeDiscount)[0] >= 0.0
    decreases |values|
  {
    if |values| > 1 {
      var next := BackwardStep(values, pi, nodeDiscount);
      forall i | 0 <= i < |next|
        ensures next[i] >= 0.0
      {
        var t := |values| - 2;
        var e := pi * values[i + 1] + (1.0 - pi) * values[i];
        assert next[i] == e * nodeDiscount(t, i);
        ExpectationMonotone(pi, values[i + 1], values[i], 0.0, 0.0);
        ProductNonNegative(e, nodeDiscount(t, i));
      }
      RollbackNonNegative(next, pi, nodeDiscount);
    }
  }

  /** With 0 <= pi <= 1 and non-negative discounts, backward induction is monotone in the terminal values. */
  lemma {:induction false} RollbackMonotone(hi: seq<real>, lo: seq<real>, pi: real, nodeDiscount: (nat, nat) -> real)
    requires |hi| == |lo| >= 1 && 0.0 <= pi <= 1.0 && NonNegativeDiscounts(nodeDiscount)
    requires forall i :: 0 <= i < |hi| ==> hi[i] >= lo[i]
    ensures Rollback(hi, pi, nodeDiscount)[0] >= Rollback(lo, pi, nodeDiscount)[0]
    decreases |hi|
  {
    if |hi| > 1 {
      var nextHi, nextLo := BackwardStep(hi, pi, nodeDiscount), BackwardStep(lo, pi, nodeDiscount);
      forall i | 0 <= i < |nextHi|
        ensures nextHi[i] >= nextLo[i]
      {
        var t := |hi| - 2;
        var d := nodeDiscount(t, i);
        var a := pi * hi[i + 1] + (1.0 - pi) * hi[i];
        var b := pi * lo[i + 1] + (1.0 - pi) * lo[i];
        assert nextHi[i] == a * d && nextLo[i] == b * d;
        ExpectationMonotone(pi, hi[i + 1], hi[i], lo[i + 1], lo[i]);
        ProductNonNegative(a - b, d);
        assert a * d - b * d == (a - b) * d;
      }
      RollbackMonotone(nextHi, nextLo, pi, nodeDiscount);
    }
  }

  /** The option value is non-negative. */
  lemma OptionValueNonNegative(cf: CashFlowSet, T: nat, K: real, pi: real,
                               nodeDiscount: (nat, nat) -> real, bondPrice: (CashFlowSet, nat) -> real)
    requires 0.0 <= pi <= 1.0 && NonNegativeDiscounts(nodeDiscount)
    ensures OptionValue(cf, T, K, pi, nodeDiscount, bondPrice) >= 0.0
  {
    var v := TerminalValues(cf, T, K, bondPrice);
    forall i | 0 <= i < |v|
      ensures v[i] >= 0.0
    {
      assert v[i] == Payoff(bondPrice(cf, i) - K);
    }
    RollbackNonNegative(v, pi, nodeDiscount);
  }

  /** A call with a lower strike is worth at least as much. */
  lemma OptionValueNonIncreasingInStrike(cf: CashFlowSet, T: nat, K1: real, K2: real, pi: real,
                                         nodeDiscount: (nat, nat) -> real, bondPrice: (CashFlowSet, nat) -> real)
    requires K1 <= K2 && 0.0 <= pi <= 1.0 && NonNegativeDiscounts(nodeDiscount)
    ensures OptionValue(cf, T, K1, pi, nodeDiscount, bondPrice) >= OptionValue(cf, T, K2, pi, nodeDiscount, bondPrice)
  {
    var hi, lo := TerminalValues(cf, T, K1, bondPrice), TerminalValues(cf, T, K2, bondPrice);
    forall i | 0 <= i < |hi|
      ensures hi[i] >= lo[i]
    {
      assert hi[i] == Payoff(bondPrice(cf, i) - K1) && lo[i] == Payoff(bondPrice(cf, i) - K2);
    }
    RollbackMonotone(hi, lo, pi, nodeDiscount);
  }

  /** The payoff vector `values` of the pricer, filled node by node. */
  method ComputeTerminalValues(cf: CashFlowSet, T: nat, K: real, bondPrice: (CashFlowSet, nat) -> real)
    returns (values: array<real>)
    ensures fresh(values) && values[..] == TerminalValues(cf, T, K, bondPrice)
  {
    values := new real[T + 1];
    for i := 0 to T + 1
      invariant forall j :: 0 <= j < i ==> values[j] == Payoff(bondPrice(cf, j) - K)
    {
      values[i] := Payoff(bondPrice(cf, i) - K);
    }
  }

  /** One pass of the pricer's outer loop: values_this from values. */
  method ComputeBackwardStep(values: array<real>, pi: real, nodeDiscount: (nat, nat) -> real)
    returns (valuesThis: array<real>)
    requires values.Length >= 2
    ensures fresh(valuesThis) && valuesThis[..] == BackwardStep(values[..], pi, nodeDiscount)
  {
    var t := values.Length - 2;
    valuesThis := new real[t + 1];
    for i := 0 to t + 1
      invariant forall j :: 0 <= j < i ==> valuesThis[j] == (pi * values[j + 1] + (1.0 - pi) * values[j]) * nodeDiscount(t, j)
    {
      valuesThis[i] := (pi * values[i + 1] + (1.0 - pi) * values[i]) * nodeDiscount(t, i);
    }
    ghost var step := BackwardStep(values[..], pi, nodeDiscount);
    forall j | 0 <= j <= t
      ensures valuesThis[j] == step[j]
    {
      assert step[j] == (pi * values[..][j + 1] + (1.0 - pi) * values[..][j]) * nodeDiscount(t, j);
    }
  }

  /**
   * price_european_call_option_on_bond_using_ho_lee: -1 when the projection does not reach
   * past the expiry, otherwise the backward induction from the payoffs on the set vec_cf[T + 1].
   */
  method PriceEuropeanCallOption(pi: real, times: seq<real>, cflows: seq<real>, K: real,
                                 optionTimeToMaturity: real,
                                 nodeDiscount: (nat, nat) -> real, bondPrice: (CashFlowSet, nat) -> real)
    returns (price: real)
    requires |times| <= |cflows|
    ensures var T := ExpirySteps(optionTimeToMaturity);
            var vec := Projection(CashFlowSet(times, cflows));
            if HorizonUnavailable(T, |vec|) then price == -1.0
            else price == OptionValue(vec[T + 1], T, K, pi, nodeDiscount, bondPrice)
  {
    var T := ExpirySteps(optionTimeToMaturity);
    var vecCf := BuildTimeSeries(times, cflows);
    if HorizonUnavailable(T, |vecCf|) {
      return -1.0;
    }
    var values := ComputeTerminalValues(vecCf[T + 1], T, K, bondPrice);
    ghost var terminal := values[..];
    var t := T - 1;
    while t >= 0
      invariant -1 <= t <= T - 1
      invariant values.Length == t + 2
      invariant Rollback(values[..], pi, nodeDiscount) == Rollback(terminal, pi, nodeDiscount)
    {
      values := ComputeBackwardStep(values, pi, nodeDiscount);
      t := t - 1;
    }
    price := values[0];
  }
}
