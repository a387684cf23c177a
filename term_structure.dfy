/**
 * Term structures of interest rates (test/TermStructure.cpp): the static conversions
 * between rates, discount factors and forward rates, the flat curve, the curve that
 * interpolates linearly between observed rates, and the price of a bond as the sum
 * of its discounted cash flows.
 *
 * exp and log are parameters; the lemmas that need a law of them (log inverts exp,
 * exp turns sums into products) require that law.
 */
module TermStructure {

  import opened RealArith

  // ---------------------------------------------------------------------
  // Static conversions (TermStructure::...)
  // ---------------------------------------------------------------------

  /** discountFactorFromYield: exp(-r t). */
  function DiscountFactorFromYield(r: real, t: real, exp: real -> real): real
  {
    exp(-r * t)
  }

  /** yieldFromDiscountFactor: -log(d) / t. */
  function YieldFromDiscountFactor(dt: real, t: real, log: real -> real): real
    requires t != 0.0
  {
    -log(dt) / t
  }

  /** forwardRateFromDiscountFactors: log(d1 / d2) / time. */
  function ForwardRateFromDiscountFactors(d1: real, d2: real, time: real, log: real -> real): real
    requires d2 != 0.0 && time != 0.0
  {
    log(d1 / d2) / time
  }

  /** forwardRateFromYields: (r2 t2 - r1 t1) / (t2 - t1). */
  function ForwardRateFromYields(r1: real, r2: real, t1: real, t2: real): real
    requires t1 != t2
  {
    (r2 * t2 - r1 * t1) / (t2 - t1)
  }

  /**
   * The forward rate is the one that, compounded over [t1, t2] after r1 over [0, t1],
   * earns what r2 earns over [0, t2]; equal rates give that same forward rate.
   */
  lemma ForwardRateFromYieldsConsistent(r1: real, r2: real, t1: real, t2: real)
    requires t1 != t2
    ensures r1 * t1 + ForwardRateFromYields(r1, r2, t1, t2) * (t2 - t1) == r2 * t2
    ensures r1 == r2 ==> ForwardRateFromYields(r1, r2, t1, t2) == r1
  {
    var f := ForwardRateFromYields(r1, r2, t1, t2);
    assert f * (t2 - t1) == r2 * t2 - r1 * t1;
    if r1 == r2 {
      assert r2 * t2 - r1 * t1 == r1 * (t2 - t1);
    }
  }

  /** log inverts exp. */
  ghost predicate LogInvertsExp(exp: real -> real, log: real -> real)
  {
    forall x :: log(exp(x)) == x
  }

  /** exp(a) / exp(b). */
  function ExpRatio(exp: real -> real, a: real, b: real): real
    requires exp(b) != 0.0
  {
    exp(a) / exp(b)
  }

  /** exp is positive and turns differences into quotients. */
  ghost predicate ExpQuotientLaw(exp: real -> real)
  {
    (forall x :: exp(x) > 0.0) &&
    (forall a, b {:trigger ExpRatio(exp, a, b)} :: ExpRatio(exp, a, b) == exp(a - b))
  }

  /** Converting a yield to a discount factor and back gives the yield again. */
  lemma YieldDiscountRoundTrip(r: real, t: real, exp: real -> real, log: real -> real)
    requires t != 0.0 && LogInvertsExp(exp, log)
    ensures YieldFromDiscountFactor(DiscountFactorFromYield(r, t, exp), t, log) == r
  {
    assert log(exp(-r * t)) == -r * t;
    assert -(-r * t) / t == r;
  }

  // ---------------------------------------------------------------------
  // TermStructureFlat
  // ---------------------------------------------------------------------

  /** A flat curve: every maturity from now on earns the same rate. */
  class FlatCurve {
    var rate: real

    constructor (r: real)
      ensures rate == r
    {
      rate := r;
    }

    /** TermStructureFlat::r: the rate for t >= 0, 0 before. */
    function Yield(t: real): real
      reads this
    {
      if t >= 0.0 then rate else 0.0
    }

    /** TermStructureFlat::d. */
    function Discount(t: real, exp: real -> real): real
      reads this
    {
      DiscountFactorFromYield(rate, t, exp)
    }

    /** TermStructureFlat::f. */
    function Forward(t1: real, t2: real, exp: real -> real, log: real -> real): real
      reads this
      requires t1 != t2 && ExpQuotientLaw(exp)
    {
      ForwardRateFromDiscountFactors(Discount(t1, exp), Discount(t2, exp), t2 - t1, log)
    }

    /** TermStructureFlat::setIntRate. */
    method SetIntRate(r: real)
      modifies this
      ensures rate == r
    {
      rate := r;
    }
  }

  /** The flat curve's rates and discount factors agree: the yield implied by d(t) is r(t) for t > 0. */
  lemma FlatCurveYieldMatchesDiscount(c: FlatCurve, t: real, exp: real -> real, log: real -> real)
    requires t > 0.0 && LogInvertsExp(exp, log)
    ensures YieldFromDiscountFactor(c.Discount(t, exp), t, log) == c.Yield(t) == c.rate
  {
    YieldDiscountRoundTrip(c.rate, t, exp, log);
  }

  /**
   * The forward rate between two discount factors exp(-r1 t1) and exp(-r2 t2) is the
   * forward rate of the yields r1 and r2: both conversions of the source agree.
   */
  lemma ForwardFromDiscountFactorsMatchesYields(r1: real, r2: real, t1: real, t2: real, exp: real -> real, log: real -> real)
    requires t1 != t2 && ExpQuotientLaw(exp) && LogInvertsExp(exp, log)
    ensures DiscountFactorFromYield(r2, t2, exp) != 0.0
    ensures ForwardRateFromDiscountFactors(DiscountFactorFromYield(r1, t1, exp), DiscountFactorFromYield(r2, t2, exp), t2 - t1, log)
            == ForwardRateFromYields(r1, r2, t1, t2)
  {
    var d1, d2 := DiscountFactorFromYield(r1, t1, exp), DiscountFactorFromYield(r2, t2, exp);
    assert d1 / d2 == ExpRatio(exp, -r1 * t1, -r2 * t2) == exp(-r1 * t1 - -r2 * t2);
    assert -r1 * t1 - -r2 * t2 == r2 * t2 - r1 * t1;
    assert log(exp(r2 * t2 - r1 * t1)) == r2 * t2 - r1 * t1;
  }

  /** The forward rate implied by the discount factors of a single rate R is R itself. */
  lemma ForwardOfConstantRate(R: real, t1: real, t2: real, exp: real -> real, log: real -> real)
    requires t1 != t2 && ExpQuotientLaw(exp) && LogInvertsExp(exp, log)
    ensures DiscountFactorFromYield(R, t2, exp) != 0.0
    ensures ForwardRateFromDiscountFactors(DiscountFactorFromYield(R, t1, exp), DiscountFactorFromYield(R, t2, exp), t2 - t1, log) == R
  {
    ForwardFromDiscountFactorsMatchesYields(R, R, t1, t2, exp, log);
    ForwardRateFromYieldsConsistent(R, R, t1, t2);
  }

  /** On a flat curve every forward rate is the curve's rate. */
  lemma FlatCurveForwardIsRate(c: FlatCurve, t1: real, t2: real, exp: real -> real, log: real -> real)
    requires t1 != t2 && ExpQuotientLaw(exp) && LogInvertsExp(exp, log)
    ensures c.Forward(t1, t2, exp, log) == c.rate
  {
    ForwardOfConstantRate(c.rate, t1, t2, exp, log);
  }

  // ---------------------------------------------------------------------
  // Linear interpolation (TermStructureInterpolated::r)
  // ---------------------------------------------------------------------

  predicate Ascending(times: seq<real>)
  {
    forall j, k :: 0 <= j < k < |times| ==> times[j] <= times[k]
  }

  predicate StrictlyAscending(times: seq<real>)
  {
    forall j, k :: 0 <= j < k < |times| ==> times[j] < times[k]
  }

  /** The first index from pos on whose knot is not below T, or |times|. */
  function LowerBoundFrom(times: seq<real>, T: real, pos: nat): (k: nat)
    requires pos <= |times|
    ensures pos <= k <= |times|
    ensures forall j :: pos <= j < k ==> times[j] < T
    ensures k < |times| ==> times[k] >= T
    decreases |times| - pos
  {
    if pos == |times| || times[pos] >= T then pos else LowerBoundFrom(times, T, pos + 1)
  }

  /**
   * std::lower_bound over the knots: the first knot not below T. On ascending knots the
   * binary search of std::lower_bound finds exactly this index.
   */
  function LowerBound(times: seq<real>, T: real): (k: nat)
    ensures k <= |times|
    ensures forall j :: 0 <= j < k ==> times[j] < T
    ensures k < |times| ==> times[k] >= T
  {
    LowerBoundFrom(times, T, 0)
  }

  /** On ascending knots the lower bound is determined by the two knots around it. */
  lemma LowerBoundCharacterised(times: seq<real>, T: real, k: nat)
    requires Ascending(times) && k <= |times|
    requires (k == 0 || times[k - 1] < T) && (k == |times| || T <= times[k])
    ensures LowerBound(times, T) == k
  {
  }

  /**
   * TermStructureInterpolated::r: 0 without observations, the first yield up to the first knot,
   * the last yield past the last knot, and in between the straight line through the two
   * neighbouring observations.
   */
  function InterpolatedYield(times: seq<real>, rates: seq<real>, T: real): (y: real)
    requires |times| == |rates|
    ensures times == [] ==> y == 0.0
  {
    if times == [] then 0.0
    else
      var k := LowerBound(times, T);
      if k == 0 then rates[0]
      else if k == |times| then rates[|rates| - 1]
      else
        var t1, t2, y1, y2 := times[k - 1], times[k], rates[k - 1], rates[k];
        y1 + (T - t1) * (y2 - y1) / (t2 - t1)
  }

  /** Flat extrapolation: the first yield up to the first knot, the last yield past the last knot. */
  lemma InterpolatedYieldExtrapolatesFlat(times: seq<real>, rates: seq<real>, T: real)
    requires |times| == |rates| && times != [] && Ascending(times)
    ensures T <= times[0] ==> InterpolatedYield(times, rates, T) == rates[0]
    ensures T > times[|times| - 1] ==> InterpolatedYield(times, rates, T) == rates[|rates| - 1]
  {
    if T <= times[0] {
      LowerBoundCharacterised(times, T, 0);
    }
    if T > times[|times| - 1] {
      LowerBoundCharacterised(times, T, |times|);
    }
  }

  lemma MulDivCancel(a: real, b: real)
    requires b != 0.0
    ensures a * b / b == a
  {
  }

  lemma FractionInUnit(s: real, w: real)
    requires 0.0 < s <= w
    ensures 0.0 < s / w <= 1.0
  {
  }

  /** A fraction lambda in [0, 1] of a difference dy lies between 0 and dy. */
  lemma ScaleBetween(lambda: real, dy: real)
    requires 0.0 <= lambda <= 1.0
    ensures dy >= 0.0 ==> 0.0 <= lambda * dy <= dy
    ensures dy <= 0.0 ==> dy <= lambda * dy <= 0.0
  {
    if dy >= 0.0 {
      ProductNonNegative(lambda, dy);
      ProductNonNegative(1.0 - lambda, dy);
    } else {
      ProductNonNegative(lambda, -dy);
      ProductNonNegative(1.0 - lambda, -dy);
    }
  }

  /** The point (T, y) on the line through (t1, y1) and (t2, y2), t1 < T <= t2, lies between y1 and y2. */
  lemma LineBetween(t1: real, t2: real, y1: real, y2: real, T: real)
    requires t1 < T <= t2
    ensures var y := y1 + (T - t1) * (y2 - y1) / (t2 - t1);
            (y1 <= y2 ==> y1 <= y <= y2) && (y2 <= y1 ==> y2 <= y <= y1) && (T == t2 ==> y == y2)
  {
    var s, w, dy := T - t1, t2 - t1, y2 - y1;
    FractionInUnit(s, w);
    var lambda := s / w;
    assert s * dy / w == lambda * dy;
    ScaleBetween(lambda, dy);
    if T == t2 {
      MulDivCancel(dy, w);
    }
  }

  /**
   * Between knots k - 1 and k the curve is the linear interpolant: it lies between the
   * two observed rates and reaches y[k] at t[k].
   */
  lemma InterpolatedYieldInterior(times: seq<real>, rates: seq<real>, T: real, k: nat)
    requires |times| == |rates| && Ascending(times) && 0 < k < |times|
    requires times[k - 1] < T <= times[k]
    ensures var y := InterpolatedYield(times, rates, T);
            y == rates[k - 1] + (T - times[k - 1]) * (rates[k] - rates[k - 1]) / (times[k] - times[k - 1]) &&
            (rates[k - 1] <= rates[k] ==> rates[k - 1] <= y <= rates[k]) &&
            (rates[k] <= rates[k - 1] ==> rates[k] <= y <= rates[k - 1]) &&
            (T == times[k] ==> y == rates[k])
  {
    LowerBoundCharacterised(times, T, k);
    LineBetween(times[k - 1], times[k], rates[k - 1], rates[k], T);
  }

  /** On strictly ascending knots the curve passes through every observation. */
  lemma InterpolatedYieldAtKnots(times: seq<real>, rates: seq<real>, k: nat)
    requires |times| == |rates| && StrictlyAscending(times) && k < |times|
    ensures InterpolatedYield(times, rates, times[k]) == rates[k]
  {
    if k == 0 {
      LowerBoundCharacterised(times, times[0], 0);
    } else {
      InterpolatedYieldInterior(times, rates, times[k], k);
    }
  }

  // ---------------------------------------------------------------------
  // TermStructureInterpolated
  // ---------------------------------------------------------------------

  /** A curve through observed (time, yield) pairs. */
  class InterpolatedCurve {
    var times: seq<real>
    var rates: seq<real>  // the observed yields

    /** Every observed time has its yield. */
    ghost predicate Valid()
      reads this
    {
      |times| == |rates|
    }

    /** The default constructor: no observations. */
    constructor Empty()
      ensures Valid() && times == [] && rates == []
    {
      times, rates := [], [];
    }

    /** The constructor from observations: stored when the lengths agree, empty otherwise. */
    constructor (ts: seq<real>, ys: seq<real>)
      ensures Valid()
      ensures |ts| == |ys| ==> times == ts && rates == ys
      ensures |ts| != |ys| ==> times == [] && rates == []
    {
      if |ts| != |ys| {
        times, rates := [], [];
      } else {
        times, rates := ts, ys;
      }
    }

    /** The copy constructor. */
    constructor Copy(other: InterpolatedCurve)
      requires other.Valid()
      ensures Valid() && times == other.times && rates == other.rates
    {
      times, rates := other.times, other.rates;
    }

    /** operator=: take the other curve's observations (nothing to do on self-assignment). */
    method Assign(other: InterpolatedCurve)
      requires other.Valid()
      modifies this
      ensures Valid() && times == old(other.times) && rates == old(other.rates)
    {
      if this != other {
        times, rates := other.times, other.rates;
      }
    }

    /** clear. */
    method Clear()
      modifies this
      ensures Valid() && times == [] && rates == []
    {
      times := [];
      rates := [];
    }

    /** setInterpolatedObservations: clear, then store copies when the lengths agree. */
    method SetInterpolatedObservations(ts: seq<real>, ys: seq<real>)
      modifies this
      ensures Valid()
      ensures |ts| == |ys| ==> times == ts && rates == ys
      ensures |ts| != |ys| ==> times == [] && rates == []
    {
      Clear();
      if |ts| != |ys| {
        return;
      }
      times := ts;
      rates := ys;
    }

    /** TermStructureInterpolated::r. */
    function Yield(T: real): real
      reads this
      requires Valid()
    {
      InterpolatedYield(times, rates, T)
    }

    /** TermStructureInterpolated::d. */
    function Discount(t: real, exp: real -> real): real
      reads this
      requires Valid()
    {
      DiscountFactorFromYield(Yield(t), t, exp)
    }

    /** TermStructureInterpolated::f. */
    function Forward(t1: real, t2: real, exp: real -> real, log: real -> real): real
      reads this
      requires Valid() && t1 != t2 && ExpQuotientLaw(exp)
    {
      ForwardRateFromDiscountFactors(Discount(t1, exp), Discount(t2, exp), t2 - t1, log)
    }

    /** getDiscountFactors: d at every knot, in knot order. */
    method GetDiscountFactors(exp: real -> real) returns (factors: seq<real>)
      requires Valid()
      ensures |factors| == |times|
      ensures forall k :: 0 <= k < |times| ==> factors[k] == Discount(times[k], exp)
    {
      factors := [];
      for k := 0 to |times|
        invariant |factors| == k
        invariant forall j :: 0 <= j < k ==> factors[j] == Discount(times[j], exp)
      {
        factors := factors + [Discount(times[k], exp)];
      }
    }
  }

  /** With strictly ascending knots the discount factor at knot k comes from the observed yield there. */
  lemma DiscountFactorsAtKnots(c: InterpolatedCurve, k: nat, exp: real -> real)
    requires c.Valid() && StrictlyAscending(c.times) && k < |c.times|
    ensures c.Discount(c.times[k], exp) == DiscountFactorFromYield(c.rates[k], c.times[k], exp)
  {
    InterpolatedYieldAtKnots(c.times, c.rates, k);
  }

  /** The interpolated curve's forward rate is the forward rate of its yields at the two times. */
  lemma InterpolatedForwardMatchesYields(c: InterpolatedCurve, t1: real, t2: real, exp: real -> real, log: real -> real)
    requires c.Valid() && t1 != t2 && ExpQuotientLaw(exp) && LogInvertsExp(exp, log)
    ensures c.Forward(t1, t2, exp, log) == ForwardRateFromYields(c.Yield(t1), c.Yield(t2), t1, t2)
  {
    ForwardFromDiscountFactorsMatchesYields(c.Yield(t1), c.Yield(t2), t1, t2, exp, log);
  }

  // ---------------------------------------------------------------------
  // bonds_price
  // ---------------------------------------------------------------------

  /** Sum of d(times[i]) * cflows[i] over the first k cash flows. */
  function PresentValue(times: seq<real>, cflows: seq<real>, d: real -> real, k: nat): real
    requires k <= |times| <= |cflows|
  {
    if k == 0 then 0.0 else PresentValue(times, cflows, d, k - 1) + d(times[k - 1]) * cflows[k - 1]
  }

  /** bonds_price: the cash flows discounted with the curve's d and summed. */
  method BondsPrice(times: seq<real>, cflows: seq<real>, d: real -> real) returns (p: real)
    requires |times| <= |cflows|
    ensures p == PresentValue(times, cflows, d, |times|)
  {
    p := 0.0;
    for i := 0 to |times|
      invariant p == PresentValue(times, cflows, d, i)
    {
      p := p + d(times[i]) * cflows[i];
    }
  }

  /** An empty schedule is worth 0; with non-negative discount factors and cash flows the price is non-negative. */
  lemma {:induction false} PresentValueNonNegative(times: seq<real>, cflows: seq<real>, d: real -> real, k: nat)
    requires k <= |times| <= |cflows|
    requires forall i :: 0 <= i < k ==> d(times[i]) >= 0.0 && cflows[i] >= 0.0
    ensures PresentValue(times, cflows, d, k) >= 0.0
    ensures k == 0 ==> PresentValue(times, cflows, d, k) == 0.0
  {
    if k > 0 {
      PresentValueNonNegative(times, cflows, d, k - 1);
      var x, c := d(times[k - 1]), cflows[k - 1];
      assert x * c >= 0.0;
    }
  }

  /** The price is linear in the cash flows: a a-multiple of one schedule plus b of another. */
  lemma {:induction false} PresentValueLinear(times: seq<real>, c1: seq<real>, c2: seq<real>, c: seq<real>,
                                              a: real, b: real, d: real -> real, k: nat)
    requires k <= |times| <= |c1| && |c1| == |c2| == |c|
    requires forall i :: 0 <= i < |c| ==> c[i] == a * c1[i] + b * c2[i]
    ensures PresentValue(times, c, d, k) == a * PresentValue(times, c1, d, k) + b * PresentValue(times, c2, d, k)
  {
    if k > 0 {
      PresentValueLinear(times, c1, c2, c, a, b, d, k - 1);
      var x := d(times[k - 1]);
      assert x * c[k - 1] == a * (x * c1[k - 1]) + b * (x * c2[k - 1]);
    }
  }
}
