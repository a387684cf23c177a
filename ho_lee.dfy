/**
 * The Ho-Lee binomial term-structure lattice (test/TermStructureHoLee.cpp): the node
 * record, the perturbation function hT, the discount function of a node, and the
 * triangular tree of nodes.
 *
 * The initial (fitted) curve enters as its discount function initial: real -> real,
 * and pow as a parameter; lemmas require the laws of pow they use.
 */
module HoLee {

  import opened RealArith

  /** TermStructureHoLee: a node at step n, state i, over the initial curve, with delta and pi. */
  datatype HoLeeNode = HoLeeNode(initial: real -> real, n: int, i: int, delta: real, pi: real)

  /** The perturbation function is defined at every maturity: its denominator never vanishes. */
  ghost predicate Regular(delta: real, pi: real, pow: (real, real) -> real)
  {
    forall x :: Den(delta, pi, pow, x) != 0.0
  }

  /** The denominator of hT at maturity x: pi + (1 - pi) delta^x. */
  function Den(delta: real, pi: real, pow: (real, real) -> real, x: real): real
  {
    pi + (1.0 - pi) * pow(delta, x)
  }

  /** hT: the reciprocal of pi + (1 - pi) delta^T. */
  function H(T: real, delta: real, pi: real, pow: (real, real) -> real): real
    requires Den(delta, pi, pow, T) != 0.0
  {
    1.0 / Den(delta, pi, pow, T)
  }

  /** hT is the reciprocal of its denominator, and so never 0. */
  lemma HReciprocal(T: real, delta: real, pi: real, pow: (real, real) -> real)
    requires pi + (1.0 - pi) * pow(delta, T) != 0.0
    ensures H(T, delta, pi, pow) != 0.0
    ensures H(T, delta, pi, pow) * (pi + (1.0 - pi) * pow(delta, T)) == 1.0
  {
  }

  /** hT(0) = 1 for every pi, given delta^0 = 1. */
  lemma HAtZero(delta: real, pi: real, pow: (real, real) -> real)
    requires pow(delta, 0.0) == 1.0
    ensures H(0.0, delta, pi, pow) == 1.0
  {
  }

  /** The factor of the initial curve: d*(T + n) / d*(n). */
  function Base(node: HoLeeNode, T: real): real
    requires node.initial(node.n as real) != 0.0
  {
    node.initial(T + node.n as real) / node.initial(node.n as real)
  }

  /** The j-th ratio factor hT(T + n - j) / hT(n - j). */
  function Factor(node: HoLeeNode, T: real, pow: (real, real) -> real, j: int): real
    requires Regular(node.delta, node.pi, pow)
  {
    H(T + (node.n - j) as real, node.delta, node.pi, pow) / H((node.n - j) as real, node.delta, node.pi, pow)
  }

  /** d multiplied by the ratio factors for j, j + 1, .. m - 1, in that order. */
  function Accumulate(node: HoLeeNode, T: real, pow: (real, real) -> real, d: real, j: int, m: int): real
    requires Regular(node.delta, node.pi, pow)
    decreases m - j
  {
    if m <= j then d else Accumulate(node, T, pow, d, j, m - 1) * Factor(node, T, pow, m - 1)
  }

  /** delta^(T (n - i)): the state's displacement from the top of the row. */
  function DeltaPower(node: HoLeeNode, T: real, pow: (real, real) -> real): real
  {
    pow(node.delta, T * (node.n - node.i) as real)
  }

  /**
   * TermStructureHoLee::d as written: the initial-curve factor, the ratio factors
   * for j = 1 .. n - 1, then hT(n) delta^(T (n - i)).
   */
  function DiscountAsWritten(node: HoLeeNode, T: real, pow: (real, real) -> real): real
    requires node.initial(node.n as real) != 0.0 && Regular(node.delta, node.pi, pow)
  {
    Accumulate(node, T, pow, Base(node, T), 1, node.n) * (H(node.n as real, node.delta, node.pi, pow) * DeltaPower(node, T, pow))
  }

  /**
   * The Ho-Lee discount function: the initial-curve factor, the ratio factors for
   * j = 1 .. n (the last one is hT(T) / hT(0)), then delta^(T (n - i)).
   */
  function DiscountIntended(node: HoLeeNode, T: real, pow: (real, real) -> real): real
    requires node.initial(node.n as real) != 0.0 && Regular(node.delta, node.pi, pow)
  {
    Accumulate(node, T, pow, Base(node, T), 1, node.n + 1) * DeltaPower(node, T, pow)
  }

  /** TermStructureHoLee::d: the ratio factors are multiplied in by a loop over j = 1 .. n - 1. */
  method Discount(node: HoLeeNode, T: real, pow: (real, real) -> real) returns (d: real)
    requires node.initial(node.n as real) != 0.0 && Regular(node.delta, node.pi, pow)
    ensures d == DiscountAsWritten(node, T, pow)
  {
    d := node.initial(T + node.n as real) / node.initial(node.n as real);
    var j := 1;
    while j < node.n
      invariant 1 <= j && (node.n >= 1 ==> j <= node.n) && (node.n < 1 ==> j == 1)
      invariant d == Accumulate(node, T, pow, Base(node, T), 1, j)
    {
      var hT1 := H(T + (node.n - j) as real, node.delta, node.pi, pow);
      var hT2 := H((node.n - j) as real, node.delta, node.pi, pow);
      d := d * (hT1 / hT2);
      j := j + 1;
    }
    var hFinal := H(node.n as real, node.delta, node.pi, pow);
    var powDelta := DeltaPower(node, T, pow);
    d := d * (hFinal * powDelta);
  }

  /** At maturity 0 every ratio factor is hT(n - j) / hT(n - j) = 1, so nothing changes. */
  lemma {:induction false} AccumulateAtZeroMaturity(node: HoLeeNode, pow: (real, real) -> real, d: real, j: int, m: int)
    requires Regular(node.delta, node.pi, pow)
    ensures Accumulate(node, 0.0, pow, d, j, m) == d
    decreases m - j
  {
    if j < m {
      assert 0.0 + (node.n - (m - 1)) as real == (node.n - (m - 1)) as real;
      assert Factor(node, 0.0, pow, m - 1) == 1.0;
      AccumulateAtZeroMaturity(node, pow, d, j, m - 1);
    }
  }

  /** A zero-coupon bond maturing now is worth 1 at every node. */
  lemma IntendedZeroMaturity(node: HoLeeNode, pow: (real, real) -> real)
    requires node.initial(node.n as real) != 0.0 && Regular(node.delta, node.pi, pow)
    requires pow(node.delta, 0.0) == 1.0
    ensures DiscountIntended(node, 0.0, pow) == 1.0
  {
    assert 0.0 + node.n as real == node.n as real;
    AccumulateAtZeroMaturity(node, pow, Base(node, 0.0), 1, node.n + 1);
    assert 0.0 * (node.n - node.i) as real == 0.0;
  }

  /** At the root the lattice reproduces the initial curve: d(T) = d*(T) / d*(0), as written and as intended. */
  lemma RootIsInitialCurve(initial: real -> real, delta: real, pi: real, pow: (real, real) -> real, T: real)
    requires initial(0.0) != 0.0 && Regular(delta, pi, pow) && pow(delta, 0.0) == 1.0
    ensures DiscountAsWritten(HoLeeNode(initial, 0, 0, delta, pi), T, pow) == initial(T) / initial(0.0)
    ensures DiscountIntended(HoLeeNode(initial, 0, 0, delta, pi), T, pow) == initial(T) / initial(0.0)
  {
    var node := HoLeeNode(initial, 0, 0, delta, pi);
    assert T * (node.n - node.i) as real == 0.0;
    assert T + node.n as real == T;
    HAtZero(delta, pi, pow);
  }

  /**
   * The lattice is arbitrage-free over its first step: the pi-weighted average of the
   * two step-1 discount functions equals the forward discount function of the root,
   * d(T + 1) / d(1).
   */
  lemma IntendedFirstStepConsistent(initial: real -> real, delta: real, pi: real, pow: (real, real) -> real, T: real)
    requires initial(0.0) != 0.0 && initial(1.0) != 0.0 && Regular(delta, pi, pow) && pow(delta, 0.0) == 1.0
    ensures var root := HoLeeNode(initial, 0, 0, delta, pi);
            DiscountIntended(root, 1.0, pow) != 0.0 &&
            pi * DiscountIntended(HoLeeNode(initial, 1, 1, delta, pi), T, pow)
              + (1.0 - pi) * DiscountIntended(HoLeeNode(initial, 1, 0, delta, pi), T, pow)
            == DiscountIntended(root, T + 1.0, pow) / DiscountIntended(root, 1.0, pow)
  {
    var root, up, down := HoLeeNode(initial, 0, 0, delta, pi), HoLeeNode(initial, 1, 1, delta, pi), HoLeeNode(initial, 1, 0, delta, pi);
    RootIsInitialCurve(initial, delta, pi, pow, T + 1.0);
    RootIsInitialCurve(initial, delta, pi, pow, 1.0);
    HAtZero(delta, pi, pow);
    var b := initial(T + 1.0) / initial(1.0);
    var h := H(T, delta, pi, pow);
    var p := pow(delta, T);
    HReciprocal(T, delta, pi, pow);
    assert Factor(up, T, pow, 1) == h && Factor(down, T, pow, 1) == h;
    assert T + 1 as real == T + 1.0;
    assert Base(up, T) == b && Base(down, T) == b;
    assert Accumulate(up, T, pow, b, 1, 2) == Accumulate(up, T, pow, b, 1, 1) * h;
    assert Accumulate(down, T, pow, b, 1, 2) == Accumulate(down, T, pow, b, 1, 1) * h;
    assert DiscountIntended(up, T, pow) == b * h * 1.0 by {
      assert T * (up.n - up.i) as real == 0.0;
    }
    assert DiscountIntended(down, T, pow) == b * h * p by {
      assert T * (down.n - down.i) as real == T;
    }
    assert pi * (b * h) + (1.0 - pi) * (b * h * p) == b * (h * (pi + (1.0 - pi) * p));
    assert initial(T + 1.0) / initial(0.0) / (initial(1.0) / initial(0.0)) == b;
  }

  /**
   * For n >= 1 the discount function as written differs from the Ho-Lee one by the factor
   * hT(n) / hT(T): the written formula ends with hT(n) where the product's last factor is hT(T) / hT(0).
   */
  lemma AsWrittenVersusIntended(node: HoLeeNode, T: real, pow: (real, real) -> real)
    requires node.initial(node.n as real) != 0.0 && Regular(node.delta, node.pi, pow)
    requires node.n >= 1 && pow(node.delta, 0.0) == 1.0
    ensures DiscountAsWritten(node, T, pow) * H(T, node.delta, node.pi, pow)
            == DiscountIntended(node, T, pow) * H(node.n as real, node.delta, node.pi, pow)
  {
    HAtZero(node.delta, node.pi, pow);
    var hT, hN := H(T, node.delta, node.pi, pow), H(node.n as real, node.delta, node.pi, pow);
    assert T + (node.n - node.n) as real == T;
    assert Factor(node, T, pow, node.n) == hT;
    var a, p := Accumulate(node, T, pow, Base(node, T), 1, node.n), DeltaPower(node, T, pow);
    assert DiscountIntended(node, T, pow) == a * hT * p;
    assert DiscountAsWritten(node, T, pow) == a * (hN * p);
  }

  /**
   * As written, a zero-coupon bond maturing now is not worth 1: at step 1, state 0, with
   * delta = 0.98 and pi = 0.5, d(0) = hT(1) = 1 / 0.99.
   */
  lemma AsWrittenZeroMaturityNotOne(initial: real -> real, pow: (real, real) -> real)
    requires initial(1.0) != 0.0 && Regular(0.98, 0.5, pow)
    requires pow(0.98, 0.0) == 1.0 && pow(0.98, 1.0) == 0.98
    ensures DiscountAsWritten(HoLeeNode(initial, 1, 0, 0.98, 0.5), 0.0, pow) == 1.0 / 0.99
    ensures DiscountIntended(HoLeeNode(initial, 1, 0, 0.98, 0.5), 0.0, pow) == 1.0
  {
    var node := HoLeeNode(initial, 1, 0, 0.98, 0.5);
    assert 0.0 + node.n as real == 1.0;
    assert 0.0 * (node.n - node.i) as real == 0.0;
    assert H(1.0, 0.98, 0.5, pow) == 1.0 / 0.99;
    IntendedZeroMaturity(node, pow);
  }

  /** With 0 <= pi <= 1 and positive powers of delta, hT is positive. */
  lemma HPositive(T: real, delta: real, pi: real, pow: (real, real) -> real)
    requires 0.0 <= pi <= 1.0 && pow(delta, T) > 0.0
    ensures pi + (1.0 - pi) * pow(delta, T) > 0.0
    ensures H(T, delta, pi, pow) > 0.0
  {
    if pi < 1.0 {
      ProductPositive(1.0 - pi, pow(delta, T));
    }
  }

  lemma {:induction false} AccumulatePositive(node: HoLeeNode, T: real, pow: (real, real) -> real, d: real, j: int, m: int)
    requires Regular(node.delta, node.pi, pow) && 0.0 <= node.pi <= 1.0
    requires forall x :: pow(node.delta, x) > 0.0
    requires d > 0.0
    ensures Accumulate(node, T, pow, d, j, m) > 0.0
    decreases m - j
  {
    if j < m {
      AccumulatePositive(node, T, pow, d, j, m - 1);
      HPositive(T + (node.n - (m - 1)) as real, node.delta, node.pi, pow);
      HPositive((node.n - (m - 1)) as real, node.delta, node.pi, pow);
      var h1, h2 := H(T + (node.n - (m - 1)) as real, node.delta, node.pi, pow), H((node.n - (m - 1)) as real, node.delta, node.pi, pow);
      assert h1 / h2 > 0.0;
      ProductPositive(Accumulate(node, T, pow, d, j, m - 1), h1 / h2);
    }
  }

  /** With 0 <= pi <= 1 and positive powers of delta, hT is defined at every maturity. */
  lemma PositivePowersRegular(delta: real, pi: real, pow: (real, real) -> real)
    requires 0.0 <= pi <= 1.0 && forall x :: pow(delta, x) > 0.0
    ensures Regular(delta, pi, pow)
  {
    forall x
      ensures Den(delta, pi, pow, x) != 0.0
    {
      HPositive(x, delta, pi, pow);
    }
  }

  /**
   * Over a positive initial curve, with 0 <= pi <= 1 and positive powers of delta, the
   * corrected discount factor of every node is positive.
   */
  lemma IntendedDiscountPositive(node: HoLeeNode, T: real, pow: (real, real) -> real)
    requires (forall x :: node.initial(x) > 0.0) && 0.0 <= node.pi <= 1.0
    requires forall x :: pow(node.delta, x) > 0.0
    ensures Regular(node.delta, node.pi, pow)
    ensures DiscountIntended(node, T, pow) > 0.0
  {
    PositivePowersRegular(node.delta, node.pi, pow);
    var b := Base(node, T);
    assert b > 0.0;
    AccumulatePositive(node, T, pow, b, 1, node.n + 1);
    ProductPositive(Accumulate(node, T, pow, b, 1, node.n + 1), DeltaPower(node, T, pow));
  }

  /**
   * Under the same conditions the discount factor as written, the one the option pricer
   * reads as each node's d(1), is positive too: the lattice supplies the non-negative
   * one-period discounts the pricer's lemmas assume.
   */
  lemma AsWrittenDiscountPositive(node: HoLeeNode, T: real, pow: (real, real) -> real)
    requires (forall x :: node.initial(x) > 0.0) && 0.0 <= node.pi <= 1.0
    requires forall x :: pow(node.delta, x) > 0.0
    ensures Regular(node.delta, node.pi, pow)
    ensures DiscountAsWritten(node, T, pow) > 0.0
  {
    PositivePowersRegular(node.delta, node.pi, pow);
    var b := Base(node, T);
    assert b > 0.0;
    AccumulatePositive(node, T, pow, b, 1, node.n);
    HPositive(node.n as real, node.delta, node.pi, pow);
    ProductPositive(H(node.n as real, node.delta, node.pi, pow), DeltaPower(node, T, pow));
    ProductPositive(Accumulate(node, T, pow, b, 1, node.n), H(node.n as real, node.delta, node.pi, pow) * DeltaPower(node, T, pow));
  }

  /** buildTermStructureTree: row t holds the nodes (t, 0) .. (t, t); no rows when noSteps <= 0. */
  method BuildTermStructureTree(initial: real -> real, noSteps: int, delta: real, pi: real)
    returns (tree: seq<seq<HoLeeNode>>)
    ensures |tree| == if noSteps > 0 then noSteps else 0
    ensures forall t :: 0 <= t < |tree| ==> |tree[t]| == t + 1
    ensures forall t, j :: 0 <= j <= t < |tree| ==> tree[t][j] == HoLeeNode(initial, t, j, delta, pi)
  {
    tree := [];
    var t := 0;
    while t < noSteps
      invariant 0 <= t && (noSteps > 0 ==> t <= noSteps) && (noSteps <= 0 ==> t == 0) && |tree| == t
      invariant forall r :: 0 <= r < t ==> |tree[r]| == r + 1
      invariant forall r, j :: 0 <= j <= r < t ==> tree[r][j] == HoLeeNode(initial, r, j, delta, pi)
    {
      tree := tree + [[]];
      for j := 0 to t + 1
        invariant |tree| == t + 1 && |tree[t]| == j
        invariant forall r :: 0 <= r < t ==> |tree[r]| == r + 1
        invariant forall r, k :: 0 <= k <= r < t ==> tree[r][k] == HoLeeNode(initial, r, k, delta, pi)
        invariant forall k :: 0 <= k < j ==> tree[t][k] == HoLeeNode(initial, t, k, delta, pi)
      {
        var hl := HoLeeNode(initial, t, j, delta, pi);
        tree := tree[t := tree[t] + [hl]];
      }
      t := t + 1;
    }
  }
}
