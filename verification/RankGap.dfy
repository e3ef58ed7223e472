/**
  Between the rank rule and solvability. The rank rule is necessary (see
  SignerSets.RankRuleNecessary) but not sufficient: two signers of rank 0 and one
  of rank 1 pass it, and their system is solvable exactly when the rank-1 id is not
  the midpoint of the other two. Up to three signers this is the only gap, and a signer
  set whose ranks are tight is solvable whatever its size and ids.
 */
module RankGap {
  import opened Wrappers
  import opened Lists
  import opened Fields
  import opened Vectors
  import opened Polynomials
  import opened Birkhoff
  import opened Blocks
  import opened Policies
  import opened SignerSets

  function MidpointPoints(a: nat, b: nat, m: nat): seq<BirkhoffPoint> {
    [BirkhoffPoint(a, a, 0), BirkhoffPoint(b, b, 0), BirkhoffPoint(m, m, 1)]
  }

  /** f(x) for f == x0 + x1 X + x2 X^2 */
  lemma QuadraticValue<T(!new)>(F: Field<T>, x0: T, x1: T, x2: T, x: T)
    requires F.Laws()
    ensures DerivativeValue(F, [x0, x1, x2], x, 0) == F.Add(x0, F.Mul(x, F.Add(x1, F.Mul(x, x2))))
  {
    var f := [x0, x1, x2];
    OrderZeroIsEval(F, f, x);
    assert f[1..] == [x1, x2] && [x1, x2][1..] == [x2] && [x2][1..] == [];
    assert Eval(F, f, x) == F.Add(x0, F.Mul(x, Eval(F, [x1, x2], x)));
    assert Eval(F, [x1, x2], x) == F.Add(x1, F.Mul(x, Eval(F, [x2], x)));
    assert Eval(F, [x2], x) == F.Add(x2, F.Mul(x, F.zero));
    F.MulZero(x);
    F.AddZero(x2);
  }

  /** f'(x) == x1 + (x + x) x2 */
  lemma QuadraticSlope<T(!new)>(F: Field<T>, x0: T, x1: T, x2: T, x: T)
    requires F.Laws()
    ensures DerivativeValue(F, [x0, x1, x2], x, 1) == F.Add(x1, F.Mul(F.Add(x, x), x2))
  {
    var f := [x0, x1, x2];
    OrderStep(F, f, x, 0);
    var d := Derivative(F, f);
    F.AddZero(F.one);
    assert F.Nat(1) == F.Add(F.Nat(0), F.one) == F.one;
    assert F.Nat(2) == F.Add(F.one, F.one);
    F.MulOne(x1);
    F.Distrib(x2, F.one, F.one);
    F.MulOne(x2);
    assert d == [x1, F.Add(x2, x2)];
    OrderZeroIsEval(F, d, x);
    assert d[1..] == [F.Add(x2, x2)] && [F.Add(x2, x2)][1..] == [];
    assert Eval(F, d, x) == F.Add(x1, F.Mul(x, Eval(F, d[1..], x)));
    assert Eval(F, d[1..], x) == F.Add(F.Add(x2, x2), F.Mul(x, F.zero));
    F.MulZero(x);
    F.AddZero(F.Add(x2, x2));
    F.Distrib(x, x2, x2);
    F.Distrib(x2, x, x);
  }

  /** a (x1 + a x2) == a (x1 + (a+b) x2) - (a b) x2 */
  lemma Complete<T(!new)>(F: Field<T>, a: T, b: T, x1: T, x2: T)
    requires F.Laws()
    ensures F.Add(F.Mul(a, F.Add(x1, F.Mul(a, x2))), F.Mul(F.Mul(a, b), x2))
         == F.Mul(a, F.Add(x1, F.Mul(F.Add(a, b), x2)))
  {
    F.MulAssoc(a, b, x2);
    F.Distrib(a, F.Add(x1, F.Mul(a, x2)), F.Mul(b, x2));
    F.AddAssoc(x1, F.Mul(a, x2), F.Mul(b, x2));
    F.Distrib(x2, a, b);
  }

  /** Two roots of a quadratic fix the ratio of its upper coefficients. */
  lemma TwoRoots<T(!new)>(F: Field<T>, x0: T, x1: T, x2: T, a: T, b: T)
    requires F.Laws() && a != b
    requires F.Add(x0, F.Mul(a, F.Add(x1, F.Mul(a, x2)))) == F.zero
    requires F.Add(x0, F.Mul(b, F.Add(x1, F.Mul(b, x2)))) == F.zero
    ensures F.Add(x1, F.Mul(F.Add(a, b), x2)) == F.zero
  {
    var u, v := F.Mul(a, F.Add(x1, F.Mul(a, x2))), F.Mul(b, F.Add(x1, F.Mul(b, x2)));
    var g := F.Add(x1, F.Mul(F.Add(a, b), x2));
    F.NegUnique(x0, u);
    F.NegUnique(x0, v);
    Complete(F, a, b, x1, x2);
    Complete(F, b, a, x1, x2);
    F.MulComm(a, b);
    F.AddComm(a, b);
    assert F.Mul(a, g) == F.Mul(b, g);
    if g != F.zero {
      F.MulComm(a, g);
      F.MulComm(b, g);
      F.MulCancel(g, a, b);
    }
  }

  lemma MidpointUnisolvent<T(!new)>(F: Field<T>, x0: T, x1: T, x2: T, a: T, b: T, m: T)
    requires F.Laws() && a != b && F.Add(m, m) != F.Add(a, b)
    requires DerivativeValue(F, [x0, x1, x2], a, 0) == F.zero
    requires DerivativeValue(F, [x0, x1, x2], b, 0) == F.zero
    requires DerivativeValue(F, [x0, x1, x2], m, 1) == F.zero
    ensures x0 == F.zero && x1 == F.zero && x2 == F.zero
  {
    QuadraticValue(F, x0, x1, x2, a);
    QuadraticValue(F, x0, x1, x2, b);
    QuadraticSlope(F, x0, x1, x2, m);
    TwoRoots(F, x0, x1, x2, a, b);
    var s, d := F.Add(a, b), F.Add(m, m);
    // s x2 == d x2 == -x1 with s != d leaves x2 == 0
    F.NegUnique(x1, F.Mul(s, x2));
    F.NegUnique(x1, F.Mul(d, x2));
    if x2 != F.zero {
      F.MulComm(s, x2);
      F.MulComm(d, x2);
      F.MulCancel(x2, s, d);
    }
    F.MulZero(s);
    F.AddZero(x1);
    F.MulZero(a);
    F.AddZero(F.zero);
    F.AddZero(x0);
  }

  /** (X - a)(X - b) is observed as zero at a, b and, for a midpoint m, in its slope. */
  lemma MidpointVanishes<T(!new)>(F: Field<T>, a: T, b: T, m: T)
    requires F.Laws() && F.Add(m, m) == F.Add(a, b)
    ensures
      var f := [F.Mul(a, b), F.Neg(F.Add(a, b)), F.one];
      && DerivativeValue(F, f, a, 0) == F.zero
      && DerivativeValue(F, f, b, 0) == F.zero
      && DerivativeValue(F, f, m, 1) == F.zero
  {
    var s := F.Add(a, b);
    QuadraticValue(F, F.Mul(a, b), F.Neg(s), F.one, a);
    QuadraticValue(F, F.Mul(a, b), F.Neg(s), F.one, b);
    QuadraticSlope(F, F.Mul(a, b), F.Neg(s), F.one, m);
    F.MulOne(a);
    F.MulOne(b);
    F.MulOne(s);
    F.AddNeg(s);
    SumMinus(F, a, b);
    F.AddComm(a, b);
    SumMinus(F, b, a);
    F.NegMul(a, b);
    F.NegMul(b, a);
    F.MulComm(a, b);
    F.AddNeg(F.Mul(a, b));
  }

  /** -(a+b) + a == -b */
  lemma SumMinus<T(!new)>(F: Field<T>, a: T, b: T)
    requires F.Laws()
    ensures F.Add(F.Neg(F.Add(a, b)), a) == F.Neg(b)
  {
    F.NegAdd(a, b);
    F.AddComm(F.Neg(a), F.Neg(b));
    F.AddAssoc(F.Neg(b), F.Neg(a), a);
    F.AddNeg(a);
    F.AddZero(F.Neg(b));
  }

  /** Points i and j of order 0 and point k of order 1. */
  ghost predicate TwoValuesOneSlope(points: seq<BirkhoffPoint>, i: nat, j: nat, k: nat) {
    && |points| == 3 && i < 3 && j < 3 && k < 3 && i != j && j != k && i != k
    && points[i].order == points[j].order == 0 && points[k].order == 1
  }

  lemma MidpointSingular<T(!new)>(F: Field<T>, points: seq<BirkhoffPoint>, i: nat, j: nat, k: nat)
    requires F.Laws() && TwoValuesOneSlope(points, i, j, k)
    requires F.Add(F.Nat(points[k].x), F.Nat(points[k].x)) == F.Add(F.Nat(points[i].x), F.Nat(points[j].x))
    ensures InterpolationCoefficients(F, points) == Fail(SingularSystem)
  {
    var a, b := F.Nat(points[i].x), F.Nat(points[j].x);
    MidpointVanishes(F, a, b, F.Nat(points[k].x));
    var f := [F.Mul(a, b), F.Neg(F.Add(a, b)), F.one];
    assert f[2] != Zeros(F, 3)[2];
    forall n | 0 <= n < 3
      ensures DerivativeValue(F, f, F.Nat(points[n].x), points[n].order) == F.zero
    {
      assert n == i || n == j || n == k;
    }
    VanishingPolynomial(F, points, f);
  }

  lemma MidpointSolvable<T(!new)>(F: Field<T>, points: seq<BirkhoffPoint>, i: nat, j: nat, k: nat)
    requires F.Laws() && TwoValuesOneSlope(points, i, j, k) && F.Nat(points[i].x) != F.Nat(points[j].x)
    requires F.Add(F.Nat(points[k].x), F.Nat(points[k].x)) != F.Add(F.Nat(points[i].x), F.Nat(points[j].x))
    ensures InterpolationCoefficients(F, points).Ok?
  {
    forall f: seq<T> | |f| == 3 && Observations(F, points, f) == Zeros(F, 3)
      ensures f == Zeros(F, 3)
    {
      var o := Observations(F, points, f);
      assert f == [f[0], f[1], f[2]];
      assert o[i] == F.zero && o[j] == F.zero && o[k] == F.zero;
      MidpointUnisolvent(F, f[0], f[1], f[2], F.Nat(points[i].x), F.Nat(points[j].x), F.Nat(points[k].x));
    }
    SolvableIffUnisolvent(F, points);
  }

  lemma SameScalar<T(!new)>(F: Field<T>, s: nat, t: nat)
    requires F.Laws() && F.LargeCharacteristic() && s <= 131070 && t <= 131070
    ensures F.Nat(s) == F.Nat(t) <==> s == t
  {
    if F.Nat(s) == F.Nat(t) {
      F.NatInjective(s, t);
    }
  }

  lemma MidpointScalar<T(!new)>(F: Field<T>, a: nat, b: nat, m: nat)
    requires F.Laws() && F.LargeCharacteristic() && a <= 65535 && b <= 65535 && m <= 65535
    ensures F.Add(F.Nat(m), F.Nat(m)) == F.Add(F.Nat(a), F.Nat(b)) <==> 2 * m == a + b
  {
    var s, t := m + m, a + b;
    assert F.Nat(s) == F.Add(F.Nat(m), F.Nat(m)) by {
      F.NatAdd(m, m);
    }
    assert F.Nat(t) == F.Add(F.Nat(a), F.Nat(b)) by {
      F.NatAdd(a, b);
    }
    SameScalar(F, s, t);
  }

  /** Exact gap: with two values and one slope, coefficients exist if and only if the
      slope is not taken at the midpoint. */
  lemma MidpointExact<T(!new)>(F: Field<T>, points: seq<BirkhoffPoint>, i: nat, j: nat, k: nat)
    requires F.Laws() && F.LargeCharacteristic() && Nodes16(points) && TwoValuesOneSlope(points, i, j, k)
    ensures InterpolationCoefficients(F, points).Ok? <==> 2 * points[k].x != points[i].x + points[j].x
  {
    MidpointScalar(F, points[i].x, points[j].x, points[k].x);
    if 2 * points[k].x == points[i].x + points[j].x {
      MidpointSingular(F, points, i, j, k);
    } else {
      DistinctScalars(F, points, i, j);
      MidpointSolvable(F, points, i, j, k);
    }
  }

  lemma DistinctScalars<T(!new)>(F: Field<T>, points: seq<BirkhoffPoint>, i: nat, j: nat)
    requires F.Laws() && F.LargeCharacteristic() && Nodes16(points) && i < |points| && j < |points| && i != j
    ensures F.Nat(points[i].x) != F.Nat(points[j].x)
  {
    SameScalar(F, points[i].x, points[j].x);
  }

  // ---------------------------------------------------------------- up to three signers

  function One(t: bool): nat { if t then 1 else 0 }

  lemma CountThree(points: seq<BirkhoffPoint>, r: nat)
    requires 1 <= |points| <= 3
    ensures CountBelow(Orders(points), r)
      == One(points[0].order < r) + One(|points| > 1 && points[1].order < r) + One(|points| > 2 && points[2].order < r)
  {
    var o := Orders(points);
    assert o[..1] == [o[0]];
    assert |o| > 1 ==> o[..2][..1] == o[..1];
    assert |o| == 2 ==> o[..2] == o;
    assert |o| == 1 ==> o[..1] == o;
    assert CountBelow(o[..1], r) == One(o[0] < r);
    assert |o| > 1 ==> CountBelow(o[..2], r) == One(o[0] < r) + One(o[1] < r);
  }

  ghost predicate HasMidpoint(points: seq<BirkhoffPoint>) {
    exists i: nat, j: nat, k: nat :: TwoValuesOneSlope(points, i, j, k) && 2 * points[k].x == points[i].x + points[j].x
  }

  /** Up to three points that pass the rank rule are tight, or two values and one slope. */
  lemma ThreeOrders(points: seq<BirkhoffPoint>) returns (i: nat, j: nat, k: nat)
    requires 1 <= |points| <= 3 && RankRuleHolds(Orders(points), |points|) && !Tight(points)
    ensures TwoValuesOneSlope(points, i, j, k)
  {
    var p :| p in points && CountBelow(Orders(points), p.order) != p.order;
    CountThree(points, p.order);
    CountThree(points, 1);
    assert CountBelow(Orders(points), 1) >= 1;
    if |points| >= 2 {
      CountThree(points, 2);
      assert CountBelow(Orders(points), 2) >= 2;
    }
    if |points| == 3 {
      CountThree(points, 3);
      assert CountBelow(Orders(points), 3) >= 3;
    }
    k := if points[0].order == 1 then 0 else if |points| > 1 && points[1].order == 1 then 1 else 2;
    i, j := (k + 1) % 3, (k + 2) % 3;
  }

  /** Complete answer up to three points: coefficients exist if and only if the rank rule
      holds and no order-1 point is the midpoint of two order-0 points. */
  lemma SmallSetsExact<T(!new)>(F: Field<T>, points: seq<BirkhoffPoint>)
    requires F.Laws() && F.LargeCharacteristic() && 1 <= |points| <= 3 && Nodes16(points)
    ensures InterpolationCoefficients(F, points).Ok? <==>
      RankRuleHolds(Orders(points), |points|) && !HasMidpoint(points)
  {
    if HasMidpoint(points) {
      var i: nat, j: nat, k: nat :| TwoValuesOneSlope(points, i, j, k) && 2 * points[k].x == points[i].x + points[j].x;
      MidpointExact(F, points, i, j, k);
    } else if !RankRuleHolds(Orders(points), |points|) {
      var b :| 1 <= b <= |points| && CountBelow(Orders(points), b) < b;
      PolyaNecessary(F, points, b);
    } else if Tight(points) {
      TightSolvable(F, points);
    } else {
      var i, j, k := ThreeOrders(points);
      MidpointExact(F, points, i, j, k);
    }
  }

  // ---------------------------------------------------------------- tight signer sets

  lemma SignerNodes(signers: seq<U16>, c: HierarchicalConfig)
    requires ConstructedHierarchical(c) && SignerPoints(signers, c).Ok?
    ensures Nodes16(SignerPoints(signers, c).value)
    ensures Orders(SignerPoints(signers, c).value) == SignerRanks(signers, c.participants)
    ensures |signers| <= 65535
  {
    SignerPointsSize(signers, c);
    SignerIds(signers, c);
    IdNodes(signers, SignerPoints(signers, c).value);
  }

  lemma SignerIds(signers: seq<U16>, c: HierarchicalConfig)
    requires SignerPoints(signers, c).Ok?
    ensures Distinct(signers) && forall i :: 0 <= i < |signers| ==> signers[i] >= 1
  {
  }

  lemma IdNodes(signers: seq<U16>, points: seq<BirkhoffPoint>)
    requires Distinct(signers) && |points| == |signers|
    requires forall i :: 0 <= i < |signers| ==> signers[i] >= 1 && points[i].x == signers[i]
    ensures Nodes16(points)
  {
  }

  /** Signers can always sign when every rank r among them has exactly r signers below it. */
  lemma TightSigners<T(!new)>(F: Field<T>, signers: seq<U16>, c: HierarchicalConfig)
    requires F.Laws() && F.LargeCharacteristic() && ConstructedHierarchical(c) && SignerPoints(signers, c).Ok?
    requires
      var ranks := SignerRanks(signers, c.participants);
      forall i :: 0 <= i < |ranks| ==> CountBelow(ranks, ranks[i]) == ranks[i]
    ensures InterpolationCoefficients(F, SignerPoints(signers, c).value).Ok?
  {
    var points := SignerPoints(signers, c).value;
    SignerPointsMeaning(signers, c);
    SignerNodes(signers, c);
    forall p | p in points
      ensures CountBelow(Orders(points), p.order) == p.order
    {
      var i :| 0 <= i < |points| && points[i] == p;
      assert Orders(points)[i] == p.order;
    }
    TightSolvable(F, points);
  }

  /** Counts at least the required ones whose sum is the required sum are the required ones. */
  lemma {:induction false} ExactCounts(reqs: seq<Requirement>, ranks: seq<nat>, i: nat)
    requires forall k :: 0 <= k < |reqs| ==> CountEqual(ranks, reqs[k].rank) >= reqs[k].required && reqs[k].rank < 65536
    requires SumCounts(reqs, ranks, 65536) == SumRequired(reqs, 65536) && i < |reqs|
    ensures CountEqual(ranks, reqs[i].rank) == reqs[i].required
  {
    var l := |reqs| - 1;
    SumRequiredAtMostCounts(reqs[..l], ranks, 65536);
    if i < l {
      ExactCounts(reqs[..l], ranks, i);
    }
  }

  /** The required counts of the ranks below each declared rank r add up to exactly r. */
  ghost predicate TightPolicy(g: GroupedConfig) {
    forall i :: 0 <= i < |g.requirements| ==>
      SumRequired(g.requirements, g.requirements[i].rank) == g.requirements[i].rank
  }

  lemma QuorumCounts(g: GroupedConfig, signers: seq<U16>, b: nat)
    requires ConstructedGrouped(g) && GroupedAccepts(signers, g) && |signers| == RequiredSignerCount(g.requirements)
    ensures CountBelow(SignerRanks(signers, g.participants), b) == SumRequired(g.requirements, b)
  {
    var reqs, ranks := g.requirements, SignerRanks(signers, g.participants);
    GroupedParts(g);
    GroupedArithmetic(g);
    forall i | 0 <= i < |ranks|
      ensures Declared(reqs, ranks[i])
    {
      RankIsDeclared(signers, g, i);
    }
    CountsPartition(reqs, ranks, 65536);
    CountBelowAll(ranks, 65536);
    forall i | 0 <= i < |reqs|
      ensures CountEqual(ranks, reqs[i].rank) == reqs[i].required
    {
      ExactCounts(reqs, ranks, i);
    }
    ExactSums(reqs, ranks, b);
    CountsPartition(reqs, ranks, b);
  }

  /** A tight grouped policy never meets the gap: every minimal quorum it accepts passes the
      derived rank rule and has coefficients. */
  lemma TightQuorum<T(!new)>(F: Field<T>, g: GroupedConfig, signers: seq<U16>)
    requires F.Laws() && F.LargeCharacteristic() && ConstructedGrouped(g) && TightPolicy(g)
    requires GroupedResult(signers, g).Ok? && |signers| == RequiredSignerCount(g.requirements)
    ensures HierarchicalFromGrouped(g).Ok?
    ensures
      var points := SignerPoints(signers, HierarchicalFromGrouped(g).value);
      points.Ok? && InterpolationCoefficients(F, points.value).Ok?
  {
    var ranks := SignerRanks(signers, g.participants);
    GroupedArithmetic(g);
    GroupedResultMeaning(signers, g);
    CoveredImpliesRankRule(signers, g);
    SignerPointsMeaning(signers, HierarchicalFromGrouped(g).value);
    forall i | 0 <= i < |ranks|
      ensures CountBelow(ranks, ranks[i]) == ranks[i]
    {
      RankIsDeclared(signers, g, i);
      QuorumCounts(g, signers, ranks[i]);
    }
    TightSigners(F, signers, HierarchicalFromGrouped(g).value);
  }

  // ---------------------------------------------------------------- the smallest counterexample

  function MidpointConfig(): HierarchicalConfig {
    HierarchicalConfig(3, [RankedParticipant(1, 0), RankedParticipant(3, 0), RankedParticipant(2, 1)])
  }

  lemma MidpointLookup()
    ensures Ids(MidpointConfig().participants) == [1, 3, 2]
    ensures SignerRanks([1, 3, 2], MidpointConfig().participants) == [0, 0, 1]
    ensures AllRanked([1, 3, 2], MidpointConfig().participants)
  {
    var ps := MidpointConfig().participants;
    assert Ids(ps) == [1, 3, 2];
    RankOfMember(ps, 0);
    RankOfMember(ps, 1);
    RankOfMember(ps, 2);
  }

  lemma MidpointAccepted()
    ensures ConstructedHierarchical(MidpointConfig())
    ensures HierarchicalResult([1, 3, 2], MidpointConfig()).Ok?
    ensures SignerPoints([1, 3, 2], MidpointConfig()) == Ok(MidpointPoints(1, 3, 2))
  {
    MidpointLookup();
    MidpointRanks();
    HierarchicalResultMeaning([1, 3, 2], MidpointConfig());
    SignerPointsMeaning([1, 3, 2], MidpointConfig());
    MidpointPointsList(SignerPoints([1, 3, 2], MidpointConfig()).value);
  }

  lemma MidpointPointsList(points: seq<BirkhoffPoint>)
    requires |points| == 3 && forall i :: 0 <= i < 3 ==> var signers: seq<U16> := [1, 3, 2];
      points[i] == BirkhoffPoint(signers[i], signers[i], RankOrZero(MidpointConfig().participants, signers[i]))
    ensures points == MidpointPoints(1, 3, 2)
  {
    MidpointLookup();
    var ranks := SignerRanks([1, 3, 2], MidpointConfig().participants);
    assert ranks[0] == 0 && ranks[1] == 0 && ranks[2] == 1;
    assert points[0] == BirkhoffPoint(1, 1, 0);
    assert points[1] == BirkhoffPoint(3, 3, 0);
    assert points[2] == BirkhoffPoint(2, 2, 1);
  }

  lemma MidpointRanks()
    ensures RankRuleHolds([0, 0, 1], 3)
  {
    var ranks := [0, 0, 1];
    assert ranks[..2] == [0, 0] && ranks[..2][..1] == [0] && ranks[..2][..1][..0] == [];
    forall b | 1 <= b <= 3
      ensures CountBelow(ranks, b) >= b
    {
      assert CountBelow([0], b) == 1 && CountBelow([0, 0], b) == 2;
    }
  }

  /** The rank rule is not sufficient: ids 1 and 3 of rank 0 with id 2 of rank 1 are
      accepted at threshold 3, and have no coefficients. */
  lemma RankRuleNotSufficient<T(!new)>(F: Field<T>)
    requires F.Laws() && F.LargeCharacteristic()
    ensures HierarchicalResult([1, 3, 2], MidpointConfig()).Ok?
    ensures SignerPoints([1, 3, 2], MidpointConfig()) == Ok(MidpointPoints(1, 3, 2))
    ensures InterpolationCoefficients(F, MidpointPoints(1, 3, 2)) == Fail(SingularSystem)
  {
    MidpointAccepted();
    F.NatAdd(2, 2);
    F.NatAdd(1, 3);
    MidpointSingular(F, MidpointPoints(1, 3, 2), 0, 1, 2);
  }
}
