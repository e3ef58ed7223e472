/**
  The vault's own policy: one of two members of rank 0, two of three of rank 1 and three of
  five of rank 2. It is not tight, and still every minimal quorum it accepts can sign.
 */
module VaultQuorums {
  import opened Wrappers
  import opened Lists
  import opened Fields
  import opened Polynomials
  import opened Birkhoff
  import opened Policies
  import opened SignerSets
  import opened Blocks
  import opened Extensions
  import opened RankGap

  // ---------------------------------------------------------------- integers as scalars

  ghost function Int<T(!new)>(F: Field<T>, z: int): T { if z >= 0 then F.Nat(z) else F.Neg(F.Nat(-z)) }

  lemma IntSucc<T(!new)>(F: Field<T>, z: int)
    requires F.Laws()
    ensures Int(F, z + 1) == F.Add(Int(F, z), F.one)
  {
    if z < 0 {
      var n := F.Nat(-z - 1);
      assert F.Nat(-z) == F.Add(n, F.one);
      F.NegAdd(n, F.one);
      F.AddAssoc(F.Neg(n), F.Neg(F.one), F.one);
      F.AddNeg(F.one);
      F.AddZero(F.Neg(n));
      if z == -1 {
        F.AddNeg(F.zero);
        F.AddZero(F.Neg(F.zero));
      }
    }
  }

  lemma {:induction false} IntAddNat<T(!new)>(F: Field<T>, a: int, n: nat)
    requires F.Laws()
    ensures Int(F, a + n) == F.Add(Int(F, a), F.Nat(n))
    decreases n
  {
    if n == 0 {
      F.AddZero(Int(F, a));
    } else {
      IntAddNat(F, a, n - 1);
      IntSucc(F, a + (n - 1));
      F.AddAssoc(Int(F, a), F.Nat(n - 1), F.one);
    }
  }

  lemma IntAdd<T(!new)>(F: Field<T>, a: int, b: int)
    requires F.Laws()
    ensures Int(F, a + b) == F.Add(Int(F, a), Int(F, b))
  {
    if b >= 0 {
      IntAddNat(F, a, b);
    } else {
      var n := F.Nat(-b);
      IntAddNat(F, a + b, -b);
      F.AddAssoc(Int(F, a + b), n, F.Neg(n));
      F.AddNeg(n);
      F.AddZero(Int(F, a + b));
    }
  }

  lemma IntNeg<T(!new)>(F: Field<T>, a: int)
    requires F.Laws()
    ensures Int(F, -a) == F.Neg(Int(F, a))
  {
    if a < 0 {
      F.NegNeg(F.Nat(-a));
    } else if a == 0 {
      F.AddNeg(F.zero);
      F.AddZero(F.Neg(F.zero));
    }
  }

  lemma {:induction false} IntMulNat<T(!new)>(F: Field<T>, a: int, n: nat)
    requires F.Laws()
    ensures Int(F, a * n) == F.Mul(Int(F, a), F.Nat(n))
    decreases n
  {
    if n == 0 {
      F.MulZero(Int(F, a));
    } else {
      IntMulNat(F, a, n - 1);
      assert a * n == a * (n - 1) + a;
      IntAdd(F, a * (n - 1), a);
      F.Distrib(Int(F, a), F.Nat(n - 1), F.one);
      F.MulOne(Int(F, a));
    }
  }

  lemma IntMul<T(!new)>(F: Field<T>, a: int, b: int)
    requires F.Laws()
    ensures Int(F, a * b) == F.Mul(Int(F, a), Int(F, b))
  {
    if b >= 0 {
      IntMulNat(F, a, b);
    } else {
      var n := -b;
      assert a * b == -(a * n);
      IntMulNat(F, a, n);
      IntNeg(F, a * n);
      F.NegMul(Int(F, a), F.Nat(n));
      F.MulComm(Int(F, a), F.Nat(n));
      F.MulComm(Int(F, a), F.Neg(F.Nat(n)));
      F.NegMul(F.Nat(n), Int(F, a));
    }
  }

  /** Different integers that are not too far apart are different scalars. */
  lemma IntDistinct<T(!new)>(F: Field<T>, a: int, b: int)
    requires F.Laws() && F.LargeCharacteristic() && 1 <= b - a <= 131070
    ensures Int(F, a) != Int(F, b)
  {
    IntAddNat(F, a, b - a);
    if Int(F, a) == Int(F, b) {
      F.AddZero(Int(F, a));
      F.AddComm(Int(F, a), F.Nat(b - a));
      F.AddComm(Int(F, a), F.zero);
      F.AddCancel(F.Nat(b - a), F.zero, Int(F, a));
    }
  }

  // ---------------------------------------------------------------- integer polynomials

  ghost function EvalInt(s: seq<int>, x: int): int { if |s| == 0 then 0 else s[0] + x * EvalInt(s[1..], x) }

  ghost function Ints<T(!new)>(F: Field<T>, s: seq<int>): (f: seq<T>)
    ensures |f| == |s| && forall i :: 0 <= i < |s| ==> f[i] == Int(F, s[i])
  {
    seq(|s|, i requires 0 <= i < |s| => Int(F, s[i]))
  }

  lemma {:induction false} EvalInts<T(!new)>(F: Field<T>, s: seq<int>, x: int)
    requires F.Laws()
    ensures Eval(F, Ints(F, s), Int(F, x)) == Int(F, EvalInt(s, x))
  {
    if |s| > 0 {
      var tail := EvalInt(s[1..], x);
      EvalInts(F, s[1..], x);
      assert Ints(F, s)[1..] == Ints(F, s[1..]);
      IntMul(F, x, tail);
      IntAdd(F, s[0], x * tail);
    }
  }

  ghost function DerivativeInt(s: seq<int>): (d: seq<int>)
    requires |s| > 0
    ensures |d| == |s| - 1 && forall k :: 0 <= k < |d| ==> d[k] == (k + 1) * s[k + 1]
  {
    seq(|s| - 1, k requires 0 <= k < |s| - 1 => (k + 1) * s[k + 1])
  }

  lemma TimesInt<T(!new)>(F: Field<T>, n: nat, z: int, product: int)
    requires F.Laws() && product == n * z
    ensures F.Mul(F.Nat(n), Int(F, z)) == Int(F, product)
  {
    IntMul(F, n, z);
  }

  lemma DerivativeEntry<T(!new)>(F: Field<T>, f: seq<T>, k: nat)
    requires k + 1 < |f|
    ensures Derivative(F, f)[k] == F.Mul(F.Nat(k + 1), f[k + 1])
  {
  }

  lemma DerivativeInts<T(!new)>(F: Field<T>, s: seq<int>)
    requires F.Laws() && |s| > 0
    ensures Derivative(F, Ints(F, s)) == Ints(F, DerivativeInt(s))
  {
    var d := Derivative(F, Ints(F, s));
    forall k | 0 <= k < |d|
      ensures d[k] == Ints(F, DerivativeInt(s))[k]
    {
      DerivativeEntry(F, Ints(F, s), k);
      TimesInt(F, k + 1, s[k + 1], DerivativeInt(s)[k]);
    }
  }

  // ---------------------------------------------------------------- twelve times the integral

  /** 12 times the integral of (X - u)(X - v)(X - w). */
  ghost function Quartic(u: int, v: int, w: int): seq<int> {
    [0, -12 * (u * v * w), 6 * (u * v + u * w + v * w), -4 * (u + v + w), 3]
  }

  ghost function Cubic(u: int, v: int, w: int): seq<int> {
    [-12 * (u * v * w), 12 * (u * v + u * w + v * w), -12 * (u + v + w), 12]
  }

  lemma QuarticDerivative(u: int, v: int, w: int)
    ensures DerivativeInt(Quartic(u, v, w)) == Cubic(u, v, w)
  {
  }

  lemma EvalFour(s: seq<int>, x: int)
    requires |s| == 4
    ensures EvalInt(s, x) == s[0] + x * (s[1] + x * (s[2] + x * s[3]))
  {
    var t1, t2, t3 := s[1..], s[2..], s[3..];
    assert t1[1..] == t2 && t2[1..] == t3 && t3[1..] == [];
    assert EvalInt([], x) == 0;
    assert EvalInt(t3, x) == s[3];
    assert EvalInt(t2, x) == s[2] + x * s[3];
    assert EvalInt(t1, x) == s[1] + x * (s[2] + x * s[3]);
  }

  lemma EvalFive(s: seq<int>, x: int)
    requires |s| == 5
    ensures EvalInt(s, x) == s[0] + x * (s[1] + x * (s[2] + x * (s[3] + x * s[4])))
  {
    EvalFour(s[1..], x);
  }

  /** The derivative is zero at u; u, v and w may be listed in any order. */
  lemma CubicRoot(u: int, v: int, w: int)
    ensures EvalInt(Cubic(u, v, w), u) == 0
  {
    EvalFour(Cubic(u, v, w), u);
    var p, q := u * v, u * w;
    assert u * v * w == p * w && v * w * u == p * w;
    assert u * (12 * (p + q + v * w) + u * (-12 * (u + v + w) + u * 12)) == 12 * (p * w) by {
      assert u * (-12 * (u + v + w) + u * 12) == -12 * (p + q);
      assert 12 * (p + q + v * w) - 12 * (p + q) == 12 * (v * w);
    }
  }

  lemma CubicOrder(u: int, v: int, w: int)
    ensures Cubic(u, v, w) == Cubic(v, u, w) && Cubic(u, v, w) == Cubic(w, v, u)
  {
    assert u * v * w == v * u * w;
    assert u * v * w == w * v * u by {
      assert u * v * w == w * (u * v);
      assert w * v * u == w * (v * u);
    }
  }

  /** Products of numbers between 1 and 7. */
  lemma SmallProducts(i: int, j: int, k: int)
    requires 1 <= i <= 7 && 1 <= j <= 7 && 1 <= k <= 7
    ensures 1 <= i * j <= 49 && 1 <= i * k <= 49 && 1 <= j * k <= 49 && 1 <= i * j * k <= 343
  {
    SmallProduct(i, j, 7);
    SmallProduct(i, k, 7);
    SmallProduct(j, k, 7);
    SmallProduct(i * j, k, 49);
  }

  lemma SmallProduct(i: int, j: int, m: int)
    requires 1 <= i <= m && 1 <= j <= 7
    ensures 1 <= i * j <= 7 * m
  {
    assert i * j == i + i * (j - 1);
    assert i * (j - 1) >= 0;
    assert i * j <= i * 7 by {
      assert i * 7 == i * j + i * (7 - j);
      assert i * (7 - j) >= 0;
    }
  }

  /** The symmetric functions p, s, t of b + i, b + j and b + k, from those of i, j and k. */
  ghost predicate ShiftedBy(b: int, e1: int, e2: int, e3: int, p: int, s: int, t: int) {
    if b == 4 then p == 64 + 16 * e1 + 4 * e2 + e3 && s == 48 + 8 * e1 + e2 && t == 12 + e1
    else p == 125 + 25 * e1 + 5 * e2 + e3 && s == 75 + 10 * e1 + e2 && t == 15 + e1
  }

  lemma Shifted(b: int, i: int, j: int, k: int)
    requires b == 4 || b == 5
    ensures
      var u, v, w := b + i, b + j, b + k;
      ShiftedBy(b, i + j + k, i * j + i * k + j * k, i * j * k, u * v * w, u * v + u * w + v * w, u + v + w)
  {
    var u, v, w := b + i, b + j, b + k;
    assert u * v == b * b + b * i + b * j + i * j;
    assert u * w == b * b + b * i + b * k + i * k;
    assert v * w == b * b + b * j + b * k + j * k;
    assert u * v * w == (b * b + b * i + b * j + i * j) * b + (b * b + b * i + b * j + i * j) * k;
  }

  /** The quartic at 3, 4 and 5, in the symmetric functions of its roots. */
  ghost function Table(x: int, p: int, s: int, t: int): int {
    if x == 3 then -36 * p + 54 * s - 108 * t + 243
    else if x == 4 then -48 * p + 96 * s - 256 * t + 768
    else -60 * p + 150 * s - 500 * t + 1875
  }

  lemma QuarticAt(x: int, u: int, v: int, w: int)
    requires 3 <= x <= 5
    ensures EvalInt(Quartic(u, v, w), x) == Table(x, u * v * w, u * v + u * w + v * w, u + v + w)
  {
    EvalFive(Quartic(u, v, w), x);
    Horner(x, u * v * w, u * v + u * w + v * w, u + v + w);
  }

  lemma Horner(x: int, p: int, s: int, t: int)
    requires 3 <= x <= 5
    ensures 0 + x * (-12 * p + x * (6 * s + x * (-4 * t + x * 3))) == Table(x, p, s, t)
  {
  }

  lemma TableFalls(a: int, b: int, e1: int, e2: int, e3: int, p: int, s: int, t: int)
    requires 3 <= a < b <= 5 && 3 <= e1 <= 21 && 3 <= e2 <= 147 && 1 <= e3 <= 343
    requires ShiftedBy(b, e1, e2, e3, p, s, t)
    ensures 1 <= Table(a, p, s, t) - Table(b, p, s, t) <= 131070
  {
  }

  /** The same for roots b + i, b + j and b + k. */
  lemma RootsFall(a: int, b: int, i: int, j: int, k: int)
    requires 3 <= a < b <= 5 && 1 <= i <= 7 && 1 <= j <= 7 && 1 <= k <= 7
    ensures
      var u, v, w := b + i, b + j, b + k;
      var p, s, t := u * v * w, u * v + u * w + v * w, u + v + w;
      1 <= Table(a, p, s, t) - Table(b, p, s, t) <= 131070
  {
    var u, v, w := b + i, b + j, b + k;
    Shifted(b, i, j, k);
    SmallProducts(i, j, k);
    TableFalls(a, b, i + j + k, i * j + i * k + j * k, i * j * k, u * v * w, u * v + u * w + v * w, u + v + w);
  }

  /** Below all three roots the integral falls, and by little. */
  lemma QuarticFalls(a: int, b: int, u: int, v: int, w: int)
    requires 3 <= a < b <= 5 && 6 <= u <= 10 && 6 <= v <= 10 && 6 <= w <= 10
    ensures 1 <= EvalInt(Quartic(u, v, w), a) - EvalInt(Quartic(u, v, w), b) <= 131070
  {
    QuarticAt(a, u, v, w);
    QuarticAt(b, u, v, w);
    RootsFall(a, b, u - b, v - b, w - b);
  }

  // ---------------------------------------------------------------- rank patterns of a minimal quorum

  /** One, two and three signers of ranks 0, 1 and 2, with ids in the vault's ranges. */
  ghost predicate VaultPoints(points: seq<BirkhoffPoint>) {
    && |points| == 6 && Nodes16(points) && CountBelow(Orders(points), 1) == 1 && CountBelow(Orders(points), 2) == 3
    && (forall p :: p in points ==> p.order <= 2)
    && (forall p :: p in points && p.order == 1 ==> 3 <= p.x <= 5)
    && (forall p :: p in points && p.order == 2 ==> 6 <= p.x <= 10)
  }

  lemma RankOnes(points: seq<BirkhoffPoint>) returns (a: BirkhoffPoint, b: BirkhoffPoint)
    requires VaultPoints(points)
    ensures OneTwoRest(points, a, b) && a.x != b.x
  {
    var ones := Low(Rest(points, 1), 2);
    RestCounts(points, 1, 2);
    RestNodes(points, 1);
    LowNodes(Rest(points, 1), 2);
    a, b := ones[0], ones[1];
    assert a in ones && b in ones;
  }

  lemma RankTwos(points: seq<BirkhoffPoint>) returns (u: nat, v: nat, w: nat)
    requires VaultPoints(points)
    ensures 6 <= u <= 10 && 6 <= v <= 10 && 6 <= w <= 10
    ensures forall p :: p in points && p.order == 2 ==> p.x == u || p.x == v || p.x == w
  {
    var twos := Rest(points, 2);
    assert twos[0] in twos && twos[1] in twos && twos[2] in twos;
    u, v, w := twos[0].x, twos[1].x, twos[2].x;
    ThreeMembers(twos);
  }

  lemma ThreeMembers(s: seq<BirkhoffPoint>)
    requires |s| == 3
    ensures forall p :: p in s ==> p == s[0] || p == s[1] || p == s[2]
  {
  }

  lemma QuarticSlope<T(!new)>(F: Field<T>, u: nat, v: nat, w: nat, x: nat)
    requires F.Laws() && (x == u || x == v || x == w)
    ensures Eval(F, Derivative(F, Ints(F, Quartic(u, v, w))), F.Nat(x)) == F.zero
  {
    DerivativeInts(F, Quartic(u, v, w));
    QuarticDerivative(u, v, w);
    CubicOrder(u, v, w);
    CubicRoot(u, v, w);
    CubicRoot(v, u, w);
    CubicRoot(w, v, u);
    EvalInts(F, Cubic(u, v, w), x);
  }

  lemma QuarticDiffers<T(!new)>(F: Field<T>, a: nat, b: nat, u: nat, v: nat, w: nat)
    requires F.Laws() && F.LargeCharacteristic() && 3 <= a < b <= 5 && 6 <= u <= 10 && 6 <= v <= 10 && 6 <= w <= 10
    ensures Eval(F, Ints(F, Quartic(u, v, w)), F.Nat(a)) != Eval(F, Ints(F, Quartic(u, v, w)), F.Nat(b))
  {
    var q := Quartic(u, v, w);
    QuarticFalls(a, b, u, v, w);
    EvalInts(F, q, a);
    EvalInts(F, q, b);
    IntDistinct(F, EvalInt(q, b), EvalInt(q, a));
  }

  lemma VaultPointsSolvable<T(!new)>(F: Field<T>, points: seq<BirkhoffPoint>)
    requires F.Laws() && F.LargeCharacteristic() && VaultPoints(points)
    ensures InterpolationCoefficients(F, points).Ok?
  {
    var a, b := RankOnes(points);
    var u, v, w := RankTwos(points);
    var g := Ints(F, Quartic(u, v, w));
    assert g[4] == F.Nat(3);
    forall p | p in points && p.order == 2
      ensures Eval(F, Derivative(F, g), F.Nat(p.x)) == F.zero
    {
      QuarticSlope(F, u, v, w, p.x);
    }
    if a.x < b.x {
      QuarticDiffers(F, a.x, b.x, u, v, w);
    } else {
      QuarticDiffers(F, b.x, a.x, u, v, w);
    }
    OneTwoRestExact(F, points, a, b, g);
  }

  // ---------------------------------------------------------------- the policy

  /** Required counts 1, 2 and 3 at ranks 0, 1 and 2, and the ids of ranks 1 and 2. */
  ghost predicate VaultShape(g: GroupedConfig) {
    && |g.requirements| == 3
    && (forall i :: 0 <= i < 3 ==> g.requirements[i].rank == i && g.requirements[i].required == i + 1)
    && (forall i :: 0 <= i < |g.participants| ==>
         && (g.participants[i].rank == 1 ==> 3 <= g.participants[i].id <= 5)
         && (g.participants[i].rank == 2 ==> 6 <= g.participants[i].id <= 10))
  }

  lemma VaultSums(reqs: seq<Requirement>)
    requires |reqs| == 3 && forall i :: 0 <= i < 3 ==> reqs[i].rank == i && reqs[i].required == i + 1
    ensures SumRequired(reqs, 0) == 0 && SumRequired(reqs, 1) == 1 && SumRequired(reqs, 2) == 3
    ensures SumRequired(reqs, 65536) == 6
  {
    var one, two := reqs[..1], reqs[..2];
    assert two[..1] == one && one[..0] == [] && reqs[..2] == two;
    forall b: nat
      ensures SumRequired(one, b) == (if 0 < b then 1 else 0)
      ensures SumRequired(two, b) == SumRequired(one, b) + (if 1 < b then 2 else 0)
      ensures SumRequired(reqs, b) == SumRequired(two, b) + (if 2 < b then 3 else 0)
    {
    }
  }

  lemma VaultRanks(g: GroupedConfig, signers: seq<U16>, i: nat)
    requires ConstructedGrouped(g) && VaultShape(g) && AllRanked(signers, g.participants) && i < |signers|
    ensures
      var rank := RankOrZero(g.participants, signers[i]);
      && rank <= 2 && (rank == 1 ==> 3 <= signers[i] <= 5) && (rank == 2 ==> 6 <= signers[i] <= 10)
  {
    var j :| 0 <= j < |g.participants| && g.participants[j].id == signers[i];
    RankOfMember(g.participants, j);
    RankIsDeclared(signers, g, i);
    assert SignerRanks(signers, g.participants)[i] == g.participants[j].rank;
  }

  lemma QuorumPoints(g: GroupedConfig, c: HierarchicalConfig, signers: seq<U16>)
    requires ConstructedGrouped(g) && VaultShape(g) && HierarchicalFromGrouped(g) == Ok(c) && ConstructedHierarchical(c)
    requires GroupedAccepts(signers, g) && |signers| == 6 && SignerPoints(signers, c).Ok?
    ensures VaultPoints(SignerPoints(signers, c).value)
  {
    var points := SignerPoints(signers, c).value;
    assert c.participants == g.participants;
    SignerNodes(signers, c);
    VaultSums(g.requirements);
    GroupedArithmetic(g);
    QuorumCounts(g, signers, 1);
    QuorumCounts(g, signers, 2);
    forall p | p in points
      ensures p.order <= 2 && (p.order == 1 ==> 3 <= p.x <= 5) && (p.order == 2 ==> 6 <= p.x <= 10)
    {
      var i :| 0 <= i < |points| && points[i] == p;
      VaultRanks(g, signers, i);
    }
  }

  /** Every minimal quorum that such a policy accepts passes the derived rank rule and has
      coefficients. */
  lemma VaultQuorumsSolvable<T(!new)>(F: Field<T>, g: GroupedConfig, signers: seq<U16>)
    requires F.Laws() && F.LargeCharacteristic() && ConstructedGrouped(g) && VaultShape(g)
    requires GroupedResult(signers, g).Ok? && |signers| == 6
    ensures HierarchicalFromGrouped(g).Ok?
    ensures
      var points := SignerPoints(signers, HierarchicalFromGrouped(g).value);
      points.Ok? && InterpolationCoefficients(F, points.value).Ok?
  {
    GroupedArithmetic(g);
    var c := HierarchicalFromGrouped(g).value;
    GroupedResultMeaning(signers, g);
    VaultSums(g.requirements);
    CoveredImpliesRankRule(signers, g);
    SignerPointsMeaning(signers, c);
    QuorumPoints(g, c, signers);
    VaultPointsSolvable(F, SignerPoints(signers, c).value);
  }

  // ---------------------------------------------------------------- the vault's roster

  function VaultPolicy(): GroupedConfig {
    GroupedConfig(
      [RankedParticipant(1, 0), RankedParticipant(2, 0),
       RankedParticipant(3, 1), RankedParticipant(4, 1), RankedParticipant(5, 1),
       RankedParticipant(6, 2), RankedParticipant(7, 2), RankedParticipant(8, 2), RankedParticipant(9, 2),
       RankedParticipant(10, 2)],
      [Requirement(0, 1, 2), Requirement(1, 2, 3), Requirement(2, 3, 5)])
  }

  lemma {:induction false} CountConcat(s: seq<nat>, t: seq<nat>, x: nat)
    ensures CountEqual(s + t, x) == CountEqual(s, x) + CountEqual(t, x)
    decreases |t|
  {
    if |t| == 0 {
      assert s + t == s;
    } else {
      var k := |t| - 1;
      CountConcat(s, t[..k], x);
      assert (s + t)[..|s + t| - 1] == s + t[..k];
    }
  }

  lemma {:induction false} CountRun(s: seq<nat>, r: nat, x: nat)
    requires forall i :: 0 <= i < |s| ==> s[i] == r
    ensures CountEqual(s, x) == if x == r then |s| else 0
  {
    if |s| > 0 {
      CountRun(s[..|s| - 1], r, x);
    }
  }

  lemma VaultCounts(ranks: seq<nat>, x: nat)
    requires ranks == [0, 0, 1, 1, 1, 2, 2, 2, 2, 2]
    ensures CountEqual(ranks, x) == if x == 0 then 2 else if x == 1 then 3 else if x == 2 then 5 else 0
  {
    var zeros, ones, twos: seq<nat> := [0, 0], [1, 1, 1], [2, 2, 2, 2, 2];
    assert ranks == zeros + ones + twos;
    CountConcat(zeros + ones, twos, x);
    CountConcat(zeros, ones, x);
    CountRun(zeros, 0, x);
    CountRun(ones, 1, x);
    CountRun(twos, 2, x);
  }

  lemma VaultRoster()
    ensures
      var ps := VaultPolicy().participants;
      && Roster(ps) && RanksIn(ps) == [0, 0, 1, 1, 1, 2, 2, 2, 2, 2]
      && forall i :: 0 <= i < |ps| ==> ps[i].id == i + 1
  {
    var ps := VaultPolicy().participants;
    assert Ids(ps) == [1, 2, 3, 4, 5, 6, 7, 8, 9, 10];
  }

  lemma VaultRequirements(reqs: seq<Requirement>, ranks: seq<U16>)
    requires reqs == VaultPolicy().requirements && ranks == [0, 0, 1, 1, 1, 2, 2, 2, 2, 2]
    ensures CheckRequirements(reqs, ranks).Ok? && CheckCoverage(ranks, reqs).Ok?
  {
    VaultCounts(ranks, 0);
    VaultCounts(ranks, 1);
    VaultCounts(ranks, 2);
    assert reqs[0].rank == 0 && reqs[1].rank == 1 && reqs[2].rank == 2;
    assert Declared(reqs, 0) && Declared(reqs, 1) && Declared(reqs, 2);
  }

  /** The vault's policy is one of those above. */
  lemma VaultConstructed()
    ensures ConstructedGrouped(VaultPolicy()) && VaultShape(VaultPolicy())
  {
    var c := VaultPolicy();
    VaultRoster();
    assert FirstRepeat(Ids(c.participants)).None?;
    VaultRequirements(c.requirements, RanksIn(c.participants));
    VaultIds(c);
  }

  lemma VaultIds(c: GroupedConfig)
    requires c == VaultPolicy()
    ensures VaultShape(c)
  {
  }
}
