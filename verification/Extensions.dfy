/**
  Signer sets with one point more than a solvable set. One polynomial decides them: the one
  that the solvable part observes as zero. This gives exact conditions for two families that
  the rank rule accepts and that do not split into blocks of one order.
 */
module Extensions {
  import opened Lists
  import opened Fields
  import opened Vectors
  import opened Polynomials
  import opened Birkhoff
  import opened Blocks

  // ---------------------------------------------------------------- one point more

  /** The points are those of `rest` and q. */
  ghost predicate Extends(points: seq<BirkhoffPoint>, rest: seq<BirkhoffPoint>, q: BirkhoffPoint) {
    |points| == |rest| + 1 && forall p :: p in points <==> p in rest || p == q
  }

  ghost function Scaled<T(!new)>(F: Field<T>, c: T, f: seq<T>): (s: seq<T>)
    ensures |s| == |f| && forall i :: 0 <= i < |f| ==> s[i] == F.Mul(c, f[i])
  {
    seq(|f|, i requires 0 <= i < |f| => F.Mul(c, f[i]))
  }

  lemma SeenScale<T(!new)>(F: Field<T>, c: T, f: seq<T>, p: BirkhoffPoint)
    requires F.Laws()
    ensures Seen(F, Scaled(F, c, f), p) == F.Mul(c, Seen(F, f, p))
  {
    var x, s := F.Nat(p.x), Scaled(F, c, f);
    DotScale(F, c, f, s, BasisRow(F, |f|, p.order, x));
    ClosedForm(F, f, x, p.order);
    ClosedForm(F, s, x, p.order);
  }

  lemma ScaledByZero<T(!new)>(F: Field<T>, f: seq<T>)
    requires F.Laws()
    ensures Scaled(F, F.zero, f) == Zeros(F, |f|)
  {
    forall i | 0 <= i < |f|
      ensures F.Mul(F.zero, f[i]) == F.zero
    {
      F.MulZero(f[i]);
    }
  }

  /** f - (f_n / g_n) g has a zero coefficient at n. */
  lemma TopCancels<T(!new)>(F: Field<T>, f: T, g: T)
    requires F.Laws() && g != F.zero
    ensures F.Add(f, F.Mul(F.Neg(F.Mul(f, F.Inv(g))), g)) == F.zero
  {
    var c := F.Mul(f, F.Inv(g));
    F.MulAssoc(f, F.Inv(g), g);
    F.MulInv(g);
    F.MulOne(f);
    F.NegMul(c, g);
    F.AddNeg(f);
  }

  lemma DifferenceVanishes<T(!new)>(F: Field<T>, rest: seq<BirkhoffPoint>, f: seq<T>, c: T, g: seq<T>)
    requires F.Laws() && |f| == |g| && Vanishes(F, rest, f) && Vanishes(F, rest, g)
    ensures Vanishes(F, rest, Sum(F, f, Scaled(F, c, g)))
  {
    forall p | p in rest
      ensures Seen(F, Sum(F, f, Scaled(F, c, g)), p) == F.zero
    {
      SeenAdd(F, f, Scaled(F, c, g), Sum(F, f, Scaled(F, c, g)), p);
      SeenScale(F, c, g, p);
      F.MulZero(c);
      F.AddZero(F.zero);
    }
  }

  /** A sum that is zero entry by entry makes the terms opposite. */
  lemma OppositeTerms<T(!new)>(F: Field<T>, f: seq<T>, c: T, g: seq<T>)
    requires F.Laws() && |f| == |g| && Sum(F, f, Scaled(F, F.Neg(c), g)) == Zeros(F, |f|)
    ensures f == Scaled(F, c, g)
  {
    var s := Sum(F, f, Scaled(F, F.Neg(c), g));
    forall i | 0 <= i < |f|
      ensures f[i] == F.Mul(c, g[i])
    {
      assert s[i] == F.Add(f[i], F.Mul(F.Neg(c), g[i])) == F.zero;
      F.NegMul(c, g[i]);
      F.AddNeg(F.Mul(c, g[i]));
      F.AddCancel(f[i], F.Mul(c, g[i]), F.Neg(F.Mul(c, g[i])));
    }
  }

  /** All polynomials of one degree more that vanish on a solvable set are multiples of one. */
  lemma OnlyMultiples<T(!new)>(F: Field<T>, rest: seq<BirkhoffPoint>, f: seq<T>, g: seq<T>) returns (c: T)
    requires F.Laws() && NoKernel(F, rest) && |f| == |g| == |rest| + 1 && g[|rest|] != F.zero
    requires Vanishes(F, rest, f) && Vanishes(F, rest, g)
    ensures f == Scaled(F, c, g)
  {
    var n := |rest|;
    c := F.Mul(f[n], F.Inv(g[n]));
    var s := Sum(F, f, Scaled(F, F.Neg(c), g));
    assert s[n] == F.zero by {
      TopCancels(F, f[n], g[n]);
    }
    var low := s[..n];
    assert s == low + Zeros(F, 1);
    assert low == Zeros(F, n) by {
      DifferenceVanishes(F, rest, f, F.Neg(c), g);
      assert Vanishes(F, rest, low) by {
        forall p | p in rest
          ensures Seen(F, low, p) == F.zero
        {
          SeenPad(F, low, 1, p);
        }
      }
    }
    OppositeTerms(F, f, c, g);
  }

  /** Exact extension: with g vanishing on the solvable part, the whole set is solvable if and
      only if the new point does not observe g as zero. */
  lemma OneMore<T(!new)>(
    F: Field<T>, points: seq<BirkhoffPoint>, rest: seq<BirkhoffPoint>, q: BirkhoffPoint, g: seq<T>)
    requires F.Laws() && Extends(points, rest, q) && NoKernel(F, rest)
    requires |g| == |points| && g[|rest|] != F.zero && Vanishes(F, rest, g)
    ensures NoKernel(F, points) <==> Seen(F, g, q) != F.zero
  {
    if Seen(F, g, q) == F.zero {
      assert Vanishes(F, points, g);
      assert g != Zeros(F, |points|);
    } else {
      forall f: seq<T> {:trigger Vanishes(F, points, f)} | |f| == |points| && Vanishes(F, points, f)
        ensures f == Zeros(F, |points|)
      {
        OneMoreKernel(F, points, rest, q, g, f);
      }
    }
  }

  lemma OneMoreKernel<T(!new)>(
    F: Field<T>, points: seq<BirkhoffPoint>, rest: seq<BirkhoffPoint>, q: BirkhoffPoint, g: seq<T>, f: seq<T>)
    requires F.Laws() && Extends(points, rest, q) && NoKernel(F, rest)
    requires |g| == |points| && g[|rest|] != F.zero && Vanishes(F, rest, g) && Seen(F, g, q) != F.zero
    requires |f| == |points| && Vanishes(F, points, f)
    ensures f == Zeros(F, |points|)
  {
    assert Vanishes(F, rest, f) && Seen(F, f, q) == F.zero;
    var c := OnlyMultiples(F, rest, f, g);
    assert F.Mul(c, Seen(F, g, q)) == F.zero by {
      SeenScale(F, c, g, q);
    }
    if c != F.zero {
      F.NoZeroDivisors(c, Seen(F, g, q));
    }
    ScaledByZero(F, g);
  }

  // ---------------------------------------------------------------- root polynomials

  lemma {:induction false} MulLinearTop<T(!new)>(F: Field<T>, p: seq<T>, a: T)
    requires F.Laws() && |p| > 0
    ensures MulLinear(F, p, a)[|p|] == p[|p| - 1]
  {
    if |p| > 1 {
      MulLinearTop(F, p[1..], a);
    } else {
      assert MulLinear(F, p[1..], a) == [F.zero];
      F.AddZero(p[0]);
    }
  }

  /** The root polynomial is monic. */
  lemma {:induction false} RootPolyTop<T(!new)>(F: Field<T>, roots: seq<T>)
    requires F.Laws()
    ensures RootPoly(F, roots)[|roots|] == F.one
  {
    if |roots| > 0 {
      var k := |roots| - 1;
      RootPolyTop(F, roots[..k]);
      MulLinearTop(F, RootPoly(F, roots[..k]), roots[k]);
    }
  }

  lemma RootPolyRoot<T(!new)>(F: Field<T>, points: seq<BirkhoffPoint>, p: BirkhoffPoint)
    requires F.Laws() && p in points
    ensures Eval(F, RootPoly(F, Nodes(F, points)), F.Nat(p.x)) == F.zero
  {
    var nodes := Nodes(F, points);
    var i :| 0 <= i < |points| && points[i] == p;
    assert nodes[i] == F.Nat(p.x);
    EvalRootPoly(F, nodes, F.Nat(p.x));
    ProductZero(F, F.Nat(p.x), nodes);
  }

  lemma LagrangeNoKernel<T(!new)>(F: Field<T>, points: seq<BirkhoffPoint>)
    requires F.Laws() && F.LargeCharacteristic() && LagrangePoints(points)
    ensures NoKernel(F, points)
  {
    if |points| > 0 {
      LagrangeUnisolvent(F, points);
      SolvableIffUnisolvent(F, points);
      NoKernelIsUnisolvent(F, points);
    }
  }

  lemma SolvableIsNoKernel<T(!new)>(F: Field<T>, points: seq<BirkhoffPoint>)
    requires F.Laws() && |points| > 0
    ensures InterpolationCoefficients(F, points).Ok? <==> NoKernel(F, points)
  {
    SolvableIffUnisolvent(F, points);
    NoKernelIsUnisolvent(F, points);
  }

  // ---------------------------------------------------------------- values and one derivative

  /** Values at all points but one, and one derivative of any order: solvable if and only if
      that derivative of the values' root polynomial is not zero there. For one slope among
      three points this is the midpoint condition. */
  lemma ValuesAndOneExact<T(!new)>(F: Field<T>, points: seq<BirkhoffPoint>, q: BirkhoffPoint)
    requires F.Laws() && F.LargeCharacteristic() && Nodes16(points)
    requires CountBelow(Orders(points), 1) + 1 == |points| && q in points && q.order >= 1
    ensures InterpolationCoefficients(F, points).Ok? <==>
      DerivativeValue(F, RootPoly(F, Nodes(F, Low(points, 1))), F.Nat(q.x), q.order) != F.zero
  {
    var values := Low(points, 1);
    var g := RootPoly(F, Nodes(F, values));
    OneRest(points, q);
    LowNodes(points, 1);
    assert LagrangePoints(values) by {
      assert forall i :: 0 <= i < |values| ==> values[i] in values;
    }
    LagrangeNoKernel(F, values);
    RootPolyTop(F, Nodes(F, values));
    RootsVanish(F, values);
    OneMore(F, points, values, q, g);
    ClosedForm(F, g, F.Nat(q.x), q.order);
    SolvableIsNoKernel(F, points);
  }

  lemma RootsVanish<T(!new)>(F: Field<T>, values: seq<BirkhoffPoint>)
    requires F.Laws() && forall p :: p in values ==> p.order == 0
    ensures Vanishes(F, values, RootPoly(F, Nodes(F, values)))
  {
    forall p | p in values
      ensures Seen(F, RootPoly(F, Nodes(F, values)), p) == F.zero
    {
      RootPolyRoot(F, values, p);
    }
  }

  /** Every point is in one of the two parts. */
  ghost predicate Parts(points: seq<BirkhoffPoint>, low: seq<BirkhoffPoint>, rest: seq<BirkhoffPoint>) {
    |points| == |low| + |rest| && forall p :: p in points <==> p in low || p in rest
  }

  lemma LowAndRest(points: seq<BirkhoffPoint>, b: nat)
    ensures Parts(points, Low(points, b), Rest(points, b))
  {
  }

  lemma OnlyMember(s: seq<BirkhoffPoint>, q: BirkhoffPoint)
    requires |s| == 1 && q in s
    ensures forall p :: p in s <==> p == q
  {
  }

  lemma OnlyMembers(s: seq<BirkhoffPoint>, a: BirkhoffPoint, b: BirkhoffPoint)
    requires |s| == 2 && a in s && b in s && a != b
    ensures forall p :: p in s <==> p == a || p == b
  {
  }

  lemma OneRest(points: seq<BirkhoffPoint>, q: BirkhoffPoint)
    requires CountBelow(Orders(points), 1) + 1 == |points| && q in points && q.order >= 1
    ensures Extends(points, Low(points, 1), q)
  {
    LowAndRest(points, 1);
    OnlyMember(Rest(points, 1), q);
  }

  // ---------------------------------------------------------------- two values and slopes

  lemma {:induction false} NoneBelow(s: seq<BirkhoffPoint>, b: nat)
    requires forall p :: p in s ==> p.order >= b
    ensures CountBelow(Orders(s), b) == 0
  {
    if |s| > 0 {
      var k := |s| - 1;
      assert s == s[..k] + [s[k]] && s[k] in s;
      NoneBelow(s[..k], b);
      CountAppend(s[..k], s[k], b);
    }
  }

  /** Points with the same id are the same point. */
  lemma SameNode(points: seq<BirkhoffPoint>, p: BirkhoffPoint, q: BirkhoffPoint)
    requires Nodes16(points) && p in points && q in points && p.x == q.x
    ensures p == q
  {
    var i :| 0 <= i < |points| && points[i] == p;
    var j :| 0 <= j < |points| && points[j] == q;
  }

  /** One value and any number of slopes are tight. */
  lemma ValueAndSlopes<T(!new)>(F: Field<T>, slopes: seq<BirkhoffPoint>, v: BirkhoffPoint)
    requires F.Laws() && F.LargeCharacteristic() && |slopes| < 65535 && Nodes16(slopes + [v])
    requires v.order == 0 && forall p :: p in slopes ==> p.order == 1
    ensures NoKernel(F, slopes + [v])
  {
    var all := slopes + [v];
    NoneBelow(slopes, 0);
    NoneBelow(slopes, 1);
    CountAppend(slopes, v, 0);
    CountAppend(slopes, v, 1);
    assert Tight(all);
    TightUnisolvent(F, all);
    NoKernelIsUnisolvent(F, all);
  }

  /** The same polynomial with another constant term, so that it is zero at x. */
  ghost function Grounded<T(!new)>(F: Field<T>, g: seq<T>, x: T): (s: seq<T>)
    requires |g| > 0
    ensures |s| == |g| && forall i :: 1 <= i < |g| ==> s[i] == g[i]
  {
    g[0 := F.Sub(g[0], Eval(F, g, x))]
  }

  lemma GroundedEval<T(!new)>(F: Field<T>, g: seq<T>, x: T, y: T)
    requires F.Laws() && |g| > 0
    ensures Eval(F, Grounded(F, g, x), y) == F.Sub(Eval(F, g, y), Eval(F, g, x))
    ensures Derivative(F, Grounded(F, g, x)) == Derivative(F, g)
  {
    var s, d := Grounded(F, g, x), F.Neg(Eval(F, g, x));
    var tail := F.Mul(y, Eval(F, g[1..], y));
    assert s[1..] == g[1..];
    F.AddAssoc(g[0], d, tail);
    F.AddComm(d, tail);
    F.AddAssoc(g[0], tail, d);
  }

  lemma SeenLow<T(!new)>(F: Field<T>, f: seq<T>, p: BirkhoffPoint)
    ensures p.order == 0 ==> Seen(F, f, p) == Eval(F, f, F.Nat(p.x))
    ensures p.order == 1 ==> Seen(F, f, p) == Eval(F, Derivative(F, f), F.Nat(p.x))
  {
    assert DerivativeN(F, f, 1) == DerivativeN(F, Derivative(F, f), 0);
  }

  lemma GroundedVanishes<T(!new)>(F: Field<T>, slopes: seq<BirkhoffPoint>, v: BirkhoffPoint, g: seq<T>)
    requires F.Laws() && |g| > 0 && v.order == 0 && forall p :: p in slopes ==> p.order == 1
    requires forall p :: p in slopes ==> Eval(F, Derivative(F, g), F.Nat(p.x)) == F.zero
    ensures Vanishes(F, slopes + [v], Grounded(F, g, F.Nat(v.x)))
  {
    var s := Grounded(F, g, F.Nat(v.x));
    forall p | p in slopes + [v]
      ensures Seen(F, s, p) == F.zero
    {
      SeenLow(F, s, p);
      GroundedEval(F, g, F.Nat(v.x), F.Nat(p.x));
      if p.order == 0 {
        assert p == v;
        F.AddNeg(Eval(F, g, F.Nat(v.x)));
      }
    }
  }

  /** Two values a, b and slopes at all other points. */
  ghost predicate TwoValues(points: seq<BirkhoffPoint>, a: BirkhoffPoint, b: BirkhoffPoint) {
    && Nodes16(points) && |points| <= 65535 && CountBelow(Orders(points), 1) == 2
    && a in points && b in points && a != b && a.order == b.order == 0
    && forall p :: p in points ==> p.order <= 1
  }

  lemma TwoValuesParts(points: seq<BirkhoffPoint>, a: BirkhoffPoint, b: BirkhoffPoint)
    requires TwoValues(points, a, b)
    ensures
      var slopes := Rest(points, 1);
      && |slopes| + 2 == |points| && Extends(points, slopes + [b], a) && Nodes16(slopes + [b])
      && forall p :: p in slopes ==> p.order == 1
  {
    LowAndRest(points, 1);
    OnlyMembers(Low(points, 1), a, b);
    ExtendsParts(points, Low(points, 1), Rest(points, 1), a, b);
    RestNodes(points, 1);
    NewNode(points, Rest(points, 1), b);
  }

  lemma ExtendsParts(
    points: seq<BirkhoffPoint>, low: seq<BirkhoffPoint>, rest: seq<BirkhoffPoint>, a: BirkhoffPoint, b: BirkhoffPoint)
    requires Parts(points, low, rest) && |low| == 2 && forall p :: p in low <==> p == a || p == b
    ensures Extends(points, rest + [b], a)
  {
  }

  lemma NewNode(points: seq<BirkhoffPoint>, rest: seq<BirkhoffPoint>, b: BirkhoffPoint)
    requires Nodes16(points) && Nodes16(rest) && b in points
    requires forall p :: p in rest ==> p in points && p.order != b.order
    ensures Nodes16(rest + [b])
  {
    forall p | p in rest
      ensures p.x != b.x
    {
      if p.x == b.x {
        SameNode(points, p, b);
      }
    }
    var i :| 0 <= i < |points| && points[i] == b;
    NodesAppend(rest, b);
  }

  /** Two values and slopes: with g' zero at the slopes, the set is solvable if and only if g
      takes different values at the two. */
  lemma TwoValuesExact<T(!new)>(
    F: Field<T>, points: seq<BirkhoffPoint>, a: BirkhoffPoint, b: BirkhoffPoint, g: seq<T>)
    requires F.Laws() && F.LargeCharacteristic() && TwoValues(points, a, b)
    requires |g| == |points| && g[|points| - 1] != F.zero
    requires forall p :: p in points && p.order == 1 ==> Eval(F, Derivative(F, g), F.Nat(p.x)) == F.zero
    ensures InterpolationCoefficients(F, points).Ok? <==> Eval(F, g, F.Nat(a.x)) != Eval(F, g, F.Nat(b.x))
  {
    var slopes, s := Rest(points, 1), Grounded(F, g, F.Nat(b.x));
    TwoValuesParts(points, a, b);
    ValueAndSlopes(F, slopes, b);
    GroundedVanishes(F, slopes, b, g);
    OneMore(F, points, slopes + [b], a, s);
    SeenLow(F, s, a);
    GroundedEval(F, g, F.Nat(b.x), F.Nat(a.x));
    SubZero(F, Eval(F, g, F.Nat(a.x)), Eval(F, g, F.Nat(b.x)));
    SolvableIsNoKernel(F, points);
  }

  lemma SubZero<T(!new)>(F: Field<T>, u: T, v: T)
    requires F.Laws()
    ensures F.Sub(u, v) == F.zero <==> u == v
  {
    F.AddNeg(v);
    if F.Sub(u, v) == F.zero {
      F.AddCancel(u, v, F.Neg(v));
    }
  }

  /** In closed form: the integral of the slopes' root polynomial differs at the two values. */
  lemma TwoValuesIntegral<T(!new)>(F: Field<T>, points: seq<BirkhoffPoint>, a: BirkhoffPoint, b: BirkhoffPoint)
    requires F.Laws() && F.LargeCharacteristic() && TwoValues(points, a, b)
    ensures
      var g := Integral(F, RootPoly(F, Nodes(F, Rest(points, 1))));
      InterpolationCoefficients(F, points).Ok? <==> Eval(F, g, F.Nat(a.x)) != Eval(F, g, F.Nat(b.x))
  {
    var slopes := Rest(points, 1);
    var h := RootPoly(F, Nodes(F, slopes));
    TwoValuesParts(points, a, b);
    IntegralTop(F, h);
    RootPolyTop(F, Nodes(F, slopes));
    DerivativeOfIntegral(F, h);
    forall p | p in points && p.order == 1
      ensures Eval(F, h, F.Nat(p.x)) == F.zero
    {
      RootPolyRoot(F, slopes, p);
    }
    TwoValuesExact(F, points, a, b, Integral(F, h));
  }

  lemma IntegralTop<T(!new)>(F: Field<T>, h: seq<T>)
    requires F.Laws() && F.LargeCharacteristic() && 0 < |h| <= 65535
    ensures Integral(F, h)[|h|] == F.zero <==> h[|h| - 1] == F.zero
  {
    var n := F.Nat(|h|);
    F.InvNonZero(n);
    F.MulZero(F.Inv(n));
    if h[|h| - 1] != F.zero {
      F.NoZeroDivisors(F.Inv(n), h[|h| - 1]);
    }
  }

  // ---------------------------------------------------------------- one, two, and the rest

  lemma CountLast(points: seq<BirkhoffPoint>, r: nat)
    requires |points| > 0
    ensures
      var l := |points| - 1;
      CountBelow(Orders(points), r) == CountBelow(Orders(points[..l]), r) + (if points[l].order < r then 1 else 0)
  {
    var l := |points| - 1;
    assert points == points[..l] + [points[l]];
    CountAppend(points[..l], points[l], r);
  }

  lemma RestLast(points: seq<BirkhoffPoint>, b: nat)
    requires |points| > 0
    ensures
      var l := |points| - 1;
      Rest(points, b) == if points[l].order < b then Rest(points[..l], b) else Rest(points[..l], b) + [points[l]]
  {
  }

  ghost function Count(points: seq<BirkhoffPoint>, r: nat): nat { CountBelow(Orders(points), r) }

  lemma RestCountStep(points: seq<BirkhoffPoint>, b: nat, r: nat)
    requires |points| > 0
    ensures
      var l := |points| - 1;
      Count(Rest(points, b), r) == Count(Rest(points[..l], b), r) + (if b <= points[l].order < r then 1 else 0)
  {
    var l := |points| - 1;
    RestLast(points, b);
    CountAppend(Rest(points[..l], b), points[l], r);
  }

  lemma {:induction false} RestCounts(points: seq<BirkhoffPoint>, b: nat, r: nat)
    requires r >= b
    ensures Count(Rest(points, b), r) + Count(points, b) == Count(points, r)
  {
    if |points| > 0 {
      var l := |points| - 1;
      var rest, before := Rest(points[..l], b), points[..l];
      assert Count(rest, r) + Count(before, b) == Count(before, r) by {
        RestCounts(before, b, r);
      }
      assert Count(points, r) == Count(before, r) + (if points[l].order < r then 1 else 0) by {
        CountLast(points, r);
      }
      assert Count(points, b) == Count(before, b) + (if points[l].order < b then 1 else 0) by {
        CountLast(points, b);
      }
      RestCountStep(points, b, r);
    }
  }

  lemma {:induction false} LoweredCounts(s: seq<BirkhoffPoint>, t: seq<BirkhoffPoint>, b: nat, r: nat)
    requires |s| == |t| && forall i :: 0 <= i < |s| ==> s[i].order == t[i].order + b
    ensures CountBelow(Orders(t), r) == CountBelow(Orders(s), b + r)
  {
    if |s| > 0 {
      var k := |s| - 1;
      assert s == s[..k] + [s[k]] && t == t[..k] + [t[k]];
      LoweredCounts(s[..k], t[..k], b, r);
      CountAppend(s[..k], s[k], b + r);
      CountAppend(t[..k], t[k], r);
    }
  }

  lemma HighShape(points: seq<BirkhoffPoint>, b: nat)
    requires Nodes16(points)
    ensures Nodes16(High(points, b))
    ensures forall i :: 0 <= i < |High(points, b)| ==>
      Rest(points, b)[i] in points && Rest(points, b)[i].order >= b
      && High(points, b)[i] == Lowered(Rest(points, b)[i], b)
  {
    var rest, high := Rest(points, b), High(points, b);
    RestNodes(points, b);
    forall i | 0 <= i < |high|
      ensures rest[i] in points && rest[i].order >= b && high[i] == Lowered(rest[i], b)
    {
      assert rest[i] in rest;
    }
  }

  lemma LoweredMember(points: seq<BirkhoffPoint>, b: nat, p: BirkhoffPoint)
    requires p in points && p.order >= b
    ensures Lowered(p, b) in High(points, b)
  {
    var rest := Rest(points, b);
    var i :| 0 <= i < |rest| && rest[i] == p;
    assert High(points, b)[i] == Lowered(p, b);
  }

  /** One signer of rank 0, two of rank 1 and any number of rank 2. */
  ghost predicate OneTwoRest(points: seq<BirkhoffPoint>, a: BirkhoffPoint, b: BirkhoffPoint) {
    && Nodes16(points) && |points| <= 65535
    && CountBelow(Orders(points), 1) == 1 && CountBelow(Orders(points), 2) == 3
    && a in points && b in points && a != b && a.order == b.order == 1
    && forall p :: p in points ==> p.order <= 2
  }

  lemma OneTwoRestHigh(points: seq<BirkhoffPoint>, a: BirkhoffPoint, b: BirkhoffPoint)
    requires OneTwoRest(points, a, b)
    ensures TwoValues(High(points, 1), Lowered(a, 1), Lowered(b, 1)) && |High(points, 1)| + 1 == |points|
    ensures forall p :: p in High(points, 1) && p.order == 1 ==> p.(order := 2) in points
  {
    HighShape(points, 1);
    RestCounts(points, 1, 2);
    LoweredCounts(Rest(points, 1), High(points, 1), 1, 1);
    HighOrders(points, Rest(points, 1), High(points, 1));
    LoweredMember(points, 1, a);
    LoweredMember(points, 1, b);
    if Lowered(a, 1) == Lowered(b, 1) {
      SameNode(points, a, b);
    }
  }

  lemma HighOrders(points: seq<BirkhoffPoint>, rest: seq<BirkhoffPoint>, high: seq<BirkhoffPoint>)
    requires |rest| == |high| && forall p :: p in points ==> p.order <= 2
    requires forall i :: 0 <= i < |high| ==> rest[i] in points && rest[i].order >= 1 && high[i] == Lowered(rest[i], 1)
    ensures forall p :: p in high ==> p.order <= 1
    ensures forall p :: p in high && p.order == 1 ==> p.(order := 2) in points
  {
    forall p | p in high
      ensures p.order <= 1 && (p.order == 1 ==> p.(order := 2) in points)
    {
      var i :| 0 <= i < |high| && high[i] == p;
      assert p.order == 1 ==> p.(order := 2) == rest[i];
    }
  }

  lemma LowOne<T(!new)>(F: Field<T>, points: seq<BirkhoffPoint>)
    requires F.Laws() && F.LargeCharacteristic() && Nodes16(points) && CountBelow(Orders(points), 1) == 1
    ensures Unisolvent(F, Low(points, 1))
  {
    var low := Low(points, 1);
    LowNodes(points, 1);
    assert forall i :: 0 <= i < |low| ==> low[i] in low;
    LagrangeNoKernel(F, low);
    NoKernelIsUnisolvent(F, low);
  }

  /** Exact: with g' zero at the rank-2 ids, these signers are solvable if and only if g takes
      different values at the two rank-1 ids. */
  lemma OneTwoRestExact<T(!new)>(
    F: Field<T>, points: seq<BirkhoffPoint>, a: BirkhoffPoint, b: BirkhoffPoint, g: seq<T>)
    requires F.Laws() && F.LargeCharacteristic() && OneTwoRest(points, a, b)
    requires |g| + 1 == |points| && g[|g| - 1] != F.zero
    requires forall p :: p in points && p.order == 2 ==> Eval(F, Derivative(F, g), F.Nat(p.x)) == F.zero
    ensures InterpolationCoefficients(F, points).Ok? <==> Eval(F, g, F.Nat(a.x)) != Eval(F, g, F.Nat(b.x))
  {
    var high := High(points, 1);
    OneTwoRestHigh(points, a, b);
    forall p | p in high && p.order == 1
      ensures Eval(F, Derivative(F, g), F.Nat(p.x)) == F.zero
    {
      assert p.(order := 2) in points;
    }
    TwoValuesExact(F, high, Lowered(a, 1), Lowered(b, 1), g);
    LowOne(F, points);
    Decomposition(F, points, 1);
    SolvableIffUnisolvent(F, points);
    SolvableIffUnisolvent(F, high);
  }
}
