/**
  Which signer sets are solvable beyond the necessary rank rule. A set in which exactly
  b points have order below b splits at b into two independent blocks; a set whose
  blocks are all of one order is always solvable.
 */
module Blocks {
  import opened Lists
  import opened Fields
  import opened Vectors
  import opened GaussJordan
  import opened Polynomials
  import opened Birkhoff

  // ---------------------------------------------------------------- the two blocks

  function Lowered(p: BirkhoffPoint, b: nat): BirkhoffPoint
    requires p.order >= b
  {
    p.(order := p.order - b)
  }

  /** The points of order below b. */
  function Low(points: seq<BirkhoffPoint>, b: nat): (s: seq<BirkhoffPoint>)
    ensures |s| == CountBelow(Orders(points), b)
    ensures forall p :: p in s <==> p in points && p.order < b
  {
    if |points| == 0 then []
    else
      var l := |points| - 1;
      assert points == points[..l] + [points[l]] && Orders(points)[..l] == Orders(points[..l]);
      Low(points[..l], b) + (if points[l].order < b then [points[l]] else [])
  }

  /** The points of order at least b. */
  function Rest(points: seq<BirkhoffPoint>, b: nat): (s: seq<BirkhoffPoint>)
    ensures |s| == |points| - CountBelow(Orders(points), b)
    ensures forall p :: p in s <==> p in points && p.order >= b
  {
    if |points| == 0 then []
    else
      var l := |points| - 1;
      assert points == points[..l] + [points[l]] && Orders(points)[..l] == Orders(points[..l]);
      Rest(points[..l], b) + (if points[l].order < b then [] else [points[l]])
  }

  /** The same points, with their orders lowered by b. */
  function High(points: seq<BirkhoffPoint>, b: nat): (s: seq<BirkhoffPoint>)
    ensures |s| == |points| - CountBelow(Orders(points), b)
  {
    var rest := Rest(points, b);
    assert forall i :: 0 <= i < |rest| ==> rest[i] in rest;
    seq(|rest|, i requires 0 <= i < |rest| => Lowered(rest[i], b))
  }

  /** What p observes of f: the value at x of the derivative of that order. */
  ghost function Seen<T(!new)>(F: Field<T>, f: seq<T>, p: BirkhoffPoint): T {
    Eval(F, DerivativeN(F, f, p.order), F.Nat(p.x))
  }

  /** f is observed as zero at every point. */
  ghost predicate Vanishes<T(!new)>(F: Field<T>, points: seq<BirkhoffPoint>, f: seq<T>) {
    forall p :: p in points ==> Seen(F, f, p) == F.zero
  }

  lemma SeenIsObserved<T(!new)>(F: Field<T>, points: seq<BirkhoffPoint>, f: seq<T>, i: nat)
    requires F.Laws() && i < |points|
    ensures Observations(F, points, f)[i] == Seen(F, f, points[i])
  {
    ClosedForm(F, f, F.Nat(points[i].x), points[i].order);
  }

  lemma VanishesIsObserved<T(!new)>(F: Field<T>, points: seq<BirkhoffPoint>, f: seq<T>)
    requires F.Laws()
    ensures Vanishes(F, points, f) <==> Observations(F, points, f) == Zeros(F, |points|)
  {
    forall i | 0 <= i < |points|
      ensures Observations(F, points, f)[i] == Seen(F, f, points[i])
    {
      SeenIsObserved(F, points, f, i);
    }
  }

  /** h vanishes on the high block when every point of order at least b, lowered, observes zero. */
  lemma VanishesOnHigh<T(!new)>(F: Field<T>, points: seq<BirkhoffPoint>, b: nat, h: seq<T>)
    ensures Vanishes(F, High(points, b), h) <==>
      forall p :: p in points && p.order >= b ==> Seen(F, h, Lowered(p, b)) == F.zero
  {
    var rest, high := Rest(points, b), High(points, b);
    assert forall i :: 0 <= i < |rest| ==> rest[i] in rest && high[i] == Lowered(rest[i], b);
    if Vanishes(F, high, h) {
      forall p | p in points && p.order >= b
        ensures Seen(F, h, Lowered(p, b)) == F.zero
      {
        var i :| 0 <= i < |rest| && rest[i] == p;
        assert high[i] in high;
      }
    }
  }

  ghost predicate NoKernel<T(!new)>(F: Field<T>, points: seq<BirkhoffPoint>) {
    forall f: seq<T> {:trigger Vanishes(F, points, f)} ::
      |f| == |points| && Vanishes(F, points, f) ==> f == Zeros(F, |points|)
  }

  lemma NoKernelIsUnisolvent<T(!new)>(F: Field<T>, points: seq<BirkhoffPoint>)
    requires F.Laws()
    ensures NoKernel(F, points) <==> Unisolvent(F, points)
  {
    forall f: seq<T>
      ensures Vanishes(F, points, f) <==> Observations(F, points, f) == Zeros(F, |points|)
    {
      VanishesIsObserved(F, points, f);
    }
  }

  // ---------------------------------------------------------------- derivatives of f

  lemma {:induction false} DerivativeNLength<T(!new)>(F: Field<T>, f: seq<T>, b: nat)
    requires b <= |f|
    ensures |DerivativeN(F, f, b)| == |f| - b
    decreases b
  {
    if b > 0 {
      DerivativeNLength(F, Derivative(F, f), b - 1);
    }
  }

  lemma {:induction false} DerivativeNSplit<T(!new)>(F: Field<T>, f: seq<T>, b: nat, r: nat, n: nat)
    requires n == b + r
    ensures DerivativeN(F, f, n) == DerivativeN(F, DerivativeN(F, f, b), r)
    decreases b
  {
    if b > 0 {
      DerivativeNSplit(F, Derivative(F, f), b - 1, r, n - 1);
    }
  }

  lemma SeenAt<T(!new)>(F: Field<T>, f: seq<T>, p: BirkhoffPoint)
    ensures Seen(F, f, p) == Eval(F, DerivativeN(F, f, p.order), F.Nat(p.x))
  {
  }

  /** Orders from b on look at the b-th derivative only. */
  lemma SeenShift<T(!new)>(F: Field<T>, f: seq<T>, p: BirkhoffPoint, b: nat)
    requires p.order >= b
    ensures Seen(F, f, p) == Seen(F, DerivativeN(F, f, b), Lowered(p, b))
  {
    DerivativeNSplit(F, f, b, p.order - b, p.order);
    SeenAt(F, f, p);
    SeenAt(F, DerivativeN(F, f, b), Lowered(p, b));
  }

  lemma SeenPad<T(!new)>(F: Field<T>, g: seq<T>, n: nat, p: BirkhoffPoint)
    requires F.Laws()
    ensures Seen(F, g + Zeros(F, n), p) == Seen(F, g, p)
  {
    PadValue(F, g, n, F.Nat(p.x), p.order);
    ClosedForm(F, g, F.Nat(p.x), p.order);
    ClosedForm(F, g + Zeros(F, n), F.Nat(p.x), p.order);
  }

  lemma SeenAdd<T(!new)>(F: Field<T>, f: seq<T>, g: seq<T>, s: seq<T>, p: BirkhoffPoint)
    requires F.Laws() && |f| == |g| == |s| && forall i :: 0 <= i < |s| ==> s[i] == F.Add(f[i], g[i])
    ensures Seen(F, s, p) == F.Add(Seen(F, f, p), Seen(F, g, p))
  {
    ValueAdd(F, f, g, s, F.Nat(p.x), p.order);
    ClosedForm(F, f, F.Nat(p.x), p.order);
    ClosedForm(F, g, F.Nat(p.x), p.order);
    ClosedForm(F, s, F.Nat(p.x), p.order);
  }

  ghost predicate TailZero<T(!new)>(F: Field<T>, f: seq<T>, b: nat) {
    forall i :: b <= i < |f| ==> f[i] == F.zero
  }

  lemma DerivativeTail<T(!new)>(F: Field<T>, f: seq<T>, b: nat)
    requires F.Laws() && F.LargeCharacteristic() && 0 < b <= |f| <= 65535
    ensures TailZero(F, Derivative(F, f), b - 1) <==> TailZero(F, f, b)
  {
    var d := Derivative(F, f);
    forall k | 0 <= k < |d|
      ensures d[k] == F.zero <==> f[k + 1] == F.zero
    {
      F.MulZero(F.Nat(k + 1));
      if f[k + 1] != F.zero {
        F.NoZeroDivisors(F.Nat(k + 1), f[k + 1]);
      }
    }
    if TailZero(F, d, b - 1) {
      forall i | b <= i < |f|
        ensures f[i] == F.zero
      {
        assert d[i - 1] == F.zero;
      }
    }
  }

  /** The b-th derivative is zero exactly when all coefficients from b on are. */
  lemma {:induction false} DerivativeNZero<T(!new)>(F: Field<T>, f: seq<T>, b: nat)
    requires F.Laws() && F.LargeCharacteristic() && b <= |f| <= 65535
    ensures DerivativeN(F, f, b) == Zeros(F, |f| - b) <==> TailZero(F, f, b)
    decreases b
  {
    if b == 0 {
      assert TailZero(F, f, 0) <==> f == Zeros(F, |f|);
    } else {
      DerivativeTail(F, f, b);
      DerivativeNZero(F, Derivative(F, f), b - 1);
    }
  }

  /** A polynomial whose derivative is h. */
  function Integral<T(!new)>(F: Field<T>, h: seq<T>): (f: seq<T>)
    ensures |f| == |h| + 1
  {
    [F.zero] + seq(|h|, k requires 0 <= k < |h| => F.Mul(F.Inv(F.Nat(k + 1)), h[k]))
  }

  lemma DerivativeOfIntegral<T(!new)>(F: Field<T>, h: seq<T>)
    requires F.Laws() && F.LargeCharacteristic() && |h| <= 65535
    ensures Derivative(F, Integral(F, h)) == h
  {
    var d := Derivative(F, Integral(F, h));
    forall k | 0 <= k < |h|
      ensures d[k] == h[k]
    {
      var n := F.Nat(k + 1);
      F.MulAssoc(n, F.Inv(n), h[k]);
      F.MulInv(n);
      F.MulComm(F.one, h[k]);
      F.MulOne(h[k]);
    }
  }

  /** Every polynomial is the b-th derivative of another one. */
  lemma {:induction false} Integrate<T(!new)>(F: Field<T>, h: seq<T>, b: nat) returns (f: seq<T>)
    requires F.Laws() && F.LargeCharacteristic() && |h| + b <= 65535
    ensures |f| == |h| + b && DerivativeN(F, f, b) == h
    decreases b
  {
    if b == 0 {
      f := h;
    } else {
      var g := Integrate(F, h, b - 1);
      f := Integral(F, g);
      DerivativeOfIntegral(F, g);
    }
  }

  /** An order beyond the degree observes zero. */
  lemma SeenBeyond<T(!new)>(F: Field<T>, g: seq<T>, p: BirkhoffPoint)
    requires F.Laws() && |g| <= p.order
    ensures Seen(F, g, p) == F.zero
  {
    ClosedForm(F, g, F.Nat(p.x), p.order);
    DotZero(F, g, BasisRow(F, |g|, p.order, F.Nat(p.x)));
  }

  // ---------------------------------------------------------------- the decomposition

  lemma HighVanishes<T(!new)>(F: Field<T>, points: seq<BirkhoffPoint>, b: nat, f: seq<T>)
    requires Vanishes(F, points, f)
    ensures Vanishes(F, High(points, b), DerivativeN(F, f, b))
  {
    forall p | p in points && p.order >= b
      ensures Seen(F, DerivativeN(F, f, b), Lowered(p, b)) == F.zero
    {
      SeenShift(F, f, p, b);
    }
    VanishesOnHigh(F, points, b, DerivativeN(F, f, b));
  }

  lemma LowVanishes<T(!new)>(F: Field<T>, points: seq<BirkhoffPoint>, b: nat, g: seq<T>, n: nat)
    requires F.Laws() && Vanishes(F, points, g + Zeros(F, n))
    ensures Vanishes(F, Low(points, b), g)
  {
    forall p | p in Low(points, b)
      ensures Seen(F, g, p) == F.zero
    {
      SeenPad(F, g, n, p);
    }
  }

  /** Two solvable blocks make a solvable set. */
  lemma BlocksSuffice<T(!new)>(F: Field<T>, points: seq<BirkhoffPoint>, b: nat, f: seq<T>)
    requires F.Laws() && F.LargeCharacteristic() && CountBelow(Orders(points), b) == b <= |points| <= 65535
    requires NoKernel(F, Low(points, b)) && NoKernel(F, High(points, b))
    requires |f| == |points| && Vanishes(F, points, f)
    ensures f == Zeros(F, |points|)
  {
    var g := f[..b];
    assert f == g + Zeros(F, |f| - b) by {
      HighVanishes(F, points, b, f);
      DerivativeNLength(F, f, b);
      DerivativeNZero(F, f, b);
    }
    assert g == Zeros(F, b) by {
      LowVanishes(F, points, b, g, |f| - b);
    }
  }

  /** A solvable set has a solvable low block: its kernel vectors, padded, are kernel vectors. */
  lemma LowNeeded<T(!new)>(F: Field<T>, points: seq<BirkhoffPoint>, b: nat, g: seq<T>)
    requires F.Laws() && CountBelow(Orders(points), b) == b <= |points| && NoKernel(F, points)
    requires |g| == b && Vanishes(F, Low(points, b), g)
    ensures g == Zeros(F, b)
  {
    var f := g + Zeros(F, |points| - b);
    forall p | p in points
      ensures Seen(F, f, p) == F.zero
    {
      SeenPad(F, g, |points| - b, p);
      if p.order >= b {
        SeenBeyond(F, g, p);
      }
    }
    assert Vanishes(F, points, f);
    assert forall i :: 0 <= i < b ==> g[i] == f[i];
  }

  /** With a solvable low block, some g of degree below b is observed there as -f. */
  lemma Correction<T(!new)>(F: Field<T>, low: seq<BirkhoffPoint>, f: seq<T>) returns (g: seq<T>)
    requires F.Laws() && Unisolvent(F, low)
    ensures |g| == |low| && forall p :: p in low ==> F.Add(Seen(F, f, p), Seen(F, g, p)) == F.zero
  {
    var o := Observations(F, low, f);
    var t := seq(|low|, i requires 0 <= i < |low| => F.Neg(o[i]));
    var m := BirkhoffMatrix(F, low);
    UnisolventIsTrivialKernel(F, low);
    SolveCorrect(F, m, t);
    g := Solve(F, m, t).x;
    ObservationsAreMatVec(F, low, g);
    assert Observations(F, low, g) == t;
    forall i | 0 <= i < |low|
      ensures F.Add(Seen(F, f, low[i]), Seen(F, g, low[i])) == F.zero
    {
      SeenIsObserved(F, low, f, i);
      SeenIsObserved(F, low, g, i);
      F.AddNeg(o[i]);
    }
  }

  /** A polynomial whose b-th derivative vanishes on the high block can be changed in its low
      coefficients so that it vanishes everywhere. */
  lemma Corrected<T(!new)>(F: Field<T>, points: seq<BirkhoffPoint>, b: nat, f: seq<T>) returns (s: seq<T>)
    requires F.Laws() && CountBelow(Orders(points), b) == b <= |f| && Unisolvent(F, Low(points, b))
    requires Vanishes(F, High(points, b), DerivativeN(F, f, b))
    ensures |s| == |f| && Vanishes(F, points, s) && forall i :: b <= i < |f| ==> s[i] == f[i]
  {
    var g := Correction(F, Low(points, b), f);
    var q := g + Zeros(F, |f| - b);
    s := Sum(F, f, q);
    CorrectedVanishes(F, points, b, f, g, q, s);
    SumTail(F, f, g);
  }

  ghost function Sum<T(!new)>(F: Field<T>, f: seq<T>, g: seq<T>): (s: seq<T>)
    requires |f| == |g|
    ensures |s| == |f| && forall i :: 0 <= i < |f| ==> s[i] == F.Add(f[i], g[i])
  {
    seq(|f|, i requires 0 <= i < |f| => F.Add(f[i], g[i]))
  }

  /** Adding a polynomial of lower degree leaves the higher coefficients. */
  lemma SumTail<T(!new)>(F: Field<T>, f: seq<T>, g: seq<T>)
    requires F.Laws() && |g| <= |f|
    ensures forall i :: |g| <= i < |f| ==> Sum(F, f, g + Zeros(F, |f| - |g|))[i] == f[i]
  {
    forall i | |g| <= i < |f|
      ensures Sum(F, f, g + Zeros(F, |f| - |g|))[i] == f[i]
    {
      F.AddZero(f[i]);
    }
  }

  /** A solvable set has a solvable high block: a kernel vector there is integrated b times
      and corrected in its low coefficients. */
  lemma HighNeeded<T(!new)>(F: Field<T>, points: seq<BirkhoffPoint>, b: nat, h: seq<T>)
    requires F.Laws() && F.LargeCharacteristic() && CountBelow(Orders(points), b) == b <= |points| <= 65535
    requires NoKernel(F, points) && Unisolvent(F, Low(points, b))
    requires |h| == |points| - b && Vanishes(F, High(points, b), h)
    ensures h == Zeros(F, |points| - b)
  {
    var f := Integrate(F, h, b);
    var s := Corrected(F, points, b, f);
    assert TailZero(F, f, b);
    DerivativeNZero(F, f, b);
  }

  lemma CorrectedVanishes<T(!new)>(
    F: Field<T>, points: seq<BirkhoffPoint>, b: nat, f: seq<T>, g: seq<T>, q: seq<T>, s: seq<T>)
    requires F.Laws() && |g| == b <= |f| == |s| && q == g + Zeros(F, |f| - b)
    requires forall i :: 0 <= i < |f| ==> s[i] == F.Add(f[i], q[i])
    requires Vanishes(F, High(points, b), DerivativeN(F, f, b))
    requires forall p :: p in Low(points, b) ==> F.Add(Seen(F, f, p), Seen(F, g, p)) == F.zero
    ensures Vanishes(F, points, s)
  {
    VanishesOnHigh(F, points, b, DerivativeN(F, f, b));
    forall p | p in points
      ensures Seen(F, s, p) == F.zero
    {
      SeenAdd(F, f, q, s, p);
      SeenPad(F, g, |f| - b, p);
      if p.order >= b {
        SeenBeyond(F, g, p);
        SeenShift(F, f, p, b);
        F.AddZero(F.zero);
      }
    }
  }

  /** Where exactly b points have order below b, the set is unisolvent if and only if both
      blocks are. */
  lemma Decomposition<T(!new)>(F: Field<T>, points: seq<BirkhoffPoint>, b: nat)
    requires F.Laws() && F.LargeCharacteristic() && |points| <= 65535
    requires CountBelow(Orders(points), b) == b
    ensures Unisolvent(F, points) <==> Unisolvent(F, Low(points, b)) && Unisolvent(F, High(points, b))
  {
    var low, high := Low(points, b), High(points, b);
    CountBelowSize(Orders(points), b);
    NoKernelIsUnisolvent(F, points);
    NoKernelIsUnisolvent(F, low);
    NoKernelIsUnisolvent(F, high);
    if NoKernel(F, low) && NoKernel(F, high) {
      forall f: seq<T> | |f| == |points| && Vanishes(F, points, f)
        ensures f == Zeros(F, |points|)
      {
        BlocksSuffice(F, points, b, f);
      }
    }
    if NoKernel(F, points) {
      forall g: seq<T> | |g| == |low| && Vanishes(F, low, g)
        ensures g == Zeros(F, |low|)
      {
        LowNeeded(F, points, b, g);
      }
      assert NoKernel(F, low);
      forall h: seq<T> | |h| == |high| && Vanishes(F, high, h)
        ensures h == Zeros(F, |high|)
      {
        HighNeeded(F, points, b, h);
      }
    }
  }

  // ---------------------------------------------------------------- tight sets

  /** Every point of order r has exactly r points of lower order. */
  ghost predicate Tight(points: seq<BirkhoffPoint>) {
    forall p :: p in points ==> CountBelow(Orders(points), p.order) == p.order
  }

  /** Distinct ids of the engine. */
  ghost predicate Nodes16(points: seq<BirkhoffPoint>) {
    && (forall i :: 0 <= i < |points| ==> 1 <= points[i].x <= 65535)
    && (forall i, j :: 0 <= i < j < |points| ==> points[i].x != points[j].x)
  }

  lemma NodesAppend(s: seq<BirkhoffPoint>, p: BirkhoffPoint)
    requires Nodes16(s) && 1 <= p.x <= 65535 && forall q :: q in s ==> q.x != p.x
    ensures Nodes16(s + [p])
  {
    assert forall i :: 0 <= i < |s| ==> s[i] in s;
  }

  lemma NodesLast(points: seq<BirkhoffPoint>)
    requires Nodes16(points) && |points| > 0
    ensures
      var l := |points| - 1;
      Nodes16(points[..l]) && 1 <= points[l].x <= 65535 && forall q :: q in points[..l] ==> q.x != points[l].x
  {
  }

  /** Leaving out points keeps the ids distinct. */
  lemma {:induction false} LowNodes(points: seq<BirkhoffPoint>, b: nat)
    requires Nodes16(points)
    ensures Nodes16(Low(points, b))
  {
    if |points| > 0 {
      var l := |points| - 1;
      var low := Low(points[..l], b);
      NodesLast(points);
      LowNodes(points[..l], b);
      if points[l].order < b {
        NodesAppend(low, points[l]);
        assert Low(points, b) == low + [points[l]];
      } else {
        assert Low(points, b) == low;
      }
    }
  }

  lemma {:induction false} RestNodes(points: seq<BirkhoffPoint>, b: nat)
    requires Nodes16(points)
    ensures Nodes16(Rest(points, b))
  {
    if |points| > 0 {
      var l := |points| - 1;
      var rest := Rest(points[..l], b);
      NodesLast(points);
      RestNodes(points[..l], b);
      if points[l].order < b {
        assert Rest(points, b) == rest;
      } else {
        NodesAppend(rest, points[l]);
        assert Rest(points, b) == rest + [points[l]];
      }
    }
  }

  lemma CountAppend(s: seq<BirkhoffPoint>, p: BirkhoffPoint, r: nat)
    ensures CountBelow(Orders(s + [p]), r) == CountBelow(Orders(s), r) + (if p.order < r then 1 else 0)
  {
    assert Orders(s + [p])[..|s|] == Orders(s);
  }

  /** The low block counts orders up to b as the whole set does. */
  lemma {:induction false} LowCounts(points: seq<BirkhoffPoint>, b: nat, r: nat)
    requires r <= b
    ensures CountBelow(Orders(Low(points, b)), r) == CountBelow(Orders(points), r)
  {
    if |points| > 0 {
      var l := |points| - 1;
      var low := Low(points[..l], b);
      LowCounts(points[..l], b, r);
      CountAppend(points[..l], points[l], r);
      assert points == points[..l] + [points[l]];
      CountAppend(low, points[l], r);
      assert low + [] == low;
    }
  }

  lemma {:induction false} HighestOrder(points: seq<BirkhoffPoint>) returns (p: BirkhoffPoint)
    requires |points| > 0
    ensures p in points && forall q :: q in points ==> q.order <= p.order
  {
    var l := |points| - 1;
    p := points[l];
    if l > 0 {
      var q := HighestOrder(points[..l]);
      assert points == points[..l] + [points[l]];
      if q.order > p.order {
        p := q;
      }
    }
  }

  /** The block of the highest order is a Lagrange block. */
  lemma HighestBlock(points: seq<BirkhoffPoint>, b: nat)
    requires Nodes16(points) && forall p :: p in points ==> p.order <= b
    ensures LagrangePoints(High(points, b))
  {
    RestNodes(points, b);
    var rest, high := Rest(points, b), High(points, b);
    forall i | 0 <= i < |high|
      ensures high[i].order == 0 && high[i].x == rest[i].x
    {
      assert rest[i] in rest;
    }
  }

  /** Tight sets are unisolvent, for every choice of distinct ids. */
  lemma {:induction false} TightUnisolvent<T(!new)>(F: Field<T>, points: seq<BirkhoffPoint>)
    requires F.Laws() && F.LargeCharacteristic() && |points| <= 65535 && Nodes16(points) && Tight(points)
    ensures Unisolvent(F, points)
    decreases |points|
  {
    if |points| > 0 {
      var p := HighestOrder(points);
      var b := p.order;
      var low, high := Low(points, b), High(points, b);
      assert p in Rest(points, b);
      LowNodes(points, b);
      forall q | q in low
        ensures CountBelow(Orders(low), q.order) == q.order
      {
        LowCounts(points, b, q.order);
      }
      TightUnisolvent(F, low);
      HighestBlock(points, b);
      LagrangeUnisolvent(F, high);
      SolvableIffUnisolvent(F, high);
      Decomposition(F, points, b);
    }
  }

  /** Sufficient condition on the ranks alone: a tight set always has coefficients. */
  lemma TightSolvable<T(!new)>(F: Field<T>, points: seq<BirkhoffPoint>)
    requires F.Laws() && F.LargeCharacteristic() && 0 < |points| <= 65535 && Nodes16(points) && Tight(points)
    ensures InterpolationCoefficients(F, points).Ok?
  {
    TightUnisolvent(F, points);
    SolvableIffUnisolvent(F, points);
  }
}
