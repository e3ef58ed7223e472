/**
  Birkhoff interpolation (birkhoff_matrix, birkhoff_interpolation_coefficients):
  recovering f(0) from values of f and its derivatives.
 */
module Birkhoff {
  import opened Wrappers
  import opened Fields
  import opened Vectors
  import opened GaussJordan
  import opened Polynomials
  import opened Lists

  datatype BirkhoffPoint = BirkhoffPoint(id: nat, x: nat, order: nat)
  datatype BirkhoffCoefficient<T> = BirkhoffCoefficient(id: nat, order: nat, value: T)

  function BirkhoffMatrix<T(!new)>(F: Field<T>, points: seq<BirkhoffPoint>): (m: Matrix<T>)
    ensures IsMatrix(m, |points|, |points|)
    ensures forall i :: 0 <= i < |points| ==>
      m[i] == BasisRow(F, |points|, points[i].order, F.Nat(points[i].x))
  {
    var n := |points|;
    seq(n, i requires 0 <= i < n => BasisRow(F, n, points[i].order, F.Nat(points[i].x)))
  }

  function WithPoints<T>(points: seq<BirkhoffPoint>, x: seq<T>): (c: seq<BirkhoffCoefficient<T>>)
    requires |x| == |points|
    ensures |c| == |points|
    ensures forall i :: 0 <= i < |c| ==> c[i] == BirkhoffCoefficient(points[i].id, points[i].order, x[i])
  {
    seq(|points|, i requires 0 <= i < |points| => BirkhoffCoefficient(points[i].id, points[i].order, x[i]))
  }

  function InterpolationCoefficients<T(==, !new)>(F: Field<T>, points: seq<BirkhoffPoint>)
    : (r: Result<seq<BirkhoffCoefficient<T>>>)
  {
    var n := |points|;
    if n == 0 then Fail(EmptyPointSet)
    else
      var m := Transpose(BirkhoffMatrix(F, points), n);
      var s := Solve(F, m, Unit(F, n, 0));
      if s.Solved? && |s.x| == n then Ok(WithPoints(points, s.x))
      else if s.NotSquare? then Fail(SystemNotSquare) else Fail(SingularSystem)
  }

  // ---------------------------------------------------------------- the program

  /** The matrix the program builds: it casts the degree to u16. */
  function WrappedMatrix<T(!new)>(F: Field<T>, points: seq<BirkhoffPoint>): (m: Matrix<T>)
    ensures IsMatrix(m, |points|, |points|)
  {
    var n := |points|;
    seq(n, i requires 0 <= i < n =>
      seq(n, d requires 0 <= d < n => WrappedBasis(F, d % 65536, points[i].order, F.Nat(points[i].x))))
  }

  function WrappedCoefficients<T(==, !new)>(F: Field<T>, points: seq<BirkhoffPoint>)
    : (r: Result<seq<BirkhoffCoefficient<T>>>)
  {
    var n := |points|;
    if n == 0 then Fail(EmptyPointSet)
    else
      var s := Solve(F, Transpose(WrappedMatrix(F, points), n), Unit(F, n, 0));
      if s.Solved? && |s.x| == n then Ok(WithPoints(points, s.x))
      else if s.NotSquare? then Fail(SystemNotSquare) else Fail(SingularSystem)
  }

  /** Up to 65535 points the casts are harmless; beyond 65536 two columns coincide and the
      program always reports a singular system. */
  lemma WrappingExact<T(!new)>(F: Field<T>, points: seq<BirkhoffPoint>)
    requires F.Laws()
    ensures |points| <= 65535 ==> WrappedCoefficients(F, points) == InterpolationCoefficients(F, points)
    ensures |points| > 65536 ==> WrappedCoefficients(F, points) == Fail(SingularSystem)
  {
    if |points| <= 65535 {
      WrappedIsExact(F, points);
    } else if |points| > 65536 {
      WrappedIsSingular(F, points);
    }
  }

  lemma WrappedIsExact<T(!new)>(F: Field<T>, points: seq<BirkhoffPoint>)
    requires |points| <= 65535
    ensures WrappedMatrix(F, points) == BirkhoffMatrix(F, points)
  {
    var n, w, m := |points|, WrappedMatrix(F, points), BirkhoffMatrix(F, points);
    forall i | 0 <= i < n
      ensures w[i] == m[i]
    {
      assert forall d :: 0 <= d < n ==> w[i][d] == m[i][d];
    }
  }

  lemma WrappedIsSingular<T(!new)>(F: Field<T>, points: seq<BirkhoffPoint>)
    requires F.Laws() && |points| > 65536
    ensures WrappedCoefficients(F, points) == Fail(SingularSystem)
  {
    var n, w := |points|, WrappedMatrix(F, points);
    var t, e := Transpose(w, n), Unit(F, n, 0);
    assert t[0] == t[65536] by {
      assert forall i :: 0 <= i < n ==> w[i][0] == w[i][65536];
      assert Column(w, 0) == Column(w, 65536);
    }
    forall x: seq<T> {:trigger MatVec(F, t, x)} | |x| == n
      ensures MatVec(F, t, x) != e
    {
      assert MatVec(F, t, x)[0] == MatVec(F, t, x)[65536];
    }
    SolveCorrect(F, t, e);
  }

  /** Basis values row by row, explicit transposition, in-place solve. */
  method BirkhoffInterpolationCoefficients<T(==, !new)>(F: Field<T>, points: seq<BirkhoffPoint>)
    returns (r: Result<seq<BirkhoffCoefficient<T>>>)
    requires F.Laws()
    ensures r == WrappedCoefficients(F, points)
    ensures |points| <= 65535 ==> r == InterpolationCoefficients(F, points)
    ensures |points| > 65536 ==> r == Fail(SingularSystem)
  {
    WrappingExact(F, points);
    var n := |points|;
    if n == 0 {
      return Fail(EmptyPointSet);
    }
    ghost var m := WrappedMatrix(F, points);
    var transpose := seq(n, _ => seq(n, _ => F.zero));
    for row := 0 to n
      invariant IsMatrix(transpose, n, n)
      invariant forall i, j :: 0 <= i < row && 0 <= j < n ==> transpose[j][i] == m[i][j]
    {
      for col := 0 to n
        invariant IsMatrix(transpose, n, n)
        invariant forall i, j :: 0 <= i < row && 0 <= j < n ==> transpose[j][i] == m[i][j]
        invariant forall j :: 0 <= j < col ==> transpose[j][row] == m[row][j]
      {
        var value := DerivativeBasis(F, col % 65536, points[row].order, F.Nat(points[row].x));
        transpose := transpose[col := transpose[col][row := value]];
      }
    }
    forall j | 0 <= j < n
      ensures transpose[j] == Transpose(m, n)[j]
    {
      assert transpose[j] == Column(m, j);
    }
    assert transpose == Transpose(m, n);
    SolveCorrect(F, transpose, Unit(F, n, 0));
    var s := SolveScalarSystem(F, transpose, Unit(F, n, 0));
    match s
    case Solved(x) => r := Ok(WithPoints(points, x));
    case Singular => r := Fail(SingularSystem);
    case NotSquare => r := Fail(SystemNotSquare);
  }

  // ---------------------------------------------------------------- meaning

  /** What the points observe of a polynomial. */
  function Observations<T(!new)>(F: Field<T>, points: seq<BirkhoffPoint>, f: seq<T>): (o: seq<T>)
    ensures |o| == |points|
  {
    seq(|points|, i requires 0 <= i < |points| => DerivativeValue(F, f, F.Nat(points[i].x), points[i].order))
  }

  function Values<T>(c: seq<BirkhoffCoefficient<T>>): (v: seq<T>)
    ensures |v| == |c| && forall i :: 0 <= i < |c| ==> v[i] == c[i].value
  {
    seq(|c|, i requires 0 <= i < |c| => c[i].value)
  }

  function ConstantTerm<T(!new)>(F: Field<T>, f: seq<T>): T { if |f| == 0 then F.zero else f[0] }

  /** Only the zero polynomial of degree below n is observed as zero everywhere. */
  ghost predicate Unisolvent<T(!new)>(F: Field<T>, points: seq<BirkhoffPoint>) {
    forall f: seq<T> {:trigger Observations(F, points, f)} ::
      |f| == |points| && Observations(F, points, f) == Zeros(F, |points|)
      ==> f == Zeros(F, |points|)
  }

  lemma ObservationsAreMatVec<T(!new)>(F: Field<T>, points: seq<BirkhoffPoint>, f: seq<T>)
    requires F.Laws() && |f| == |points|
    ensures Observations(F, points, f) == MatVec(F, BirkhoffMatrix(F, points), f)
  {
    forall i | 0 <= i < |points|
      ensures Observations(F, points, f)[i] == Dot(F, BirkhoffMatrix(F, points)[i], f)
    {
      DotComm(F, f, BasisRow(F, |f|, points[i].order, F.Nat(points[i].x)));
    }
  }

  lemma DoubleTranspose<T>(m: Matrix<T>)
    requires IsSquare(m)
    ensures IsSquare(Transpose(m, |m|)) && Transpose(Transpose(m, |m|), |m|) == m
  {
    var t := Transpose(m, |m|);
    forall i | 0 <= i < |m|
      ensures Column(t, i) == m[i]
    {
    }
  }

  /** If M^T has a trivial kernel, so has M. */
  lemma TransposeKernelOneWay<T(!new)>(F: Field<T>, m: Matrix<T>)
    requires F.Laws() && IsSquare(m) && TrivialKernel(F, Transpose(m, |m|))
    ensures TrivialKernel(F, m)
  {
    forall v: seq<T> {:trigger MatVec(F, m, v)} | |v| == |m| && MatVec(F, m, v) == Zeros(F, |m|)
      ensures v == Zeros(F, |m|)
    {
      forall j | 0 <= j < |m|
        ensures v[j] == F.zero
      {
        TransposeReaches(F, m, v, j);
      }
    }
  }

  /** M^T reaches the j-th unit vector, so a kernel vector of M is zero at j. */
  lemma TransposeReaches<T(!new)>(F: Field<T>, m: Matrix<T>, v: seq<T>, j: nat)
    requires F.Laws() && IsSquare(m) && TrivialKernel(F, Transpose(m, |m|))
    requires |v| == |m| && MatVec(F, m, v) == Zeros(F, |m|) && j < |m|
    ensures v[j] == F.zero
  {
    var t, e := Transpose(m, |m|), Unit(F, |m|, j);
    SolveCorrect(F, t, e);
    SurjectiveTransposeKernel(F, m, Solve(F, t, e).x, v, j);
  }

  lemma TransposeKernel<T(!new)>(F: Field<T>, m: Matrix<T>)
    requires F.Laws() && IsSquare(m)
    ensures IsSquare(Transpose(m, |m|))
    ensures TrivialKernel(F, m) <==> TrivialKernel(F, Transpose(m, |m|))
  {
    var t := Transpose(m, |m|);
    DoubleTranspose(m);
    if TrivialKernel(F, t) {
      TransposeKernelOneWay(F, m);
    } else if TrivialKernel(F, m) {
      TransposeKernelOneWay(F, t);
    }
  }

  lemma UnisolventIsTrivialKernel<T(!new)>(F: Field<T>, points: seq<BirkhoffPoint>)
    requires F.Laws()
    ensures Unisolvent(F, points) <==> TrivialKernel(F, BirkhoffMatrix(F, points))
  {
    var m := BirkhoffMatrix(F, points);
    forall f: seq<T> {:trigger Observations(F, points, f)} {:trigger MatVec(F, m, f)} | |f| == |points|
      ensures Observations(F, points, f) == MatVec(F, m, f)
    {
      ObservationsAreMatVec(F, points, f);
    }
  }

  /** Coefficients exist exactly for a non-empty, unisolvent set of points. */
  lemma SolvableIffUnisolvent<T(!new)>(F: Field<T>, points: seq<BirkhoffPoint>)
    requires F.Laws()
    ensures InterpolationCoefficients(F, points).Ok? <==> |points| > 0 && Unisolvent(F, points)
    ensures |points| > 0 && !Unisolvent(F, points) ==> InterpolationCoefficients(F, points) == Fail(SingularSystem)
  {
    var m := BirkhoffMatrix(F, points);
    UnisolventIsTrivialKernel(F, points);
    TransposeKernel(F, m);
    SolveCorrect(F, Transpose(m, |m|), Unit(F, |m|, 0));
  }

  /** The system the coefficients solve: column j asks for the weights of X^j. */
  function WeightSystem<T(!new)>(F: Field<T>, points: seq<BirkhoffPoint>): (t: Matrix<T>)
    ensures IsMatrix(t, |points|, |points|)
  {
    Transpose(BirkhoffMatrix(F, points), |points|)
  }

  /** The returned weights are the one solution of their system. */
  lemma Weights<T(!new)>(F: Field<T>, points: seq<BirkhoffPoint>)
    requires F.Laws() && InterpolationCoefficients(F, points).Ok?
    ensures
      var c := InterpolationCoefficients(F, points).value;
      && |c| == |points| && UniqueSolution(F, WeightSystem(F, points), Unit(F, |points|, 0), Values(c))
      && c == WithPoints(points, Values(c))
  {
    var n, t := |points|, WeightSystem(F, points);
    var x := Solve(F, t, Unit(F, n, 0)).x;
    assert Values(WithPoints(points, x)) == x;
    SolveCorrect(F, t, Unit(F, n, 0));
  }

  /** Main result: the weighted observations of any polynomial of degree below
      the number of points add up to its constant term. */
  lemma Interpolation<T(!new)>(F: Field<T>, points: seq<BirkhoffPoint>, f: seq<T>)
    requires F.Laws() && InterpolationCoefficients(F, points).Ok? && |f| <= |points|
    ensures |InterpolationCoefficients(F, points).value| == |points|
    ensures Dot(F, Values(InterpolationCoefficients(F, points).value), Observations(F, points, f))
         == ConstantTerm(F, f)
  {
    Weights(F, points);
    WeightedObservations(F, points, Values(InterpolationCoefficients(F, points).value), f);
  }

  lemma WeightedObservations<T(!new)>(F: Field<T>, points: seq<BirkhoffPoint>, y: seq<T>, f: seq<T>)
    requires F.Laws() && |f| <= |points| && |y| == |points| > 0
    requires MatVec(F, WeightSystem(F, points), y) == Unit(F, |points|, 0)
    ensures Dot(F, y, Observations(F, points, f)) == ConstantTerm(F, f)
  {
    var n := |points|;
    var g := f + Zeros(F, n - |f|);
    forall i | 0 <= i < n
      ensures Observations(F, points, g)[i] == Observations(F, points, f)[i]
    {
      PadValue(F, f, n - |f|, F.Nat(points[i].x), points[i].order);
    }
    assert Observations(F, points, g) == Observations(F, points, f);
    ObservationsAreMatVec(F, points, g);
    Adjoint(F, BirkhoffMatrix(F, points), y, g);
    DotSingle(F, Unit(F, n, 0), g, 0);
    F.MulOne(g[0]);
  }

  // ---------------------------------------------------------------- Polya condition

  function Orders(points: seq<BirkhoffPoint>): (o: seq<nat>)
    ensures |o| == |points| && forall i :: 0 <= i < |o| ==> o[i] == points[i].order
  {
    seq(|points|, i requires 0 <= i < |points| => points[i].order)
  }

  /** The rows that say something about degrees below b. */
  function LowRows<T(!new)>(F: Field<T>, points: seq<BirkhoffPoint>, b: nat): (rows: Matrix<T>)
    ensures |rows| == CountBelow(Orders(points), b)
    ensures forall i :: 0 <= i < |rows| ==> |rows[i]| == b
    ensures forall i :: 0 <= i < |points| && points[i].order < b ==>
      BasisRow(F, b, points[i].order, F.Nat(points[i].x)) in rows
  {
    if |points| == 0 then []
    else
      var l := |points| - 1;
      assert Orders(points)[..l] == Orders(points[..l]);
      var rows := LowRows(F, points[..l], b);
      assert forall i :: 0 <= i < l ==> points[..l][i] == points[i];
      if points[l].order < b then rows + [BasisRow(F, b, points[l].order, F.Nat(points[l].x))] else rows
  }

  /** A matrix with a zero row has a kernel vector. */
  lemma ZeroRowKernel<T(!new)>(F: Field<T>, m: Matrix<T>) returns (v: seq<T>)
    requires F.Laws() && IsSquare(m) && |m| > 0 && m[|m| - 1] == Zeros(F, |m|)
    ensures |v| == |m| && v != Zeros(F, |m|) && MatVec(F, m, v) == Zeros(F, |m|)
  {
    var n := |m|;
    var t := Unit(F, n, n - 1);
    forall x: seq<T> {:trigger MatVec(F, m, x)} | |x| == n
      ensures MatVec(F, m, x) != t
    {
      DotZero(F, m[n - 1], x);
      assert MatVec(F, m, x)[n - 1] == F.zero;
    }
    SolveCorrect(F, m, t);
    v :| |v| == n && v != Zeros(F, n) && MatVec(F, m, v) == Zeros(F, n);
  }

  lemma KernelRows<T(!new)>(F: Field<T>, m: Matrix<T>, rows: Matrix<T>, v: seq<T>)
    requires IsMatrix(m, |m|, |v|) && MatVec(F, m, v) == Zeros(F, |m|)
    requires |rows| <= |m| && forall i :: 0 <= i < |rows| ==> m[i] == rows[i]
    ensures forall i :: 0 <= i < |rows| ==> |rows[i]| == |v| && Dot(F, rows[i], v) == F.zero
  {
    forall i | 0 <= i < |rows|
      ensures |rows[i]| == |v| && Dot(F, rows[i], v) == F.zero
    {
      assert MatVec(F, m, v)[i] == Dot(F, m[i], v);
    }
  }

  /** Fewer equations than unknowns have a non-zero solution. */
  lemma Underdetermined<T(!new)>(F: Field<T>, rows: Matrix<T>, n: nat) returns (v: seq<T>)
    requires F.Laws() && |rows| < n && forall i :: 0 <= i < |rows| ==> |rows[i]| == n
    ensures |v| == n && v != Zeros(F, n) && forall i :: 0 <= i < |rows| ==> Dot(F, rows[i], v) == F.zero
  {
    var m := rows + seq(n - |rows|, _ => Zeros(F, n));
    assert m[|m| - 1] == Zeros(F, n) && IsSquare(m);
    v := ZeroRowKernel(F, m);
    KernelRows(F, m, rows, v);
  }

  /** A polynomial of degree at most k is padded to one of degree below n. */
  lemma PaddedObservation<T(!new)>(F: Field<T>, p: BirkhoffPoint, f: seq<T>, n: nat)
    requires F.Laws() && |f| <= n
    requires Dot(F, BasisRow(F, |f|, p.order, F.Nat(p.x)), f) == F.zero
    ensures DerivativeValue(F, f + Zeros(F, n - |f|), F.Nat(p.x), p.order) == F.zero
  {
    PadValue(F, f, n - |f|, F.Nat(p.x), p.order);
    DotComm(F, f, BasisRow(F, |f|, p.order, F.Nat(p.x)));
  }

  /** A non-zero polynomial that every point observes as zero. */
  lemma VanishingPolynomial<T(!new)>(F: Field<T>, points: seq<BirkhoffPoint>, f: seq<T>)
    requires F.Laws() && |f| == |points| && f != Zeros(F, |points|)
    requires forall i :: 0 <= i < |points| ==> DerivativeValue(F, f, F.Nat(points[i].x), points[i].order) == F.zero
    ensures InterpolationCoefficients(F, points) == Fail(SingularSystem)
  {
    assert Observations(F, points, f) == Zeros(F, |points|);
    SolvableIffUnisolvent(F, points);
  }

  /** A vector orthogonal to the low rows is observed as zero: by low orders through their
      row, by others because they look beyond its degree. */
  lemma LowRowObserves<T(!new)>(F: Field<T>, p: BirkhoffPoint, rows: Matrix<T>, v: seq<T>, n: nat)
    requires F.Laws() && |v| <= n && forall i :: 0 <= i < |rows| ==> |rows[i]| == |v| && Dot(F, rows[i], v) == F.zero
    requires p.order < |v| ==> BasisRow(F, |v|, p.order, F.Nat(p.x)) in rows
    ensures DerivativeValue(F, v + Zeros(F, n - |v|), F.Nat(p.x), p.order) == F.zero
  {
    var row := BasisRow(F, |v|, p.order, F.Nat(p.x));
    if p.order >= |v| {
      DotZero(F, row, v);
    }
    PaddedObservation(F, p, v, n);
  }

  /** Rank rule necessity: with fewer than b orders below b the system is
      singular, whatever the x-coordinates are. */
  lemma PolyaNecessary<T(!new)>(F: Field<T>, points: seq<BirkhoffPoint>, b: nat)
    requires F.Laws() && b <= |points| && CountBelow(Orders(points), b) < b
    ensures InterpolationCoefficients(F, points) == Fail(SingularSystem)
  {
    var n, rows := |points|, LowRows(F, points, b);
    var v := Underdetermined(F, rows, b);
    var f := v + Zeros(F, n - b);
    forall i | 0 <= i < n
      ensures DerivativeValue(F, f, F.Nat(points[i].x), points[i].order) == F.zero
    {
      assert points[i].order < b ==> BasisRow(F, b, points[i].order, F.Nat(points[i].x)) in rows;
      LowRowObserves(F, points[i], rows, v, n);
    }
    var d :| 0 <= d < b && v[d] != F.zero;
    assert f[d] != Zeros(F, n)[d];
    VanishingPolynomial(F, points, f);
  }

  // ---------------------------------------------------------------- order 0: Lagrange

  /** The product of y / (y - x) over the other nodes y. */
  function LagrangeWeight<T(!new)>(F: Field<T>, x: T, others: seq<T>): T {
    if |others| == 0 then F.one
    else
      var y := others[|others| - 1];
      F.Mul(F.Mul(y, F.Inv(F.Sub(y, x))), LagrangeWeight(F, x, others[..|others| - 1]))
  }

  function Nodes<T(!new)>(F: Field<T>, points: seq<BirkhoffPoint>): (s: seq<T>)
    ensures |s| == |points| && forall i :: 0 <= i < |s| ==> s[i] == F.Nat(points[i].x)
  {
    seq(|points|, i requires 0 <= i < |points| => F.Nat(points[i].x))
  }

  /** All nodes but the i-th. */
  function Others<T(!new)>(F: Field<T>, points: seq<BirkhoffPoint>, i: nat): (s: seq<T>)
    requires i < |points|
    ensures |s| == |points| - 1
  {
    Nodes(F, points)[..i] + Nodes(F, points)[i + 1..]
  }

  lemma {:induction false} LagrangeQuotient<T(!new)>(F: Field<T>, x: T, others: seq<T>)
    requires F.Laws() && x !in others
    ensures F.Mul(LagrangeWeight(F, x, others), ProductOfDifferences(F, x, others))
         == ProductOfDifferences(F, F.zero, others)
  {
    if |others| == 0 {
      F.MulOne(F.one);
    } else {
      var k := |others| - 1;
      var y, rest := others[k], others[..k];
      LagrangeQuotient(F, x, rest);
      var d, q := F.Sub(y, x), F.Mul(y, F.Inv(F.Sub(y, x)));
      var w, e := LagrangeWeight(F, x, rest), ProductOfDifferences(F, x, rest);
      F.SubZero(y, x);
      F.SubZero(F.zero, y);
      OppositeDifference(F, x, y);
      // q * (x - y) == -(y * (inv(d) * d)) == 0 - y
      F.NegMul(q, d);
      F.MulAssoc(y, F.Inv(d), d);
      F.MulInv(d);
      F.MulOne(y);
      // (q w) ((x-y) e) == (q (x-y)) (w e)
      var s := F.Sub(x, y);
      F.MulAssoc(q, w, F.Mul(s, e));
      F.MulAssoc(w, s, e);
      F.MulComm(w, s);
      F.MulAssoc(s, w, e);
      F.MulAssoc(q, s, F.Mul(w, e));
    }
  }

  lemma OppositeDifference<T(!new)>(F: Field<T>, x: T, y: T)
    requires F.Laws()
    ensures F.Sub(x, y) == F.Neg(F.Sub(y, x))
  {
    F.NegAdd(y, F.Neg(x));
    F.NegNeg(x);
    F.AddComm(x, F.Neg(y));
  }

  ghost predicate LagrangePoints(points: seq<BirkhoffPoint>) {
    && (forall i :: 0 <= i < |points| ==> points[i].order == 0 && 1 <= points[i].x <= 65535)
    && (forall i, j :: 0 <= i < j < |points| ==> points[i].x != points[j].x)
  }

  /** Distinct ids are distinct nodes. */
  lemma OthersMembership<T(!new)>(F: Field<T>, points: seq<BirkhoffPoint>, i: nat, j: nat)
    requires F.Laws() && F.LargeCharacteristic() && LagrangePoints(points) && i < |points| && j < |points|
    ensures F.Nat(points[j].x) in Others(F, points, i) <==> i != j
  {
    var nodes, others := Nodes(F, points), Others(F, points, i);
    if j != i {
      assert others[if j < i then j else j - 1] == nodes[j];
    } else {
      forall k | 0 <= k < |others|
        ensures others[k] != nodes[i]
      {
        var l := if k < i then k else k + 1;
        assert others[k] == nodes[l] && points[l].x != points[i].x;
        if nodes[l] == nodes[i] {
          F.NatInjective(points[i].x, points[l].x);
        }
      }
    }
  }

  /** The polynomial with roots at all nodes but the i-th, observed at point j. */
  lemma NodePolynomial<T(!new)>(F: Field<T>, points: seq<BirkhoffPoint>, i: nat, j: nat)
    requires F.Laws() && F.LargeCharacteristic() && LagrangePoints(points) && i < |points| && j < |points|
    ensures
      var others := Others(F, points, i);
      var o := Observations(F, points, RootPoly(F, others))[j];
      && o == ProductOfDifferences(F, F.Nat(points[j].x), others)
      && (o == F.zero <==> i != j)
  {
    var others, x := Others(F, points, i), F.Nat(points[j].x);
    OthersMembership(F, points, i, j);
    OrderZeroIsEval(F, RootPoly(F, others), x);
    EvalRootPoly(F, others, x);
    ProductZero(F, x, others);
  }

  lemma LagrangeKernel<T(!new)>(F: Field<T>, points: seq<BirkhoffPoint>, y: seq<T>, i: nat)
    requires F.Laws() && F.LargeCharacteristic() && LagrangePoints(points) && i < |points| == |y|
    requires MatVec(F, WeightSystem(F, points), y) == Zeros(F, |points|)
    ensures y[i] == F.zero
  {
    var f := RootPoly(F, Others(F, points, i));
    var o := Observations(F, points, f);
    forall j | 0 <= j < |points|
      ensures o[j] == F.zero <==> i != j
    {
      NodePolynomial(F, points, i, j);
    }
    ObservationsAreMatVec(F, points, f);
    Adjoint(F, BirkhoffMatrix(F, points), y, f);
    DotZero(F, Zeros(F, |points|), f);
    DotSingle(F, y, o, i);
    if y[i] != F.zero {
      F.NoZeroDivisors(y[i], o[i]);
    }
  }

  lemma LagrangeUnisolvent<T(!new)>(F: Field<T>, points: seq<BirkhoffPoint>)
    requires F.Laws() && F.LargeCharacteristic() && LagrangePoints(points) && |points| > 0
    ensures InterpolationCoefficients(F, points).Ok?
  {
    var n, t := |points|, WeightSystem(F, points);
    forall y: seq<T> {:trigger MatVec(F, t, y)} | |y| == n && MatVec(F, t, y) == Zeros(F, n)
      ensures y == Zeros(F, n)
    {
      forall i | 0 <= i < n
        ensures y[i] == F.zero
      {
        LagrangeKernel(F, points, y, i);
      }
    }
    SolveCorrect(F, t, Unit(F, n, 0));
  }

  /** Rank-0 sets refine Lagrange interpolation: the solver never fails and
      returns the product formula. */
  lemma LagrangeRefinement<T(!new)>(F: Field<T>, points: seq<BirkhoffPoint>, i: nat)
    requires F.Laws() && F.LargeCharacteristic() && LagrangePoints(points) && i < |points|
    ensures InterpolationCoefficients(F, points).Ok?
    ensures |InterpolationCoefficients(F, points).value| == |points|
    ensures InterpolationCoefficients(F, points).value[i].value
         == LagrangeWeight(F, F.Nat(points[i].x), Others(F, points, i))
  {
    LagrangeUnisolvent(F, points);
    var c := InterpolationCoefficients(F, points).value;
    var others := Others(F, points, i);
    var f, x := RootPoly(F, others), F.Nat(points[i].x);
    var o := Observations(F, points, f);
    forall j | 0 <= j < |points|
      ensures o[j] == F.zero <==> i != j
    {
      NodePolynomial(F, points, i, j);
    }
    NodePolynomial(F, points, i, i);
    OthersMembership(F, points, i, i);
    Interpolation(F, points, f);
    DotSingle(F, Values(c), o, i);
    // c_i * prod(x - y) == f(0) == prod(0 - y)
    EvalRootPoly(F, others, F.zero);
    F.MulZero(Eval(F, f[1..], F.zero));
    F.AddZero(f[0]);
    LagrangeQuotient(F, x, others);
    F.MulComm(o[i], c[i].value);
    F.MulComm(o[i], LagrangeWeight(F, x, others));
    F.MulCancel(o[i], c[i].value, LagrangeWeight(F, x, others));
  }

  // ---------------------------------------------------------------- order independence

  /** The weights of the points `a`, listed in the order of the points `b`. */
  ghost function Reorder<T>(a: seq<BirkhoffPoint>, y: seq<T>, b: seq<BirkhoffPoint>): (z: seq<T>)
    requires |y| == |a| && forall j :: 0 <= j < |b| ==> b[j] in a
    ensures |z| == |b|
  {
    seq(|b|, j requires 0 <= j < |b| => y[IndexOf(a, b[j])])
  }

  ghost function WeightOf<T(!new)>(F: Field<T>, a: seq<BirkhoffPoint>, y: seq<T>, p: BirkhoffPoint): T
    requires |y| == |a|
  {
    if p in a then y[IndexOf(a, p)] else F.zero
  }

  /** Reordered weights see every power of X the same way. */
  lemma ReorderSystem<T(!new)>(F: Field<T>, a: seq<BirkhoffPoint>, y: seq<T>, b: seq<BirkhoffPoint>)
    requires F.Laws() && |y| == |a| == |b| && multiset(a) == multiset(b) && Distinct(a)
    ensures forall j :: 0 <= j < |b| ==> b[j] in a
    ensures MatVec(F, WeightSystem(F, b), Reorder(a, y, b)) == MatVec(F, WeightSystem(F, a), y)
  {
    assert forall j :: 0 <= j < |b| ==> b[j] in multiset(a);
    var n, z := |a|, Reorder(a, y, b);
    forall d | 0 <= d < n
      ensures Dot(F, WeightSystem(F, b)[d], z) == Dot(F, WeightSystem(F, a)[d], y)
    {
      var g := (p: BirkhoffPoint) => F.Mul(Basis(F, d, p.order, F.Nat(p.x)), WeightOf(F, a, y, p));
      forall i | 0 <= i < n
        ensures F.Mul(WeightSystem(F, a)[d][i], y[i]) == g(a[i])
      {
        assert IndexOf(a, a[i]) == i;
      }
      forall j | 0 <= j < n
        ensures F.Mul(WeightSystem(F, b)[d][j], z[j]) == g(b[j])
      {
      }
      DotIsSumBy(F, WeightSystem(F, a)[d], y, g, a);
      DotIsSumBy(F, WeightSystem(F, b)[d], z, g, b);
      SumByOrder(F, g, a, b);
    }
  }

  lemma ReorderEntry<T>(a: seq<BirkhoffPoint>, y: seq<T>, b: seq<BirkhoffPoint>, i: nat, j: nat)
    requires |y| == |a| && (forall k :: 0 <= k < |b| ==> b[k] in a) && Distinct(a)
    requires i < |a| && j < |b| && a[i] == b[j]
    ensures Reorder(a, y, b)[j] == y[i]
  {
    assert IndexOf(a, b[j]) == i;
  }

  lemma SolvableIffTrivialKernel<T(!new)>(F: Field<T>, points: seq<BirkhoffPoint>)
    requires F.Laws()
    ensures InterpolationCoefficients(F, points).Ok? <==>
      |points| > 0 && TrivialKernel(F, WeightSystem(F, points))
  {
    SolveCorrect(F, WeightSystem(F, points), Unit(F, |points|, 0));
  }

  lemma KernelReorder<T(!new)>(F: Field<T>, a: seq<BirkhoffPoint>, b: seq<BirkhoffPoint>, v: seq<T>)
    requires F.Laws() && |a| == |b| == |v| && multiset(a) == multiset(b) && Distinct(b)
    requires TrivialKernel(F, WeightSystem(F, a)) && MatVec(F, WeightSystem(F, b), v) == Zeros(F, |b|)
    ensures (forall i :: 0 <= i < |a| ==> a[i] in b) && Reorder(b, v, a) == Zeros(F, |a|)
  {
    ReorderSystem(F, b, v, a);
    assert MatVec(F, WeightSystem(F, a), Reorder(b, v, a)) == Zeros(F, |a|);
  }

  lemma KernelEntry<T(!new)>(F: Field<T>, a: seq<BirkhoffPoint>, b: seq<BirkhoffPoint>, v: seq<T>, j: nat)
    requires F.Laws() && |a| == |b| == |v| && multiset(a) == multiset(b) && Distinct(b) && j < |b|
    requires TrivialKernel(F, WeightSystem(F, a)) && MatVec(F, WeightSystem(F, b), v) == Zeros(F, |b|)
    ensures v[j] == F.zero
  {
    KernelReorder(F, a, b, v);
    assert b[j] in multiset(a);
    ReorderEntry(b, v, a, j, IndexOf(a, b[j]));
  }

  lemma OrderIndependentOneWay<T(!new)>(F: Field<T>, a: seq<BirkhoffPoint>, b: seq<BirkhoffPoint>)
    requires F.Laws() && |a| == |b| && multiset(a) == multiset(b) && Distinct(b)
    requires InterpolationCoefficients(F, a).Ok?
    ensures InterpolationCoefficients(F, b).Ok?
  {
    SolvableIffTrivialKernel(F, a);
    forall v: seq<T> {:trigger MatVec(F, WeightSystem(F, b), v)}
      | |v| == |b| && MatVec(F, WeightSystem(F, b), v) == Zeros(F, |b|)
      ensures v == Zeros(F, |b|)
    {
      forall j | 0 <= j < |b|
        ensures v[j] == F.zero
      {
        KernelEntry(F, a, b, v, j);
      }
    }
    SolvableIffTrivialKernel(F, b);
  }

  lemma CoefficientsReorder<T(!new)>(F: Field<T>, a: seq<BirkhoffPoint>, b: seq<BirkhoffPoint>, i: nat, j: nat)
    requires F.Laws() && |a| == |b| && multiset(a) == multiset(b) && Distinct(a)
    requires InterpolationCoefficients(F, a).Ok? && InterpolationCoefficients(F, b).Ok?
    requires i < |a| && j < |b| && a[i] == b[j]
    ensures
      var c, d := InterpolationCoefficients(F, a).value, InterpolationCoefficients(F, b).value;
      |c| == |a| && |d| == |b| && c[i] == d[j]
  {
    var c, d := InterpolationCoefficients(F, a).value, InterpolationCoefficients(F, b).value;
    assert |c| == |a| && c == WithPoints(a, Values(c)) by {
      Weights(F, a);
    }
    assert MatVec(F, WeightSystem(F, a), Values(c)) == Unit(F, |a|, 0) by {
      Weights(F, a);
    }
    ReorderSystem(F, a, Values(c), b);
    var z := Reorder(a, Values(c), b);
    assert |d| == |b| && d == WithPoints(b, Values(d)) && z == Values(d) by {
      Weights(F, b);
    }
    ReorderEntry(a, Values(c), b, i, j);
  }

  /** A point listed twice leaves one equation too few. */
  lemma RepeatedSingular<T(!new)>(F: Field<T>, points: seq<BirkhoffPoint>, i: nat, j: nat)
    requires F.Laws() && i < j < |points| && points[i] == points[j]
    ensures InterpolationCoefficients(F, points) == Fail(SingularSystem)
  {
    var n, rows := |points|, BirkhoffMatrix(F, points);
    var fewer := Without(rows, j);
    assert forall k :: 0 <= k < |fewer| ==> fewer[k] == rows[if k < j then k else k + 1];
    var v := Underdetermined(F, fewer, n);
    forall k | 0 <= k < n
      ensures DerivativeValue(F, v, F.Nat(points[k].x), points[k].order) == F.zero
    {
      var l := if k == j then i else k;
      assert rows[k] == fewer[if l < j then l else l - 1];
      DotComm(F, v, rows[k]);
    }
    VanishingPolynomial(F, points, v);
  }

  lemma RepeatsAreSingular<T(!new)>(F: Field<T>, points: seq<BirkhoffPoint>)
    requires F.Laws() && InterpolationCoefficients(F, points).Ok?
    ensures Distinct(points)
  {
    forall i, j | 0 <= i < j < |points|
      ensures points[i] != points[j]
    {
      if points[i] == points[j] {
        RepeatedSingular(F, points, i, j);
      }
    }
  }

  /** Signer order does not matter: reordering the points keeps solvability and
      gives every point the same coefficient. */
  lemma OrderIndependent<T(!new)>(F: Field<T>, a: seq<BirkhoffPoint>, b: seq<BirkhoffPoint>)
    requires F.Laws() && multiset(a) == multiset(b)
    ensures InterpolationCoefficients(F, a).Ok? <==> InterpolationCoefficients(F, b).Ok?
    ensures InterpolationCoefficients(F, a).Ok? ==>
      var c, d := InterpolationCoefficients(F, a).value, InterpolationCoefficients(F, b).value;
      && |c| == |a| && |d| == |b|
      && forall i, j :: 0 <= i < |a| && 0 <= j < |b| && a[i] == b[j] ==> c[i] == d[j]
  {
    assert |multiset(a)| == |a| && |multiset(b)| == |b|;
    if InterpolationCoefficients(F, a).Ok? {
      RepeatsAreSingular(F, a);
      DistinctOrder(a, b);
      OrderIndependentOneWay(F, a, b);
      forall i, j | 0 <= i < |a| && 0 <= j < |b| && a[i] == b[j]
        ensures
          var c, d := InterpolationCoefficients(F, a).value, InterpolationCoefficients(F, b).value;
          |c| == |a| && |d| == |b| && c[i] == d[j]
      {
        CoefficientsReorder(F, a, b, i, j);
      }
      Weights(F, a);
      Weights(F, b);
    } else if InterpolationCoefficients(F, b).Ok? {
      RepeatsAreSingular(F, b);
      DistinctOrder(b, a);
      OrderIndependentOneWay(F, b, a);
    }
  }
}
