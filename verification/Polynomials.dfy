/**
  Polynomials as coefficient lists, lowest degree first: the derivative basis of
  dkgkit-frost (scalar_pow, derivative_basis_scalar, polynomial_derivative_value)
  against the formal derivative.
 */
module Polynomials {
  import opened Wrappers
  import opened Fields
  import opened Vectors

  function Power<T(!new)>(F: Field<T>, x: T, e: nat): T {
    if e == 0 then F.one else F.Mul(Power(F, x, e - 1), x)
  }

  /** (d-r+1) * ... * d, multiplied from the smallest factor up. */
  function Falling<T(!new)>(F: Field<T>, d: nat, r: nat): T
    requires r <= d
  {
    if r == 0 then F.one else F.Mul(Falling(F, d - 1, r - 1), F.Nat(d))
  }

  /** The r-th derivative of X^d at x. */
  function Basis<T(!new)>(F: Field<T>, d: nat, r: nat, x: T): T {
    if r > d then F.zero else F.Mul(Falling(F, d, r), Power(F, x, d - r))
  }

  function BasisRow<T(!new)>(F: Field<T>, n: nat, r: nat, x: T): (row: seq<T>)
    ensures |row| == n && forall d :: 0 <= d < n ==> row[d] == Basis(F, d, r, x)
  {
    seq(n, d requires 0 <= d < n => Basis(F, d, r, x))
  }

  /** The share formula: the sum of coefficient times basis value. */
  function DerivativeValue<T(!new)>(F: Field<T>, p: seq<T>, x: T, r: nat): T {
    Dot(F, p, BasisRow(F, |p|, r, x))
  }

  // ---------------------------------------------------------------- the loops

  method ScalarPow<T(!new)>(F: Field<T>, base: T, exponent: nat) returns (value: T)
    ensures value == Power(F, base, exponent)
  {
    value := F.one;
    for i := 0 to exponent
      invariant value == Power(F, base, i)
    {
      value := F.Mul(value, base);
    }
  }

  /** What 16-bit arithmetic makes of the basis value: for X^65535 itself the first factor
      degree - 0 + 1 wraps to 0, and so does the product. */
  function WrappedBasis<T(!new)>(F: Field<T>, d: U16, r: nat, x: T): T {
    if d == 65535 && r == 0 then F.zero else Basis(F, d, r, x)
  }

  method DerivativeBasis<T(!new)>(F: Field<T>, degree: U16, order: nat, x: T) returns (value: T)
    ensures F.Laws() ==> value == WrappedBasis(F, degree, order, x)
    ensures degree < 65535 ==> value == Basis(F, degree, order, x)
  {
    if order > degree {
      return F.zero;
    }
    var coefficient, first := F.one, (degree - order + 1) % 65536;
    for factor := first to degree + 1
      invariant first > 0 ==> coefficient == Falling(F, factor - 1, factor - 1 - (degree - order))
      invariant F.Laws() && first == 0 < factor ==> coefficient == F.zero
    {
      if F.Laws() {
        F.MulZero(F.Nat(factor));
        F.MulZero(coefficient);
      }
      coefficient := F.Mul(coefficient, F.Nat(factor));
    }
    var power := ScalarPow(F, x, degree - order);
    if F.Laws() {
      F.MulZero(power);
    }
    value := F.Mul(coefficient, power);
  }

  // ---------------------------------------------------------------- formal derivative

  function Eval<T(!new)>(F: Field<T>, p: seq<T>, x: T): T {
    if |p| == 0 then F.zero else F.Add(p[0], F.Mul(x, Eval(F, p[1..], x)))
  }

  function Derivative<T(!new)>(F: Field<T>, p: seq<T>): (d: seq<T>)
    ensures |d| == if |p| == 0 then 0 else |p| - 1
  {
    if |p| == 0 then []
    else seq(|p| - 1, k requires 0 <= k < |p| - 1 => F.Mul(F.Nat(k + 1), p[k + 1]))
  }

  function DerivativeN<T(!new)>(F: Field<T>, p: seq<T>, r: nat): seq<T>
    decreases r
  {
    if r == 0 then p else DerivativeN(F, Derivative(F, p), r - 1)
  }

  lemma {:induction false} DotFirst<T(!new)>(F: Field<T>, u: seq<T>, v: seq<T>)
    requires F.Laws() && |u| == |v| > 0
    ensures Dot(F, u, v) == F.Add(F.Mul(u[0], v[0]), Dot(F, u[1..], v[1..]))
  {
    var k := |u| - 1;
    if k == 0 {
      F.AddZero(F.Mul(u[0], v[0]));
    } else {
      DotFirst(F, u[..k], v[..k]);
      assert u[..k][1..] == u[1..][..k - 1] && v[..k][1..] == v[1..][..k - 1];
      F.AddAssoc(F.Mul(u[0], v[0]), Dot(F, u[1..][..k - 1], v[1..][..k - 1]), F.Mul(u[k], v[k]));
    }
  }

  lemma {:induction false} DotTerms<T(!new)>(F: Field<T>, u: seq<T>, v: seq<T>, u': seq<T>, v': seq<T>)
    requires |u| == |v| == |u'| == |v'|
    requires forall i :: 0 <= i < |u| ==> F.Mul(u[i], v[i]) == F.Mul(u'[i], v'[i])
    ensures Dot(F, u, v) == Dot(F, u', v')
  {
    if |u| > 0 {
      var k := |u| - 1;
      DotTerms(F, u[..k], v[..k], u'[..k], v'[..k]);
    }
  }

  lemma {:induction false} PowerShift<T(!new)>(F: Field<T>, x: T, e: nat)
    requires F.Laws()
    ensures Power(F, x, e + 1) == F.Mul(x, Power(F, x, e))
  {
    F.MulComm(x, Power(F, x, e));
  }

  lemma BasisOrderZero<T(!new)>(F: Field<T>, d: nat, x: T)
    requires F.Laws()
    ensures Basis(F, d, 0, x) == Power(F, x, d)
  {
    F.MulOne(Power(F, x, d));
  }

  /** Order 0 is evaluation. */
  lemma {:induction false} OrderZeroIsEval<T(!new)>(F: Field<T>, p: seq<T>, x: T)
    requires F.Laws()
    ensures DerivativeValue(F, p, x, 0) == Eval(F, p, x)
  {
    if |p| > 0 {
      var row := BasisRow(F, |p|, 0, x);
      DotFirst(F, p, row);
      BasisOrderZero(F, 0, x);
      F.MulOne(p[0]);
      OrderZeroIsEval(F, p[1..], x);
      var tail := BasisRow(F, |p| - 1, 0, x);
      forall d | 0 <= d < |p| - 1
        ensures row[1..][d] == F.Mul(x, tail[d])
      {
        BasisOrderZero(F, d + 1, x);
        BasisOrderZero(F, d, x);
        PowerShift(F, x, d);
      }
      DotScale(F, x, tail, row[1..], p[1..]);
      DotComm(F, p[1..], row[1..]);
      DotComm(F, p[1..], tail);
    }
  }

  /** Raising the order by one is taking one formal derivative. */
  lemma OrderStep<T(!new)>(F: Field<T>, p: seq<T>, x: T, r: nat)
    requires F.Laws()
    ensures DerivativeValue(F, p, x, r + 1) == DerivativeValue(F, Derivative(F, p), x, r)
  {
    if |p| > 0 {
      var row, d := BasisRow(F, |p|, r + 1, x), Derivative(F, p);
      var low := BasisRow(F, |d|, r, x);
      DotFirst(F, p, row);
      F.MulZero(p[0]);
      F.AddZero(Dot(F, p[1..], row[1..]));
      forall k | 0 <= k < |d|
        ensures F.Mul(p[1..][k], row[1..][k]) == F.Mul(d[k], low[k])
      {
        BasisStep(F, k, r, x, p[k + 1]);
      }
      DotTerms(F, p[1..], row[1..], d, low);
    }
  }

  lemma BasisStep<T(!new)>(F: Field<T>, k: nat, r: nat, x: T, c: T)
    requires F.Laws()
    ensures F.Mul(c, Basis(F, k + 1, r + 1, x)) == F.Mul(F.Mul(F.Nat(k + 1), c), Basis(F, k, r, x))
  {
    if r > k {
      F.MulZero(c);
      F.MulZero(F.Mul(F.Nat(k + 1), c));
    } else {
      var f, n, w := Falling(F, k, r), F.Nat(k + 1), Power(F, x, k - r);
      // c*((f*n)*w) == (n*c)*(f*w)
      F.MulComm(f, n);
      F.MulAssoc(n, f, w);
      F.MulAssoc(c, n, F.Mul(f, w));
      F.MulComm(c, n);
    }
  }

  /** Closed form: the falling-factorial formula is the r-fold formal derivative at x. */
  lemma {:induction false} ClosedForm<T(!new)>(F: Field<T>, p: seq<T>, x: T, r: nat)
    requires F.Laws()
    ensures DerivativeValue(F, p, x, r) == Eval(F, DerivativeN(F, p, r), x)
    decreases r
  {
    if r == 0 {
      OrderZeroIsEval(F, p, x);
    } else {
      OrderStep(F, p, x, r - 1);
      ClosedForm(F, Derivative(F, p), x, r - 1);
    }
  }

  lemma {:induction false} PowerNonZero<T(!new)>(F: Field<T>, x: T, e: nat)
    requires F.Laws() && x != F.zero
    ensures Power(F, x, e) != F.zero
  {
    if e > 0 {
      PowerNonZero(F, x, e - 1);
      F.NoZeroDivisors(Power(F, x, e - 1), x);
    }
  }

  lemma {:induction false} FallingNonZero<T(!new)>(F: Field<T>, d: nat, r: nat)
    requires F.Laws() && F.LargeCharacteristic() && r <= d <= 65535
    ensures Falling(F, d, r) != F.zero
  {
    if r > 0 {
      FallingNonZero(F, d - 1, r - 1);
      F.NoZeroDivisors(Falling(F, d - 1, r - 1), F.Nat(d));
    }
  }

  /** For u16 degrees and a non-zero point, a basis value vanishes exactly when the order
      exceeds the degree; the program's vanishes for X^65535 itself as well. */
  lemma BasisZero<T(!new)>(F: Field<T>, d: U16, r: nat, x: T)
    requires F.Laws() && F.LargeCharacteristic() && x != F.zero
    ensures Basis(F, d, r, x) == F.zero <==> r > d
    ensures WrappedBasis(F, d, r, x) == F.zero <==> r > d || (d == 65535 && r == 0)
  {
    if r <= d {
      FallingNonZero(F, d, r);
      PowerNonZero(F, x, d - r);
      F.NoZeroDivisors(Falling(F, d, r), Power(F, x, d - r));
    }
  }

  /** Trailing zero coefficients do not change a value. */
  lemma {:induction false} PadValue<T(!new)>(F: Field<T>, p: seq<T>, n: nat, x: T, r: nat)
    requires F.Laws()
    ensures DerivativeValue(F, p + Zeros(F, n), x, r) == DerivativeValue(F, p, x, r)
    decreases n
  {
    if n == 0 {
      assert p + Zeros(F, 0) == p;
    } else {
      PadValue(F, p, n - 1, x, r);
      var q := p + Zeros(F, n);
      var k := |q| - 1;
      assert q[..k] == p + Zeros(F, n - 1);
      assert BasisRow(F, |q|, r, x)[..k] == BasisRow(F, k, r, x);
      F.MulZero(Basis(F, k, r, x));
      F.AddZero(DerivativeValue(F, q[..k], x, r));
    }
  }

  /** The last coefficient's part of a value. */
  lemma ValueLast<T(!new)>(F: Field<T>, p: seq<T>, x: T, r: nat)
    requires |p| > 0
    ensures
      var k := |p| - 1;
      DerivativeValue(F, p, x, r) == F.Add(DerivativeValue(F, p[..k], x, r), F.Mul(p[k], Basis(F, k, r, x)))
  {
    var k := |p| - 1;
    assert BasisRow(F, |p|, r, x)[..k] == BasisRow(F, k, r, x);
  }

  /** Values are additive and homogeneous in the coefficients. */
  lemma ValueAdd<T(!new)>(F: Field<T>, p: seq<T>, q: seq<T>, s: seq<T>, x: T, r: nat)
    requires F.Laws() && |p| == |q| == |s| && forall i :: 0 <= i < |p| ==> s[i] == F.Add(p[i], q[i])
    ensures DerivativeValue(F, s, x, r) == F.Add(DerivativeValue(F, p, x, r), DerivativeValue(F, q, x, r))
  {
    DotAdd(F, p, q, s, BasisRow(F, |p|, r, x));
  }

  lemma ValueNeg<T(!new)>(F: Field<T>, p: seq<T>, q: seq<T>, x: T, r: nat)
    requires F.Laws() && |p| == |q| && forall i :: 0 <= i < |p| ==> q[i] == F.Neg(p[i])
    ensures DerivativeValue(F, q, x, r) == F.Neg(DerivativeValue(F, p, x, r))
  {
    var row, m := BasisRow(F, |p|, r, x), F.Neg(F.one);
    forall i | 0 <= i < |p|
      ensures q[i] == F.Mul(m, p[i])
    {
      F.NegMul(F.one, p[i]);
      F.MulOne(p[i]);
    }
    DotScale(F, m, p, q, row);
    F.NegMul(F.one, Dot(F, p, row));
    F.MulOne(Dot(F, p, row));
  }

  // ---------------------------------------------------------------- products of roots

  /** (X - a) * p */
  function MulLinear<T(!new)>(F: Field<T>, p: seq<T>, a: T): (q: seq<T>)
    ensures |q| == |p| + 1
  {
    if |p| == 0 then [F.zero]
    else
      var tail := MulLinear(F, p[1..], a);
      [F.Neg(F.Mul(a, p[0]))] + [F.Add(p[0], tail[0])] + tail[1..]
  }

  lemma {:induction false} EvalMulLinear<T(!new)>(F: Field<T>, p: seq<T>, a: T, x: T)
    requires F.Laws()
    ensures Eval(F, MulLinear(F, p, a), x) == F.Mul(F.Sub(x, a), Eval(F, p, x))
  {
    var b := F.Sub(x, a);
    if |p| == 0 {
      F.MulZero(b);
      F.MulZero(x);
      F.AddZero(F.zero);
    } else {
      var q, tail := MulLinear(F, p, a), MulLinear(F, p[1..], a);
      EvalMulLinear(F, p[1..], a, x);
      var e, t := Eval(F, p[1..], x), Eval(F, tail[1..], x);
      assert q[1..][1..] == tail[1..];
      // -(a p0) + x (p0 + tail(x))
      F.AddAssoc(p[0], tail[0], F.Mul(x, t));
      F.Distrib(x, p[0], F.Mul(b, e));
      F.AddAssoc(F.Neg(F.Mul(a, p[0])), F.Mul(x, p[0]), F.Mul(x, F.Mul(b, e)));
      F.AddComm(F.Neg(F.Mul(a, p[0])), F.Mul(x, p[0]));
      F.NegMul(a, p[0]);
      F.Distrib(p[0], x, F.Neg(a));
      F.MulAssoc(x, b, e);
      F.MulComm(x, b);
      F.MulAssoc(b, x, e);
      F.Distrib(b, p[0], F.Mul(x, e));
    }
  }

  /** The product of (X - r) over the given roots. */
  function RootPoly<T(!new)>(F: Field<T>, roots: seq<T>): (p: seq<T>)
    ensures |p| == |roots| + 1
  {
    if |roots| == 0 then [F.one]
    else MulLinear(F, RootPoly(F, roots[..|roots| - 1]), roots[|roots| - 1])
  }

  function ProductOfDifferences<T(!new)>(F: Field<T>, x: T, roots: seq<T>): T {
    if |roots| == 0 then F.one
    else F.Mul(F.Sub(x, roots[|roots| - 1]), ProductOfDifferences(F, x, roots[..|roots| - 1]))
  }

  lemma {:induction false} EvalRootPoly<T(!new)>(F: Field<T>, roots: seq<T>, x: T)
    requires F.Laws()
    ensures Eval(F, RootPoly(F, roots), x) == ProductOfDifferences(F, x, roots)
  {
    if |roots| == 0 {
      F.MulZero(x);
      F.AddZero(F.one);
    } else {
      var k := |roots| - 1;
      EvalRootPoly(F, roots[..k], x);
      EvalMulLinear(F, RootPoly(F, roots[..k]), roots[k], x);
    }
  }

  lemma {:induction false} ProductZero<T(!new)>(F: Field<T>, x: T, roots: seq<T>)
    requires F.Laws()
    ensures ProductOfDifferences(F, x, roots) == F.zero <==> x in roots
  {
    if |roots| == 0 {
    } else {
      var k := |roots| - 1;
      var d, rest := F.Sub(x, roots[k]), ProductOfDifferences(F, x, roots[..k]);
      ProductZero(F, x, roots[..k]);
      F.SubZero(x, roots[k]);
      F.MulZero(rest);
      F.MulZero(d);
      if d != F.zero && rest != F.zero {
        F.NoZeroDivisors(d, rest);
      }
      assert roots == roots[..k] + [roots[k]];
    }
  }
}
