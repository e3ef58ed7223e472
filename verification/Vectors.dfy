/**
  Vectors and matrices over a field: dot products, matrix-vector products,
  transposition, and sums over a list in any order.
 */
module Vectors {
  import opened Fields
  import opened Lists

  type Matrix<T> = seq<seq<T>>

  /** u[0]*v[0] + ... + u[n-1]*v[n-1], added from the left. */
  function Dot<T(!new)>(F: Field<T>, u: seq<T>, v: seq<T>): T
    requires |u| == |v|
  {
    if |u| == 0 then F.zero
    else
      var k := |u| - 1;
      F.Add(Dot(F, u[..k], v[..k]), F.Mul(u[k], v[k]))
  }

  function Zeros<T(!new)>(F: Field<T>, n: nat): (z: seq<T>)
    ensures |z| == n && forall i :: 0 <= i < n ==> z[i] == F.zero
  {
    seq(n, _ => F.zero)
  }

  /** The i-th standard basis vector of length n. */
  function Unit<T(!new)>(F: Field<T>, n: nat, i: nat): (e: seq<T>)
    ensures |e| == n && forall j :: 0 <= j < n ==> e[j] == (if j == i then F.one else F.zero)
  {
    seq(n, j => if j == i then F.one else F.zero)
  }

  ghost predicate IsMatrix<T>(m: Matrix<T>, rows: nat, cols: nat) {
    |m| == rows && forall i :: 0 <= i < rows ==> |m[i]| == cols
  }

  function MatVec<T(!new)>(F: Field<T>, m: Matrix<T>, x: seq<T>): (y: seq<T>)
    requires forall i :: 0 <= i < |m| ==> |m[i]| == |x|
    ensures |y| == |m| && forall i :: 0 <= i < |m| ==> y[i] == Dot(F, m[i], x)
  {
    seq(|m|, i requires 0 <= i < |m| => Dot(F, m[i], x))
  }

  function Column<T>(m: Matrix<T>, j: nat): (c: seq<T>)
    requires forall i :: 0 <= i < |m| ==> j < |m[i]|
    ensures |c| == |m| && forall i :: 0 <= i < |m| ==> c[i] == m[i][j]
  {
    seq(|m|, i requires 0 <= i < |m| => m[i][j])
  }

  function Transpose<T>(m: Matrix<T>, cols: nat): (t: Matrix<T>)
    requires forall i :: 0 <= i < |m| ==> |m[i]| == cols
    ensures |t| == cols && forall j :: 0 <= j < cols ==> t[j] == Column(m, j)
  {
    seq(cols, j requires 0 <= j < cols => Column(m, j))
  }

  lemma {:induction false} DotComm<T(!new)>(F: Field<T>, u: seq<T>, v: seq<T>)
    requires F.Laws() && |u| == |v|
    ensures Dot(F, u, v) == Dot(F, v, u)
  {
    if |u| > 0 {
      var k := |u| - 1;
      DotComm(F, u[..k], v[..k]);
      F.MulComm(u[k], v[k]);
    }
  }

  lemma {:induction false} DotZero<T(!new)>(F: Field<T>, u: seq<T>, v: seq<T>)
    requires F.Laws() && |u| == |v|
    requires forall i :: 0 <= i < |u| ==> u[i] == F.zero || v[i] == F.zero
    ensures Dot(F, u, v) == F.zero
  {
    if |u| > 0 {
      var k := |u| - 1;
      DotZero(F, u[..k], v[..k]);
      F.MulZero(u[k]);
      F.MulZero(v[k]);
      F.AddZero(F.zero);
    }
  }

  /** Only position `k` contributes. */
  lemma {:induction false} DotSingle<T(!new)>(F: Field<T>, u: seq<T>, v: seq<T>, k: nat)
    requires F.Laws() && |u| == |v| && k < |u|
    requires forall i :: 0 <= i < |u| && i != k ==> u[i] == F.zero || v[i] == F.zero
    ensures Dot(F, u, v) == F.Mul(u[k], v[k])
  {
    var l := |u| - 1;
    if k == l {
      DotZero(F, u[..l], v[..l]);
      F.AddZero(F.Mul(u[k], v[k]));
    } else {
      DotSingle(F, u[..l], v[..l], k);
      F.MulZero(u[l]);
      F.MulZero(v[l]);
      F.AddZero(F.Mul(u[k], v[k]));
    }
  }

  lemma {:induction false} DotAdd<T(!new)>(F: Field<T>, u: seq<T>, v: seq<T>, w: seq<T>, x: seq<T>)
    requires F.Laws() && |u| == |v| == |w| == |x|
    requires forall i :: 0 <= i < |u| ==> w[i] == F.Add(u[i], v[i])
    ensures Dot(F, w, x) == F.Add(Dot(F, u, x), Dot(F, v, x))
  {
    if |u| == 0 {
      F.AddZero(F.zero);
    } else {
      var k := |u| - 1;
      DotAdd(F, u[..k], v[..k], w[..k], x[..k]);
      F.Distrib(x[k], u[k], v[k]);
      F.AddSwap(Dot(F, u[..k], x[..k]), Dot(F, v[..k], x[..k]), F.Mul(u[k], x[k]), F.Mul(v[k], x[k]));
    }
  }

  lemma {:induction false} DotScale<T(!new)>(F: Field<T>, s: T, u: seq<T>, w: seq<T>, x: seq<T>)
    requires F.Laws() && |u| == |w| == |x|
    requires forall i :: 0 <= i < |u| ==> w[i] == F.Mul(s, u[i])
    ensures Dot(F, w, x) == F.Mul(s, Dot(F, u, x))
  {
    if |u| == 0 {
      F.MulZero(s);
    } else {
      var k := |u| - 1;
      DotScale(F, s, u[..k], w[..k], x[..k]);
      F.MulAssoc(s, u[k], x[k]);
      F.Distrib(s, Dot(F, u[..k], x[..k]), F.Mul(u[k], x[k]));
    }
  }

  /** Subtracting a multiple of one row from another. */
  lemma DotElim<T(!new)>(F: Field<T>, r: seq<T>, f: T, p: seq<T>, w: seq<T>, x: seq<T>)
    requires F.Laws() && |r| == |p| == |w| == |x|
    requires forall i :: 0 <= i < |r| ==> w[i] == F.Sub(r[i], F.Mul(f, p[i]))
    ensures Dot(F, w, x) == F.Sub(Dot(F, r, x), F.Mul(f, Dot(F, p, x)))
  {
    var q := seq(|p|, i requires 0 <= i < |p| => F.Mul(F.Neg(f), p[i]));
    DotScale(F, F.Neg(f), p, q, x);
    forall i | 0 <= i < |r|
      ensures w[i] == F.Add(r[i], q[i])
    {
      F.NegMul(f, p[i]);
    }
    DotAdd(F, r, q, w, x);
    F.NegMul(f, Dot(F, p, x));
  }

  /** The last row's share of M^T y, at column j. */
  lemma TransposeLastRow<T(!new)>(F: Field<T>, m: Matrix<T>, y: seq<T>, n: nat, j: nat)
    requires F.Laws() && |y| == |m| > 0 && IsMatrix(m, |m|, n) && j < n
    ensures
      var k := |m| - 1;
      MatVec(F, Transpose(m, n), y)[j]
        == F.Add(MatVec(F, Transpose(m[..k], n), y[..k])[j], F.Mul(y[k], m[k][j]))
  {
    var k := |m| - 1;
    assert Column(m, j)[..k] == Column(m[..k], j);
    F.MulComm(y[k], m[k][j]);
  }

  /** y . (M x) == (M^T y) . x */
  lemma {:induction false} Adjoint<T(!new)>(F: Field<T>, m: Matrix<T>, y: seq<T>, x: seq<T>)
    requires F.Laws() && |y| == |m| && IsMatrix(m, |m|, |x|)
    ensures Dot(F, y, MatVec(F, m, x)) == Dot(F, MatVec(F, Transpose(m, |x|), y), x)
  {
    var w := MatVec(F, Transpose(m, |x|), y);
    if |m| == 0 {
      DotZero(F, w, x);
    } else {
      var k := |m| - 1;
      var m' := m[..k];
      Adjoint(F, m', y[..k], x);
      assert MatVec(F, m, x)[..k] == MatVec(F, m', x);
      var w' := MatVec(F, Transpose(m', |x|), y[..k]);
      var s := seq(|x|, j requires 0 <= j < |x| => F.Mul(y[k], m[k][j]));
      forall j | 0 <= j < |x|
        ensures w[j] == F.Add(w'[j], s[j])
      {
        TransposeLastRow(F, m, y, |x|, j);
      }
      DotScale(F, y[k], m[k], s, x);
      DotAdd(F, w', s, w, x);
    }
  }

  /** A matrix whose transpose reaches every unit vector has a trivial kernel. */
  lemma SurjectiveTransposeKernel<T(!new)>(F: Field<T>, m: Matrix<T>, y: seq<T>, x: seq<T>, j: nat)
    requires F.Laws() && |y| == |m| && IsMatrix(m, |m|, |x|) && j < |x|
    requires MatVec(F, Transpose(m, |x|), y) == Unit(F, |x|, j)
    requires MatVec(F, m, x) == Zeros(F, |m|)
    ensures x[j] == F.zero
  {
    Adjoint(F, m, y, x);
    DotZero(F, y, MatVec(F, m, x));
    DotSingle(F, Unit(F, |x|, j), x, j);
    F.MulOne(x[j]);
  }

  /** The sum of g over a list, added from the left. */
  function SumBy<P, T(!new)>(F: Field<T>, g: P -> T, s: seq<P>): T {
    if |s| == 0 then F.zero else F.Add(SumBy(F, g, s[..|s| - 1]), g(s[|s| - 1]))
  }

  lemma {:induction false} SumByRemove<P, T(!new)>(F: Field<T>, g: P -> T, s: seq<P>, k: nat)
    requires F.Laws() && k < |s|
    ensures SumBy(F, g, s) == F.Add(SumBy(F, g, Without(s, k)), g(s[k]))
  {
    var l := |s| - 1;
    var rest := Without(s, k);
    if k == l {
      assert rest == s[..l];
    } else {
      SumByRemove(F, g, s[..l], k);
      assert rest[..l - 1] == Without(s[..l], k);
      var a := SumBy(F, g, rest[..l - 1]);
      F.AddAssoc(a, g(s[k]), g(s[l]));
      F.AddComm(g(s[k]), g(s[l]));
      F.AddAssoc(a, g(s[l]), g(s[k]));
    }
  }

  /** A sum does not depend on the order of the list. */
  lemma {:induction false} SumByOrder<P, T(!new)>(F: Field<T>, g: P -> T, a: seq<P>, b: seq<P>)
    requires F.Laws() && multiset(a) == multiset(b)
    ensures SumBy(F, g, a) == SumBy(F, g, b)
  {
    if |a| == 0 {
      assert |multiset(b)| == |b|;
    } else {
      var k := TakeOut(a, b);
      SumByRemove(F, g, b, k);
      SumByOrder(F, g, a[..|a| - 1], Without(b, k));
    }
  }

  /** Sums with equal terms are equal, also over lists of different things. */
  lemma {:induction false} SumByTerms<P, Q, T(!new)>(F: Field<T>, g: P -> T, a: seq<P>, h: Q -> T, b: seq<Q>)
    requires |a| == |b| && forall i :: 0 <= i < |a| ==> g(a[i]) == h(b[i])
    ensures SumBy(F, g, a) == SumBy(F, h, b)
  {
    if |a| > 0 {
      SumByTerms(F, g, a[..|a| - 1], h, b[..|b| - 1]);
    }
  }

  /** A dot product whose terms are g of the list entries is the sum of g. */
  lemma {:induction false} DotIsSumBy<P, T(!new)>(F: Field<T>, u: seq<T>, v: seq<T>, g: P -> T, s: seq<P>)
    requires |u| == |v| == |s|
    requires forall i :: 0 <= i < |s| ==> F.Mul(u[i], v[i]) == g(s[i])
    ensures Dot(F, u, v) == SumBy(F, g, s)
  {
    if |s| > 0 {
      var k := |s| - 1;
      DotIsSumBy(F, u[..k], v[..k], g, s[..k]);
    }
  }

  /** The sum of a vector, added from the left. */
  function Total<T(!new)>(F: Field<T>, v: seq<T>): T {
    if |v| == 0 then F.zero else F.Add(Total(F, v[..|v| - 1]), v[|v| - 1])
  }

  lemma {:induction false} TotalAdd<T(!new)>(F: Field<T>, u: seq<T>, v: seq<T>, w: seq<T>)
    requires F.Laws() && |u| == |v| == |w| && forall i :: 0 <= i < |u| ==> w[i] == F.Add(u[i], v[i])
    ensures Total(F, w) == F.Add(Total(F, u), Total(F, v))
  {
    if |u| == 0 {
      F.AddZero(F.zero);
    } else {
      var k := |u| - 1;
      TotalAdd(F, u[..k], v[..k], w[..k]);
      F.AddSwap(Total(F, u[..k]), Total(F, v[..k]), u[k], v[k]);
    }
  }

  /** The sum of s*(u_i*v_i) is s times the dot product. */
  lemma {:induction false} TotalScaledDot<T(!new)>(F: Field<T>, s: T, u: seq<T>, v: seq<T>, w: seq<T>)
    requires F.Laws() && |u| == |v| == |w| && forall i :: 0 <= i < |u| ==> w[i] == F.Mul(s, F.Mul(u[i], v[i]))
    ensures Total(F, w) == F.Mul(s, Dot(F, u, v))
  {
    if |u| == 0 {
      F.MulZero(s);
    } else {
      var k := |u| - 1;
      TotalScaledDot(F, s, u[..k], v[..k], w[..k]);
      F.Distrib(s, Dot(F, u[..k], v[..k]), F.Mul(u[k], v[k]));
    }
  }

  lemma {:induction false} TotalNegIf<T(!new)>(F: Field<T>, flip: bool, v: seq<T>, w: seq<T>)
    requires F.Laws() && |v| == |w| && forall i :: 0 <= i < |v| ==> w[i] == F.NegIf(flip, v[i])
    ensures Total(F, w) == F.NegIf(flip, Total(F, v))
  {
    if |v| == 0 {
      F.NegNeg(F.zero);
    } else {
      var k := |v| - 1;
      TotalNegIf(F, flip, v[..k], w[..k]);
      F.NegAdd(Total(F, v[..k]), v[k]);
    }
  }

  lemma {:induction false} TotalIsSumBy<P, T(!new)>(F: Field<T>, g: P -> T, s: seq<P>, v: seq<T>)
    requires |s| == |v| && forall i :: 0 <= i < |s| ==> v[i] == g(s[i])
    ensures SumBy(F, g, s) == Total(F, v)
  {
    if |s| > 0 {
      TotalIsSumBy(F, g, s[..|s| - 1], v[..|v| - 1]);
    }
  }
}
