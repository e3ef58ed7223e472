/**
  The in-place Gauss-Jordan solver of dkgkit-frost (solve_scalar_system): a
  functional description of one elimination step, its linear algebra, and the
  array program that performs it.
 */
module GaussJordan {
  import opened Fields
  import opened Vectors

  datatype Solution<T> = NotSquare | Singular | Solved(x: seq<T>)

  // ---------------------------------------------------------------- one step

  /** The first row at or below `row` with a non-zero entry in `col`; |m| if there is none. */
  function FindPivot<T(==, !new)>(F: Field<T>, m: Matrix<T>, col: nat, row: nat): (p: nat)
    requires IsMatrix(m, |m|, |m|) && col < |m| && row <= |m|
    ensures row <= p <= |m|
    ensures p < |m| ==> m[p][col] != F.zero
    ensures forall i :: row <= i < p ==> m[i][col] == F.zero
    decreases |m| - row
  {
    if row == |m| || m[row][col] != F.zero then row else FindPivot(F, m, col, row + 1)
  }

  function Swap<A>(s: seq<A>, i: nat, j: nat): (t: seq<A>)
    requires i < |s| && j < |s|
    ensures |t| == |s|
  {
    s[i := s[j]][j := s[i]]
  }

  /** Scales the entries of a row from column `col` on. */
  function ScaleFrom<T(!new)>(F: Field<T>, r: seq<T>, col: nat, c: T): (w: seq<T>)
    ensures |w| == |r|
  {
    seq(|r|, j requires 0 <= j < |r| => if j < col then r[j] else F.Mul(r[j], c))
  }

  /** Subtracts f times the pivot row from a row, from column `col` on. */
  function ElimFrom<T(!new)>(F: Field<T>, r: seq<T>, col: nat, f: T, p: seq<T>): (w: seq<T>)
    requires |p| == |r|
    ensures |w| == |r|
  {
    seq(|r|, j requires 0 <= j < |r| => if j < col then r[j] else F.Sub(r[j], F.Mul(f, p[j])))
  }

  /** Swap the pivot into place and scale its row to a leading one. */
  function Normalize<T(!new)>(F: Field<T>, m: Matrix<T>, col: nat, p: nat): (m': Matrix<T>)
    requires IsMatrix(m, |m|, |m|) && col <= p < |m|
    ensures IsMatrix(m', |m|, |m|)
  {
    var s := Swap(m, p, col);
    s[col := ScaleFrom(F, s[col], col, F.Inv(m[p][col]))]
  }

  function NormalizeTarget<T(!new)>(F: Field<T>, m: Matrix<T>, t: seq<T>, col: nat, p: nat): (t': seq<T>)
    requires IsMatrix(m, |m|, |m|) && |t| == |m| && col <= p < |m|
    ensures |t'| == |t|
  {
    var s := Swap(t, p, col);
    s[col := F.Mul(s[col], F.Inv(m[p][col]))]
  }

  /** Clear column `col` in every row but the pivot row. */
  function Clear<T(!new)>(F: Field<T>, m: Matrix<T>, col: nat): (m': Matrix<T>)
    requires IsMatrix(m, |m|, |m|) && col < |m|
    ensures IsMatrix(m', |m|, |m|)
  {
    seq(|m|, i requires 0 <= i < |m| => if i == col then m[i] else ElimFrom(F, m[i], col, m[i][col], m[col]))
  }

  function ClearTarget<T(!new)>(F: Field<T>, m: Matrix<T>, t: seq<T>, col: nat): (t': seq<T>)
    requires IsMatrix(m, |m|, |m|) && |t| == |m| && col < |m|
    ensures |t'| == |t|
  {
    seq(|m|, i requires 0 <= i < |m| => if i == col then t[i] else F.Sub(t[i], F.Mul(m[i][col], t[col])))
  }

  /** Elimination from column `col` on: Singular when some column has no pivot. */
  function Eliminate<T(==, !new)>(F: Field<T>, m: Matrix<T>, t: seq<T>, col: nat): (r: Solution<T>)
    requires IsMatrix(m, |m|, |m|) && |t| == |m| && col <= |m|
    ensures r.Singular? || (r.Solved? && |r.x| == |m|)
    decreases |m| - col
  {
    if col == |m| then Solved(t)
    else
      var p := FindPivot(F, m, col, col);
      if p == |m| then Singular
      else
        var m1 := Normalize(F, m, col, p);
        var t1 := NormalizeTarget(F, m, t, col, p);
        Eliminate(F, Clear(F, m1, col), ClearTarget(F, m1, t1, col), col + 1)
  }

  predicate IsSquare<T>(m: Matrix<T>) { forall i :: 0 <= i < |m| ==> |m[i]| == |m| }

  function Solve<T(==, !new)>(F: Field<T>, m: Matrix<T>, t: seq<T>): Solution<T> {
    if |t| != |m| || !IsSquare(m) then NotSquare else Eliminate(F, m, t, 0)
  }

  // ---------------------------------------------------------------- linear algebra

  /** The columns before `col` are those of the identity matrix. */
  ghost predicate Reduced<T(!new)>(F: Field<T>, m: Matrix<T>, col: nat) {
    && IsMatrix(m, |m|, |m|)
    && col <= |m|
    && forall i, j :: 0 <= i < |m| && 0 <= j < col ==> m[i][j] == (if i == j then F.one else F.zero)
  }

  ghost predicate TrivialKernel<T(!new)>(F: Field<T>, m: Matrix<T>)
    requires IsMatrix(m, |m|, |m|)
  {
    forall v: seq<T> {:trigger MatVec(F, m, v)} :: |v| == |m| && MatVec(F, m, v) == Zeros(F, |m|) ==> v == Zeros(F, |m|)
  }

  /** A row operation on the matrix acts on M x exactly as on the target. */
  lemma NormalizeMatVec<T(!new)>(F: Field<T>, m: Matrix<T>, col: nat, p: nat, x: seq<T>)
    requires F.Laws() && Reduced(F, m, col) && col <= p < |m| && m[p][col] != F.zero && |x| == |m|
    ensures MatVec(F, Normalize(F, m, col, p), x) == NormalizeTarget(F, m, MatVec(F, m, x), col, p)
  {
    var s, c := Swap(m, p, col), F.Inv(m[p][col]);
    var w := ScaleFrom(F, s[col], col, c);
    forall j | 0 <= j < |m|
      ensures w[j] == F.Mul(c, s[col][j])
    {
      F.MulComm(s[col][j], c);
      F.MulZero(c);
    }
    DotScale(F, c, s[col], w, x);
    F.MulComm(c, Dot(F, s[col], x));
  }

  lemma ClearMatVec<T(!new)>(F: Field<T>, m: Matrix<T>, col: nat, x: seq<T>)
    requires F.Laws() && Reduced(F, m, col) && col < |m| && |x| == |m|
    ensures MatVec(F, Clear(F, m, col), x) == ClearTarget(F, m, MatVec(F, m, x), col)
  {
    forall i | 0 <= i < |m| && i != col
      ensures Dot(F, Clear(F, m, col)[i], x) == F.Sub(Dot(F, m[i], x), F.Mul(m[i][col], Dot(F, m[col], x)))
    {
      var w := ElimFrom(F, m[i], col, m[i][col], m[col]);
      forall j | 0 <= j < |m|
        ensures w[j] == F.Sub(m[i][j], F.Mul(m[i][col], m[col][j]))
      {
        F.MulZero(m[i][col]);
        F.NegNeg(F.zero);
        F.AddZero(m[i][j]);
      }
      DotElim(F, m[i], m[i][col], m[col], w, x);
    }
  }

  lemma StepReduced<T(!new)>(F: Field<T>, m: Matrix<T>, col: nat, p: nat)
    requires F.Laws() && Reduced(F, m, col) && col <= p < |m| && m[p][col] != F.zero
    ensures Reduced(F, Normalize(F, m, col, p), col)
    ensures Reduced(F, Clear(F, Normalize(F, m, col, p), col), col + 1)
  {
    var m1 := Normalize(F, m, col, p);
    F.MulInv(m[p][col]);
    assert m1[col][col] == F.one;
    assert Reduced(F, m1, col);
    var m2 := Clear(F, m1, col);
    forall i, j | 0 <= i < |m| && 0 <= j < col + 1
      ensures m2[i][j] == (if i == j then F.one else F.zero)
    {
      F.MulOne(m1[i][col]);
      F.AddNeg(m1[i][col]);
    }
  }

  /** Both halves of a step lose nothing: equal results mean equal targets. */
  lemma NormalizeInjective<T(!new)>(F: Field<T>, m: Matrix<T>, s: seq<T>, t: seq<T>, col: nat, p: nat)
    requires F.Laws() && IsMatrix(m, |m|, |m|) && |s| == |t| == |m| && col <= p < |m| && m[p][col] != F.zero
    requires NormalizeTarget(F, m, s, col, p) == NormalizeTarget(F, m, t, col, p)
    ensures s == t
  {
    var c := F.Inv(m[p][col]);
    F.InvNonZero(m[p][col]);
    var s1, t1 := NormalizeTarget(F, m, s, col, p), NormalizeTarget(F, m, t, col, p);
    assert s1[col] == F.Mul(s[p], c) && t1[col] == F.Mul(t[p], c);
    F.MulComm(c, s[p]);
    F.MulComm(c, t[p]);
    F.MulCancel(c, s[p], t[p]);
    forall i | 0 <= i < |m|
      ensures s[i] == t[i]
    {
      if i == col {
        assert col != p ==> s1[p] == s[col] && t1[p] == t[col];
      } else if i != p {
        assert s1[i] == s[i] && t1[i] == t[i];
      }
    }
  }

  lemma ClearInjective<T(!new)>(F: Field<T>, m: Matrix<T>, s: seq<T>, t: seq<T>, col: nat)
    requires F.Laws() && IsMatrix(m, |m|, |m|) && |s| == |t| == |m| && col < |m|
    requires ClearTarget(F, m, s, col) == ClearTarget(F, m, t, col)
    ensures s == t
  {
    assert ClearTarget(F, m, s, col)[col] == s[col] && ClearTarget(F, m, t, col)[col] == t[col];
    forall i | 0 <= i < |m|
      ensures s[i] == t[i]
    {
      if i != col {
        var d := F.Mul(m[i][col], s[col]);
        assert ClearTarget(F, m, s, col)[i] == F.Sub(s[i], d);
        assert ClearTarget(F, m, t, col)[i] == F.Sub(t[i], d);
        F.AddCancel(s[i], t[i], F.Neg(d));
      }
    }
  }

  /** One step keeps the set of solutions. */
  lemma StepSolutions<T(!new)>(F: Field<T>, m: Matrix<T>, t: seq<T>, col: nat, p: nat, x: seq<T>)
    requires F.Laws() && Reduced(F, m, col) && col <= p < |m| && m[p][col] != F.zero
    requires |t| == |x| == |m|
    ensures
      var m1 := Normalize(F, m, col, p);
      var t2 := ClearTarget(F, m1, NormalizeTarget(F, m, t, col, p), col);
      MatVec(F, m, x) == t <==> MatVec(F, Clear(F, m1, col), x) == t2
  {
    var m1, t1 := Normalize(F, m, col, p), NormalizeTarget(F, m, t, col, p);
    StepReduced(F, m, col, p);
    NormalizeMatVec(F, m, col, p, x);
    ClearMatVec(F, m1, col, x);
    if MatVec(F, Clear(F, m1, col), x) == ClearTarget(F, m1, t1, col) {
      ClearInjective(F, m1, MatVec(F, m1, x), t1, col);
      NormalizeInjective(F, m, MatVec(F, m, x), t, col, p);
    }
  }

  /** The zero target stays zero. */
  lemma StepZeros<T(!new)>(F: Field<T>, m: Matrix<T>, col: nat, p: nat)
    requires F.Laws() && IsMatrix(m, |m|, |m|) && col <= p < |m|
    ensures
      var m1 := Normalize(F, m, col, p);
      ClearTarget(F, m1, NormalizeTarget(F, m, Zeros(F, |m|), col, p), col) == Zeros(F, |m|)
  {
    var m1 := Normalize(F, m, col, p);
    F.MulZero(F.Inv(m[p][col]));
    assert NormalizeTarget(F, m, Zeros(F, |m|), col, p) == Zeros(F, |m|);
    forall i | 0 <= i < |m|
      ensures F.Sub(F.zero, F.Mul(m1[i][col], F.zero)) == F.zero
    {
      F.MulZero(m1[i][col]);
      F.AddNeg(F.zero);
    }
  }

  /** When column `col` has no pivot, it is a combination of the columns before it. */
  lemma PivotlessKernel<T(!new)>(F: Field<T>, m: Matrix<T>, col: nat) returns (v: seq<T>)
    requires F.Laws() && Reduced(F, m, col) && col < |m|
    requires forall i :: col <= i < |m| ==> m[i][col] == F.zero
    ensures |v| == |m| && v != Zeros(F, |m|) && MatVec(F, m, v) == Zeros(F, |m|)
  {
    v := seq(|m|, j requires 0 <= j < |m| =>
      if j < col then F.Neg(m[j][col]) else if j == col then F.one else F.zero);
    assert v[col] == F.one;
    forall i | 0 <= i < |m|
      ensures Dot(F, m[i], v) == F.zero
    {
      if i < col {
        // the identity part picks -m[i][col], the pivotless column adds m[i][col]
        var a := Unit(F, |m|, i);
        var b := seq(|m|, j requires 0 <= j < |m| => if j < col then F.zero else m[i][j]);
        forall j | 0 <= j < |m|
          ensures m[i][j] == F.Add(a[j], b[j])
        {
          F.AddZero(m[i][j]);
        }
        DotAdd(F, a, b, m[i], v);
        DotSingle(F, a, v, i);
        DotSingle(F, b, v, col);
        F.MulOne(v[i]);
        F.MulOne(m[i][col]);
        F.AddNeg(m[i][col]);
      } else {
        DotZero(F, m[i], v);
      }
    }
  }

  /** Whatever reduced state the elimination starts from, a returned vector is the one solution. */
  lemma EliminateSolution<T(!new)>(F: Field<T>, m: Matrix<T>, t: seq<T>, col: nat, y: seq<T>)
    requires F.Laws() && Reduced(F, m, col) && |t| == |y| == |m|
    ensures
      var r := Eliminate(F, m, t, col);
      r.Solved? ==> (MatVec(F, m, y) == t <==> y == r.x)
  {
    EliminateDecides(F, m, t, col, y, MatVec(F, m, y) == t);
  }

  /** The same, with "y solves the system" carried from column to column. */
  lemma {:induction false} EliminateDecides<T(!new)>(
    F: Field<T>, m: Matrix<T>, t: seq<T>, col: nat, y: seq<T>, solves: bool)
    requires F.Laws() && Reduced(F, m, col) && |t| == |y| == |m| && solves == (MatVec(F, m, y) == t)
    ensures Eliminate(F, m, t, col).Solved? ==> (solves <==> y == Eliminate(F, m, t, col).x)
    decreases |m| - col
  {
    if col == |m| {
      IdentityDecides(F, m, t, y, solves);
    } else if FindPivot(F, m, col, col) == |m| {
      NoPivotIsSingular(F, m, t, col);
    } else {
      var p := FindPivot(F, m, col, col);
      var m1, t1 := Normalize(F, m, col, p), NormalizeTarget(F, m, t, col, p);
      var m2, t2 := Clear(F, m1, col), ClearTarget(F, m1, t1, col);
      assert Reduced(F, m2, col + 1) by {
        StepReduced(F, m, col, p);
      }
      assert solves == (MatVec(F, m2, y) == t2) by {
        StepSolutions(F, m, t, col, p, y);
      }
      EliminateDecides(F, m2, t2, col + 1, y, solves);
    }
  }

  lemma IdentityDecides<T(!new)>(F: Field<T>, m: Matrix<T>, t: seq<T>, y: seq<T>, solves: bool)
    requires F.Laws() && Reduced(F, m, |m|) && |t| == |y| == |m| && solves == (MatVec(F, m, y) == t)
    ensures Eliminate(F, m, t, |m|) == Solved(t) && (solves <==> y == t)
  {
    IdentityMatVec(F, m, y);
  }

  lemma NoPivotIsSingular<T(!new)>(F: Field<T>, m: Matrix<T>, t: seq<T>, col: nat)
    requires IsMatrix(m, |m|, |m|) && |t| == |m| && col < |m| && FindPivot(F, m, col, col) == |m|
    ensures Eliminate(F, m, t, col).Singular?
  {
  }

  /** A fully reduced matrix is the identity. */
  lemma IdentityMatVec<T(!new)>(F: Field<T>, m: Matrix<T>, y: seq<T>)
    requires F.Laws() && Reduced(F, m, |m|) && |y| == |m|
    ensures MatVec(F, m, y) == y
  {
    forall i | 0 <= i < |m|
      ensures Dot(F, m[i], y) == y[i]
    {
      DotSingle(F, m[i], y, i);
      F.MulOne(y[i]);
    }
  }

  /** On a reduced system a failure comes with a non-zero kernel vector. */
  lemma {:induction false} EliminateKernel<T(!new)>(F: Field<T>, m: Matrix<T>, t: seq<T>, col: nat) returns (v: seq<T>)
    requires F.Laws() && Reduced(F, m, col) && |t| == |m| && Eliminate(F, m, t, col).Singular?
    ensures |v| == |m| && v != Zeros(F, |m|) && MatVec(F, m, v) == Zeros(F, |m|)
    decreases |m| - col
  {
    var p := FindPivot(F, m, col, col);
    if p == |m| {
      v := PivotlessKernel(F, m, col);
    } else {
      StepReduced(F, m, col, p);
      var m1 := Normalize(F, m, col, p);
      v := EliminateKernel(F, Clear(F, m1, col), ClearTarget(F, m1, NormalizeTarget(F, m, t, col, p), col), col + 1);
      StepSolutions(F, m, Zeros(F, |m|), col, p, v);
      StepZeros(F, m, col, p);
    }
  }

  /** x is the one vector with M x == t. */
  ghost predicate UniqueSolution<T(!new)>(F: Field<T>, m: Matrix<T>, t: seq<T>, x: seq<T>)
    requires IsMatrix(m, |m|, |m|)
  {
    && |x| == |m|
    && MatVec(F, m, x) == t
    && forall y: seq<T> {:trigger MatVec(F, m, y)} :: |y| == |m| && MatVec(F, m, y) == t ==> y == x
  }

  /** Main result: the solver answers Ok exactly when the kernel is trivial, and
      then with the one solution; its singular error has a kernel vector. */
  lemma SolveCorrect<T(!new)>(F: Field<T>, m: Matrix<T>, t: seq<T>)
    requires F.Laws() && IsSquare(m) && |t| == |m|
    ensures !Solve(F, m, t).NotSquare?
    ensures Solve(F, m, t).Solved? <==> TrivialKernel(F, m)
    ensures Solve(F, m, t).Solved? ==> UniqueSolution(F, m, t, Solve(F, m, t).x)
    ensures Solve(F, m, t).Singular? ==>
      exists v: seq<T> {:trigger MatVec(F, m, v)} ::
        |v| == |m| && v != Zeros(F, |m|) && MatVec(F, m, v) == Zeros(F, |m|)
  {
    var r := Solve(F, m, t);
    if r.Solved? {
      EliminateSolution(F, m, t, 0, r.x);
      forall y: seq<T> {:trigger MatVec(F, m, y)} | |y| == |m| && MatVec(F, m, y) == t
        ensures y == r.x
      {
        EliminateSolution(F, m, t, 0, y);
      }
      forall k: seq<T> {:trigger MatVec(F, m, k)} | |k| == |m| && MatVec(F, m, k) == Zeros(F, |m|)
        ensures k == Zeros(F, |m|)
      {
        UniqueMeansTrivial(F, m, t, r.x, k);
      }
    } else {
      var v := EliminateKernel(F, m, t, 0);
    }
  }

  lemma UniqueMeansTrivial<T(!new)>(F: Field<T>, m: Matrix<T>, t: seq<T>, x: seq<T>, k: seq<T>)
    requires F.Laws() && IsMatrix(m, |m|, |m|) && UniqueSolution(F, m, t, x)
    requires |k| == |m| && MatVec(F, m, k) == Zeros(F, |m|)
    ensures k == Zeros(F, |m|)
  {
    var y := seq(|m|, i requires 0 <= i < |m| => F.Add(x[i], k[i]));
    assert y == x by {
      KernelShift(F, m, x, k);
    }
    forall i | 0 <= i < |m|
      ensures k[i] == F.zero
    {
      assert y[i] == F.Add(x[i], k[i]);
      F.AddZero(x[i]);
      F.AddComm(x[i], k[i]);
      F.AddCancel(k[i], F.zero, x[i]);
    }
  }

  /** Adding a kernel vector does not change M x. */
  lemma KernelShift<T(!new)>(F: Field<T>, m: Matrix<T>, x: seq<T>, k: seq<T>)
    requires F.Laws() && IsMatrix(m, |m|, |m|) && |x| == |k| == |m| && MatVec(F, m, k) == Zeros(F, |m|)
    ensures MatVec(F, m, seq(|m|, i requires 0 <= i < |m| => F.Add(x[i], k[i]))) == MatVec(F, m, x)
  {
    var y := seq(|m|, i requires 0 <= i < |m| => F.Add(x[i], k[i]));
    forall i | 0 <= i < |m|
      ensures Dot(F, m[i], y) == Dot(F, m[i], x)
    {
      DotComm(F, m[i], y);
      DotAdd(F, x, k, y, m[i]);
      DotComm(F, x, m[i]);
      DotComm(F, k, m[i]);
      assert MatVec(F, m, k)[i] == F.zero;
      F.AddZero(Dot(F, m[i], x));
    }
  }

  // ---------------------------------------------------------------- the array program

  /** The array holds the matrix m. */
  ghost predicate Holds<T>(a: array2<T>, m: Matrix<T>)
    reads a
  {
    && a.Length0 == |m| && a.Length1 == |m| && IsMatrix(m, |m|, |m|)
    && forall i, j :: 0 <= i < |m| && 0 <= j < |m| ==> a[i, j] == m[i][j]
  }

  method PivotRow<T(==, !new)>(F: Field<T>, a: array2<T>, ghost m: Matrix<T>, col: nat) returns (p: nat)
    requires Holds(a, m) && col < |m|
    ensures p == FindPivot(F, m, col, col)
  {
    p := col;
    while p < a.Length0 && a[p, col] == F.zero
      invariant col <= p <= |m| && FindPivot(F, m, col, col) == FindPivot(F, m, col, p)
    {
      p := p + 1;
    }
  }

  method SwapRows<T>(a: array2<T>, ghost m: Matrix<T>, p: nat, q: nat)
    requires Holds(a, m) && p < |m| && q < |m|
    modifies a
    ensures Holds(a, Swap(m, p, q))
  {
    var c := 0;
    while c < a.Length1
      invariant 0 <= c <= |m|
      invariant forall i, j :: 0 <= i < |m| && 0 <= j < |m| ==>
        a[i, j] == (if j < c then Swap(m, p, q)[i][j] else m[i][j])
    {
      a[p, c], a[q, c] := a[q, c], a[p, c];
      c := c + 1;
    }
  }

  method ScaleRow<T(!new)>(F: Field<T>, a: array2<T>, ghost m: Matrix<T>, row: nat, c: T)
    requires Holds(a, m) && row < |m|
    modifies a
    ensures Holds(a, m[row := ScaleFrom(F, m[row], row, c)])
  {
    var k := row;
    while k < a.Length1
      invariant row <= k <= |m|
      invariant forall i, j :: 0 <= i < |m| && 0 <= j < |m| ==>
        a[i, j] == (if i == row && row <= j < k then F.Mul(m[i][j], c) else m[i][j])
    {
      a[row, k] := F.Mul(a[row, k], c);
      k := k + 1;
    }
  }

  method ElimRow<T(!new)>(F: Field<T>, a: array2<T>, ghost m: Matrix<T>, row: nat, col: nat, f: T)
    requires Holds(a, m) && row < |m| && col < |m| && row != col
    modifies a
    ensures Holds(a, m[row := ElimFrom(F, m[row], col, f, m[col])])
  {
    var k := col;
    while k < a.Length1
      invariant col <= k <= |m|
      invariant forall i, j :: 0 <= i < |m| && 0 <= j < |m| ==>
        a[i, j] == (if i == row && col <= j < k then F.Sub(m[i][j], F.Mul(f, m[col][j])) else m[i][j])
    {
      a[row, k] := F.Sub(a[row, k], F.Mul(f, a[col, k]));
      k := k + 1;
    }
  }

  /** A zero factor leaves the row and the target as they are. */
  lemma ZeroFactor<T(!new)>(F: Field<T>, r: seq<T>, col: nat, p: seq<T>, t: T, tc: T)
    requires F.Laws() && |p| == |r|
    ensures ElimFrom(F, r, col, F.zero, p) == r && F.Sub(t, F.Mul(F.zero, tc)) == t
  {
    F.NegNeg(F.zero);
    forall j | 0 <= j < |r|
      ensures F.Sub(r[j], F.Mul(F.zero, p[j])) == r[j]
    {
      F.MulZero(p[j]);
      F.AddZero(r[j]);
    }
    F.MulZero(tc);
    F.AddZero(t);
  }

  /** One row of the clearing loop: a zero factor skips the row. */
  method ClearRow<T(==, !new)>(
    F: Field<T>, a: array2<T>, b: array<T>, ghost m: Matrix<T>, ghost t: seq<T>, row: nat, col: nat)
    requires F.Laws() && Holds(a, m) && b[..] == t && |t| == |m| && row < |m| && col < |m| && row != col
    modifies a, b
    ensures Holds(a, m[row := ElimFrom(F, m[row], col, m[row][col], m[col])])
    ensures b[..] == t[row := F.Sub(t[row], F.Mul(m[row][col], t[col]))]
  {
    var factor := a[row, col];
    if factor == F.zero {
      ZeroFactor(F, m[row], col, m[col], t[row], t[col]);
      assert m[row := m[row]] == m && t[row := t[row]] == t;
    } else {
      ElimRow(F, a, m, row, col, factor);
      b[row] := F.Sub(b[row], F.Mul(factor, b[col]));
    }
  }

  /** Clears column `col` from all other rows, skipping rows that are clear already. */
  method ClearColumn<T(==, !new)>(
    F: Field<T>, a: array2<T>, b: array<T>, ghost m: Matrix<T>, ghost t: seq<T>, col: nat)
    requires F.Laws() && Holds(a, m) && b[..] == t && |t| == |m| && col < |m|
    modifies a, b
    ensures Holds(a, Clear(F, m, col)) && b[..] == ClearTarget(F, m, t, col)
  {
    ghost var cm, ct := Clear(F, m, col), ClearTarget(F, m, t, col);
    ghost var g, u := m, t;
    for row := 0 to a.Length0
      invariant |g| == |u| == |m| && Holds(a, g) && b[..] == u
      invariant forall i :: 0 <= i < |m| ==> g[i] == (if i < row then cm[i] else m[i])
      invariant forall i :: 0 <= i < |m| ==> u[i] == (if i < row then ct[i] else t[i])
    {
      if row != col {
        assert g[col] == m[col] && u[col] == t[col];
        ClearRow(F, a, b, g, u, row, col);
        g := g[row := ElimFrom(F, g[row], col, g[row][col], g[col])];
        u := u[row := F.Sub(u[row], F.Mul(m[row][col], u[col]))];
      }
    }
    assert g == cm && u == ct;
  }

  /** Brings the pivot row to its place and scales it to a leading one. */
  method NormalizePivot<T(!new)>(
    F: Field<T>, a: array2<T>, b: array<T>, ghost m: Matrix<T>, ghost t: seq<T>, col: nat, pivot: nat)
    requires Holds(a, m) && b[..] == t && |t| == |m| && col <= pivot < |m|
    modifies a, b
    ensures Holds(a, Normalize(F, m, col, pivot)) && b[..] == NormalizeTarget(F, m, t, col, pivot)
  {
    if pivot != col {
      SwapRows(a, m, pivot, col);
      b[pivot], b[col] := b[col], b[pivot];
    }
    ghost var s := Swap(m, pivot, col);
    assert s[col] == m[pivot] && b[..] == Swap(t, pivot, col) && Holds(a, s);
    var inverse := F.Inv(a[col, col]);
    ScaleRow(F, a, s, col, inverse);
    b[col] := F.Mul(b[col], inverse);
  }

  /** The solver on its own copies of the matrix and the target. */
  method SolveScalarSystem<T(==, !new)>(F: Field<T>, matrix: Matrix<T>, target: seq<T>) returns (r: Solution<T>)
    requires F.Laws()
    ensures r == Solve(F, matrix, target)
  {
    var n := |matrix|;
    if |target| != n || !IsSquare(matrix) {
      return NotSquare;
    }
    var a := new T[n, n]((i, j) requires 0 <= i < n && 0 <= j < n => matrix[i][j]);
    var b := new T[n](i requires 0 <= i < n => target[i]);
    ghost var m, t := matrix, target;
    assert b[..] == t;
    var col := 0;
    while col < n
      invariant 0 <= col <= n && |m| == |t| == n && Holds(a, m) && b[..] == t
      invariant a.Length0 == n
      invariant Eliminate(F, m, t, col) == Solve(F, matrix, target)
    {
      var pivot := PivotRow(F, a, m, col);
      if pivot == n {
        return Singular;
      }
      NormalizePivot(F, a, b, m, t, col, pivot);
      m, t := Normalize(F, m, col, pivot), NormalizeTarget(F, m, t, col, pivot);
      ClearColumn(F, a, b, m, t, col);
      m, t := Clear(F, m, col), ClearTarget(F, m, t, col);
      col := col + 1;
    }
    r := Solved(b[..]);
  }
}
