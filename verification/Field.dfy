/**
  Scalars. The engine works with secp256k1 scalars; every fact it relies on is a
  field law, so the model is generic in a field given as a record of operations.
  `SecpScalars` shows that the secp256k1 scalars are such a field.
 */
module Fields {

  datatype Field<!T(!new)> = Field(
    zero: T, one: T,
    plus: (T, T) -> T, negate: T -> T,
    times: (T, T) -> T, invert: T -> T)
  {
    function Add(a: T, b: T): T { plus(a, b) }
    function Neg(a: T): T { negate(a) }
    function Sub(a: T, b: T): T { Add(a, Neg(b)) }
    function Mul(a: T, b: T): T { times(a, b) }
    function Inv(a: T): T { invert(a) }

    /** `-a` when `flip` holds, `a` otherwise (conditional_negate). */
    function NegIf(flip: bool, a: T): T { if flip then Neg(a) else a }

    /** The scalar of a machine integer (scalar_from_u32). */
    function Nat(n: nat): T { if n == 0 then zero else Add(Nat(n - 1), one) }

    /** The field axioms at three elements. Keeping them at named instances means
        that a proof uses a law only where it asks for one. */
    ghost predicate LawAt(a: T, b: T, c: T) {
      && Add(a, b) == Add(b, a)
      && Add(Add(a, b), c) == Add(a, Add(b, c))
      && Add(a, zero) == a
      && Add(a, Neg(a)) == zero
      && Mul(a, b) == Mul(b, a)
      && Mul(Mul(a, b), c) == Mul(a, Mul(b, c))
      && Mul(a, one) == a
      && Mul(a, Add(b, c)) == Add(Mul(a, b), Mul(a, c))
      && (a != zero ==> Mul(a, Inv(a)) == one)
    }

    ghost predicate Laws() { zero != one && forall a, b, c :: LawAt(a, b, c) }

    /** The integers 1..131070 are non-zero scalars: ids, ranks, degrees, and sums of two of them. */
    ghost predicate LargeCharacteristic() { forall n :: 1 <= n <= 131070 ==> Nat(n) != zero }

    lemma AddZero(a: T)
      requires Laws()
      ensures Add(a, zero) == a && Add(zero, a) == a
    {
      assert LawAt(a, zero, a);
    }

    lemma AddComm(a: T, b: T)
      requires Laws()
      ensures Add(a, b) == Add(b, a)
    {
      assert LawAt(a, b, a);
    }

    lemma AddAssoc(a: T, b: T, c: T)
      requires Laws()
      ensures Add(Add(a, b), c) == Add(a, Add(b, c))
    {
      assert LawAt(a, b, c);
    }

    lemma AddNeg(a: T)
      requires Laws()
      ensures Add(a, Neg(a)) == zero && Add(Neg(a), a) == zero && Sub(a, a) == zero
    {
      assert LawAt(a, Neg(a), a);
    }

    lemma MulComm(a: T, b: T)
      requires Laws()
      ensures Mul(a, b) == Mul(b, a)
    {
      assert LawAt(a, b, a);
    }

    lemma MulAssoc(a: T, b: T, c: T)
      requires Laws()
      ensures Mul(Mul(a, b), c) == Mul(a, Mul(b, c))
    {
      assert LawAt(a, b, c);
    }

    lemma MulOne(a: T)
      requires Laws()
      ensures Mul(a, one) == a && Mul(one, a) == a
    {
      assert LawAt(a, one, a);
    }

    lemma MulInv(a: T)
      requires Laws() && a != zero
      ensures Mul(a, Inv(a)) == one && Mul(Inv(a), a) == one
    {
      assert LawAt(a, Inv(a), a);
    }

    lemma Distrib(a: T, b: T, c: T)
      requires Laws()
      ensures Mul(a, Add(b, c)) == Add(Mul(a, b), Mul(a, c))
      ensures Mul(Add(b, c), a) == Add(Mul(b, a), Mul(c, a))
    {
      assert LawAt(a, b, c);
      MulComm(a, Add(b, c));
      MulComm(a, b);
      MulComm(a, c);
    }

    lemma AddCancel(a: T, b: T, c: T)
      requires Laws() && Add(a, c) == Add(b, c)
      ensures a == b
    {
      AddAssoc(a, c, Neg(c));
      AddAssoc(b, c, Neg(c));
      AddNeg(c);
      AddZero(a);
      AddZero(b);
    }

    lemma MulZero(a: T)
      requires Laws()
      ensures Mul(a, zero) == zero && Mul(zero, a) == zero
    {
      AddZero(zero);
      Distrib(a, zero, zero);
      AddZero(Mul(a, zero));
      AddCancel(Mul(a, zero), zero, Mul(a, zero));
      MulComm(a, zero);
    }

    /** The additive inverse is the only solution of `a + b = 0`. */
    lemma NegUnique(a: T, b: T)
      requires Laws() && Add(a, b) == zero
      ensures b == Neg(a)
    {
      AddNeg(a);
      AddComm(a, b);
      AddCancel(b, Neg(a), a);
    }

    lemma NegMul(a: T, b: T)
      requires Laws()
      ensures Mul(Neg(a), b) == Neg(Mul(a, b)) && Mul(a, Neg(b)) == Neg(Mul(a, b))
    {
      Distrib(b, a, Neg(a));
      AddNeg(a);
      MulZero(b);
      MulComm(a, b);
      MulComm(Neg(a), b);
      NegUnique(Mul(a, b), Mul(Neg(a), b));
      Distrib(a, b, Neg(b));
      AddNeg(b);
      MulZero(a);
      NegUnique(Mul(a, b), Mul(a, Neg(b)));
    }

    lemma NegAdd(a: T, b: T)
      requires Laws()
      ensures Neg(Add(a, b)) == Add(Neg(a), Neg(b))
    {
      AddSwap(a, b, Neg(a), Neg(b));
      AddNeg(a);
      AddNeg(b);
      AddZero(zero);
      NegUnique(Add(a, b), Add(Neg(a), Neg(b)));
    }

    lemma NegNeg(a: T)
      requires Laws()
      ensures Neg(Neg(a)) == a && Neg(zero) == zero && (Neg(a) == zero <==> a == zero)
    {
      AddNeg(a);
      NegUnique(Neg(a), a);
      AddZero(zero);
      NegUnique(zero, zero);
    }

    lemma AddSwap(a: T, b: T, c: T, d: T)
      requires Laws()
      ensures Add(Add(a, b), Add(c, d)) == Add(Add(a, c), Add(b, d))
    {
      AddAssoc(a, b, Add(c, d));
      AddAssoc(b, c, d);
      AddComm(b, c);
      AddAssoc(c, b, d);
      AddAssoc(a, c, Add(b, d));
    }

    lemma SubZero(a: T, b: T)
      requires Laws()
      ensures Sub(a, b) == zero <==> a == b
      ensures Add(Sub(a, b), b) == a && Sub(zero, b) == Neg(b)
    {
      AddAssoc(a, Neg(b), b);
      AddNeg(b);
      AddZero(a);
      AddZero(b);
      AddZero(Neg(b));
    }

    lemma MulCancel(a: T, b: T, c: T)
      requires Laws() && a != zero && Mul(a, b) == Mul(a, c)
      ensures b == c
    {
      MulAssoc(Inv(a), a, b);
      MulAssoc(Inv(a), a, c);
      MulInv(a);
      MulOne(b);
      MulOne(c);
    }

    lemma NoZeroDivisors(a: T, b: T)
      requires Laws() && a != zero && b != zero
      ensures Mul(a, b) != zero
    {
      MulZero(a);
      if Mul(a, b) == zero {
        MulCancel(a, b, zero);
      }
    }

    lemma InvNonZero(a: T)
      requires Laws() && a != zero
      ensures Inv(a) != zero
    {
      MulInv(a);
      MulZero(a);
    }

    lemma {:induction false} NatAdd(m: nat, n: nat)
      requires Laws()
      ensures Nat(m + n) == Add(Nat(m), Nat(n))
      decreases n
    {
      if n == 0 {
        AddZero(Nat(m));
      } else {
        NatAdd(m, n - 1);
        AddAssoc(Nat(m), Nat(n - 1), one);
      }
    }

    lemma {:induction false} NatInjective(m: nat, n: nat)
      requires Laws() && LargeCharacteristic() && m <= 131070 && n <= 131070 && Nat(m) == Nat(n)
      ensures m == n
    {
      if m < n {
        NatAdd(n - m, m);
        AddZero(Nat(m));
        AddCancel(Nat(n - m), zero, Nat(m));
      } else if n < m {
        NatInjective(n, m);
      }
    }
  }
}
