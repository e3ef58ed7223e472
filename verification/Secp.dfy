/**
  The secp256k1 scalars, the integers modulo the group order, are a field of the
  kind the model asks for. Primality of the order is the one hypothesis.
 */
module SecpScalars {
  import opened Fields
  import opened Curves

  const ORDER: nat := 0xFFFFFFFF_FFFFFFFF_FFFFFFFF_FFFFFFFE_BAAEDCE6_AF48A03B_BFD25E8C_D0364141

  type Scalar = x: int | 0 <= x < ORDER witness 0

  ghost predicate IsPrime(q: nat) { q >= 2 && forall d, e :: d >= 2 && e >= 2 ==> Times(d, e) != q }

  ghost function Times(a: int, b: int): int { a * b }

  // ---------------------------------------------------------------- arithmetic modulo q

  lemma {:induction false} ModShift(z: int, k: int, q: nat)
    requires q > 0
    ensures (z + k * q) % q == z % q
    decreases if k < 0 then -k else k
  {
    if k > 0 {
      ModShift(z, k - 1, q);
      ModStep(z + (k - 1) * q, q);
      assert z + k * q == z + (k - 1) * q + q;
    } else if k < 0 {
      ModShift(z, k + 1, q);
      ModStep(z + k * q, q);
      assert z + (k + 1) * q == z + k * q + q;
    }
  }

  lemma ModStep(z: int, q: nat)
    requires q > 0
    ensures (z + q) % q == z % q
  {
    var d := z / q;
    assert z + q == (d + 1) * q + z % q;
    ModUnique(z + q, d + 1, z % q, q);
  }

  lemma {:induction false} MultipleAtLeast(m: nat, q: nat)
    requires m >= 1
    ensures m * q >= q
    decreases m
  {
    if m > 1 {
      MultipleAtLeast(m - 1, q);
      assert m * q == (m - 1) * q + q;
    }
  }

  lemma SmallMultiple(m: int, q: nat, t: int)
    requires m * q == t && 0 - q < t < q
    ensures m == 0
  {
    assert (-m) * q == -(m * q);
    if m >= 1 {
      MultipleAtLeast(m, q);
    } else if m <= -1 {
      MultipleAtLeast(-m, q);
    }
  }

  lemma ModUnique(z: int, k: int, r: int, q: nat)
    requires q > 0 && z == k * q + r && 0 <= r < q
    ensures z % q == r
  {
    var k', r' := z / q, z % q;
    assert z == k' * q + r';
    assert (k - k') * q == k * q - k' * q;
    SmallMultiple(k - k', q, r' - r);
  }

  lemma ModAdd(a: int, b: int, q: nat)
    requires q > 0
    ensures (a % q + b) % q == (a + b) % q
  {
    var d, r := a / q, a % q;
    assert a + b == (r + b) + d * q;
    ModShift(r + b, d, q);
  }

  lemma ModMul(a: int, b: int, q: nat)
    requires q > 0
    ensures ((a % q) * b) % q == (a * b) % q
  {
    var d := a / q;
    assert a * b == (a % q) * b + (d * b) * q by {
      assert a == d * q + a % q;
      assert (d * q + a % q) * b == (d * q) * b + (a % q) * b;
      assert (d * q) * b == (d * b) * q;
    }
    ModShift((a % q) * b, d * b, q);
  }

  // ---------------------------------------------------------------- inverses

  /** Euclid's inverse: a * -(q / a) is q % a modulo q. */
  ghost function Inverse(a: nat, q: nat): int
    requires q > 0
    decreases a
  {
    if a <= 1 then a else (-(q / a) * Inverse(q % a, q)) % q
  }

  /** The remainder modulo a smaller number is not zero. */
  lemma PrimeRemainder(a: nat, q: nat)
    requires IsPrime(q) && 1 < a < q
    ensures q % a > 0
  {
    var d := q / a;
    assert q == Times(d, a) + q % a;
    assert d <= 1 ==> Times(d, a) <= a;
  }

  /** If s inverts r == q - d a, then -d s inverts a. */
  lemma EuclidStep(a: int, d: int, r: int, s: int, q: nat)
    requires q > 0 && q == d * a + r && (r * s) % q == 1
    ensures (a * ((-d * s) % q)) % q == 1
  {
    calc {
      (a * ((-d * s) % q)) % q;
      { ModMul(-d * s, a, q); }
      ((-d * s) * a) % q;
      { assert (-d * s) * a == (-s) * (d * a);
        assert (-s) * q == (-s) * (d * a) + (-s) * r; }
      (r * s + (-s) * q) % q;
      { ModShift(r * s, -s, q); }
      1;
    }
  }

  lemma {:induction false} InverseCorrect(a: nat, q: nat)
    requires IsPrime(q) && 0 < a < q
    ensures 0 <= Inverse(a, q) < q && (a * Inverse(a, q)) % q == 1
    decreases a
  {
    if a > 1 {
      var d, r := q / a, q % a;
      assert q == d * a + r && 0 < r < a by {
        PrimeRemainder(a, q);
      }
      var s := Inverse(r, q);
      assert (r * s) % q == 1 by {
        InverseCorrect(r, q);
      }
      EuclidStep(a, d, r, s, q);
      assert Inverse(a, q) == (-d * s) % q;
    }
  }

  // ---------------------------------------------------------------- the field

  ghost function Plus(a: Scalar, b: Scalar): Scalar { (a + b) % ORDER }
  ghost function Minus(a: Scalar): Scalar { (ORDER - a) % ORDER }
  ghost function Product(a: Scalar, b: Scalar): Scalar { (a * b) % ORDER }
  ghost function Reciprocal(a: Scalar): Scalar { Inverse(a, ORDER) % ORDER }

  ghost function ScalarField(): Field<Scalar> { Field(0, 1, Plus, Minus, Product, Reciprocal) }

  lemma ModSumAssoc(a: int, b: int, c: int, q: nat)
    requires q > 0
    ensures ((a + b) % q + c) % q == (a + (b + c) % q) % q
  {
    var s, t := a + b, b + c;
    assert (s % q + c) % q == (s + c) % q by {
      ModAdd(s, c, q);
    }
    assert (t % q + a) % q == (t + a) % q by {
      ModAdd(t, a, q);
    }
    assert s + c == t + a;
  }

  lemma ModProductAssoc(a: int, b: int, c: int, q: nat)
    requires q > 0
    ensures (((a * b) % q) * c) % q == (a * ((b * c) % q)) % q
  {
    ModMul(a * b, c, q);
    ModMul(b * c, a, q);
    assert (a * b) * c == (b * c) * a;
    assert a * ((b * c) % q) == ((b * c) % q) * a;
  }

  lemma ModDistrib(a: int, b: int, c: int, q: nat)
    requires q > 0
    ensures (a * ((b + c) % q)) % q == ((a * b) % q + (a * c) % q) % q
  {
    ModMul(b + c, a, q);
    ModAdd(a * b, (a * c) % q, q);
    ModAdd(a * c, a * b, q);
    assert (b + c) * a == a * c + a * b;
    assert a * ((b + c) % q) == ((b + c) % q) * a;
  }

  lemma AddLaws(a: Scalar, b: Scalar, c: Scalar)
    ensures Plus(a, b) == Plus(b, a) && Plus(Plus(a, b), c) == Plus(a, Plus(b, c))
  {
    ModSumAssoc(a, b, c, ORDER);
  }

  lemma ZeroLaws(a: Scalar)
    ensures Plus(a, 0) == a && Plus(a, Minus(a)) == 0
  {
  }

  lemma MulLaws(a: Scalar, b: Scalar, c: Scalar)
    ensures Product(a, b) == Product(b, a) && Product(a, 1) == a
    ensures Product(Product(a, b), c) == Product(a, Product(b, c))
  {
    ModProductAssoc(a, b, c, ORDER);
  }

  lemma DistributiveLaw(a: Scalar, b: Scalar, c: Scalar)
    ensures Product(a, Plus(b, c)) == Plus(Product(a, b), Product(a, c))
  {
    ModDistrib(a, b, c, ORDER);
  }

  lemma InverseLaw(a: Scalar)
    requires IsPrime(ORDER) && a != 0
    ensures ScalarField().Mul(a, ScalarField().Inv(a)) == 1
  {
    ReciprocalLaw(a);
  }

  lemma ReciprocalLaw(a: Scalar)
    requires IsPrime(ORDER) && a != 0
    ensures Product(a, Reciprocal(a)) == 1
  {
    InverseCorrect(a, ORDER);
    var i := Inverse(a, ORDER);
    assert Reciprocal(a) == i by {
      SmallMod(i, ORDER);
    }
  }

  lemma SmallMod(i: int, q: nat)
    requires 0 <= i < q
    ensures i % q == i
  {
  }

  lemma {:induction false} NatValue(n: nat)
    requires n < ORDER
    ensures ScalarField().Nat(n) == n
  {
    if n > 0 {
      NatValue(n - 1);
    }
  }

  /** The secp256k1 scalars satisfy every field fact the model assumes. */
  lemma ScalarsAreField()
    requires IsPrime(ORDER)
    ensures ScalarField().Laws() && ScalarField().LargeCharacteristic()
  {
    var F := ScalarField();
    forall a: Scalar, b: Scalar, c: Scalar
      ensures F.LawAt(a, b, c)
    {
      AddLaws(a, b, c);
      ZeroLaws(a);
      MulLaws(a, b, c);
      DistributiveLaw(a, b, c);
      if a != 0 {
        InverseLaw(a);
      }
    }
    forall n | 1 <= n <= 131070
      ensures F.Nat(n) != F.zero
    {
      NatValue(n);
    }
  }

  /** A parity that tells p from -p; the curve's own parity is another. */
  ghost function UpperHalf(p: Scalar): bool { 2 * p > ORDER }

  ghost function AnyHash(nonce: Scalar, key: Scalar, digest: int): Scalar { 0 }

  /** The hypotheses of the model are satisfiable together. */
  lemma CurveExists()
    requires IsPrime(ORDER)
    ensures Curve(ScalarField(), UpperHalf, AnyHash).Valid()
  {
    ScalarsAreField();
    var C := Curve(ScalarField(), UpperHalf, AnyHash);
    forall p: Scalar
      ensures C.ParityAt(p)
    {
    }
  }
}
