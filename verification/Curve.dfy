/**
  The curve, reduced to what the protocol uses. A point is represented by its
  discrete logarithm, so adding points adds scalars and a*G is a; the parity of
  the y-coordinate is an arbitrary predicate that tells p from -p; an x-only key
  is the even representative; the BIP340 challenge hash is an arbitrary function.
  Zero stands for an encoding that is no non-zero point.
 */
module Curves {
  import opened Wrappers
  import opened Fields

  datatype Curve<!T(!new)> = Curve(
    F: Field<T>,
    odd: T -> bool,
    hash: (T, T, int) -> T)
  {
    function IsOdd(p: T): bool { odd(p) }

    /** e = H(R, P, m) */
    function Challenge(nonce: T, key: T, digest: int): T { hash(nonce, key, digest) }

    ghost predicate ParityAt(p: T) { p != F.zero ==> (IsOdd(p) <==> !IsOdd(F.Neg(p))) }

    ghost predicate Valid() {
      F.Laws() && F.LargeCharacteristic() && forall p :: ParityAt(p)
    }

    /** The even one of p and -p: the x-only form of p. */
    function XOnly(p: T): T { F.NegIf(IsOdd(p), p) }

    lemma XOnlyEven(p: T)
      requires Valid() && p != F.zero
      ensures XOnly(p) != F.zero && !IsOdd(XOnly(p)) && XOnly(XOnly(p)) == XOnly(p)
    {
      assert ParityAt(p);
      F.NegNeg(p);
    }
  }

  /** Point::from_xonly_bytes */
  function LiftX<T(==, !new)>(C: Curve<T>, x: T): (r: Result<T>)
    ensures r.Ok? <==> x != C.F.zero && !C.IsOdd(x)
    ensures r.Ok? ==> r.value == x
  {
    if x == C.F.zero || C.IsOdd(x) then Fail(InvalidXOnly) else Ok(x)
  }

  /** A compressed point encoding: zero stands for bytes that do not decode. */
  function DecodePoint<T(==, !new)>(C: Curve<T>, p: T): (r: Result<T>)
    ensures r == if p == C.F.zero then Fail(InvalidPoint) else Ok(p)
  {
    if p == C.F.zero then Fail(InvalidPoint) else Ok(p)
  }
}
