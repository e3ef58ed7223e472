/** Taproot key tweaks of dkgkit-bitcoin and the spends they make possible. */
module Taproot {
  import opened Wrappers
  import opened Fields
  import opened Curves
  import opened Dkg
  import opened KeySets
  import opened Signing
  import opened HonestSigning

  /** One HMAC-SHA512 output: IL as a scalar (None when it is not below the group
      order) and IR as the next chain code. */
  datatype Derived<T> = Derived(il: Option<T>, chain: int)

  /** The wallet hashes: BIP32 HMAC(chain code, parent key, index) and the BIP341 tap tweak of an internal key. */
  datatype Hashes<!T(!new)> = Hashes(hmac: (int, T, nat) -> Derived<T>, tap: T -> T)

  datatype Path = Path(account: nat, change: nat, addressIndex: nat)
  datatype Xpub<T> = Xpub(key: T, chain: int)
  datatype KeyTweak<T> = KeyTweak(output: T, tweak: T, negateKey: bool)

  const HARDENED: nat := 0x8000_0000

  predicate KnownNetwork(network: string) {
    network in {"bitcoin", "mainnet", "testnet", "testnet4", "signet", "regtest"}
  }

  // ---------------------------------------------------------------- public child derivation

  /** Xpub::ckd_pub: "Public parent key to public child key" of BIP32. */
  function CkdPub<T(==, !new)>(C: Curve<T>, H: Hashes<T>, parent: Xpub<T>, index: nat): (r: Result<Xpub<T>>)
    ensures r != Fail(ChildMismatch)
  {
    if index >= HARDENED then Fail(InvalidIndex)
    else
      var i := H.hmac(parent.chain, parent.key, index);
      if i.il.None? || i.il.value == C.F.zero then Fail(InvalidTweak)
      else
        var child := C.F.Add(parent.key, i.il.value);
        if child == C.F.zero then Fail(PointAtInfinity) else Ok(Xpub(child, i.chain))
  }

  function Derive<T(==, !new)>(C: Curve<T>, H: Hashes<T>, x: Xpub<T>, indices: seq<nat>): (r: Result<Xpub<T>>)
    ensures r != Fail(ChildMismatch)
    decreases |indices|
  {
    if |indices| == 0 then Ok(x)
    else
      var child :- CkdPub(C, H, x, indices[0]);
      Derive(C, H, child, indices[1..])
  }

  /** The tweaked output key of an internal x-only key; the library panics at infinity. */
  function TapOutput<T(==, !new)>(C: Curve<T>, H: Hashes<T>, internal: T): Result<T> {
    var q := C.F.Add(internal, H.tap(internal));
    if q == C.F.zero then Err(Panic) else Ok(q)
  }

  /** The output key that taproot_child_address_descriptor publishes. */
  function AddressOutput<T(==, !new)>(C: Curve<T>, H: Hashes<T>, group: GroupKey<T>, chain: int, path: Path)
    : Result<T>
  {
    var account :- LiftX(C, group.xonly);
    if path.account >= HARDENED then Fail(InvalidIndex)
    else
      var child :- Derive(C, H, Xpub(account, chain), [path.change, path.addressIndex]);
      var q :- TapOutput(C, H, C.XOnly(child.key));
      Ok(C.XOnly(q))
  }

  // ---------------------------------------------------------------- the hand-rolled tweak

  datatype Recomputed<T> = Recomputed(parent: T, chain: int, sum: Option<T>)

  /** One turn of the recomputation loop. */
  function Recompute<T(==, !new)>(C: Curve<T>, H: Hashes<T>, s: Recomputed<T>, index: nat): Result<Recomputed<T>> {
    var i := H.hmac(s.chain, s.parent, index);
    if i.il.None? then Fail(InvalidTweak)
    else
      var parent := C.F.Add(s.parent, i.il.value);
      if parent == C.F.zero then Fail(PointAtInfinity)
      else
        match s.sum
        case None =>
          if i.il.value == C.F.zero then Fail(InvalidTweak) else Ok(Recomputed(parent, i.chain, Some(i.il.value)))
        case Some(acc) =>
          var sum := C.F.Add(acc, i.il.value);
          if sum == C.F.zero then Fail(ZeroTweak) else Ok(Recomputed(parent, i.chain, Some(sum)))
  }

  function RecomputeAll<T(==, !new)>(C: Curve<T>, H: Hashes<T>, s: Recomputed<T>, indices: seq<nat>)
    : Result<Recomputed<T>>
    decreases |indices|
  {
    if |indices| == 0 then Ok(s)
    else
      var next :- Recompute(C, H, s, indices[0]);
      RecomputeAll(C, H, next, indices[1..])
  }

  /** The common tail: the tap tweak and the two parity flips. */
  function FinishTweak<T(==, !new)>(C: Curve<T>, H: Hashes<T>, child: T, inner: T): Result<KeyTweak<T>> {
    var internal, childOdd := C.XOnly(child), C.IsOdd(child);
    var q :- TapOutput(C, H, internal);
    var sum := C.F.Add(C.F.NegIf(childOdd, inner), H.tap(internal));
    if sum == C.F.zero then Fail(ZeroTweak)
    else Ok(KeyTweak(C.XOnly(q), C.F.NegIf(C.IsOdd(q), sum), childOdd != C.IsOdd(q)))
  }

  /** taproot_child_key_tweak */
  function ChildKeyTweak<T(==, !new)>(
    C: Curve<T>, H: Hashes<T>, group: GroupKey<T>, chain: int, network: string, path: Path)
    : Result<KeyTweak<T>>
  {
    if !KnownNetwork(network) then Fail(InvalidNetwork)
    else
      var account :- LiftX(C, group.xonly);
      if path.account >= HARDENED then Fail(InvalidIndex)
      else
        var indices := [path.change, path.addressIndex];
        var child :- Derive(C, H, Xpub(account, chain), indices);
        var again :- RecomputeAll(C, H, Recomputed(account, chain, None), indices);
        if again.sum.None? then Fail(InvalidTweak)
        else if again.parent != child.key then Fail(ChildMismatch)
        else FinishTweak(C, H, child.key, again.sum.value)
  }

  /** silent_payment_output_tweak: k is None when it is not a scalar. */
  function SilentPaymentOutputTweak<T(==, !new)>(C: Curve<T>, H: Hashes<T>, group: GroupKey<T>, k: Option<T>)
    : Result<KeyTweak<T>>
  {
    var p :- LiftX(C, group.xonly);
    if k.None? || k.value == C.F.zero then Fail(InvalidTweak)
    else
      var internal := C.F.Add(p, k.value);
      if internal == C.F.zero then Fail(PointAtInfinity) else FinishTweak(C, H, internal, k.value)
  }

  /** silent_payment_leaf_tweak: the same key without the output tweak. */
  function SilentPaymentLeafTweak<T(==, !new)>(C: Curve<T>, group: GroupKey<T>, k: Option<T>): Result<KeyTweak<T>> {
    var p :- LiftX(C, group.xonly);
    if k.None? || k.value == C.F.zero then Fail(InvalidTweak)
    else
      var point := C.F.Add(p, k.value);
      if point == C.F.zero then Fail(PointAtInfinity)
      else Ok(KeyTweak(C.XOnly(point), C.F.NegIf(C.IsOdd(point), k.value), C.IsOdd(point)))
  }

  // ---------------------------------------------------------------- the loops

  method DeriveLoop<T(==, !new)>(C: Curve<T>, H: Hashes<T>, start: Xpub<T>, indices: seq<nat>)
    returns (r: Result<Xpub<T>>)
    ensures r == Derive(C, H, start, indices)
  {
    var xpub := start;
    for i := 0 to |indices|
      invariant Derive(C, H, start, indices) == Derive(C, H, xpub, indices[i..])
    {
      var child := CkdPub(C, H, xpub, indices[i]);
      assert indices[i..][1..] == indices[i + 1..];
      if child.Err? {
        return Err(child.error);
      }
      xpub := child.value;
    }
    r := Ok(xpub);
  }

  method TaprootChildKeyTweak<T(==, !new)>(
    C: Curve<T>, H: Hashes<T>, group: GroupKey<T>, chain: int, network: string, path: Path)
    returns (r: Result<KeyTweak<T>>)
    ensures r == ChildKeyTweak(C, H, group, chain, network, path)
  {
    if !KnownNetwork(network) {
      return Fail(InvalidNetwork);
    }
    var account := LiftX(C, group.xonly);
    if account.Err? {
      return Err(account.error);
    }
    if path.account >= HARDENED {
      return Fail(InvalidIndex);
    }
    var indices := [path.change, path.addressIndex];
    var child := DeriveLoop(C, H, Xpub(account.value, chain), indices);
    if child.Err? {
      return Err(child.error);
    }
    ghost var start := Recomputed(account.value, chain, None);
    var parent, chainCode := account.value, chain;
    var sum: Option<T> := None;
    for i := 0 to |indices|
      invariant RecomputeAll(C, H, start, indices)
             == RecomputeAll(C, H, Recomputed(parent, chainCode, sum), indices[i..])
    {
      assert indices[i..][1..] == indices[i + 1..];
      var next := Recompute(C, H, Recomputed(parent, chainCode, sum), indices[i]);
      if next.Err? {
        return Err(next.error);
      }
      parent, chainCode, sum := next.value.parent, next.value.chain, next.value.sum;
    }
    if sum.None? {
      return Fail(InvalidTweak);
    }
    if parent != child.value.key {
      return Fail(ChildMismatch);
    }
    r := FinishTweak(C, H, child.value.key, sum.value);
  }

  // ---------------------------------------------------------------- tweak algebra

  /** The tweak describes its output key: Q == +-P + B*G is even and not zero. */
  ghost predicate Describes<T(!new)>(C: Curve<T>, t: KeyTweak<T>, group: T) {
    && t.output != C.F.zero && !C.IsOdd(t.output)
    && t.output == C.F.Add(C.F.NegIf(t.negateKey, group), t.tweak)
  }

  lemma NegIfAdd<T(!new)>(F: Field<T>, flip: bool, a: T, b: T)
    requires F.Laws()
    ensures F.NegIf(flip, F.Add(a, b)) == F.Add(F.NegIf(flip, a), F.NegIf(flip, b))
  {
    F.NegAdd(a, b);
  }

  lemma NegIfTwice<T(!new)>(F: Field<T>, f: bool, g: bool, a: T)
    requires F.Laws()
    ensures F.NegIf(f, F.NegIf(g, a)) == F.NegIf(f != g, a)
  {
    F.NegNeg(a);
  }

  /** Both parity flips together, under all four parity combinations. */
  lemma FinishTweakDescribes<T(!new)>(C: Curve<T>, H: Hashes<T>, group: T, inner: T)
    requires C.Valid() && FinishTweak(C, H, C.F.Add(group, inner), inner).Ok?
    ensures Describes(C, FinishTweak(C, H, C.F.Add(group, inner), inner).value, group)
  {
    var F, child := C.F, C.F.Add(group, inner);
    var co, internal := C.IsOdd(child), C.XOnly(child);
    var tap := H.tap(internal);
    var q := F.Add(internal, tap);
    var qo := C.IsOdd(q);
    C.XOnlyEven(q);
    NegIfAdd(F, co, group, inner);
    F.AddAssoc(F.NegIf(co, group), F.NegIf(co, inner), tap);
    NegIfAdd(F, qo, F.NegIf(co, group), F.Add(F.NegIf(co, inner), tap));
    NegIfTwice(F, qo, co, group);
  }

  lemma SilentPaymentTweaks<T(!new)>(C: Curve<T>, H: Hashes<T>, group: GroupKey<T>, k: Option<T>)
    requires C.Valid()
    ensures SilentPaymentOutputTweak(C, H, group, k).Ok? ==>
      Describes(C, SilentPaymentOutputTweak(C, H, group, k).value, group.xonly)
    ensures SilentPaymentLeafTweak(C, group, k).Ok? ==>
      Describes(C, SilentPaymentLeafTweak(C, group, k).value, group.xonly)
  {
    if k.Some? {
      var point := C.F.Add(group.xonly, k.value);
      if SilentPaymentOutputTweak(C, H, group, k).Ok? {
        FinishTweakDescribes(C, H, group.xonly, k.value);
      }
      if SilentPaymentLeafTweak(C, group, k).Ok? {
        C.XOnlyEven(point);
        NegIfAdd(C.F, C.IsOdd(point), group.xonly, k.value);
      }
    }
  }

  /** Which key a silent-payment output locks, and when: with I the even lift of P + k*G, it is
      the even lift of I + tap(I)*G; it fails exactly when P or k is not usable, a point on the way is
      infinity, or the tweak sum is zero. */
  lemma SilentPaymentOutputExact<T(!new)>(C: Curve<T>, H: Hashes<T>, group: GroupKey<T>, k: Option<T>)
    requires C.Valid()
    ensures
      var r := SilentPaymentOutputTweak(C, H, group, k);
      && (r.Ok? <==>
           && group.xonly != C.F.zero && !C.IsOdd(group.xonly) && k.Some? && k.value != C.F.zero
           && var point := C.F.Add(group.xonly, k.value);
              var i := C.XOnly(point);
              && point != C.F.zero && C.F.Add(i, H.tap(i)) != C.F.zero
              && C.F.Add(if C.IsOdd(point) then C.F.Neg(k.value) else k.value, H.tap(i)) != C.F.zero)
      && (r.Ok? ==>
           var i := C.XOnly(C.F.Add(group.xonly, k.value));
           r.value.output == C.XOnly(C.F.Add(i, H.tap(i))) && Describes(C, r.value, group.xonly))
  {
    SilentPaymentTweaks(C, H, group, k);
  }

  /** The leaf form locks I itself, and fails exactly when P or k is not usable or P + k*G is infinity. */
  lemma SilentPaymentLeafExact<T(!new)>(C: Curve<T>, H: Hashes<T>, group: GroupKey<T>, k: Option<T>)
    requires C.Valid()
    ensures
      var r := SilentPaymentLeafTweak(C, group, k);
      && (r.Ok? <==>
           && group.xonly != C.F.zero && !C.IsOdd(group.xonly) && k.Some? && k.value != C.F.zero
           && C.F.Add(group.xonly, k.value) != C.F.zero)
      && (r.Ok? ==>
           r.value.output == C.XOnly(C.F.Add(group.xonly, k.value)) && Describes(C, r.value, group.xonly))
  {
    SilentPaymentTweaks(C, H, group, k);
  }

  /** The IL scalars along a path that derives. */
  ghost function IlSum<T(!new)>(C: Curve<T>, H: Hashes<T>, x: Xpub<T>, indices: seq<nat>): T
    requires Derive(C, H, x, indices).Ok?
    decreases |indices|
  {
    if |indices| == 0 then C.F.zero
    else
      var child := CkdPub(C, H, x, indices[0]).value;
      C.F.Add(H.hmac(x.chain, x.key, indices[0]).il.value, IlSum(C, H, child, indices[1..]))
  }

  /** Some non-empty prefix of the path brings the accumulated tweak to zero. */
  ghost predicate Cancels<T(!new)>(C: Curve<T>, H: Hashes<T>, x: Xpub<T>, start: T, indices: seq<nat>) {
    exists k :: 1 <= k <= |indices| && PrefixCancels(C, H, x, start, indices[..k])
  }

  ghost predicate PrefixCancels<T(!new)>(C: Curve<T>, H: Hashes<T>, x: Xpub<T>, start: T, prefix: seq<nat>) {
    Derive(C, H, x, prefix).Ok? && C.F.Add(start, IlSum(C, H, x, prefix)) == C.F.zero
  }

  lemma PrefixStep<T(!new)>(C: Curve<T>, H: Hashes<T>, x: Xpub<T>, start: T, prefix: seq<nat>)
    requires C.Valid() && |prefix| > 0 && CkdPub(C, H, x, prefix[0]).Ok?
    ensures
      var child, il := CkdPub(C, H, x, prefix[0]).value, H.hmac(x.chain, x.key, prefix[0]).il.value;
      PrefixCancels(C, H, x, start, prefix) <==> PrefixCancels(C, H, child, C.F.Add(start, il), prefix[1..])
  {
    var child, il := CkdPub(C, H, x, prefix[0]).value, H.hmac(x.chain, x.key, prefix[0]).il.value;
    if Derive(C, H, child, prefix[1..]).Ok? {
      C.F.AddAssoc(start, il, IlSum(C, H, child, prefix[1..]));
    }
  }

  lemma EmptyPrefix<T(!new)>(C: Curve<T>, H: Hashes<T>, x: Xpub<T>, start: T)
    requires C.Valid()
    ensures PrefixCancels(C, H, x, start, []) <==> start == C.F.zero
  {
    C.F.AddZero(start);
  }

  /** The first step cancels, or a later one does. */
  lemma CancelsStep<T(!new)>(C: Curve<T>, H: Hashes<T>, x: Xpub<T>, start: T, indices: seq<nat>)
    requires C.Valid() && |indices| > 0 && CkdPub(C, H, x, indices[0]).Ok?
    ensures
      var child, il := CkdPub(C, H, x, indices[0]).value, H.hmac(x.chain, x.key, indices[0]).il.value;
      var next := C.F.Add(start, il);
      Cancels(C, H, x, start, indices) <==> next == C.F.zero || Cancels(C, H, child, next, indices[1..])
  {
    var child, il := CkdPub(C, H, x, indices[0]).value, H.hmac(x.chain, x.key, indices[0]).il.value;
    var next, rest := C.F.Add(start, il), indices[1..];
    EmptyPrefix(C, H, child, next);
    forall k | 1 <= k <= |indices|
      ensures PrefixCancels(C, H, x, start, indices[..k]) <==> PrefixCancels(C, H, child, next, rest[..k - 1])
    {
      assert indices[..k][1..] == rest[..k - 1];
      PrefixStep(C, H, x, start, indices[..k]);
    }
    assert rest[..0] == [];
    if next == C.F.zero {
      assert PrefixCancels(C, H, x, start, indices[..1]);
    }
    if k :| 1 <= k <= |rest| && PrefixCancels(C, H, child, next, rest[..k]) {
      assert PrefixCancels(C, H, x, start, indices[..k + 1]);
    }
  }

  /** The hand-rolled derivation along any path the library derives: it stays on the library's
      keys and chain codes and adds up the tweaks, unless some prefix of them cancels; then it
      fails there. */
  lemma {:induction false} RecomputeExact<T(!new)>(
    C: Curve<T>, H: Hashes<T>, x: Xpub<T>, sum: Option<T>, indices: seq<nat>)
    requires C.Valid() && Derive(C, H, x, indices).Ok?
    ensures
      var again := RecomputeAll(C, H, Recomputed(x.key, x.chain, sum), indices);
      var child := Derive(C, H, x, indices).value;
      var start := if sum.Some? then sum.value else C.F.zero;
      again ==
        if Cancels(C, H, x, start, indices) then Fail(ZeroTweak)
        else Ok(Recomputed(child.key, child.chain,
          if |indices| == 0 then sum else Some(C.F.Add(start, IlSum(C, H, x, indices)))))
    decreases |indices|
  {
    var start := if sum.Some? then sum.value else C.F.zero;
    if |indices| > 0 {
      var il := H.hmac(x.chain, x.key, indices[0]).il.value;
      var child, next := CkdPub(C, H, x, indices[0]).value, C.F.Add(start, il);
      C.F.AddZero(il);
      CancelsStep(C, H, x, start, indices);
      if next != C.F.zero {
        RecomputeExact(C, H, child, Some(next), indices[1..]);
        C.F.AddAssoc(start, il, IlSum(C, H, child, indices[1..]));
        C.F.AddZero(next);
      }
    }
  }

  /** Adding the IL scalars to the account key reaches the child. */
  lemma {:induction false} DeriveAdds<T(!new)>(C: Curve<T>, H: Hashes<T>, x: Xpub<T>, indices: seq<nat>)
    requires C.Valid() && Derive(C, H, x, indices).Ok?
    ensures Derive(C, H, x, indices).value.key == C.F.Add(x.key, IlSum(C, H, x, indices))
    decreases |indices|
  {
    if |indices| == 0 {
      C.F.AddZero(x.key);
    } else {
      var il := H.hmac(x.chain, x.key, indices[0]).il.value;
      var child := CkdPub(C, H, x, indices[0]).value;
      DeriveAdds(C, H, child, indices[1..]);
      C.F.AddAssoc(x.key, il, IlSum(C, H, child, indices[1..]));
    }
  }

  /** On a two-step path the recomputation fails only when the two IL cancel. */
  lemma RecomputeTwoSteps<T(!new)>(C: Curve<T>, H: Hashes<T>, x: Xpub<T>, a: nat, b: nat)
    requires C.Valid() && Derive(C, H, x, [a, b]).Ok?
    ensures
      var again := RecomputeAll(C, H, Recomputed(x.key, x.chain, None), [a, b]);
      var il := IlSum(C, H, x, [a, b]);
      && (il == C.F.zero ==> again == Fail(ZeroTweak))
      && (il != C.F.zero ==> again == Ok(Recomputed(
           Derive(C, H, x, [a, b]).value.key, Derive(C, H, x, [a, b]).value.chain, Some(il))))
  {
    var child := CkdPub(C, H, x, a).value;
    assert [a, b][1..] == [b] && [b][1..] == [];
    var s1 := Recompute(C, H, Recomputed(x.key, x.chain, None), a).value;
    assert Derive(C, H, x, [a, b]) == Derive(C, H, child, [b]);
    assert Derive(C, H, child, [b]) == CkdPub(C, H, child, b);
    assert IlSum(C, H, child, [b]) == C.F.Add(H.hmac(child.chain, child.key, b).il.value, C.F.zero);
    C.F.AddZero(H.hmac(child.chain, child.key, b).il.value);
    assert s1 == Recomputed(child.key, child.chain, Some(H.hmac(x.chain, x.key, a).il.value));
    assert RecomputeAll(C, H, Recomputed(x.key, x.chain, None), [a, b]) == RecomputeAll(C, H, s1, [b]);
    assert RecomputeAll(C, H, s1, [b]) == Recompute(C, H, s1, b);
  }

  /** The published key from the two HMAC values: with (t1, c1) of the account key and (t2, _) of
      the first child under chain code c1, and I the even lift of P + t1*G + t2*G, the address is the
      even lift of I + tap(I)*G. It exists exactly when every index is unhardened, both tweaks are
      non-zero scalars and no key on the way is infinity. */
  lemma AddressExact<T(!new)>(C: Curve<T>, H: Hashes<T>, group: GroupKey<T>, chain: int, path: Path)
    requires C.Valid()
    ensures
      var p, r := group.xonly, AddressOutput(C, H, group, chain, path);
      var first := H.hmac(chain, p, path.change);
      && (r.Ok? <==>
           && p != C.F.zero && !C.IsOdd(p)
           && path.account < 0x8000_0000 && path.change < 0x8000_0000 && path.addressIndex < 0x8000_0000
           && first.il.Some? && first.il.value != C.F.zero
           && var child := C.F.Add(p, first.il.value);
              var second := H.hmac(first.chain, child, path.addressIndex);
              && child != C.F.zero && second.il.Some? && second.il.value != C.F.zero
              && var key := C.F.Add(child, second.il.value);
                 key != C.F.zero && C.F.Add(C.XOnly(key), H.tap(C.XOnly(key))) != C.F.zero)
      && (r.Ok? ==>
           var child := C.F.Add(p, first.il.value);
           var i := C.XOnly(C.F.Add(child, H.hmac(first.chain, child, path.addressIndex).il.value));
           r.value == C.XOnly(C.F.Add(i, H.tap(i))))
  {
    var indices := [path.change, path.addressIndex];
    assert indices[1..] == [path.addressIndex] && indices[1..][1..] == [];
    DeriveTwo(C, H, Xpub(group.xonly, chain), path.change, path.addressIndex);
  }

  lemma DeriveTwo<T(!new)>(C: Curve<T>, H: Hashes<T>, x: Xpub<T>, a: nat, b: nat)
    ensures Derive(C, H, x, [a, b]) ==
      if CkdPub(C, H, x, a).Err? then Err(CkdPub(C, H, x, a).error) else CkdPub(C, H, CkdPub(C, H, x, a).value, b)
  {
    assert [a, b][1..] == [b] && [b][1..] == [];
    if CkdPub(C, H, x, a).Ok? {
      var child := CkdPub(C, H, x, a).value;
      assert Derive(C, H, x, [a, b]) == Derive(C, H, child, [b]);
      if CkdPub(C, H, child, b).Ok? {
        assert Derive(C, H, CkdPub(C, H, child, b).value, []) == Ok(CkdPub(C, H, child, b).value);
      }
    }
  }

  /** The sum the last tweak step must not hit zero on. */
  ghost function InnerSum<T(!new)>(C: Curve<T>, H: Hashes<T>, child: T, il: T): T {
    C.F.Add(C.F.NegIf(C.IsOdd(child), il), H.tap(C.XOnly(child)))
  }

  /** Main result: for a known network and an address that can be derived, the tweak
      exists exactly when the two IL do not cancel and the inner sum is not zero;
      the equality check of the two derivations never fires; and the tweak describes
      the very output key the address publishes. */
  lemma ChildKeyTweakExact<T(!new)>(
    C: Curve<T>, H: Hashes<T>, group: GroupKey<T>, chain: int, network: string, path: Path)
    requires C.Valid()
    ensures ChildKeyTweak(C, H, group, chain, network, path) != Fail(ChildMismatch)
    ensures KnownNetwork(network) && AddressOutput(C, H, group, chain, path).Ok? ==>
      var x, indices := Xpub(group.xonly, chain), [path.change, path.addressIndex];
      && Derive(C, H, x, indices).Ok?
      && var il := IlSum(C, H, x, indices);
         ChildKeyTweak(C, H, group, chain, network, path).Ok? <==>
           il != C.F.zero && InnerSum(C, H, Derive(C, H, x, indices).value.key, il) != C.F.zero
    ensures ChildKeyTweak(C, H, group, chain, network, path).Ok? ==>
      var t := ChildKeyTweak(C, H, group, chain, network, path).value;
      && KnownNetwork(network) && AddressOutput(C, H, group, chain, path) == Ok(t.output)
      && Describes(C, t, group.xonly)
  {
    var x, indices := Xpub(group.xonly, chain), [path.change, path.addressIndex];
    if LiftX(C, group.xonly).Ok? && Derive(C, H, x, indices).Ok? {
      var il, child := IlSum(C, H, x, indices), Derive(C, H, x, indices).value.key;
      RecomputeTwoSteps(C, H, x, path.change, path.addressIndex);
      DeriveAdds(C, H, x, indices);
      if FinishTweak(C, H, child, il).Ok? {
        FinishTweakDescribes(C, H, group.xonly, il);
      }
    }
  }

  // ---------------------------------------------------------------- spending

  // ---------------------------------------------------------------- addresses without a tweak

  /** Hashes whose tweaks are u for index 0 and v for every other, and whose tap tweak is t. */
  function FixedHashes<T(!new)>(u: T, v: T, t: T): Hashes<T> {
    Hashes((chain: int, key: T, index: nat) => Derived(Some(if index == 0 then u else v), 0), (key: T) => t)
  }

  /** The path 0/1 under fixed hashes, when no key on it is the point at infinity. */
  lemma FixedDerivation<T(!new)>(C: Curve<T>, group: GroupKey<T>, u: T, v: T, t: T)
    requires C.Valid() && LiftX(C, group.xonly).Ok? && u != C.F.zero && v != C.F.zero
    requires C.F.Add(group.xonly, u) != C.F.zero && C.F.Add(group.xonly, C.F.Add(u, v)) != C.F.zero
    ensures
      var H, x := FixedHashes(u, v, t), Xpub(group.xonly, 0);
      && Derive(C, H, x, [0, 1]) == Ok(Xpub(C.F.Add(group.xonly, C.F.Add(u, v)), 0))
      && IlSum(C, H, x, [0, 1]) == C.F.Add(u, v)
  {
    var H, x := FixedHashes(u, v, t), Xpub(group.xonly, 0);
    var child := Xpub(C.F.Add(group.xonly, u), 0);
    assert [0, 1][1..] == [1] && [1][1..] == [];
    assert CkdPub(C, H, x, 0) == Ok(child);
    C.F.AddAssoc(group.xonly, u, v);
    assert CkdPub(C, H, child, 1) == Ok(Xpub(C.F.Add(group.xonly, C.F.Add(u, v)), 0));
    assert Derive(C, H, x, [0, 1]) == Derive(C, H, child, [1]);
    assert IlSum(C, H, child, [1]) == C.F.Add(v, IlSum(C, H, Xpub(C.F.Add(child.key, v), 0), []));
    C.F.AddZero(v);
  }

  /** An address whose two BIP32 tweaks cancel: it is published, and has no key tweak. */
  lemma CancellingTweaks<T(!new)>(C: Curve<T>, group: GroupKey<T>)
    requires C.Valid() && LiftX(C, group.xonly).Ok? && C.F.Add(group.xonly, C.F.one) != C.F.zero
    ensures
      var H := FixedHashes(C.F.one, C.F.Neg(C.F.one), C.F.zero);
      && AddressOutput(C, H, group, 0, Path(0, 0, 1)) == Ok(group.xonly)
      && ChildKeyTweak(C, H, group, 0, "bitcoin", Path(0, 0, 1)) == Fail(ZeroTweak)
  {
    var u, v := C.F.one, C.F.Neg(C.F.one);
    C.F.AddNeg(u);
    C.F.AddZero(v);
    C.F.AddZero(u);
    C.F.AddZero(group.xonly);
    assert v != C.F.zero;
    FixedDerivation(C, group, u, v, C.F.zero);
    RecomputeTwoSteps(C, FixedHashes(u, v, C.F.zero), Xpub(group.xonly, 0), 0, 1);
  }

  /** An address whose tap tweak cancels the signed sum of its BIP32 tweaks. */
  lemma CancellingTapTweak<T(!new)>(C: Curve<T>, group: GroupKey<T>)
    requires C.Valid() && LiftX(C, group.xonly).Ok?
    requires C.F.Add(group.xonly, C.F.one) != C.F.zero && C.F.Add(group.xonly, C.F.Add(C.F.one, C.F.one)) != C.F.zero
    ensures
      var two := C.F.Add(C.F.one, C.F.one);
      var flip := C.IsOdd(C.F.Add(group.xonly, two));
      var H := FixedHashes(C.F.one, C.F.one, C.F.Neg(C.F.NegIf(flip, two)));
      && AddressOutput(C, H, group, 0, Path(0, 0, 1)) == Ok(group.xonly)
      && ChildKeyTweak(C, H, group, 0, "bitcoin", Path(0, 0, 1)) == Fail(ZeroTweak)
  {
    var two := C.F.Add(C.F.one, C.F.one);
    var child := C.F.Add(group.xonly, two);
    var flip := C.IsOdd(child);
    var s := C.F.NegIf(flip, two);
    var H := FixedHashes(C.F.one, C.F.one, C.F.Neg(s));
    C.F.AddZero(C.F.zero);
    FixedDerivation(C, group, C.F.one, C.F.one, C.F.Neg(s));
    assert two != C.F.zero by {
      TwoIsNotZero(C.F);
    }
    RecomputeTwoSteps(C, H, Xpub(group.xonly, 0), 0, 1);
    C.F.AddNeg(s);
    // the output key: +-(P + 2) - (+-2) == +-P
    var p := C.F.NegIf(flip, group.xonly);
    NegIfAdd(C.F, flip, group.xonly, two);
    C.F.AddAssoc(p, s, C.F.Neg(s));
    C.F.AddZero(p);
    NegIfTwice(C.F, flip, flip, group.xonly);
    XOnlyOfEven(C, group.xonly, flip);
  }

  lemma TwoIsNotZero<T(!new)>(F: Field<T>)
    requires F.Laws() && F.LargeCharacteristic()
    ensures F.Add(F.one, F.one) != F.zero
  {
    F.AddZero(F.one);
    assert F.Nat(1) == F.Add(F.Nat(0), F.one);
    assert F.Nat(2) == F.Add(F.Nat(1), F.one);
  }

  /** An even point and its opposite have that point as x-only form. */
  lemma XOnlyOfEven<T(!new)>(C: Curve<T>, p: T, flip: bool)
    requires C.Valid() && LiftX(C, p).Ok?
    ensures C.F.NegIf(flip, p) != C.F.zero && C.XOnly(C.F.NegIf(flip, p)) == p
  {
    assert C.ParityAt(p);
    C.F.NegNeg(p);
    C.F.AddNeg(p);
    C.F.AddZero(p);
  }

  /** End to end: for any key set on a polynomial, any tweak that describes its output
      under the group key, any digest and any honest signers, every signer produces a
      share and the shares aggregate to a BIP340 signature under the output key. */
  lemma TweakedSpend<T(!new)>(
    C: Curve<T>, run: Run<T>, p: seq<T>, t: KeyTweak<T>,
    orders: seq<seq<U16>>, public: seq<NoncePackage<T>>, shares: seq<SignatureShare<T>>)
    requires HonestSigners(C, run, p) && Describes(C, t, run.ks.groupKey.xonly)
    requires run.output == t.output && run.negateKey == t.negateKey
    requires |orders| == |run.signers| && forall i :: 0 <= i < |orders| ==> SameSigners(run.signers, orders[i])
    requires multiset(public) == multiset(PublicNonces(run.nonces))
    requires multiset(shares) == multiset(HonestShares(C, run, p))
    ensures forall i :: 0 <= i < |run.signers| ==>
      && FindShare(run.ks.shares, run.signers[i]).Some? && i < |run.nonces|
      && SignShareForOutput(C, run.digest, t.output, t.negateKey,
           FindShare(run.ks.shares, run.signers[i]).value, run.nonces[i], public, orders[i], run.config)
         == Ok(HonestShares(C, run, p)[i])
    ensures
      var r := AggregateForOutput(C, run.digest, t.output, t.tweak, public, shares, run.signers, run.config);
      r.Ok? && Verify(C, t.output, run.digest, r.value)
  {
    forall i | 0 <= i < |run.signers|
      ensures FindShare(run.ks.shares, run.signers[i]).Some? && i < |run.nonces|
      ensures SignShareForOutput(C, run.digest, t.output, t.negateKey,
           FindShare(run.ks.shares, run.signers[i]).value, run.nonces[i], public, orders[i], run.config)
         == Ok(HonestShares(C, run, p)[i])
    {
      HonestShare(C, run, p, i, orders[i], public);
    }
    HonestAggregate(C, run, p, t.tweak, public, shares);
  }

  /** The spend of a child address: every signer succeeds and the signature verifies
      under the key the address publishes. */
  lemma ChildAddressSpend<T(!new)>(
    C: Curve<T>, H: Hashes<T>, run: Run<T>, p: seq<T>, chain: int, network: string, path: Path,
    orders: seq<seq<U16>>, public: seq<NoncePackage<T>>, shares: seq<SignatureShare<T>>)
    requires HonestSigners(C, run, p) && ChildKeyTweak(C, H, run.ks.groupKey, chain, network, path).Ok?
    requires
      var t := ChildKeyTweak(C, H, run.ks.groupKey, chain, network, path).value;
      run.output == t.output && run.negateKey == t.negateKey
    requires |orders| == |run.signers| && forall i :: 0 <= i < |orders| ==> SameSigners(run.signers, orders[i])
    requires multiset(public) == multiset(PublicNonces(run.nonces))
    requires multiset(shares) == multiset(HonestShares(C, run, p))
    ensures forall i :: 0 <= i < |run.signers| ==>
      && FindShare(run.ks.shares, run.signers[i]).Some? && i < |run.nonces|
      && SignShareForOutput(C, run.digest, run.output, run.negateKey,
           FindShare(run.ks.shares, run.signers[i]).value, run.nonces[i], public, orders[i], run.config)
         == Ok(HonestShares(C, run, p)[i])
    ensures
      var t := ChildKeyTweak(C, H, run.ks.groupKey, chain, network, path).value;
      var address := AddressOutput(C, H, run.ks.groupKey, chain, path);
      var r := AggregateForOutput(C, run.digest, t.output, t.tweak, public, shares, run.signers, run.config);
      address.Ok? && r.Ok? && Verify(C, address.value, run.digest, r.value)
  {
    ChildKeyTweakExact(C, H, run.ks.groupKey, chain, network, path);
    TweakedSpend(C, run, p, ChildKeyTweak(C, H, run.ks.groupKey, chain, network, path).value, orders, public, shares);
  }
}
