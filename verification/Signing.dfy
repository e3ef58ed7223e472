/** HTSS threshold signing: nonces, weighted signature shares and aggregation. */
module Signing {
  import opened Wrappers
  import opened Lists
  import opened Fields
  import opened Vectors
  import opened Birkhoff
  import opened Policies
  import opened SignerSets
  import opened Curves
  import opened Dkg
  import opened KeySets

  datatype NoncePackage<T> = NoncePackage(id: U16, session: string, point: T)
  datatype LocalNonce<T> = LocalNonce(package: NoncePackage<T>, secret: T)
  datatype SignatureShare<T> = SignatureShare(id: U16, session: string, value: T)
  datatype Signature<T> = Signature(nonce: T, s: T)
  datatype AggregateNonce<T> = AggregateNonce(session: string, even: T, negated: bool)

  // ---------------------------------------------------------------- package sets

  /** Who sent a package, and for which session. */
  datatype Tag = Tag(id: U16, session: string)

  function NonceTag<T>(n: NoncePackage<T>): Tag { Tag(n.id, n.session) }
  function ShareTag<T>(s: SignatureShare<T>): Tag { Tag(s.id, s.session) }

  function TagIds(tags: seq<Tag>): (s: seq<U16>)
    ensures |s| == |tags| && forall i :: 0 <= i < |s| ==> s[i] == tags[i].id
  {
    seq(|tags|, i requires 0 <= i < |tags| => tags[i].id)
  }

  /** The loop of validate_htss_nonce_set and validate_htss_signature_share_set. */
  function CheckTags(tags: seq<Tag>, signers: seq<U16>): (r: Result<()>)
    ensures r.Ok? <==>
      && Distinct(TagIds(tags))
      && forall i :: 0 <= i < |tags| ==> tags[i].id in signers && tags[i].session == tags[0].session
  {
    if |tags| == 0 then Ok(())
    else
      var k := |tags| - 1;
      assert TagIds(tags)[..k] == TagIds(tags[..k]);
      var _ :- CheckTags(tags[..k], signers);
      if tags[k].id !in signers then Fail(NotInSignerSet(tags[k].id))
      else if tags[k].id in TagIds(tags[..k]) then Err(DuplicateParticipantId(tags[k].id))
      else if tags[k].session != tags[0].session then Fail(SessionMismatch)
      else Ok(())
  }

  ghost predicate FullTagSet(tags: seq<Tag>, signers: seq<U16>) {
    && |tags| == |signers| && Distinct(TagIds(tags))
    && forall i :: 0 <= i < |tags| ==> tags[i].id in signers && tags[i].session == tags[0].session
  }

  function TagSetResult(tags: seq<Tag>, signers: seq<U16>): (r: Result<()>)
    ensures r.Ok? <==> FullTagSet(tags, signers)
  {
    var _ :- CheckTags(tags, signers);
    if |tags| != |signers| then Fail(SetMismatch) else Ok(())
  }

  lemma {:induction false} CheckTagsPrefix(tags: seq<Tag>, signers: seq<U16>, k: nat)
    requires k <= |tags| && CheckTags(tags[..k], signers).Err?
    ensures CheckTags(tags, signers) == CheckTags(tags[..k], signers)
    decreases |tags|
  {
    if k == |tags| {
      assert tags[..k] == tags;
    } else {
      assert tags[..|tags| - 1][..k] == tags[..k];
      CheckTagsPrefix(tags[..|tags| - 1], signers, k);
    }
  }

  method ValidateTagSet(tags: seq<Tag>, signers: seq<U16>) returns (r: Result<()>)
    ensures r == TagSetResult(tags, signers)
  {
    var seen: set<U16> := {};
    var session: Option<string> := None;
    for i := 0 to |tags|
      invariant seen == Members(TagIds(tags)[..i])
      invariant session == if i == 0 then None else Some(tags[0].session)
      invariant CheckTags(tags[..i], signers).Ok?
    {
      assert tags[..i + 1][..i] == tags[..i] && TagIds(tags[..i]) == TagIds(tags)[..i];
      if tags[i].id !in signers {
        CheckTagsPrefix(tags, signers, i + 1);
        return Fail(NotInSignerSet(tags[i].id));
      }
      if tags[i].id in seen {
        CheckTagsPrefix(tags, signers, i + 1);
        return Err(DuplicateParticipantId(tags[i].id));
      }
      seen := seen + {tags[i].id};
      assert TagIds(tags)[..i + 1] == TagIds(tags)[..i] + [tags[i].id];
      if session.Some? && session.value != tags[i].session {
        CheckTagsPrefix(tags, signers, i + 1);
        return Fail(SessionMismatch);
      }
      if session.None? {
        session := Some(tags[i].session);
      }
    }
    assert tags[..|tags|] == tags && TagIds(tags)[..|tags|] == TagIds(tags);
    DistinctSize(TagIds(tags));
    if |seen| != |signers| {
      return Fail(SetMismatch);
    }
    r := Ok(());
  }

  // ---------------------------------------------------------------- aggregate nonce

  function SumPoints<T(==, !new)>(C: Curve<T>, nonces: seq<NoncePackage<T>>): Result<T> {
    if |nonces| == 0 then Ok(C.F.zero)
    else
      var k := |nonces| - 1;
      var acc :- SumPoints(C, nonces[..k]);
      var point :- DecodePoint(C, nonces[k].point);
      Ok(C.F.Add(acc, point))
  }

  function NonceTags<T>(nonces: seq<NoncePackage<T>>): seq<Tag> { MapSeq((n: NoncePackage<T>) => NonceTag(n), nonces) }
  function ShareTags<T>(shares: seq<SignatureShare<T>>): seq<Tag> {
    MapSeq((s: SignatureShare<T>) => ShareTag(s), shares)
  }

  /** aggregate_htss_public_nonce */
  function CombineNonces<T(==, !new)>(C: Curve<T>, nonces: seq<NoncePackage<T>>, signers: seq<U16>)
    : Result<AggregateNonce<T>>
  {
    var _ :- TagSetResult(NonceTags(nonces), signers);
    if |nonces| == 0 then Fail(MissingNonce)
    else
      var sum :- SumPoints(C, nonces);
      if sum == C.F.zero then Fail(ZeroAggregate)
      else Ok(AggregateNonce(nonces[0].session, C.XOnly(sum), C.IsOdd(sum)))
  }

  ghost function Points<T>(nonces: seq<NoncePackage<T>>): (v: seq<T>)
    ensures |v| == |nonces| && forall i :: 0 <= i < |v| ==> v[i] == nonces[i].point
  {
    seq(|nonces|, i requires 0 <= i < |nonces| => nonces[i].point)
  }

  lemma {:induction false} SumPointsExact<T(!new)>(C: Curve<T>, nonces: seq<NoncePackage<T>>)
    ensures SumPoints(C, nonces).Ok? <==> forall i :: 0 <= i < |nonces| ==> nonces[i].point != C.F.zero
    ensures SumPoints(C, nonces).Ok? ==> SumPoints(C, nonces).value == Total(C.F, Points(nonces))
  {
    if |nonces| > 0 {
      var k := |nonces| - 1;
      SumPointsExact(C, nonces[..k]);
      assert Points(nonces)[..k] == Points(nonces[..k]);
      assert forall i :: 0 <= i < k ==> nonces[..k][i] == nonces[i];
    }
  }

  /** The aggregate nonce of any packages: it exists exactly for one package per signer and session,
      all of them points with a non-zero sum, and is the even form of that sum with its parity. */
  lemma CombineNoncesExact<T(!new)>(C: Curve<T>, nonces: seq<NoncePackage<T>>, signers: seq<U16>)
    ensures
      var r, total := CombineNonces(C, nonces, signers), Total(C.F, Points(nonces));
      && (r.Ok? <==>
           && FullTagSet(NonceTags(nonces), signers) && |nonces| > 0 && total != C.F.zero
           && forall i :: 0 <= i < |nonces| ==> nonces[i].point != C.F.zero)
      && (r.Ok? ==> r.value == AggregateNonce(nonces[0].session, C.XOnly(total), C.IsOdd(total)))
  {
    SumPointsExact(C, nonces);
  }

  lemma {:induction false} SumPointsPrefix<T(!new)>(C: Curve<T>, nonces: seq<NoncePackage<T>>, k: nat)
    requires k <= |nonces| && SumPoints(C, nonces[..k]).Err?
    ensures SumPoints(C, nonces) == SumPoints(C, nonces[..k])
    decreases |nonces|
  {
    if k == |nonces| {
      assert nonces[..k] == nonces;
    } else {
      assert nonces[..|nonces| - 1][..k] == nonces[..k];
      SumPointsPrefix(C, nonces[..|nonces| - 1], k);
    }
  }

  method AggregatePublicNonce<T(==, !new)>(C: Curve<T>, nonces: seq<NoncePackage<T>>, signers: seq<U16>)
    returns (r: Result<AggregateNonce<T>>)
    ensures r == CombineNonces(C, nonces, signers)
  {
    var valid := ValidateTagSet(NonceTags(nonces), signers);
    if valid.Err? {
      return Err(valid.error);
    }
    if |nonces| == 0 {
      return Fail(MissingNonce);
    }
    var aggregate := C.F.zero;
    for i := 0 to |nonces|
      invariant SumPoints(C, nonces[..i]) == Ok(aggregate)
    {
      assert nonces[..i + 1][..i] == nonces[..i];
      var point := DecodePoint(C, nonces[i].point);
      if point.Err? {
        SumPointsPrefix(C, nonces, i + 1);
        return Err(point.error);
      }
      aggregate := C.F.Add(aggregate, point.value);
    }
    assert nonces[..|nonces|] == nonces;
    if aggregate == C.F.zero {
      return Fail(ZeroAggregate);
    }
    r := Ok(AggregateNonce(nonces[0].session, C.XOnly(aggregate), C.IsOdd(aggregate)));
  }

  // ---------------------------------------------------------------- signature shares

  function FindCoefficient<T>(cs: seq<BirkhoffCoefficient<T>>, id: nat): (r: Option<BirkhoffCoefficient<T>>) {
    if |cs| == 0 then None else if cs[0].id == id then Some(cs[0]) else FindCoefficient(cs[1..], id)
  }

  /** htss_sign_share_for_output: sign under an output key +-P + B*G. */
  function SignShareForOutput<T(==, !new)>(
    C: Curve<T>, digest: int, output: T, negateKey: bool, share: KeyShare<T>, nonce: LocalNonce<T>,
    nonces: seq<NoncePackage<T>>, signers: seq<U16>, c: HierarchicalConfig)
    : Result<SignatureShare<T>>
  {
    if share.id != nonce.package.id then Fail(ParticipantMismatch)
    else if share.id !in signers then Fail(NotInSignerSet(share.id))
    else
      var cs :- SignerCoefficients(C.F, signers, c);
      var w := FindCoefficient(cs, share.id);
      if w.None? then Err(MissingRankedParticipant(share.id))
      else if share.rank != w.value.order then Fail(RankMismatch(share.id))
      else
        var agg :- CombineNonces(C, nonces, signers);
        if agg.session != nonce.package.session then Fail(SessionMismatch)
        else
          var key :- LiftX(C, output);
          var e := C.Challenge(agg.even, key, digest);
          Ok(SignatureShare(share.id, nonce.package.session,
            C.F.Add(C.F.NegIf(agg.negated, nonce.secret),
                    C.F.Mul(C.F.NegIf(negateKey, e), C.F.Mul(w.value.value, share.value)))))
  }

  /** htss_sign_share: the same steps under the group key itself. */
  function SignShare<T(==, !new)>(
    C: Curve<T>, key: GroupKey<T>, digest: int, share: KeyShare<T>, nonce: LocalNonce<T>,
    nonces: seq<NoncePackage<T>>, signers: seq<U16>, c: HierarchicalConfig)
    : Result<SignatureShare<T>>
  {
    SignShareForOutput(C, digest, key.xonly, false, share, nonce, nonces, signers, c)
  }

  // ---------------------------------------------------------------- aggregation

  /** BIP340 verification: R and P are even points and s*G == R + e*P. */
  predicate Verify<T(==, !new)>(C: Curve<T>, key: T, digest: int, sig: Signature<T>) {
    && LiftX(C, key).Ok? && LiftX(C, sig.nonce).Ok?
    && sig.s == C.F.Add(sig.nonce, C.F.Mul(C.Challenge(sig.nonce, key, digest), key))
  }

  function ShareValues<T>(shares: seq<SignatureShare<T>>): (v: seq<T>)
    ensures |v| == |shares| && forall i :: 0 <= i < |v| ==> v[i] == shares[i].value
  {
    seq(|shares|, i requires 0 <= i < |shares| => shares[i].value)
  }

  /** The checks and sums both aggregators start with. */
  function AggregateInputs<T(==, !new)>(
    C: Curve<T>, nonces: seq<NoncePackage<T>>, shares: seq<SignatureShare<T>>, signers: seq<U16>, c: HierarchicalConfig)
    : Result<(T, T)>
  {
    var _ :- HierarchicalResult(signers, c);
    var _ :- TagSetResult(NonceTags(nonces), signers);
    var _ :- TagSetResult(ShareTags(shares), signers);
    var agg :- CombineNonces(C, nonces, signers);
    Ok((agg.even, Total(C.F, ShareValues(shares))))
  }

  /** aggregate_htss_signature_shares_for_output */
  function AggregateForOutput<T(==, !new)>(
    C: Curve<T>, digest: int, output: T, tweak: T,
    nonces: seq<NoncePackage<T>>, shares: seq<SignatureShare<T>>, signers: seq<U16>, c: HierarchicalConfig)
    : Result<Signature<T>>
  {
    var (even, sum) :- AggregateInputs(C, nonces, shares, signers, c);
    var key :- LiftX(C, output);
    var sig := Signature(even, C.F.Add(sum, C.F.Mul(C.Challenge(even, key, digest), tweak)));
    if Verify(C, key, digest, sig) then Ok(sig) else Fail(SignatureRejected)
  }

  /** aggregate_htss_signature_shares */
  function Aggregate<T(==, !new)>(
    C: Curve<T>, group: GroupKey<T>, digest: int,
    nonces: seq<NoncePackage<T>>, shares: seq<SignatureShare<T>>, signers: seq<U16>, c: HierarchicalConfig)
    : Result<Signature<T>>
  {
    var (even, sum) :- AggregateInputs(C, nonces, shares, signers, c);
    var key :- LiftX(C, group.xonly);
    if Verify(C, key, digest, Signature(even, sum)) then Ok(Signature(even, sum)) else Fail(SignatureRejected)
  }

  method SumShareValues<T(!new)>(F: Field<T>, shares: seq<SignatureShare<T>>) returns (s: T)
    ensures s == Total(F, ShareValues(shares))
  {
    s := F.zero;
    ghost var v := ShareValues(shares);
    for i := 0 to |shares|
      invariant s == Total(F, v[..i])
    {
      assert v[..i + 1][..i] == v[..i];
      s := F.Add(s, shares[i].value);
    }
    assert v[..|shares|] == v;
  }

  method AggregateSignatureSharesForOutput<T(==, !new)>(
    C: Curve<T>, digest: int, output: T, tweak: T,
    nonces: seq<NoncePackage<T>>, shares: seq<SignatureShare<T>>, signers: seq<U16>, c: HierarchicalConfig)
    returns (r: Result<Signature<T>>)
    ensures r == AggregateForOutput(C, digest, output, tweak, nonces, shares, signers, c)
  {
    var accepted := ValidateHierarchicalSignerSet(signers, c);
    if accepted.Err? {
      return Err(accepted.error);
    }
    var nonceSet := ValidateTagSet(NonceTags(nonces), signers);
    if nonceSet.Err? {
      return Err(nonceSet.error);
    }
    var shareSet := ValidateTagSet(ShareTags(shares), signers);
    if shareSet.Err? {
      return Err(shareSet.error);
    }
    var agg := AggregatePublicNonce(C, nonces, signers);
    if agg.Err? {
      return Err(agg.error);
    }
    var s := SumShareValues(C.F, shares);
    var key := LiftX(C, output);
    if key.Err? {
      return Err(key.error);
    }
    var e := C.Challenge(agg.value.even, key.value, digest);
    var sig := Signature(agg.value.even, C.F.Add(s, C.F.Mul(e, tweak)));
    if !Verify(C, key.value, digest, sig) {
      return Fail(SignatureRejected);
    }
    r := Ok(sig);
  }

  // ---------------------------------------------------------------- exactness

  /** The aggregator has everything but the right sum. */
  ghost predicate ReadyToSum<T(!new)>(
    C: Curve<T>, output: T, nonces: seq<NoncePackage<T>>, shares: seq<SignatureShare<T>>, signers: seq<U16>,
    c: HierarchicalConfig)
  {
    && HierarchicalResult(signers, c).Ok? && FullTagSet(ShareTags(shares), signers)
    && CombineNonces(C, nonces, signers).Ok? && LiftX(C, output).Ok?
  }

  /** a + m == r + (k + m) exactly when a == r + k */
  lemma CancelTweak<T(!new)>(F: Field<T>, a: T, m: T, r: T, k: T)
    requires F.Laws()
    ensures F.Add(a, m) == F.Add(r, F.Add(k, m)) <==> a == F.Add(r, k)
  {
    F.AddAssoc(r, k, m);
    if F.Add(a, m) == F.Add(r, F.Add(k, m)) {
      F.AddCancel(a, F.Add(r, k), m);
    }
  }

  lemma NegIfMul<T(!new)>(F: Field<T>, flip: bool, a: T, b: T)
    requires F.Laws()
    ensures F.Mul(F.NegIf(flip, a), b) == F.Mul(a, F.NegIf(flip, b))
  {
    F.NegMul(a, b);
  }

  /** The aggregate nonce is an even point. */
  lemma CombinedIsEven<T(!new)>(C: Curve<T>, nonces: seq<NoncePackage<T>>, signers: seq<U16>)
    requires C.Valid() && CombineNonces(C, nonces, signers).Ok?
    ensures LiftX(C, CombineNonces(C, nonces, signers).value.even).Ok?
  {
    C.XOnlyEven(SumPoints(C, nonces).value);
  }

  /** For an output key Q == +-P + B*G, aggregation accepts a share set exactly when its
      inputs are complete and the shares sum to R +- e*P; the tweak term takes care of itself. */
  lemma AggregateExact<T(!new)>(
    C: Curve<T>, digest: int, output: T, tweak: T, negateKey: bool, group: T,
    nonces: seq<NoncePackage<T>>, shares: seq<SignatureShare<T>>, signers: seq<U16>, c: HierarchicalConfig)
    requires C.Valid() && output == C.F.Add(C.F.NegIf(negateKey, group), tweak)
    ensures
      var r := AggregateForOutput(C, digest, output, tweak, nonces, shares, signers, c);
      && (r.Ok? <==>
           && ReadyToSum(C, output, nonces, shares, signers, c)
           && var even := CombineNonces(C, nonces, signers).value.even;
              var e := C.Challenge(even, output, digest);
              Total(C.F, ShareValues(shares)) == C.F.Add(even, C.F.Mul(C.F.NegIf(negateKey, e), group)))
      && (r.Ok? ==> r.value.nonce == CombineNonces(C, nonces, signers).value.even && Verify(C, output, digest, r.value))
      && (r.Err? && ReadyToSum(C, output, nonces, shares, signers, c) ==> r == Fail(SignatureRejected))
  {
    if ReadyToSum(C, output, nonces, shares, signers, c) {
      var agg := CombineNonces(C, nonces, signers).value;
      var e := C.Challenge(agg.even, output, digest);
      CombinedIsEven(C, nonces, signers);
      NegIfMul(C.F, negateKey, e, group);
      C.F.Distrib(e, C.F.NegIf(negateKey, group), tweak);
      var keyed := C.F.Mul(e, C.F.NegIf(negateKey, group));
      CancelTweak(C.F, Total(C.F, ShareValues(shares)), C.F.Mul(e, tweak), agg.even, keyed);
    }
  }

  /** Under the group key itself, aggregation is the output form with tweak zero. */
  lemma AggregateIsUntweaked<T(!new)>(
    C: Curve<T>, group: GroupKey<T>, digest: int,
    nonces: seq<NoncePackage<T>>, shares: seq<SignatureShare<T>>, signers: seq<U16>, c: HierarchicalConfig)
    requires C.Valid()
    ensures Aggregate(C, group, digest, nonces, shares, signers, c)
         == AggregateForOutput(C, digest, group.xonly, C.F.zero, nonces, shares, signers, c)
  {
    var inputs := AggregateInputs(C, nonces, shares, signers, c);
    if inputs.Ok? {
      C.F.MulZero(C.Challenge(inputs.value.0, group.xonly, digest));
      C.F.AddZero(inputs.value.1);
    }
  }
}
