/** Honest signing runs: order independence, exact sums and successful aggregation. */
module HonestSigning {
  import opened Wrappers
  import opened Lists
  import opened Fields
  import opened Vectors
  import opened Birkhoff
  import opened Policies
  import opened SignerSets
  import opened Curves
  import opened Dkg
  import opened KeySets
  import opened Signing

  // ---------------------------------------------------------------- signer order

  /** The same signers, listed in possibly different orders. */
  ghost predicate SameSigners(a: seq<U16>, b: seq<U16>) { Distinct(a) && multiset(a) == multiset(b) }

  lemma AcceptsOrder(a: seq<U16>, b: seq<U16>, c: HierarchicalConfig)
    requires SameSigners(a, b) && HierarchicalAccepts(a, c)
    ensures HierarchicalAccepts(b, c)
  {
    DistinctOrder(a, b);
    assert |multiset(a)| == |a| && |multiset(b)| == |b|;
    forall i | 0 <= i < |b|
      ensures b[i] in a
    {
      assert b[i] in multiset(a);
    }
    var f := (id: U16) => RankOrZero(c.participants, id);
    MapOrder(f, a, b);
    assert MapSeq(f, a) == SignerRanks(a, c.participants) && MapSeq(f, b) == SignerRanks(b, c.participants);
    forall x | 1 <= x <= c.threshold
      ensures CountBelow(SignerRanks(b, c.participants), x) >= x
    {
      CountBelowOrder(SignerRanks(a, c.participants), SignerRanks(b, c.participants), x);
    }
  }

  lemma {:induction false} FindCoefficientAt<T>(cs: seq<BirkhoffCoefficient<T>>, ids: seq<nat>, i: nat)
    requires |ids| == |cs| && (forall k :: 0 <= k < |cs| ==> cs[k].id == ids[k]) && Distinct(ids) && i < |cs|
    ensures FindCoefficient(cs, ids[i]) == Some(cs[i])
    decreases i
  {
    if i > 0 {
      assert ids[0] != ids[i];
      FindCoefficientAt(cs[1..], ids[1..], i - 1);
    }
  }

  lemma {:induction false} CoefficientShape<T(!new)>(C: Curve<T>, signers: seq<U16>, c: HierarchicalConfig, i: nat)
    requires C.Valid() && SignerCoefficients(C.F, signers, c).Ok? && i < |signers|
    ensures
      var cs := SignerCoefficients(C.F, signers, c).value;
      |cs| == |signers| && cs[i].id == signers[i] && cs[i].order == RankOrZero(c.participants, signers[i])
  {
    var points := SignerPoints(signers, c).value;
    Weights(C.F, points);
    var cs := InterpolationCoefficients(C.F, points).value;
    assert cs[i] == WithPoints(points, Values(cs))[i];
  }

  /** What a solvable signer set gives its i-th signer. */
  lemma {:induction false} CoefficientAt<T(!new)>(C: Curve<T>, signers: seq<U16>, c: HierarchicalConfig, i: nat)
    requires C.Valid() && ConstructedHierarchical(c) && SignerCoefficients(C.F, signers, c).Ok? && i < |signers|
    ensures
      var cs := SignerCoefficients(C.F, signers, c).value;
      && |cs| == |signers| && cs[i].id == signers[i] && cs[i].order == RankOrZero(c.participants, signers[i])
      && FindCoefficient(cs, signers[i]) == Some(cs[i])
  {
    SignerPointsMeaning(signers, c);
    var cs := SignerCoefficients(C.F, signers, c).value;
    forall k | 0 <= k < |signers|
      ensures |cs| == |signers| && cs[k].id == signers[k]
    {
      CoefficientShape(C, signers, c, k);
    }
    CoefficientShape(C, signers, c, i);
    FindCoefficientAt(cs, signers, i);
  }

  /** Any order of a solvable signer set is solvable and gives each signer the same coefficient. */
  lemma CoefficientsOrder<T(!new)>(C: Curve<T>, a: seq<U16>, b: seq<U16>, c: HierarchicalConfig, i: nat)
    requires C.Valid() && ConstructedHierarchical(c) && SameSigners(a, b) && i < |a|
    requires SignerCoefficients(C.F, a, c).Ok?
    ensures SignerCoefficients(C.F, b, c).Ok?
    ensures |SignerCoefficients(C.F, a, c).value| == |a|
    ensures FindCoefficient(SignerCoefficients(C.F, b, c).value, a[i]) == Some(SignerCoefficients(C.F, a, c).value[i])
  {
    SignerPointsMeaning(a, c);
    AcceptsOrder(a, b, c);
    SignerPointsMeaning(b, c);
    var p, q := SignerPoints(a, c).value, SignerPoints(b, c).value;
    var f := (id: U16) => BirkhoffPoint(id, id, RankOrZero(c.participants, id));
    MapOrder(f, a, b);
    assert MapSeq(f, a) == p && MapSeq(f, b) == q;
    OrderIndependent(C.F, p, q);
    assert a[i] in multiset(b);
    var j :| 0 <= j < |b| && b[j] == a[i];
    assert p[i] == q[j];
    CoefficientAt(C, a, c, i);
    CoefficientAt(C, b, c, j);
  }

  /** When any signer's call returns a share: its nonce and its key share are its own and of its
      roster rank, the signer set is solvable and contains it, the nonces combine to an aggregate of
      its session, and the output key is an even point. */
  lemma SignShareExact<T(!new)>(
    C: Curve<T>, digest: int, output: T, negateKey: bool, share: KeyShare<T>, nonce: LocalNonce<T>,
    nonces: seq<NoncePackage<T>>, signers: seq<U16>, c: HierarchicalConfig)
    requires C.Valid() && ConstructedHierarchical(c)
    ensures
      var r := SignShareForOutput(C, digest, output, negateKey, share, nonce, nonces, signers, c);
      && (r.Ok? <==>
           && share.id == nonce.package.id && share.id in signers && SignerCoefficients(C.F, signers, c).Ok?
           && share.rank == RankOrZero(c.participants, share.id)
           && CombineNonces(C, nonces, signers).Ok?
           && CombineNonces(C, nonces, signers).value.session == nonce.package.session
           && output != C.F.zero && !C.IsOdd(output))
      && (r.Ok? ==> r.value.id == share.id && r.value.session == nonce.package.session)
  {
    if share.id in signers && SignerCoefficients(C.F, signers, c).Ok? {
      var i :| 0 <= i < |signers| && signers[i] == share.id;
      CoefficientAt(C, signers, c, i);
    }
  }

  // ---------------------------------------------------------------- honest nonces

  /** Fresh nonces of one session, one per signer: the public nonce is k*G. */
  ghost predicate HonestNonces<T(!new)>(C: Curve<T>, nonces: seq<LocalNonce<T>>, signers: seq<U16>, session: string) {
    && |nonces| == |signers|
    && forall i :: 0 <= i < |nonces| ==>
         nonces[i].secret != C.F.zero && nonces[i].package == NoncePackage(signers[i], session, nonces[i].secret)
  }

  ghost function PublicNonces<T>(nonces: seq<LocalNonce<T>>): (s: seq<NoncePackage<T>>)
    ensures |s| == |nonces| && forall i :: 0 <= i < |s| ==> s[i] == nonces[i].package
  {
    seq(|nonces|, i requires 0 <= i < |nonces| => nonces[i].package)
  }

  ghost function Secrets<T>(nonces: seq<LocalNonce<T>>): (s: seq<T>)
    ensures |s| == |nonces| && forall i :: 0 <= i < |s| ==> s[i] == nonces[i].secret
  {
    seq(|nonces|, i requires 0 <= i < |nonces| => nonces[i].secret)
  }

  lemma {:induction false} SumPointsIsSumBy<T(!new)>(C: Curve<T>, nonces: seq<NoncePackage<T>>)
    requires forall i :: 0 <= i < |nonces| ==> nonces[i].point != C.F.zero
    ensures SumPoints(C, nonces) == Ok(SumBy(C.F, (n: NoncePackage<T>) => n.point, nonces))
  {
    if |nonces| > 0 {
      SumPointsIsSumBy(C, nonces[..|nonces| - 1]);
    }
  }

  /** A list with one package per signer and one session is a full set for any order of the signers. */
  lemma TagsComplete(tags: seq<Tag>, ids: seq<U16>, order: seq<U16>, session: string)
    requires SameSigners(ids, order) && multiset(TagIds(tags)) == multiset(ids)
    requires forall i :: 0 <= i < |tags| ==> tags[i].session == session
    ensures FullTagSet(tags, order)
  {
    DistinctOrder(ids, TagIds(tags));
    assert |multiset(TagIds(tags))| == |TagIds(tags)| && |multiset(order)| == |order|;
    forall i | 0 <= i < |tags|
      ensures tags[i].id in order
    {
      assert TagIds(tags)[i] in multiset(order);
    }
  }

  /** Public nonces in any order aggregate to the even form of the sum of the secrets. */
  lemma CombineHonest<T(!new)>(
    C: Curve<T>, nonces: seq<LocalNonce<T>>, signers: seq<U16>, session: string, public: seq<NoncePackage<T>>,
    order: seq<U16>)
    requires C.Valid() && HonestNonces(C, nonces, signers, session) && SameSigners(signers, order) && |signers| > 0
    requires multiset(public) == multiset(PublicNonces(nonces)) && Total(C.F, Secrets(nonces)) != C.F.zero
    ensures
      var k := Total(C.F, Secrets(nonces));
      CombineNonces(C, public, order) == Ok(AggregateNonce(session, C.XOnly(k), C.IsOdd(k)))
  {
    var all := PublicNonces(nonces);
    assert |multiset(public)| == |public| && |multiset(all)| == |all|;
    forall i | 0 <= i < |public|
      ensures public[i].session == session && public[i].point != C.F.zero
    {
      assert public[i] in multiset(all);
      var j :| 0 <= j < |all| && all[j] == public[i];
    }
    var id := (n: NoncePackage<T>) => n.id;
    MapOrder(id, public, all);
    assert MapSeq(id, all) == signers;
    assert MapSeq(id, public) == TagIds(NonceTags(public));
    TagsComplete(NonceTags(public), signers, order, session);
    var g := (n: NoncePackage<T>) => n.point;
    SumPointsIsSumBy(C, public);
    SumByOrder(C.F, g, public, all);
    TotalIsSumBy(C.F, g, all, Secrets(nonces));
  }

  // ---------------------------------------------------------------- honest shares

  /** A signing situation: who signs, with which key set and nonces, under which key. */
  datatype Run<T> = Run(
    ks: KeySet<T>, config: HierarchicalConfig, signers: seq<U16>, nonces: seq<LocalNonce<T>>,
    session: string, digest: int, output: T, negateKey: bool)

  /** A key set on p, a solvable signer set, and fresh nonces that do not cancel. */
  ghost predicate HonestSigners<T(!new)>(C: Curve<T>, run: Run<T>, p: seq<T>) {
    && C.Valid() && LiesOn(C, run.ks, run.config, p)
    && SignerCoefficients(C.F, run.signers, run.config).Ok?
    && HonestNonces(C, run.nonces, run.signers, run.session)
    && Total(C.F, Secrets(run.nonces)) != C.F.zero
  }

  ghost predicate HonestRun<T(!new)>(C: Curve<T>, run: Run<T>, p: seq<T>) {
    HonestSigners(C, run, p) && LiftX(C, run.output).Ok?
  }

  ghost function RunNonce<T(!new)>(C: Curve<T>, run: Run<T>): T { C.XOnly(Total(C.F, Secrets(run.nonces))) }

  ghost function RunChallenge<T(!new)>(C: Curve<T>, run: Run<T>): T {
    C.F.NegIf(run.negateKey, C.Challenge(RunNonce(C, run), run.output, run.digest))
  }

  ghost function RunWeights<T(!new)>(C: Curve<T>, run: Run<T>): seq<T>
    requires SignerCoefficients(C.F, run.signers, run.config).Ok?
  {
    Values(SignerCoefficients(C.F, run.signers, run.config).value)
  }

  ghost function RunObservations<T(!new)>(C: Curve<T>, run: Run<T>, p: seq<T>): (o: seq<T>)
    requires SignerPoints(run.signers, run.config).Ok?
    ensures |o| == |run.signers|
  {
    Observations(C.F, SignerPoints(run.signers, run.config).value, p)
  }

  /** The share of signer i: +-k_i + (+-e) * (w_i * f^(r_i)(x_i)). */
  ghost function HonestValue<T(!new)>(C: Curve<T>, run: Run<T>, p: seq<T>, i: nat): T
    requires SignerCoefficients(C.F, run.signers, run.config).Ok?
    requires i < |run.signers| == |run.nonces| == |RunWeights(C, run)|
  {
    C.F.Add(C.F.NegIf(C.IsOdd(Total(C.F, Secrets(run.nonces))), run.nonces[i].secret),
            C.F.Mul(RunChallenge(C, run), C.F.Mul(RunWeights(C, run)[i], RunObservations(C, run, p)[i])))
  }

  lemma RunSizes<T(!new)>(C: Curve<T>, run: Run<T>, p: seq<T>)
    requires HonestSigners(C, run, p)
    ensures HierarchicalAccepts(run.signers, run.config) && Distinct(run.signers)
    ensures |run.signers| == |run.nonces| == |RunWeights(C, run)| && |run.signers| >= |p| > 0
  {
    SignerPointsMeaning(run.signers, run.config);
    Weights(C.F, SignerPoints(run.signers, run.config).value);
  }

  /** Every honest signer succeeds, in whatever order it holds the signer set and the
      public nonces, and its share does not depend on those orders. */
  lemma HonestShare<T(!new)>(
    C: Curve<T>, run: Run<T>, p: seq<T>, i: nat, order: seq<U16>, public: seq<NoncePackage<T>>)
    requires HonestRun(C, run, p) && i < |run.signers|
    requires SameSigners(run.signers, order) && multiset(public) == multiset(PublicNonces(run.nonces))
    ensures |run.signers| == |run.nonces| == |RunWeights(C, run)|
    ensures FindShare(run.ks.shares, run.signers[i]).Some?
    ensures SignShareForOutput(
      C, run.digest, run.output, run.negateKey, FindShare(run.ks.shares, run.signers[i]).value,
      run.nonces[i], public, order, run.config)
      == Ok(SignatureShare(run.signers[i], run.session, HonestValue(C, run, p, i)))
  {
    RunSizes(C, run, p);
    var id := run.signers[i];
    var cs, k := SignerCoefficients(C.F, run.signers, run.config).value, Total(C.F, Secrets(run.nonces));
    assert id in order by {
      assert id in multiset(order);
    }
    assert |cs| == |run.signers| && cs[i].order == RankOrZero(run.config.participants, id) by {
      CoefficientShape(C, run.signers, run.config, i);
    }
    var found := SignerCoefficients(C.F, order, run.config);
    assert found.Ok? && FindCoefficient(found.value, id) == Some(cs[i]) by {
      CoefficientsOrder(C, run.signers, order, run.config, i);
    }
    assert CombineNonces(C, public, order) == Ok(AggregateNonce(run.session, C.XOnly(k), C.IsOdd(k))) by {
      CombineHonest(C, run.nonces, run.signers, run.session, public, order);
    }
    SignerShare(C, run.ks, run.config, p, id);
  }

  ghost function HonestShares<T(!new)>(C: Curve<T>, run: Run<T>, p: seq<T>): (s: seq<SignatureShare<T>>)
    requires HonestSigners(C, run, p)
    ensures |s| == |run.signers| == |run.nonces| == |RunWeights(C, run)|
    ensures forall i :: 0 <= i < |s| ==> s[i] == SignatureShare(run.signers[i], run.session, HonestValue(C, run, p, i))
  {
    RunSizes(C, run, p);
    seq(|run.signers|, i requires 0 <= i < |run.signers| =>
      SignatureShare(run.signers[i], run.session, HonestValue(C, run, p, i)))
  }

  /** Threshold signing is exact: the honest shares sum to R + (+-e)*f(0), for either
      parity of the aggregate nonce. */
  lemma HonestTotal<T(!new)>(C: Curve<T>, run: Run<T>, p: seq<T>)
    requires HonestSigners(C, run, p)
    ensures Total(C.F, ShareValues(HonestShares(C, run, p)))
         == C.F.Add(RunNonce(C, run), C.F.Mul(RunChallenge(C, run), p[0]))
  {
    RunSizes(C, run, p);
    var w, o, ks := RunWeights(C, run), RunObservations(C, run, p), Secrets(run.nonces);
    assert Dot(C.F, w, o) == p[0] by {
      Interpolation(C.F, SignerPoints(run.signers, run.config).value, p);
    }
    SignedTotal(C.F, C.IsOdd(Total(C.F, ks)), ks, RunChallenge(C, run), w, o, ShareValues(HonestShares(C, run, p)));
  }

  /** The sum of +-k_i + e*(w_i*o_i). */
  lemma SignedTotal<T(!new)>(F: Field<T>, flip: bool, ks: seq<T>, e: T, w: seq<T>, o: seq<T>, v: seq<T>)
    requires F.Laws() && |ks| == |w| == |o| == |v|
    requires forall i :: 0 <= i < |v| ==> v[i] == F.Add(F.NegIf(flip, ks[i]), F.Mul(e, F.Mul(w[i], o[i])))
    ensures Total(F, v) == F.Add(F.NegIf(flip, Total(F, ks)), F.Mul(e, Dot(F, w, o)))
  {
    var n := |v|;
    var signed := seq(n, i requires 0 <= i < n => F.NegIf(flip, ks[i]));
    var keyed := seq(n, i requires 0 <= i < n => F.Mul(e, F.Mul(w[i], o[i])));
    TotalNegIf(F, flip, ks, signed);
    TotalScaledDot(F, e, w, o, keyed);
    TotalAdd(F, signed, keyed, v);
  }

  /** Main result: honest shares in any order aggregate, under any output key
      Q == +-P + B*G, to a signature that satisfies the BIP340 equation for Q. */
  lemma HonestAggregate<T(!new)>(
    C: Curve<T>, run: Run<T>, p: seq<T>, tweak: T, public: seq<NoncePackage<T>>, shares: seq<SignatureShare<T>>)
    requires HonestRun(C, run, p) && run.output == C.F.Add(C.F.NegIf(run.negateKey, p[0]), tweak)
    requires multiset(public) == multiset(PublicNonces(run.nonces))
    requires multiset(shares) == multiset(HonestShares(C, run, p))
    ensures
      var r := AggregateForOutput(C, run.digest, run.output, tweak, public, shares, run.signers, run.config);
      r.Ok? && r.value.nonce == RunNonce(C, run) && Verify(C, run.output, run.digest, r.value)
  {
    RunSizes(C, run, p);
    HierarchicalResultMeaning(run.signers, run.config);
    CombineHonest(C, run.nonces, run.signers, run.session, public, run.signers);
    HonestSharesComplete(C, run, p, shares);
    HonestTotal(C, run, p);
    AggregateExact(C, run.digest, run.output, tweak, run.negateKey, p[0], public, shares, run.signers, run.config);
  }

  lemma HonestSharesComplete<T(!new)>(C: Curve<T>, run: Run<T>, p: seq<T>, shares: seq<SignatureShare<T>>)
    requires HonestSigners(C, run, p) && multiset(shares) == multiset(HonestShares(C, run, p))
    ensures FullTagSet(ShareTags(shares), run.signers)
    ensures Total(C.F, ShareValues(shares)) == Total(C.F, ShareValues(HonestShares(C, run, p)))
  {
    var all := HonestShares(C, run, p);
    assert Distinct(run.signers) by {
      RunSizes(C, run, p);
    }
    ShareTagsComplete(run.signers, run.session, all, shares);
    ShareTotalOrder(C.F, all, shares);
  }

  lemma ShareTagsComplete<T>(
    signers: seq<U16>, session: string, all: seq<SignatureShare<T>>, shares: seq<SignatureShare<T>>)
    requires Distinct(signers) && multiset(shares) == multiset(all) && |all| == |signers|
    requires forall i :: 0 <= i < |all| ==> all[i].id == signers[i] && all[i].session == session
    ensures FullTagSet(ShareTags(shares), signers)
  {
    forall i | 0 <= i < |shares|
      ensures shares[i].session == session
    {
      assert shares[i] in multiset(all);
      var j :| 0 <= j < |all| && all[j] == shares[i];
    }
    var id := (s: SignatureShare<T>) => s.id;
    MapOrder(id, shares, all);
    assert MapSeq(id, all) == signers;
    assert MapSeq(id, shares) == TagIds(ShareTags(shares));
    TagsComplete(ShareTags(shares), signers, signers, session);
  }

  lemma ShareTotalOrder<T(!new)>(F: Field<T>, all: seq<SignatureShare<T>>, shares: seq<SignatureShare<T>>)
    requires F.Laws() && multiset(shares) == multiset(all)
    ensures Total(F, ShareValues(shares)) == Total(F, ShareValues(all))
  {
    var g := (s: SignatureShare<T>) => s.value;
    SumByOrder(F, g, shares, all);
    TotalIsSumBy(F, g, shares, ShareValues(shares));
    TotalIsSumBy(F, g, all, ShareValues(all));
  }

  /** Under the group key itself: plain signing of a digest, as the vault does it. */
  lemma HonestGroupSignature<T(!new)>(
    C: Curve<T>, run: Run<T>, p: seq<T>, public: seq<NoncePackage<T>>, shares: seq<SignatureShare<T>>)
    requires HonestSigners(C, run, p) && run.output == run.ks.groupKey.xonly && !run.negateKey
    requires multiset(public) == multiset(PublicNonces(run.nonces))
    requires multiset(shares) == multiset(HonestShares(C, run, p))
    ensures
      var r := Aggregate(C, run.ks.groupKey, run.digest, public, shares, run.signers, run.config);
      r.Ok? && r.value.nonce == RunNonce(C, run) && Verify(C, run.ks.groupKey.xonly, run.digest, r.value)
  {
    C.F.AddZero(p[0]);
    HonestAggregate(C, run, p, C.F.zero, public, shares);
    AggregateIsUntweaked(C, run.ks.groupKey, run.digest, public, shares, run.signers, run.config);
  }

  /** Nonces that cancel are refused by every signer. */
  lemma CancelledNonces<T(!new)>(C: Curve<T>, nonces: seq<LocalNonce<T>>, signers: seq<U16>, session: string)
    requires C.Valid() && HonestNonces(C, nonces, signers, session) && Distinct(signers) && |signers| > 0
    requires Total(C.F, Secrets(nonces)) == C.F.zero
    ensures CombineNonces(C, PublicNonces(nonces), signers) == Fail(ZeroAggregate)
  {
    var all := PublicNonces(nonces);
    assert TagIds(NonceTags(all)) == signers;
    TagsComplete(NonceTags(all), signers, signers, session);
    SumPointsIsSumBy(C, all);
    TotalIsSumBy(C.F, (n: NoncePackage<T>) => n.point, all, Secrets(nonces));
  }
}
