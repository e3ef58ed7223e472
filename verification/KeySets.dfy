/** Key sets: dealing, distributed generation, reconstruction and resharing. */
module KeySets {
  import opened Wrappers
  import opened Lists
  import opened Fields
  import opened Vectors
  import opened Polynomials
  import opened Birkhoff
  import opened Policies
  import opened SignerSets
  import opened Curves
  import opened Dkg

  datatype KeySet<T> = KeySet(groupKey: GroupKey<T>, shares: seq<KeyShare<T>>)

  function DealtShares<T(!new)>(F: Field<T>, p: seq<T>, ps: seq<RankedParticipant>): (s: seq<KeyShare<T>>)
    ensures |s| == |ps|
    ensures forall i :: 0 <= i < |ps| ==>
      s[i] == KeyShare(ps[i].id, ps[i].rank, DerivativeValue(F, p, F.Nat(ps[i].id), ps[i].rank))
  {
    seq(|ps|, i requires 0 <= i < |ps| =>
      KeyShare(ps[i].id, ps[i].rank, DerivativeValue(F, p, F.Nat(ps[i].id), ps[i].rank)))
  }

  /** The key set lies on the polynomial p, whose constant term is the even group key. */
  ghost predicate LiesOn<T(!new)>(C: Curve<T>, ks: KeySet<T>, c: HierarchicalConfig, p: seq<T>) {
    && ConstructedHierarchical(c) && |p| == c.threshold
    && p[0] != C.F.zero && !C.IsOdd(p[0]) && ks.groupKey == GroupKey(p[0])
    && ks.shares == DealtShares(C.F, p, c.participants)
  }

  // ---------------------------------------------------------------- one dealer

  /** run_local_htss_keygen with its random scalars as parameters; a key pair holds
      the secret whose public key is even. */
  function DealKeySet<T(!new)>(C: Curve<T>, c: HierarchicalConfig, secret: T, rest: seq<T>): KeySet<T>
    requires secret != C.F.zero && |rest| + 1 == c.threshold
  {
    KeySet(GroupKey(C.XOnly(secret)), DealtShares(C.F, [C.XOnly(secret)] + rest, c.participants))
  }

  lemma DealtLiesOn<T(!new)>(C: Curve<T>, c: HierarchicalConfig, secret: T, rest: seq<T>)
    requires C.Valid() && ConstructedHierarchical(c) && secret != C.F.zero && |rest| + 1 == c.threshold
    ensures LiesOn(C, DealKeySet(C, c, secret, rest), c, [C.XOnly(secret)] + rest)
  {
    C.XOnlyEven(secret);
  }

  // ---------------------------------------------------------------- honest key generation

  /** All round-2 packages of the given contributors, in order. */
  function AllDeals<T(!new)>(C: Curve<T>, states: seq<Round1State<T>>, ps: seq<RankedParticipant>)
    : seq<Round2Package<T>>
  {
    if |states| == 0 then []
    else AllDeals(C, states[..|states| - 1], ps) + DealShares(C, states[|states| - 1], ps)
  }

  function ForRecipient<T>(packages: seq<Round2Package<T>>, id: nat): seq<Round2Package<T>> {
    if |packages| == 0 then []
    else
      var k := |packages| - 1;
      ForRecipient(packages[..k], id) + (if packages[k].recipient == id then [packages[k]] else [])
  }

  lemma {:induction false} ForRecipientConcat<T>(a: seq<Round2Package<T>>, b: seq<Round2Package<T>>, id: nat)
    ensures ForRecipient(a + b, id) == ForRecipient(a, id) + ForRecipient(b, id)
  {
    if |b| == 0 {
      assert a + b == a;
    } else {
      var k := |b| - 1;
      ForRecipientConcat(a, b[..k], id);
      assert (a + b)[..|a| + k] == a + b[..k];
    }
  }

  lemma {:induction false} ForRecipientNone<T>(a: seq<Round2Package<T>>, id: nat)
    requires forall i :: 0 <= i < |a| ==> a[i].recipient != id
    ensures ForRecipient(a, id) == []
  {
    if |a| > 0 {
      ForRecipientNone(a[..|a| - 1], id);
    }
  }

  lemma {:induction false} OnlyRecipient<T>(d: seq<Round2Package<T>>, j: nat)
    requires j < |d| && forall i :: 0 <= i < |d| && i != j ==> d[i].recipient != d[j].recipient
    ensures ForRecipient(d, d[j].recipient) == [d[j]]
  {
    var k := |d| - 1;
    if j == k {
      ForRecipientNone(d[..k], d[j].recipient);
    } else {
      OnlyRecipient(d[..k], j);
    }
  }

  /** One contributor sends each roster member exactly one package. */
  lemma DealForOne<T(!new)>(C: Curve<T>, state: Round1State<T>, ps: seq<RankedParticipant>, j: nat)
    requires Distinct(Ids(ps)) && j < |ps|
    ensures ForRecipient(DealShares(C, state, ps), ps[j].id) == [DealShares(C, state, ps)[j]]
  {
    forall i | 0 <= i < |ps| && i != j
      ensures ps[i].id != ps[j].id
    {
      assert Ids(ps)[i] != Ids(ps)[j];
    }
    OnlyRecipient(DealShares(C, state, ps), j);
  }

  ghost function DealsTo<T(!new)>(C: Curve<T>, states: seq<Round1State<T>>, ps: seq<RankedParticipant>, j: nat)
    : (s: seq<Round2Package<T>>)
    requires j < |ps|
    ensures |s| == |states| && forall i :: 0 <= i < |states| ==> s[i] == DealShares(C, states[i], ps)[j]
  {
    seq(|states|, i requires 0 <= i < |states| => DealShares(C, states[i], ps)[j])
  }

  lemma {:induction false} DealsForOne<T(!new)>(
    C: Curve<T>, states: seq<Round1State<T>>, ps: seq<RankedParticipant>, j: nat)
    requires Distinct(Ids(ps)) && j < |ps|
    ensures ForRecipient(AllDeals(C, states, ps), ps[j].id) == DealsTo(C, states, ps, j)
  {
    if |states| > 0 {
      var k := |states| - 1;
      DealsForOne(C, states[..k], ps, j);
      ForRecipientConcat(AllDeals(C, states[..k], ps), DealShares(C, states[k], ps), ps[j].id);
      DealForOne(C, states[k], ps, j);
      DealsToLast(C, states, ps, j);
    }
  }

  lemma DealsToLast<T(!new)>(C: Curve<T>, states: seq<Round1State<T>>, ps: seq<RankedParticipant>, j: nat)
    requires j < |ps| && |states| > 0
    ensures
      var k := |states| - 1;
      DealsTo(C, states, ps, j) == DealsTo(C, states[..k], ps, j) + [DealShares(C, states[k], ps)[j]]
  {
  }

  /** Contributors that followed round 1 over this roster, in any order. */
  ghost predicate HonestStates<T(!new)>(
    C: Curve<T>, states: seq<Round1State<T>>, r1: seq<Round1Package<T>>, c: HierarchicalConfig)
  {
    && |states| == |c.participants|
    && (forall i :: 0 <= i < |states| ==> states[i].package in r1 && states[i].secrets == states[i].package.commitments)
    && (forall i, j :: 0 <= i < j < |states| ==> states[i].package.id != states[j].package.id)
  }

  /** Honest contributions always finalize, unless the constants cancel. */
  lemma HonestFinalize<T(!new)>(
    C: Curve<T>, states: seq<Round1State<T>>, r1: seq<Round1Package<T>>, c: HierarchicalConfig, j: nat)
    requires C.Valid() && ConstructedHierarchical(c) && Round1Valid(C, r1, c) && HonestStates(C, states, r1, c)
    requires j < |c.participants| && JointPolynomial(C.F, r1, c.threshold)[0] != C.F.zero
    ensures
      var p, q := GroupPolynomial(C, r1, c.threshold), c.participants[j];
      Finalize(C, q.id, r1, DealsTo(C, states, c.participants, j), c)
        == Ok((GroupKey(p[0]), KeyShare(q.id, q.rank, DerivativeValue(C.F, p, C.F.Nat(q.id), q.rank))))
  {
    var q, r2 := c.participants[j], DealsTo(C, states, c.participants, j);
    RankOfMember(c.participants, j);
    forall i | 0 <= i < |r2|
      ensures GoodRound2Package(q.id, q.rank, r2[i], c) && Senders(r2)[i] == states[i].package.id
      ensures r2[i].value == Promised(C.F, r1, r2[i].sender, C.F.Nat(q.id), q.rank)
    {
      var k :| 0 <= k < |r1| && r1[k] == states[i].package;
      assert GoodRound1Package(C, r1[k], c);
      FindRound1At(r1, k);
    }
    assert Distinct(Senders(r2));
    assert Round2Valid(q.id, r2, c);
    assert SharesMatch(C, q.id, q.rank, r1, r2);
    FinalizeExact(C, q.id, r1, r2, c);
  }

  function Packages<T>(states: seq<Round1State<T>>): (r1: seq<Round1Package<T>>)
    ensures |r1| == |states| && forall i :: 0 <= i < |states| ==> r1[i] == states[i].package
  {
    seq(|states|, i requires 0 <= i < |states| => states[i].package)
  }

  /** Round 1 of every roster member, with the random coefficients given. */
  function HonestRound1<T>(ps: seq<RankedParticipant>, coefficients: seq<seq<T>>): (s: seq<Round1State<T>>)
    requires |coefficients| == |ps|
    ensures |s| == |ps| && forall i :: 0 <= i < |ps| ==>
      s[i] == Round1State(Round1Package(ps[i].id, ps[i].rank, coefficients[i]), coefficients[i])
  {
    seq(|ps|, i requires 0 <= i < |ps| =>
      Round1State(Round1Package(ps[i].id, ps[i].rank, coefficients[i]), coefficients[i]))
  }

  /** Coefficients as drawn: threshold many, none zero, for every contributor. */
  ghost predicate Drawn<T(!new)>(C: Curve<T>, c: HierarchicalConfig, coefficients: seq<seq<T>>) {
    && |coefficients| == |c.participants|
    && forall i :: 0 <= i < |coefficients| ==>
         |coefficients[i]| == c.threshold && forall k :: 0 <= k < c.threshold ==> coefficients[i][k] != C.F.zero
  }

  lemma HonestRound1Valid<T(!new)>(C: Curve<T>, c: HierarchicalConfig, coefficients: seq<seq<T>>)
    requires ConstructedHierarchical(c) && Drawn(C, c, coefficients)
    ensures
      var states := HonestRound1(c.participants, coefficients);
      Round1Valid(C, Packages(states), c) && HonestStates(C, states, Packages(states), c)
  {
    var states := HonestRound1(c.participants, coefficients);
    var r1 := Packages(states);
    forall i | 0 <= i < |r1|
      ensures GoodRound1Package(C, r1[i], c) && states[i].package in r1
    {
      RankOfMember(c.participants, i);
      assert r1[i] == states[i].package;
    }
    assert SenderIds(r1) == Ids(c.participants);
    forall i, j | 0 <= i < j < |states|
      ensures states[i].package.id != states[j].package.id
    {
      assert Ids(c.participants)[i] != Ids(c.participants)[j];
    }
  }

  /** A member's own packages finalize exactly when the constants do not cancel. */
  lemma OwnFinalize<T(!new)>(
    C: Curve<T>, states: seq<Round1State<T>>, r1: seq<Round1Package<T>>, c: HierarchicalConfig, j: nat)
    requires C.Valid() && ConstructedHierarchical(c) && Round1Valid(C, r1, c) && HonestStates(C, states, r1, c)
    requires j < |c.participants|
    ensures
      var p := GroupPolynomial(C, r1, c.threshold);
      var id := c.participants[j].id;
      var f := Finalize(C, id, r1, ForRecipient(AllDeals(C, states, c.participants), id), c);
      && (f.Ok? <==> JointPolynomial(C.F, r1, c.threshold)[0] != C.F.zero)
      && (f.Ok? ==> f.value == (GroupKey(p[0]), DealtShares(C.F, p, c.participants)[j]))
  {
    DealsForOne(C, states, c.participants, j);
    if JointPolynomial(C.F, r1, c.threshold)[0] != C.F.zero {
      HonestFinalize(C, states, r1, c, j);
    } else {
      FinalizeExact(C, c.participants[j].id, r1, DealsTo(C, states, c.participants, j), c);
    }
  }

  /** What an honest run must produce. */
  ghost function HonestKeySet<T(!new)>(C: Curve<T>, r1: seq<Round1Package<T>>, c: HierarchicalConfig): (ks: KeySet<T>)
    requires c.threshold > 0 && forall i :: 0 <= i < |r1| ==> |r1[i].commitments| == c.threshold
    ensures |ks.shares| == |c.participants|
  {
    var p := GroupPolynomial(C, r1, c.threshold);
    KeySet(GroupKey(p[0]), DealtShares(C.F, p, c.participants))
  }

  ghost predicate ConstantsCancel<T(!new)>(C: Curve<T>, r1: seq<Round1Package<T>>, c: HierarchicalConfig)
    requires c.threshold > 0 && forall i :: 0 <= i < |r1| ==> |r1[i].commitments| == c.threshold
  {
    JointPolynomial(C.F, r1, c.threshold)[0] == C.F.zero
  }

  method FinalizeMember<T(==, !new)>(
    C: Curve<T>, ghost states: seq<Round1State<T>>, r1: seq<Round1Package<T>>, own: seq<Round2Package<T>>,
    c: HierarchicalConfig, j: nat)
    returns (f: Result<(GroupKey<T>, KeyShare<T>)>)
    requires C.Valid() && ConstructedHierarchical(c) && Round1Valid(C, r1, c) && HonestStates(C, states, r1, c)
    requires j < |c.participants|
    requires own == ForRecipient(AllDeals(C, states, c.participants), c.participants[j].id)
    ensures f.Ok? <==> !ConstantsCancel(C, r1, c)
    ensures f.Ok? ==> f.value == (HonestKeySet(C, r1, c).groupKey, HonestKeySet(C, r1, c).shares[j])
  {
    f := FinalizeHtssDkg(C, c.participants[j].id, r1, own, c);
    OwnFinalize(C, states, r1, c, j);
  }

  lemma HonestKeySetLiesOn<T(!new)>(C: Curve<T>, r1: seq<Round1Package<T>>, c: HierarchicalConfig)
    requires C.Valid() && ConstructedHierarchical(c) && Round1Valid(C, r1, c) && !ConstantsCancel(C, r1, c)
    ensures LiesOn(C, HonestKeySet(C, r1, c), c, GroupPolynomial(C, r1, c.threshold))
  {
    C.XOnlyEven(JointPolynomial(C.F, r1, c.threshold)[0]);
  }

  /** Soundness against arbitrary packages: once every roster member has finalized on the
      same round-1 set, whatever each was sent in round 2, all hold one group key and their
      shares lie on one polynomial. */
  lemma FinalizedLieOnOne<T(!new)>(
    C: Curve<T>, r1: seq<Round1Package<T>>, received: seq<seq<Round2Package<T>>>, c: HierarchicalConfig, ks: KeySet<T>)
    requires C.Valid() && ConstructedHierarchical(c) && |received| == |c.participants| == |ks.shares|
    requires forall j :: 0 <= j < |received| ==>
      Finalize(C, c.participants[j].id, r1, received[j], c).Ok?
    requires ks.groupKey == Finalize(C, c.participants[0].id, r1, received[0], c).value.0
    requires forall j :: 0 <= j < |received| ==>
      ks.shares[j] == Finalize(C, c.participants[j].id, r1, received[j], c).value.1
    ensures Round1Valid(C, r1, c) && LiesOn(C, ks, c, GroupPolynomial(C, r1, c.threshold))
    ensures forall j :: 0 <= j < |received| ==>
      Finalize(C, c.participants[j].id, r1, received[j], c).value.0 == ks.groupKey
  {
    FinalizeExact(C, c.participants[0].id, r1, received[0], c);
    var p := GroupPolynomial(C, r1, c.threshold);
    forall j | 0 <= j < |received|
      ensures Finalize(C, c.participants[j].id, r1, received[j], c).value
           == (GroupKey(p[0]), DealtShares(C.F, p, c.participants)[j])
    {
      FinalizeExact(C, c.participants[j].id, r1, received[j], c);
      RankOfMember(c.participants, j);
    }
    assert ks.shares == DealtShares(C.F, p, c.participants);
  }

  // ---------------------------------------------------------------- reconstruction

  /** The share stored last under an id, as a map built from the list holds it. */
  function FindShare<T>(shares: seq<KeyShare<T>>, id: nat): (r: Option<KeyShare<T>>)
    ensures r.Some? ==> r.value in shares && r.value.id == id
  {
    if |shares| == 0 then None
    else if shares[|shares| - 1].id == id then Some(shares[|shares| - 1])
    else FindShare(shares[..|shares| - 1], id)
  }

  /** A lookup finds the share stored last under the id, and nothing else. */
  lemma {:induction false} FindShareExact<T>(shares: seq<KeyShare<T>>, id: nat, s: KeyShare<T>)
    ensures FindShare(shares, id) == Some(s) <==>
      exists i :: 0 <= i < |shares| && LastUnder(shares, id, i) && shares[i] == s
  {
    if |shares| > 0 {
      var k := |shares| - 1;
      if shares[k].id == id {
        assert LastUnder(shares, id, k);
      } else {
        FindShareExact(shares[..k], id, s);
        assert forall i :: 0 <= i < k ==> (LastUnder(shares, id, i) <==> LastUnder(shares[..k], id, i));
      }
    }
  }

  ghost predicate LastUnder<T>(shares: seq<KeyShare<T>>, id: nat, i: nat)
    requires i < |shares|
  {
    shares[i].id == id && forall k :: i < k < |shares| ==> shares[k].id != id
  }

  lemma {:induction false} FindShareAt<T>(shares: seq<KeyShare<T>>, j: nat)
    requires j < |shares| && forall i :: 0 <= i < |shares| && i != j ==> shares[i].id != shares[j].id
    ensures FindShare(shares, shares[j].id) == Some(shares[j])
  {
    if j < |shares| - 1 {
      FindShareAt(shares[..|shares| - 1], j);
    }
  }

  lemma FindDealtShare<T(!new)>(F: Field<T>, p: seq<T>, ps: seq<RankedParticipant>, j: nat)
    requires Distinct(Ids(ps)) && j < |ps|
    ensures FindShare(DealtShares(F, p, ps), ps[j].id) == Some(DealtShares(F, p, ps)[j])
  {
    forall i | 0 <= i < |ps| && i != j
      ensures ps[i].id != ps[j].id
    {
      assert Ids(ps)[i] != Ids(ps)[j];
    }
    FindShareAt(DealtShares(F, p, ps), j);
  }

  /** The weighted summation loop. */
  function CombineShares<T(!new)>(F: Field<T>, coefficients: seq<BirkhoffCoefficient<T>>, shares: seq<KeyShare<T>>)
    : Result<T>
  {
    if |coefficients| == 0 then Ok(F.zero)
    else
      var k := |coefficients| - 1;
      var acc :- CombineShares(F, coefficients[..k], shares);
      var share := FindShare(shares, coefficients[k].id);
      if share.None? then Err(MissingRankedParticipant(coefficients[k].id))
      else if share.value.rank != coefficients[k].order then Fail(RankMismatch(coefficients[k].id))
      else Ok(F.Add(acc, F.Mul(coefficients[k].value, share.value.value)))
  }

  lemma {:induction false} CombineSharesPrefix<T(!new)>(
    F: Field<T>, coefficients: seq<BirkhoffCoefficient<T>>, shares: seq<KeyShare<T>>, k: nat)
    requires k <= |coefficients| && CombineShares(F, coefficients[..k], shares).Err?
    ensures CombineShares(F, coefficients, shares) == CombineShares(F, coefficients[..k], shares)
    decreases |coefficients|
  {
    if k == |coefficients| {
      assert coefficients[..k] == coefficients;
    } else {
      assert coefficients[..|coefficients| - 1][..k] == coefficients[..k];
      CombineSharesPrefix(F, coefficients[..|coefficients| - 1], shares, k);
    }
  }

  function SignerCoefficients<T(==, !new)>(F: Field<T>, signers: seq<U16>, c: HierarchicalConfig)
    : Result<seq<BirkhoffCoefficient<T>>>
  {
    var points :- SignerPoints(signers, c);
    InterpolationCoefficients(F, points)
  }

  function Reconstruct<T(==, !new)>(F: Field<T>, shares: seq<KeyShare<T>>, signers: seq<U16>, c: HierarchicalConfig)
    : Result<T>
  {
    var coefficients :- SignerCoefficients(F, signers, c);
    CombineShares(F, coefficients, shares)
  }

  method ReconstructSecretScalar<T(==, !new)>(
    F: Field<T>, shares: seq<KeyShare<T>>, signers: seq<U16>, c: HierarchicalConfig)
    returns (r: Result<T>)
    requires F.Laws()
    ensures r == Reconstruct(F, shares, signers, c)
  {
    var points := SignerPoints(signers, c);
    if points.Err? {
      return Err(points.error);
    }
    SignerPointsSize(signers, c);
    var coefficients := BirkhoffInterpolationCoefficients(F, points.value);
    if coefficients.Err? {
      return Err(coefficients.error);
    }
    r := CombineSharesLoop(F, coefficients.value, shares);
  }

  /** Looks up, checks and weighs every coefficient's share; the first bad one stops. */
  method CombineSharesLoop<T(!new)>(F: Field<T>, cs: seq<BirkhoffCoefficient<T>>, shares: seq<KeyShare<T>>)
    returns (r: Result<T>)
    ensures r == CombineShares(F, cs, shares)
  {
    var secret := F.zero;
    for i := 0 to |cs|
      invariant CombineShares(F, cs[..i], shares) == Ok(secret)
    {
      assert cs[..i + 1][..i] == cs[..i];
      var share := FindShare(shares, cs[i].id);
      if share.None? {
        CombineSharesPrefix(F, cs, shares, i + 1);
        return Err(MissingRankedParticipant(cs[i].id));
      }
      if share.value.rank != cs[i].order {
        CombineSharesPrefix(F, cs, shares, i + 1);
        return Fail(RankMismatch(cs[i].id));
      }
      secret := F.Add(secret, F.Mul(cs[i].value, share.value.value));
    }
    assert cs[..|cs|] == cs;
    r := Ok(secret);
  }

  lemma {:induction false} CombineIsDot<T(!new)>(
    F: Field<T>, cs: seq<BirkhoffCoefficient<T>>, shares: seq<KeyShare<T>>, o: seq<T>)
    requires |o| == |cs|
    requires forall i :: 0 <= i < |cs| ==>
      && FindShare(shares, cs[i].id).Some?
      && FindShare(shares, cs[i].id).value.rank == cs[i].order && FindShare(shares, cs[i].id).value.value == o[i]
    ensures CombineShares(F, cs, shares) == Ok(Dot(F, Values(cs), o))
  {
    if |cs| > 0 {
      var k := |cs| - 1;
      CombineIsDot(F, cs[..k], shares, o[..k]);
      assert Values(cs)[..k] == Values(cs[..k]);
    }
  }

  /** The share that a signer's coefficient asks for is stored, with the signer's rank. */
  ghost predicate Fits<T>(cs: seq<BirkhoffCoefficient<T>>, shares: seq<KeyShare<T>>, i: nat)
    requires i < |cs|
  {
    var s := FindShare(shares, cs[i].id);
    s.Some? && s.value.rank == cs[i].order
  }

  lemma {:induction false} CombineExact<T(!new)>(F: Field<T>, cs: seq<BirkhoffCoefficient<T>>, shares: seq<KeyShare<T>>)
    ensures CombineShares(F, cs, shares).Ok? <==> forall i :: 0 <= i < |cs| ==> Fits(cs, shares, i)
  {
    if |cs| > 0 {
      var k := |cs| - 1;
      CombineExact(F, cs[..k], shares);
      assert forall i :: 0 <= i < k ==> (Fits(cs[..k], shares, i) <==> Fits(cs, shares, i));
      assert CombineShares(F, cs, shares).Ok? <==> CombineShares(F, cs[..k], shares).Ok? && Fits(cs, shares, k);
    }
  }

  /** The signer has a stored share of its own rank. */
  ghost predicate HasShare<T>(shares: seq<KeyShare<T>>, c: HierarchicalConfig, id: U16) {
    var s := FindShare(shares, id);
    s.Some? && s.value.rank == RankOrZero(c.participants, id)
  }

  lemma SignerFits<T(!new)>(F: Field<T>, shares: seq<KeyShare<T>>, signers: seq<U16>, c: HierarchicalConfig, i: nat)
    requires F.Laws() && SignerCoefficients(F, signers, c).Ok? && i < |signers|
    ensures
      var cs := SignerCoefficients(F, signers, c).value;
      && |cs| == |signers| && cs[i].id == signers[i] && cs[i].order == RankOrZero(c.participants, signers[i])
      && (Fits(cs, shares, i) <==> HasShare(shares, c, signers[i]))
  {
    CoefficientPoint(F, SignerPoints(signers, c).value, i);
  }

  lemma SolvableSize<T(!new)>(F: Field<T>, signers: seq<U16>, c: HierarchicalConfig)
    requires F.Laws() && SignerCoefficients(F, signers, c).Ok?
    ensures |SignerCoefficients(F, signers, c).value| == |signers|
  {
    Weights(F, SignerPoints(signers, c).value);
  }

  /** Reconstruction from any list of shares: it succeeds exactly when the signers are solvable and
      each has a stored share of its own rank. */
  lemma ReconstructExact<T(!new)>(F: Field<T>, shares: seq<KeyShare<T>>, signers: seq<U16>, c: HierarchicalConfig)
    requires F.Laws()
    ensures Reconstruct(F, shares, signers, c).Ok? <==>
      SignerCoefficients(F, signers, c).Ok? && forall i :: 0 <= i < |signers| ==> HasShare(shares, c, signers[i])
  {
    if SignerCoefficients(F, signers, c).Ok? {
      SolvableSize(F, signers, c);
      CombineExact(F, SignerCoefficients(F, signers, c).value, shares);
      forall i | 0 <= i < |signers|
        ensures Fits(SignerCoefficients(F, signers, c).value, shares, i) <==> HasShare(shares, c, signers[i])
      {
        SignerFits(F, shares, signers, c, i);
      }
    }
  }

  /** And then it is the weighted sum of those shares. */
  lemma ReconstructValue<T(!new)>(
    F: Field<T>, shares: seq<KeyShare<T>>, signers: seq<U16>, c: HierarchicalConfig, values: seq<T>)
    requires F.Laws() && SignerCoefficients(F, signers, c).Ok? && |values| == |signers|
    requires forall i :: 0 <= i < |signers| ==>
      HasShare(shares, c, signers[i]) && FindShare(shares, signers[i]).value.value == values[i]
    ensures |SignerCoefficients(F, signers, c).value| == |signers|
    ensures Reconstruct(F, shares, signers, c)
         == Ok(Dot(F, Values(SignerCoefficients(F, signers, c).value), values))
  {
    SolvableSize(F, signers, c);
    var cs := SignerCoefficients(F, signers, c).value;
    forall i | 0 <= i < |signers|
      ensures cs[i].id == signers[i] && Fits(cs, shares, i)
    {
      SignerFits(F, shares, signers, c, i);
    }
    CombineIsDot(F, cs, shares, values);
  }

  /** A signer's share in a key set on p is what its point observes of p. */
  lemma SignerShare<T(!new)>(C: Curve<T>, ks: KeySet<T>, c: HierarchicalConfig, p: seq<T>, id: U16)
    requires LiesOn(C, ks, c, p) && RankOf(c.participants, id).Some?
    ensures
      var rank := RankOf(c.participants, id).value;
      FindShare(ks.shares, id) == Some(KeyShare(id, rank, DerivativeValue(C.F, p, C.F.Nat(id), rank)))
  {
    var j :| 0 <= j < |c.participants| && c.participants[j].id == id;
    RankOfMember(c.participants, j);
    FindDealtShare(C.F, p, c.participants, j);
  }

  /** Any solvable signer set recovers the secret, at the threshold or above it. */
  lemma ReconstructSecret<T(!new)>(C: Curve<T>, ks: KeySet<T>, c: HierarchicalConfig, p: seq<T>, signers: seq<U16>)
    requires C.Valid() && LiesOn(C, ks, c, p) && SignerCoefficients(C.F, signers, c).Ok?
    ensures Reconstruct(C.F, ks.shares, signers, c) == Ok(p[0])
  {
    var points := SignerPoints(signers, c).value;
    var cs := InterpolationCoefficients(C.F, points).value;
    var o := Observations(C.F, points, p);
    assert HierarchicalAccepts(signers, c) by {
      SignerPointsMeaning(signers, c);
    }
    assert |cs| == |points| && Dot(C.F, Values(cs), o) == p[0] by {
      Interpolation(C.F, points, p);
    }
    forall i | 0 <= i < |cs|
      ensures FindShare(ks.shares, cs[i].id) == Some(KeyShare(signers[i], cs[i].order, o[i]))
    {
      CoefficientPoint(C.F, points, i);
      SignerShare(C, ks, c, p, signers[i]);
    }
    CombineIsDot(C.F, cs, ks.shares, o);
  }

  /** A coefficient carries the id and the order of its point. */
  lemma CoefficientPoint<T(!new)>(F: Field<T>, points: seq<BirkhoffPoint>, i: nat)
    requires F.Laws() && InterpolationCoefficients(F, points).Ok? && i < |points|
    ensures
      var cs := InterpolationCoefficients(F, points).value;
      |cs| == |points| && cs[i].id == points[i].id && cs[i].order == points[i].order
  {
    Weights(F, points);
    var cs := InterpolationCoefficients(F, points).value;
    assert cs[i] == WithPoints(points, Values(cs))[i];
  }

  // ---------------------------------------------------------------- resharing

  /** reshare_htss with its random coefficients as a parameter. */
  function Reshare<T(==, !new)>(
    C: Curve<T>, ks: KeySet<T>, oldConfig: HierarchicalConfig, signers: seq<U16>, newConfig: HierarchicalConfig,
    rest: seq<T>)
    : Result<KeySet<T>>
  {
    var secret :- Reconstruct(C.F, ks.shares, signers, oldConfig);
    if secret == C.F.zero then Fail(ZeroSecret)
    else if C.XOnly(secret) != ks.groupKey.xonly then Fail(GroupKeyMismatch)
    else Ok(KeySet(ks.groupKey, DealtShares(C.F, [C.XOnly(secret)] + rest, newConfig.participants)))
  }

  datatype ReshareStep<T> = ReshareStep(signers: seq<U16>, config: HierarchicalConfig, rest: seq<T>)

  ghost predicate GoodStep<T>(s: ReshareStep<T>) {
    ConstructedHierarchical(s.config) && |s.rest| + 1 == s.config.threshold
  }

  /** A scalar has a given even lift exactly when it is that key or its opposite. */
  lemma LiftExact<T(!new)>(C: Curve<T>, secret: T, key: T)
    requires C.Valid()
    ensures secret != C.F.zero && C.XOnly(secret) == key <==>
      key != C.F.zero && !C.IsOdd(key) && (secret == key || secret == C.F.Neg(key))
  {
    assert C.ParityAt(secret) && C.ParityAt(key);
    C.F.NegNeg(secret);
    C.F.NegNeg(key);
  }

  /** Resharing any key set, whatever its shares: it succeeds exactly when the old signers
      reconstruct the group key's secret up to sign, and then the new shares lie on a polynomial
      with that secret under the same group key. */
  lemma ReshareExact<T(!new)>(C: Curve<T>, ks: KeySet<T>, c: HierarchicalConfig, s: ReshareStep<T>)
    requires C.Valid() && GoodStep(s)
    ensures
      var r, key := Reshare(C, ks, c, s.signers, s.config, s.rest), ks.groupKey.xonly;
      var secret := Reconstruct(C.F, ks.shares, s.signers, c);
      && (r.Ok? <==>
           && secret.Ok? && key != C.F.zero && !C.IsOdd(key)
           && (secret.value == key || secret.value == C.F.Neg(key)))
      && (r.Ok? ==> r.value.groupKey == ks.groupKey && LiesOn(C, r.value, s.config, [key] + s.rest))
  {
    var secret := Reconstruct(C.F, ks.shares, s.signers, c);
    if secret.Ok? {
      LiftExact(C, secret.value, ks.groupKey.xonly);
    }
  }

  /** One reshare succeeds exactly when its signer set is accepted and solvable,
      and keeps the key and the secret. */
  lemma ReshareKeepsKey<T(!new)>(C: Curve<T>, ks: KeySet<T>, c: HierarchicalConfig, p: seq<T>, s: ReshareStep<T>)
    requires C.Valid() && LiesOn(C, ks, c, p) && GoodStep(s)
    ensures Reshare(C, ks, c, s.signers, s.config, s.rest).Ok? <==> SignerCoefficients(C.F, s.signers, c).Ok?
    ensures Reshare(C, ks, c, s.signers, s.config, s.rest).Ok? ==>
      LiesOn(C, Reshare(C, ks, c, s.signers, s.config, s.rest).value, s.config, [p[0]] + s.rest)
  {
    if SignerCoefficients(C.F, s.signers, c).Ok? {
      ReconstructSecret(C, ks, c, p, s.signers);
    }
  }

  /** A chain of reshares, each run on the result of the one before. */
  function ReshareChain<T(==, !new)>(C: Curve<T>, ks: KeySet<T>, c: HierarchicalConfig, steps: seq<ReshareStep<T>>)
    : Result<(KeySet<T>, HierarchicalConfig)>
    decreases |steps|
  {
    if |steps| == 0 then Ok((ks, c))
    else
      var next :- Reshare(C, ks, c, steps[0].signers, steps[0].config, steps[0].rest);
      ReshareChain(C, next, steps[0].config, steps[1..])
  }

  /** A chain from any key set: one successful step is enough to have shares of the group key's
      own secret. */
  lemma {:induction false} ReshareChainSound<T(!new)>(
    C: Curve<T>, ks: KeySet<T>, c: HierarchicalConfig, steps: seq<ReshareStep<T>>)
    requires C.Valid() && |steps| > 0 && forall i :: 0 <= i < |steps| ==> GoodStep(steps[i])
    requires ReshareChain(C, ks, c, steps).Ok?
    ensures
      var (last, config) := ReshareChain(C, ks, c, steps).value;
      && last.groupKey == ks.groupKey
      && LiesOn(C, last, config, [ks.groupKey.xonly] + steps[|steps| - 1].rest)
    decreases |steps|
  {
    var s := steps[0];
    ReshareExact(C, ks, c, s);
    var next := Reshare(C, ks, c, s.signers, s.config, s.rest).value;
    if |steps| > 1 {
      assert forall i :: 0 <= i < |steps| - 1 ==> steps[1..][i] == steps[i + 1];
      ReshareChainSound(C, next, s.config, steps[1..]);
    } else {
      assert ReshareChain(C, next, s.config, steps[1..]) == Ok((next, s.config));
    }
  }

  /** Main result: after any successful chain the group key is unchanged and every
      solvable signer set of the latest policy recovers the original secret. */
  lemma {:induction false} ReshareChainKeepsKey<T(!new)>(
    C: Curve<T>, ks: KeySet<T>, c: HierarchicalConfig, p: seq<T>, steps: seq<ReshareStep<T>>, signers: seq<U16>)
    requires C.Valid() && LiesOn(C, ks, c, p) && forall i :: 0 <= i < |steps| ==> GoodStep(steps[i])
    requires ReshareChain(C, ks, c, steps).Ok?
    ensures
      var (last, config) := ReshareChain(C, ks, c, steps).value;
      && last.groupKey == ks.groupKey
      && (SignerCoefficients(C.F, signers, config).Ok? ==> Reconstruct(C.F, last.shares, signers, config) == Ok(p[0]))
    decreases |steps|
  {
    if |steps| == 0 {
      if SignerCoefficients(C.F, signers, c).Ok? {
        ReconstructSecret(C, ks, c, p, signers);
      }
    } else {
      var s := steps[0];
      ReshareKeepsKey(C, ks, c, p, s);
      var next := Reshare(C, ks, c, s.signers, s.config, s.rest).value;
      assert forall i :: 0 <= i < |steps| - 1 ==> steps[1..][i] == steps[i + 1];
      ReshareChainKeepsKey(C, next, s.config, [p[0]] + s.rest, steps[1..], signers);
    }
  }
}
