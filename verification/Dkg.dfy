/** The HTSS distributed key generation of dkgkit-frost. */
module Dkg {
  import opened Wrappers
  import opened Lists
  import opened Fields
  import opened Vectors
  import opened Polynomials
  import opened Policies
  import opened Curves

  datatype Round1Package<T> = Round1Package(id: U16, rank: U16, commitments: seq<T>)
  datatype Round1State<T> = Round1State(package: Round1Package<T>, secrets: seq<T>)
  datatype Round2Package<T> = Round2Package(sender: U16, recipient: U16, rank: U16, value: T)
  datatype GroupKey<T> = GroupKey(xonly: T)
  datatype KeyShare<T> = KeyShare(id: U16, rank: U16, value: T)

  // ---------------------------------------------------------------- rounds

  /** htss_dkg_round1 with its random coefficients as a parameter. */
  function Round1<T(!new)>(C: Curve<T>, id: U16, c: HierarchicalConfig, coefficients: seq<T>)
    : (r: Result<Round1State<T>>)
    requires |coefficients| == c.threshold
    ensures r.Ok? <==> exists i :: 0 <= i < |c.participants| && c.participants[i].id == id
    ensures r.Ok? ==> r.value.package.id == id && RankOf(c.participants, id) == Some(r.value.package.rank)
  {
    var rank := RankOf(c.participants, id);
    if rank.None? then Err(MissingRankedParticipant(id))
    else Ok(Round1State(Round1Package(id, rank.value, coefficients), coefficients))
  }

  function SenderIds<T>(r1: seq<Round1Package<T>>): (s: seq<U16>)
    ensures |s| == |r1| && forall i :: 0 <= i < |s| ==> s[i] == r1[i].id
  {
    seq(|r1|, i requires 0 <= i < |r1| => r1[i].id)
  }

  function CheckPoints<T(==, !new)>(C: Curve<T>, ps: seq<T>): (r: Result<()>)
    ensures r.Ok? <==> forall i :: 0 <= i < |ps| ==> ps[i] != C.F.zero
    ensures r.Err? ==> r.error == Protocol(InvalidPoint)
  {
    if |ps| == 0 then Ok(())
    else
      var _ :- CheckPoints(C, ps[..|ps| - 1]);
      var _ :- DecodePoint(C, ps[|ps| - 1]);
      Ok(())
  }

  /** The checks on one round-1 package, given the ids before it. */
  function CheckRound1Package<T(==, !new)>(C: Curve<T>, p: Round1Package<T>, before: seq<U16>, c: HierarchicalConfig)
    : Result<()>
  {
    if p.id in before then Err(DuplicateParticipantId(p.id))
    else
      var rank := RankOf(c.participants, p.id);
      if rank.None? then Err(MissingRankedParticipant(p.id))
      else if p.rank != rank.value then Fail(RankMismatch(p.id))
      else if |p.commitments| != c.threshold then Fail(CommitmentCount(p.id))
      else CheckPoints(C, p.commitments)
  }

  ghost predicate GoodRound1Package<T(!new)>(C: Curve<T>, p: Round1Package<T>, c: HierarchicalConfig) {
    && RankOf(c.participants, p.id) == Some(p.rank)
    && |p.commitments| == c.threshold
    && forall i :: 0 <= i < |p.commitments| ==> p.commitments[i] != C.F.zero
  }

  function CheckRound1<T(==, !new)>(C: Curve<T>, r1: seq<Round1Package<T>>, c: HierarchicalConfig): (r: Result<()>)
    ensures r.Ok? <==> Distinct(SenderIds(r1)) && forall i :: 0 <= i < |r1| ==> GoodRound1Package(C, r1[i], c)
  {
    if |r1| == 0 then Ok(())
    else
      var k := |r1| - 1;
      assert SenderIds(r1)[..k] == SenderIds(r1[..k]);
      var before := CheckRound1(C, r1[..k], c);
      var ids := SenderIds(r1);
      assert before.Err? && Distinct(ids) ==> exists i :: 0 <= i < |r1| && !GoodRound1Package(C, r1[i], c) by {
        assert forall i :: 0 <= i < k ==> r1[..k][i] == r1[i];
      }
      var _ :- before;
      CheckRound1Package(C, r1[k], SenderIds(r1[..k]), c)
  }

  /** validate_htss_dkg_round1_set */
  function Round1SetResult<T(==, !new)>(C: Curve<T>, r1: seq<Round1Package<T>>, c: HierarchicalConfig): (r: Result<()>)
    ensures r.Ok? <==>
      && Distinct(SenderIds(r1)) && |r1| == |c.participants|
      && forall i :: 0 <= i < |r1| ==> GoodRound1Package(C, r1[i], c)
  {
    var _ :- CheckRound1(C, r1, c);
    if |r1| != |c.participants| then Fail(SetMismatch) else Ok(())
  }

  function Senders<T>(r2: seq<Round2Package<T>>): (s: seq<U16>)
    ensures |s| == |r2| && forall i :: 0 <= i < |s| ==> s[i] == r2[i].sender
  {
    seq(|r2|, i requires 0 <= i < |r2| => r2[i].sender)
  }

  function CheckRound2Package<T>(id: U16, rank: U16, p: Round2Package<T>, before: seq<U16>, c: HierarchicalConfig)
    : Result<()>
  {
    if p.recipient != id then Fail(WrongRecipient(p.recipient))
    else if p.rank != rank then Fail(RankMismatch(id))
    else if RankOf(c.participants, p.sender).None? then Err(MissingRankedParticipant(p.sender))
    else if p.sender in before then Err(DuplicateParticipantId(p.sender))
    else Ok(())
  }

  ghost predicate GoodRound2Package<T>(id: U16, rank: U16, p: Round2Package<T>, c: HierarchicalConfig) {
    p.recipient == id && p.rank == rank && RankOf(c.participants, p.sender).Some?
  }

  function CheckRound2<T>(id: U16, rank: U16, r2: seq<Round2Package<T>>, c: HierarchicalConfig): (r: Result<()>)
    ensures r.Ok? <==> Distinct(Senders(r2)) && forall i :: 0 <= i < |r2| ==> GoodRound2Package(id, rank, r2[i], c)
  {
    if |r2| == 0 then Ok(())
    else
      var k := |r2| - 1;
      assert Senders(r2)[..k] == Senders(r2[..k]);
      assert forall i :: 0 <= i < k ==> r2[..k][i] == r2[i];
      var _ :- CheckRound2(id, rank, r2[..k], c);
      CheckRound2Package(id, rank, r2[k], Senders(r2[..k]), c)
  }

  /** validate_htss_dkg_round2_set */
  function Round2SetResult<T>(id: U16, r2: seq<Round2Package<T>>, c: HierarchicalConfig): (r: Result<()>)
    ensures r.Ok? <==>
      && RankOf(c.participants, id).Some? && Distinct(Senders(r2)) && |r2| == |c.participants|
      && forall i :: 0 <= i < |r2| ==> GoodRound2Package(id, RankOf(c.participants, id).value, r2[i], c)
  {
    var rank := RankOf(c.participants, id);
    if rank.None? then Err(MissingRankedParticipant(id))
    else
      var _ :- CheckRound2(id, rank.value, r2, c);
      if |r2| != |c.participants| then Fail(SetMismatch) else Ok(())
  }

  /** htss_dkg_round2 */
  function Round2<T(==, !new)>(C: Curve<T>, state: Round1State<T>, r1: seq<Round1Package<T>>, c: HierarchicalConfig)
    : (r: Result<seq<Round2Package<T>>>)
  {
    var _ :- Round1SetResult(C, r1, c);
    if state.package.id !in SenderIds(r1) then Fail(MissingOwnPackage(state.package.id))
    else if |state.secrets| != c.threshold then Fail(CoefficientCount(state.package.id))
    else Ok(DealShares(C, state, c.participants))
  }

  function DealShares<T(!new)>(C: Curve<T>, state: Round1State<T>, ps: seq<RankedParticipant>)
    : (out: seq<Round2Package<T>>)
    ensures |out| == |ps| && forall i :: 0 <= i < |ps| ==>
      out[i] == Round2Package(state.package.id, ps[i].id, ps[i].rank,
                              DerivativeValue(C.F, state.secrets, C.F.Nat(ps[i].id), ps[i].rank))
  {
    seq(|ps|, i requires 0 <= i < |ps| =>
      Round2Package(state.package.id, ps[i].id, ps[i].rank,
                    DerivativeValue(C.F, state.secrets, C.F.Nat(ps[i].id), ps[i].rank)))
  }

  // ---------------------------------------------------------------- share verification

  /** Dealing succeeds exactly with a valid round-1 set that has a package of the dealer's own, and
      as many coefficients as the threshold; then there is one package per roster member, each of
      them the dealer's own derivative share. */
  lemma Round2Exact<T(!new)>(C: Curve<T>, state: Round1State<T>, r1: seq<Round1Package<T>>, c: HierarchicalConfig)
    ensures
      var r := Round2(C, state, r1, c);
      && (r.Ok? <==>
           && Round1Valid(C, r1, c) && |state.secrets| == c.threshold
           && exists i :: 0 <= i < |r1| && r1[i].id == state.package.id)
      && (r.Ok? ==> r.value == DealShares(C, state, c.participants))
  {
    var ids, id := SenderIds(r1), state.package.id;
    assert id in ids <==> exists i :: 0 <= i < |r1| && r1[i].id == id by {
      if id in ids {
        var i :| 0 <= i < |ids| && ids[i] == id;
        assert r1[i].id == id;
      }
      if i :| 0 <= i < |r1| && r1[i].id == id {
        assert ids[i] == id;
      }
    }
  }

  /** The commitment combination the verifier builds, skipping zero basis values. */
  function ExpectedPoint<T(==, !new)>(C: Curve<T>, commitments: seq<T>, x: T, r: nat): Result<T> {
    if |commitments| == 0 then Ok(C.F.zero)
    else
      var k := |commitments| - 1;
      var acc :- ExpectedPoint(C, commitments[..k], x, r);
      var basis := WrappedBasis(C.F, k % 65536, r, x);
      if basis == C.F.zero then Ok(acc)
      else
        var point :- DecodePoint(C, commitments[k]);
        Ok(C.F.Add(acc, C.F.Mul(basis, point)))
  }

  /** verify_htss_dkg_derivative_share */
  function VerifyShare<T(==, !new)>(C: Curve<T>, p: Round2Package<T>, round1: Round1Package<T>): Result<()> {
    if p.sender != round1.id then Fail(SenderMismatch)
    else
      var expected :- ExpectedPoint(C, round1.commitments, C.F.Nat(p.recipient), p.rank);
      if p.value != expected then Fail(CommitmentCheckFailed(p.sender)) else Ok(())
  }

  /** Skipping the zero terms loses nothing: the combination is the committed derivative. */
  lemma {:induction false} ExpectedPointIsDerivative<T(!new)>(C: Curve<T>, commitments: seq<T>, x: T, r: nat)
    requires C.Valid() && |commitments| <= 65535 && forall i :: 0 <= i < |commitments| ==> commitments[i] != C.F.zero
    ensures ExpectedPoint(C, commitments, x, r) == Ok(DerivativeValue(C.F, commitments, x, r))
  {
    if |commitments| > 0 {
      var k := |commitments| - 1;
      ExpectedPointIsDerivative(C, commitments[..k], x, r);
      ExpectedPointLast(C, commitments, x, r, DerivativeValue(C.F, commitments[..k], x, r));
      ValueLast(C.F, commitments, x, r);
    }
  }

  lemma ExpectedPointLast<T(!new)>(C: Curve<T>, commitments: seq<T>, x: T, r: nat, acc: T)
    requires C.Valid() && 0 < |commitments| <= 65535 && commitments[|commitments| - 1] != C.F.zero
    requires ExpectedPoint(C, commitments[..|commitments| - 1], x, r) == Ok(acc)
    ensures
      var k := |commitments| - 1;
      ExpectedPoint(C, commitments, x, r) == Ok(C.F.Add(acc, C.F.Mul(commitments[k], Basis(C.F, k, r, x))))
  {
    var k := |commitments| - 1;
    assert k % 65536 == k;
    C.F.MulComm(commitments[k], Basis(C.F, k, r, x));
    C.F.MulZero(commitments[k]);
    C.F.AddZero(acc);
  }

  /** A share passes exactly when it is the committed derivative at its recipient. */
  lemma VerifyShareExact<T(!new)>(C: Curve<T>, p: Round2Package<T>, round1: Round1Package<T>)
    requires C.Valid() && |round1.commitments| <= 65535
    requires forall i :: 0 <= i < |round1.commitments| ==> round1.commitments[i] != C.F.zero
    ensures VerifyShare(C, p, round1) ==
      if p.sender != round1.id then Fail(SenderMismatch)
      else if p.value == DerivativeValue(C.F, round1.commitments, C.F.Nat(p.recipient), p.rank)
      then Ok(()) else Fail(CommitmentCheckFailed(p.sender))
  {
    ExpectedPointIsDerivative(C, round1.commitments, C.F.Nat(p.recipient), p.rank);
  }

  // ---------------------------------------------------------------- finalize

  function FindRound1<T>(r1: seq<Round1Package<T>>, sender: nat): (r: Option<Round1Package<T>>)
    ensures r.Some? <==> exists i :: 0 <= i < |r1| && r1[i].id == sender
    ensures r.Some? ==> r.value in r1 && r.value.id == sender
  {
    if |r1| == 0 then None
    else if r1[|r1| - 1].id == sender then Some(r1[|r1| - 1])
    else
      var k := |r1| - 1;
      assert forall i :: 0 <= i < k ==> r1[..k][i] == r1[i];
      FindRound1(r1[..k], sender)
  }

  /** The verified summation loop. */
  function SumShares<T(==, !new)>(C: Curve<T>, r1: seq<Round1Package<T>>, r2: seq<Round2Package<T>>): Result<T> {
    if |r2| == 0 then Ok(C.F.zero)
    else
      var k := |r2| - 1;
      var acc :- SumShares(C, r1, r2[..k]);
      var round1 := FindRound1(r1, r2[k].sender);
      if round1.None? then Err(MissingRankedParticipant(r2[k].sender))
      else
        var _ :- VerifyShare(C, r2[k], round1.value);
        Ok(C.F.Add(acc, r2[k].value))
  }

  function SumConstants<T(==, !new)>(C: Curve<T>, r1: seq<Round1Package<T>>): Result<T> {
    if |r1| == 0 then Ok(C.F.zero)
    else
      var k := |r1| - 1;
      var acc :- SumConstants(C, r1[..k]);
      if |r1[k].commitments| == 0 then Fail(MissingCommitment(r1[k].id))
      else
        var point :- DecodePoint(C, r1[k].commitments[0]);
        Ok(C.F.Add(acc, point))
  }

  /** htss_dkg_group_xonly_public_key: the even key and whether it was negated. */
  function GroupXOnly<T(==, !new)>(C: Curve<T>, r1: seq<Round1Package<T>>): Result<(T, bool)> {
    var sum :- SumConstants(C, r1);
    if sum == C.F.zero then Fail(ZeroAggregate) else Ok((C.XOnly(sum), C.IsOdd(sum)))
  }

  /** finalize_htss_dkg */
  function Finalize<T(==, !new)>(
    C: Curve<T>, id: U16, r1: seq<Round1Package<T>>, r2: seq<Round2Package<T>>, c: HierarchicalConfig)
    : Result<(GroupKey<T>, KeyShare<T>)>
  {
    var rank := RankOf(c.participants, id);
    if rank.None? then Err(MissingRankedParticipant(id))
    else
      var _ :- Round1SetResult(C, r1, c);
      var _ :- Round2SetResult(id, r2, c);
      var sum :- SumShares(C, r1, r2);
      var (xonly, negated) :- GroupXOnly(C, r1);
      Ok((GroupKey(xonly), KeyShare(id, rank.value, if negated then C.F.Sub(C.F.zero, sum) else sum)))
  }

  // ---------------------------------------------------------------- the joint polynomial

  /** The sum of the committed polynomials. */
  function JointPolynomial<T(!new)>(F: Field<T>, r1: seq<Round1Package<T>>, t: nat): (p: seq<T>)
    requires forall i :: 0 <= i < |r1| ==> |r1[i].commitments| == t
    ensures |p| == t
  {
    if |r1| == 0 then Zeros(F, t)
    else
      var k := |r1| - 1;
      var p := JointPolynomial(F, r1[..k], t);
      seq(t, j requires 0 <= j < t => F.Add(p[j], r1[k].commitments[j]))
  }

  function NegatePolynomial<T(!new)>(F: Field<T>, flip: bool, p: seq<T>): (q: seq<T>)
    ensures |q| == |p| && forall i :: 0 <= i < |p| ==> q[i] == F.NegIf(flip, p[i])
  {
    seq(|p|, i requires 0 <= i < |p| => F.NegIf(flip, p[i]))
  }

  /** The polynomial all shares lie on: the joint one, with the sign that makes its
      constant term the even group key. */
  function GroupPolynomial<T(!new)>(C: Curve<T>, r1: seq<Round1Package<T>>, t: nat): (p: seq<T>)
    requires t > 0 && forall i :: 0 <= i < |r1| ==> |r1[i].commitments| == t
    ensures |p| == t
  {
    var joint := JointPolynomial(C.F, r1, t);
    NegatePolynomial(C.F, C.IsOdd(joint[0]), joint)
  }

  lemma {:induction false} JointValue<T(!new)>(F: Field<T>, r1: seq<Round1Package<T>>, t: nat, x: T, r: nat)
    requires F.Laws() && forall i :: 0 <= i < |r1| ==> |r1[i].commitments| == t
    ensures DerivativeValue(F, JointPolynomial(F, r1, t), x, r)
         == SumBy(F, (p: Round1Package<T>) => DerivativeValue(F, p.commitments, x, r), r1)
  {
    if |r1| == 0 {
      DotZero(F, Zeros(F, t), BasisRow(F, t, r, x));
    } else {
      var k := |r1| - 1;
      JointValue(F, r1[..k], t, x, r);
      ValueAdd(F, JointPolynomial(F, r1[..k], t), r1[k].commitments, JointPolynomial(F, r1, t), x, r);
    }
  }

  lemma {:induction false} SumConstantsIsJoint<T(!new)>(C: Curve<T>, r1: seq<Round1Package<T>>, t: nat)
    requires t > 0 && forall i :: 0 <= i < |r1| ==> |r1[i].commitments| == t && r1[i].commitments[0] != C.F.zero
    ensures SumConstants(C, r1) == Ok(JointPolynomial(C.F, r1, t)[0])
  {
    if |r1| > 0 {
      SumConstantsIsJoint(C, r1[..|r1| - 1], t);
    }
  }

  lemma {:induction false} FindRound1At<T>(r1: seq<Round1Package<T>>, i: nat)
    requires Distinct(SenderIds(r1)) && i < |r1|
    ensures FindRound1(r1, r1[i].id) == Some(r1[i])
  {
    var k := |r1| - 1;
    if i < k {
      assert SenderIds(r1)[i] != SenderIds(r1)[k];
      assert SenderIds(r1)[..k] == SenderIds(r1[..k]);
      FindRound1At(r1[..k], i);
    }
  }

  /** What a sender's commitments promise a recipient. */
  ghost function Promised<T(!new)>(F: Field<T>, r1: seq<Round1Package<T>>, sender: nat, x: T, r: nat): T {
    var p := FindRound1(r1, sender);
    if p.Some? then DerivativeValue(F, p.value.commitments, x, r) else F.zero
  }

  ghost predicate Round1Valid<T(!new)>(C: Curve<T>, r1: seq<Round1Package<T>>, c: HierarchicalConfig) {
    && Distinct(SenderIds(r1)) && |r1| == |c.participants|
    && forall i :: 0 <= i < |r1| ==> GoodRound1Package(C, r1[i], c)
  }

  ghost predicate Round2Valid<T>(id: U16, r2: seq<Round2Package<T>>, c: HierarchicalConfig) {
    && RankOf(c.participants, id).Some? && Distinct(Senders(r2)) && |r2| == |c.participants|
    && forall i :: 0 <= i < |r2| ==> GoodRound2Package(id, RankOf(c.participants, id).value, r2[i], c)
  }

  /** A full distinct list of roster members is a rearrangement of the roster. */
  lemma FullListIsRoster(s: seq<U16>, c: HierarchicalConfig)
    requires ConstructedHierarchical(c) && Distinct(s) && |s| == |c.participants|
    requires forall i :: 0 <= i < |s| ==> RankOf(c.participants, s[i]).Some?
    ensures multiset(s) == multiset(Ids(c.participants))
  {
    var ids := Ids(c.participants);
    forall x | x in Members(s)
      ensures x in Members(ids)
    {
      var i :| 0 <= i < |c.participants| && c.participants[i].id == x;
      assert ids[i] == x;
    }
    DistinctSize(s);
    DistinctSize(ids);
    SubsetSize(Members(s), Members(ids));
    SameMembers(s, ids);
  }

  ghost predicate WrongShare<T(!new)>(C: Curve<T>, id: U16, rank: U16, r1: seq<Round1Package<T>>, p: Round2Package<T>) {
    p.value != Promised(C.F, r1, p.sender, C.F.Nat(id), rank)
  }

  /** A share passes exactly when it is the promised one; otherwise its sender is named. */
  lemma VerifyPromised<T(!new)>(
    C: Curve<T>, r1: seq<Round1Package<T>>, p: Round2Package<T>, c: HierarchicalConfig, id: U16, rank: U16)
    requires C.Valid() && forall i :: 0 <= i < |r1| ==> GoodRound1Package(C, r1[i], c)
    requires p.recipient == id && p.rank == rank && FindRound1(r1, p.sender).Some?
    ensures VerifyShare(C, p, FindRound1(r1, p.sender).value) ==
      if p.value == Promised(C.F, r1, p.sender, C.F.Nat(id), rank) then Ok(())
      else Fail(CommitmentCheckFailed(p.sender))
  {
    VerifyShareExact(C, p, FindRound1(r1, p.sender).value);
  }

  /** Shares for one recipient with known senders. */
  ghost predicate Received<T>(r1: seq<Round1Package<T>>, r2: seq<Round2Package<T>>, id: U16, rank: U16) {
    forall i :: 0 <= i < |r2| ==>
      r2[i].recipient == id && r2[i].rank == rank && FindRound1(r1, r2[i].sender).Some?
  }

  lemma SumSharesLast<T(!new)>(
    C: Curve<T>, r1: seq<Round1Package<T>>, r2: seq<Round2Package<T>>, c: HierarchicalConfig, id: U16, rank: U16)
    requires C.Valid() && forall i :: 0 <= i < |r1| ==> GoodRound1Package(C, r1[i], c)
    requires Received(r1, r2, id, rank) && |r2| > 0
    ensures
      var k := |r2| - 1;
      var before := SumShares(C, r1, r2[..k]);
      SumShares(C, r1, r2) ==
        if before.Err? then before
        else if r2[k].value == Promised(C.F, r1, r2[k].sender, C.F.Nat(id), rank)
        then Ok(C.F.Add(before.value, r2[k].value))
        else Fail(CommitmentCheckFailed(r2[k].sender))
  {
    VerifyPromised(C, r1, r2[|r2| - 1], c, id, rank);
  }

  lemma {:induction false} SumSharesOk<T(!new)>(
    C: Curve<T>, r1: seq<Round1Package<T>>, r2: seq<Round2Package<T>>, c: HierarchicalConfig, id: U16, rank: U16)
    requires C.Valid() && forall i :: 0 <= i < |r1| ==> GoodRound1Package(C, r1[i], c)
    requires Received(r1, r2, id, rank)
    ensures SumShares(C, r1, r2).Ok? <==> SharesMatch(C, id, rank, r1, r2)
  {
    if |r2| > 0 {
      var k := |r2| - 1;
      SumSharesOk(C, r1, r2[..k], c, id, rank);
      MatchLast(C, id, rank, r1, r2);
      SumSharesLast(C, r1, r2, c, id, rank);
    }
  }

  lemma MatchLast<T(!new)>(C: Curve<T>, id: U16, rank: U16, r1: seq<Round1Package<T>>, r2: seq<Round2Package<T>>)
    requires |r2| > 0
    ensures
      var k := |r2| - 1;
      SharesMatch(C, id, rank, r1, r2) <==>
        && SharesMatch(C, id, rank, r1, r2[..k])
        && r2[k].value == Promised(C.F, r1, r2[k].sender, C.F.Nat(id), rank)
  {
    var k := |r2| - 1;
    assert forall i :: 0 <= i < k ==> r2[..k][i] == r2[i];
  }

  lemma {:induction false} SumSharesValue<T(!new)>(
    C: Curve<T>, r1: seq<Round1Package<T>>, r2: seq<Round2Package<T>>, id: U16, rank: U16, g: U16 -> T)
    requires SharesMatch(C, id, rank, r1, r2) && SumShares(C, r1, r2).Ok?
    requires forall s: U16 :: g(s) == Promised(C.F, r1, s, C.F.Nat(id), rank)
    ensures SumShares(C, r1, r2).value == SumBy(C.F, g, Senders(r2))
  {
    if |r2| > 0 {
      var k := |r2| - 1;
      MatchLast(C, id, rank, r1, r2);
      SumSharesValue(C, r1, r2[..k], id, rank, g);
      assert Senders(r2)[..k] == Senders(r2[..k]);
    }
  }

  /** The shares are summed exactly when each is the promised one. */
  lemma SumSharesExact<T(!new)>(
    C: Curve<T>, r1: seq<Round1Package<T>>, r2: seq<Round2Package<T>>, c: HierarchicalConfig, id: U16, rank: U16)
    requires C.Valid() && forall i :: 0 <= i < |r1| ==> GoodRound1Package(C, r1[i], c)
    requires Received(r1, r2, id, rank)
    ensures SumShares(C, r1, r2).Ok? <==> SharesMatch(C, id, rank, r1, r2)
    ensures SumShares(C, r1, r2).Ok? ==>
      SumShares(C, r1, r2).value == SumBy(C.F, (s: U16) => Promised(C.F, r1, s, C.F.Nat(id), rank), Senders(r2))
  {
    SumSharesOk(C, r1, r2, c, id, rank);
    if SumShares(C, r1, r2).Ok? {
      SumSharesValue(C, r1, r2, id, rank, (s: U16) => Promised(C.F, r1, s, C.F.Nat(id), rank));
    }
  }

  /** A failed sum names a sender whose share is wrong. */
  lemma {:induction false} SumSharesBlames<T(!new)>(
    C: Curve<T>, r1: seq<Round1Package<T>>, r2: seq<Round2Package<T>>, c: HierarchicalConfig, id: U16, rank: U16)
    returns (i: nat)
    requires C.Valid() && forall i :: 0 <= i < |r1| ==> GoodRound1Package(C, r1[i], c)
    requires Received(r1, r2, id, rank) && SumShares(C, r1, r2).Err?
    ensures i < |r2| && WrongShare(C, id, rank, r1, r2[i])
    ensures SumShares(C, r1, r2) == Fail(CommitmentCheckFailed(r2[i].sender))
  {
    var k := |r2| - 1;
    SumSharesLast(C, r1, r2, c, id, rank);
    if SumShares(C, r1, r2[..k]).Err? {
      assert forall j :: 0 <= j < k ==> r2[..k][j] == r2[j];
      i := SumSharesBlames(C, r1, r2[..k], c, id, rank);
    } else {
      i := k;
    }
  }

  lemma SendersAreFound<T(!new)>(C: Curve<T>, r1: seq<Round1Package<T>>, c: HierarchicalConfig, sender: U16)
    requires ConstructedHierarchical(c) && Round1Valid(C, r1, c) && RankOf(c.participants, sender).Some?
    ensures FindRound1(r1, sender).Some?
  {
    FullListIsRoster(SenderIds(r1), c);
    var i :| 0 <= i < |c.participants| && c.participants[i].id == sender;
    assert Ids(c.participants)[i] in multiset(SenderIds(r1));
    assert sender in SenderIds(r1);
  }

  /** All promises to one recipient add up to the joint polynomial's value there. */
  lemma PromisesAddUp<T(!new)>(
    C: Curve<T>, r1: seq<Round1Package<T>>, senders: seq<U16>, c: HierarchicalConfig, x: T, r: nat)
    requires C.Valid() && ConstructedHierarchical(c) && Round1Valid(C, r1, c)
    requires Distinct(senders) && |senders| == |c.participants|
    requires forall i :: 0 <= i < |senders| ==> RankOf(c.participants, senders[i]).Some?
    ensures SumBy(C.F, (s: U16) => Promised(C.F, r1, s, x, r), senders)
         == DerivativeValue(C.F, JointPolynomial(C.F, r1, c.threshold), x, r)
  {
    var g := (s: U16) => Promised(C.F, r1, s, x, r);
    var h := (p: Round1Package<T>) => DerivativeValue(C.F, p.commitments, x, r);
    FullListIsRoster(senders, c);
    FullListIsRoster(SenderIds(r1), c);
    SumByOrder(C.F, g, senders, SenderIds(r1));
    forall i | 0 <= i < |r1|
      ensures g(SenderIds(r1)[i]) == h(r1[i])
    {
      FindRound1At(r1, i);
    }
    SumByTerms(C.F, g, SenderIds(r1), h, r1);
    JointValue(C.F, r1, c.threshold, x, r);
  }

  ghost predicate SharesMatch<T(!new)>(
    C: Curve<T>, id: U16, rank: U16, r1: seq<Round1Package<T>>, r2: seq<Round2Package<T>>)
  {
    forall i :: 0 <= i < |r2| ==> r2[i].value == Promised(C.F, r1, r2[i].sender, C.F.Nat(id), rank)
  }

  lemma GroupValue<T(!new)>(C: Curve<T>, r1: seq<Round1Package<T>>, t: nat, x: T, r: nat)
    requires C.Valid() && t > 0 && forall i :: 0 <= i < |r1| ==> |r1[i].commitments| == t
    ensures
      var joint := JointPolynomial(C.F, r1, t);
      var v := DerivativeValue(C.F, joint, x, r);
      DerivativeValue(C.F, GroupPolynomial(C, r1, t), x, r) == (if C.IsOdd(joint[0]) then C.F.Sub(C.F.zero, v) else v)
  {
    var joint := JointPolynomial(C.F, r1, t);
    if C.IsOdd(joint[0]) {
      ValueNeg(C.F, joint, GroupPolynomial(C, r1, t), x, r);
      C.F.SubZero(C.F.zero, DerivativeValue(C.F, joint, x, r));
    } else {
      assert GroupPolynomial(C, r1, t) == joint;
    }
  }

  /** With valid sets the shares add up exactly when all match, to the joint polynomial's derivative. */
  lemma ValidSharesSum<T(!new)>(
    C: Curve<T>, id: U16, r1: seq<Round1Package<T>>, r2: seq<Round2Package<T>>, c: HierarchicalConfig)
    requires C.Valid() && ConstructedHierarchical(c) && Round1Valid(C, r1, c) && Round2Valid(id, r2, c)
    ensures
      var rank := RankOf(c.participants, id).value;
      && (SumShares(C, r1, r2).Ok? <==> SharesMatch(C, id, rank, r1, r2))
      && (SumShares(C, r1, r2).Ok? ==>
           SumShares(C, r1, r2).value == DerivativeValue(C.F, JointPolynomial(C.F, r1, c.threshold), C.F.Nat(id), rank))
  {
    var rank := RankOf(c.participants, id).value;
    forall i | 0 <= i < |r2|
      ensures FindRound1(r1, r2[i].sender).Some?
    {
      SendersAreFound(C, r1, c, r2[i].sender);
    }
    SumSharesExact(C, r1, r2, c, id, rank);
    PromisesAddUp(C, r1, Senders(r2), c, C.F.Nat(id), rank);
  }

  /** Main result: finalization on any packages. It succeeds exactly when both sets
      validate, every share is the committed derivative and the constants do not
      cancel; then the key and the share are fixed by the round-1 set alone. */
  lemma FinalizeExact<T(!new)>(
    C: Curve<T>, id: U16, r1: seq<Round1Package<T>>, r2: seq<Round2Package<T>>, c: HierarchicalConfig)
    requires C.Valid() && ConstructedHierarchical(c)
    ensures Finalize(C, id, r1, r2, c).Ok? <==>
      && Round1Valid(C, r1, c) && Round2Valid(id, r2, c)
      && SharesMatch(C, id, RankOf(c.participants, id).value, r1, r2)
      && JointPolynomial(C.F, r1, c.threshold)[0] != C.F.zero
    ensures Finalize(C, id, r1, r2, c).Ok? ==>
      var rank := RankOf(c.participants, id).value;
      var p := GroupPolynomial(C, r1, c.threshold);
      && p[0] != C.F.zero && !C.IsOdd(p[0])
      && Finalize(C, id, r1, r2, c).value
         == (GroupKey(p[0]), KeyShare(id, rank, DerivativeValue(C.F, p, C.F.Nat(id), rank)))
  {
    if Round1Valid(C, r1, c) && Round2Valid(id, r2, c) {
      var rank := RankOf(c.participants, id).value;
      var joint := JointPolynomial(C.F, r1, c.threshold);
      ValidSharesSum(C, id, r1, r2, c);
      SumConstantsIsJoint(C, r1, c.threshold);
      if joint[0] != C.F.zero {
        C.XOnlyEven(joint[0]);
        GroupValue(C, r1, c.threshold, C.F.Nat(id), rank);
      }
    }
  }

  lemma SetsPassToSum<T(!new)>(
    C: Curve<T>, id: U16, r1: seq<Round1Package<T>>, r2: seq<Round2Package<T>>, c: HierarchicalConfig)
    requires Round1Valid(C, r1, c) && Round2Valid(id, r2, c) && SumShares(C, r1, r2).Err?
    ensures Finalize(C, id, r1, r2, c) == Err(SumShares(C, r1, r2).error)
  {
    assert Round1SetResult(C, r1, c).Ok? && Round2SetResult(id, r2, c).Ok?;
  }

  /** A wrong share stops finalization with an error naming a sender of one. */
  lemma WrongShareRejected<T(!new)>(
    C: Curve<T>, id: U16, r1: seq<Round1Package<T>>, r2: seq<Round2Package<T>>, c: HierarchicalConfig)
    requires C.Valid() && ConstructedHierarchical(c) && Round1Valid(C, r1, c) && Round2Valid(id, r2, c)
    requires !SharesMatch(C, id, RankOf(c.participants, id).value, r1, r2)
    ensures exists i ::
      && 0 <= i < |r2| && WrongShare(C, id, RankOf(c.participants, id).value, r1, r2[i])
      && Finalize(C, id, r1, r2, c) == Fail(CommitmentCheckFailed(r2[i].sender))
  {
    forall i | 0 <= i < |r2|
      ensures FindRound1(r1, r2[i].sender).Some?
    {
      SendersAreFound(C, r1, c, r2[i].sender);
    }
    var rank := RankOf(c.participants, id).value;
    SumSharesExact(C, r1, r2, c, id, rank);
    var i := SumSharesBlames(C, r1, r2, c, id, rank);
    SetsPassToSum(C, id, r1, r2, c);
  }

  // ---------------------------------------------------------------- the loops

  lemma {:induction false} CheckRound1Prefix<T(!new)>(
    C: Curve<T>, r1: seq<Round1Package<T>>, c: HierarchicalConfig, k: nat)
    requires k <= |r1| && CheckRound1(C, r1[..k], c).Err?
    ensures CheckRound1(C, r1, c) == CheckRound1(C, r1[..k], c)
    decreases |r1|
  {
    if k == |r1| {
      assert r1[..k] == r1;
    } else {
      assert r1[..|r1| - 1][..k] == r1[..k];
      CheckRound1Prefix(C, r1[..|r1| - 1], c, k);
    }
  }

  lemma {:induction false} CheckRound2Prefix<T>(
    id: U16, rank: U16, r2: seq<Round2Package<T>>, c: HierarchicalConfig, k: nat)
    requires k <= |r2| && CheckRound2(id, rank, r2[..k], c).Err?
    ensures CheckRound2(id, rank, r2, c) == CheckRound2(id, rank, r2[..k], c)
    decreases |r2|
  {
    if k == |r2| {
      assert r2[..k] == r2;
    } else {
      assert r2[..|r2| - 1][..k] == r2[..k];
      CheckRound2Prefix(id, rank, r2[..|r2| - 1], c, k);
    }
  }

  lemma {:induction false} ExpectedPointPrefix<T(!new)>(C: Curve<T>, commitments: seq<T>, x: T, r: nat, k: nat)
    requires k <= |commitments| && ExpectedPoint(C, commitments[..k], x, r).Err?
    ensures ExpectedPoint(C, commitments, x, r) == ExpectedPoint(C, commitments[..k], x, r)
    decreases |commitments|
  {
    if k == |commitments| {
      assert commitments[..k] == commitments;
    } else {
      assert commitments[..|commitments| - 1][..k] == commitments[..k];
      ExpectedPointPrefix(C, commitments[..|commitments| - 1], x, r, k);
    }
  }

  lemma {:induction false} SumSharesPrefix<T(!new)>(
    C: Curve<T>, r1: seq<Round1Package<T>>, r2: seq<Round2Package<T>>, k: nat)
    requires k <= |r2| && SumShares(C, r1, r2[..k]).Err?
    ensures SumShares(C, r1, r2) == SumShares(C, r1, r2[..k])
    decreases |r2|
  {
    if k == |r2| {
      assert r2[..k] == r2;
    } else {
      assert r2[..|r2| - 1][..k] == r2[..k];
      SumSharesPrefix(C, r1, r2[..|r2| - 1], k);
    }
  }

  lemma {:induction false} SumConstantsPrefix<T(!new)>(C: Curve<T>, r1: seq<Round1Package<T>>, k: nat)
    requires k <= |r1| && SumConstants(C, r1[..k]).Err?
    ensures SumConstants(C, r1) == SumConstants(C, r1[..k])
    decreases |r1|
  {
    if k == |r1| {
      assert r1[..k] == r1;
    } else {
      assert r1[..|r1| - 1][..k] == r1[..k];
      SumConstantsPrefix(C, r1[..|r1| - 1], k);
    }
  }

  method ValidateRound1Package<T(==, !new)>(
    C: Curve<T>, p: Round1Package<T>, seen: set<U16>, ghost before: seq<U16>,
    c: HierarchicalConfig) returns (r: Result<()>)
    requires seen == Members(before)
    ensures r == CheckRound1Package(C, p, before, c)
  {
    if p.id in seen {
      return Err(DuplicateParticipantId(p.id));
    }
    var rank := RankOf(c.participants, p.id);
    if rank.None? {
      return Err(MissingRankedParticipant(p.id));
    }
    if p.rank != rank.value {
      return Fail(RankMismatch(p.id));
    }
    if |p.commitments| != c.threshold {
      return Fail(CommitmentCount(p.id));
    }
    r := CheckPoints(C, p.commitments);
  }

  lemma CheckRound1Step<T(!new)>(C: Curve<T>, r1: seq<Round1Package<T>>, c: HierarchicalConfig, i: nat)
    requires i < |r1| && CheckRound1(C, r1[..i], c).Ok?
    ensures CheckRound1(C, r1[..i + 1], c) == CheckRound1Package(C, r1[i], SenderIds(r1)[..i], c)
    ensures Members(SenderIds(r1)[..i + 1]) == Members(SenderIds(r1)[..i]) + {r1[i].id}
  {
    assert r1[..i + 1][..i] == r1[..i] && SenderIds(r1[..i]) == SenderIds(r1)[..i];
    assert SenderIds(r1)[..i + 1] == SenderIds(r1)[..i] + [r1[i].id];
  }

  method CheckRound1Loop<T(==, !new)>(C: Curve<T>, r1: seq<Round1Package<T>>, c: HierarchicalConfig)
    returns (r: Result<()>, seen: set<U16>)
    ensures r == CheckRound1(C, r1, c)
    ensures r.Ok? ==> seen == Members(SenderIds(r1))
  {
    seen := {};
    ghost var ids := SenderIds(r1);
    r := Ok(());
    for i := 0 to |r1|
      invariant seen == Members(ids[..i])
      invariant CheckRound1(C, r1[..i], c) == r == Ok(())
    {
      CheckRound1Step(C, r1, c, i);
      r := ValidateRound1Package(C, r1[i], seen, ids[..i], c);
      if r.Err? {
        CheckRound1Prefix(C, r1, c, i + 1);
        return;
      }
      seen := seen + {r1[i].id};
    }
    assert r1[..|r1|] == r1 && ids[..|r1|] == ids;
  }

  method ValidateRound1Set<T(==, !new)>(C: Curve<T>, r1: seq<Round1Package<T>>, c: HierarchicalConfig)
    returns (r: Result<()>)
    ensures r == Round1SetResult(C, r1, c)
  {
    var checked, seen := CheckRound1Loop(C, r1, c);
    if checked.Err? {
      return checked;
    }
    DistinctSize(SenderIds(r1));
    if |seen| != |c.participants| {
      return Fail(SetMismatch);
    }
    r := Ok(());
  }

  method ValidateRound2Package<T>(
    id: U16, rank: U16, p: Round2Package<T>, seen: set<U16>, ghost before: seq<U16>,
    c: HierarchicalConfig) returns (r: Result<()>)
    requires seen == Members(before)
    ensures r == CheckRound2Package(id, rank, p, before, c)
  {
    if p.recipient != id {
      return Fail(WrongRecipient(p.recipient));
    }
    if p.rank != rank {
      return Fail(RankMismatch(id));
    }
    if RankOf(c.participants, p.sender).None? {
      return Err(MissingRankedParticipant(p.sender));
    }
    if p.sender in seen {
      return Err(DuplicateParticipantId(p.sender));
    }
    r := Ok(());
  }

  lemma CheckRound2Step<T>(id: U16, rank: U16, r2: seq<Round2Package<T>>, c: HierarchicalConfig, i: nat)
    requires i < |r2| && CheckRound2(id, rank, r2[..i], c).Ok?
    ensures CheckRound2(id, rank, r2[..i + 1], c) == CheckRound2Package(id, rank, r2[i], Senders(r2)[..i], c)
    ensures Members(Senders(r2)[..i + 1]) == Members(Senders(r2)[..i]) + {r2[i].sender}
  {
    assert r2[..i + 1][..i] == r2[..i] && Senders(r2[..i]) == Senders(r2)[..i];
    assert Senders(r2)[..i + 1] == Senders(r2)[..i] + [r2[i].sender];
  }

  method CheckRound2Loop<T>(id: U16, rank: U16, r2: seq<Round2Package<T>>, c: HierarchicalConfig)
    returns (r: Result<()>, seen: set<U16>)
    ensures r == CheckRound2(id, rank, r2, c)
    ensures r.Ok? ==> seen == Members(Senders(r2))
  {
    seen := {};
    ghost var senders := Senders(r2);
    r := Ok(());
    for i := 0 to |r2|
      invariant seen == Members(senders[..i])
      invariant CheckRound2(id, rank, r2[..i], c) == r == Ok(())
    {
      CheckRound2Step(id, rank, r2, c, i);
      r := ValidateRound2Package(id, rank, r2[i], seen, senders[..i], c);
      if r.Err? {
        CheckRound2Prefix(id, rank, r2, c, i + 1);
        return;
      }
      seen := seen + {r2[i].sender};
    }
    assert r2[..|r2|] == r2 && senders[..|r2|] == senders;
  }

  method ValidateRound2Set<T>(id: U16, r2: seq<Round2Package<T>>, c: HierarchicalConfig) returns (r: Result<()>)
    ensures r == Round2SetResult(id, r2, c)
  {
    var expected := RankOf(c.participants, id);
    if expected.None? {
      return Err(MissingRankedParticipant(id));
    }
    var checked, seen := CheckRound2Loop(id, expected.value, r2, c);
    if checked.Err? {
      return checked;
    }
    DistinctSize(Senders(r2));
    if |seen| != |c.participants| {
      return Fail(SetMismatch);
    }
    r := Ok(());
  }

  lemma ExpectedPointStep<T(!new)>(C: Curve<T>, commitments: seq<T>, x: T, r: nat, k: nat, acc: T)
    requires k < |commitments| && ExpectedPoint(C, commitments[..k], x, r) == Ok(acc)
    ensures
      var basis, point := WrappedBasis(C.F, k % 65536, r, x), DecodePoint(C, commitments[k]);
      ExpectedPoint(C, commitments[..k + 1], x, r)
        == if basis == C.F.zero then Ok(acc)
           else if point.Err? then Err(point.error)
           else Ok(C.F.Add(acc, C.F.Mul(basis, point.value)))
  {
    assert commitments[..k + 1][..k] == commitments[..k];
  }

  /** Sums the commitments weighted by their basis values, skipping zero weights. */
  method ExpectedPointLoop<T(==, !new)>(C: Curve<T>, commitments: seq<T>, x: T, rank: nat) returns (r: Result<T>)
    requires C.F.Laws()
    ensures r == ExpectedPoint(C, commitments, x, rank)
  {
    var expected := C.F.zero;
    for degree := 0 to |commitments|
      invariant ExpectedPoint(C, commitments[..degree], x, rank) == Ok(expected)
    {
      ExpectedPointStep(C, commitments, x, rank, degree, expected);
      var basis := DerivativeBasis(C.F, degree % 65536, rank, x);
      if basis != C.F.zero {
        var point := DecodePoint(C, commitments[degree]);
        if point.Err? {
          ExpectedPointPrefix(C, commitments, x, rank, degree + 1);
          return Err(point.error);
        }
        expected := C.F.Add(expected, C.F.Mul(basis, point.value));
      }
    }
    assert commitments[..|commitments|] == commitments;
    r := Ok(expected);
  }

  method VerifyDerivativeShare<T(==, !new)>(C: Curve<T>, p: Round2Package<T>, round1: Round1Package<T>)
    returns (r: Result<()>)
    requires C.F.Laws()
    ensures r == VerifyShare(C, p, round1)
  {
    if p.sender != round1.id {
      return Fail(SenderMismatch);
    }
    var expected := ExpectedPointLoop(C, round1.commitments, C.F.Nat(p.recipient), p.rank);
    if expected.Err? {
      return Err(expected.error);
    }
    if p.value != expected.value {
      return Fail(CommitmentCheckFailed(p.sender));
    }
    r := Ok(());
  }

  method GroupXOnlyPublicKey<T(==, !new)>(C: Curve<T>, r1: seq<Round1Package<T>>) returns (r: Result<(T, bool)>)
    ensures r == GroupXOnly(C, r1)
  {
    var aggregate := C.F.zero;
    for i := 0 to |r1|
      invariant SumConstants(C, r1[..i]) == Ok(aggregate)
    {
      assert r1[..i + 1][..i] == r1[..i];
      if |r1[i].commitments| == 0 {
        SumConstantsPrefix(C, r1, i + 1);
        return Fail(MissingCommitment(r1[i].id));
      }
      var point := DecodePoint(C, r1[i].commitments[0]);
      if point.Err? {
        SumConstantsPrefix(C, r1, i + 1);
        return Err(point.error);
      }
      aggregate := C.F.Add(aggregate, point.value);
    }
    assert r1[..|r1|] == r1;
    if aggregate == C.F.zero {
      return Fail(ZeroAggregate);
    }
    r := Ok((C.XOnly(aggregate), C.IsOdd(aggregate)));
  }

  /** The packages by sender, as the map built from the list in order. */
  method IndexRound1<T>(r1: seq<Round1Package<T>>) returns (m: map<U16, Round1Package<T>>)
    ensures forall s: U16 :: s in m <==> FindRound1(r1, s).Some?
    ensures forall s: U16 :: s in m ==> FindRound1(r1, s) == Some(m[s])
  {
    m := map[];
    for i := 0 to |r1|
      invariant forall s: U16 :: s in m <==> FindRound1(r1[..i], s).Some?
      invariant forall s: U16 :: s in m ==> FindRound1(r1[..i], s) == Some(m[s])
    {
      assert r1[..i + 1][..i] == r1[..i];
      m := m[r1[i].id := r1[i]];
    }
    assert r1[..|r1|] == r1;
  }

  lemma SumSharesStep<T(!new)>(C: Curve<T>, r1: seq<Round1Package<T>>, r2: seq<Round2Package<T>>, i: nat, sum: T)
    requires i < |r2| && SumShares(C, r1, r2[..i]) == Ok(sum)
    ensures
      var round1 := FindRound1(r1, r2[i].sender);
      SumShares(C, r1, r2[..i + 1])
        == if round1.None? then Err(MissingRankedParticipant(r2[i].sender))
           else if VerifyShare(C, r2[i], round1.value).Err? then Err(VerifyShare(C, r2[i], round1.value).error)
           else Ok(C.F.Add(sum, r2[i].value))
  {
    assert r2[..i + 1][..i] == r2[..i];
  }

  /** Verifies and sums the received shares; the first bad one stops. */
  method SumSharesLoop<T(==, !new)>(C: Curve<T>, r1: seq<Round1Package<T>>, r2: seq<Round2Package<T>>)
    returns (r: Result<T>)
    requires C.F.Laws()
    ensures r == SumShares(C, r1, r2)
  {
    var bySender := IndexRound1(r1);
    var value := C.F.zero;
    for i := 0 to |r2|
      invariant SumShares(C, r1, r2[..i]) == Ok(value)
    {
      SumSharesStep(C, r1, r2, i, value);
      if r2[i].sender !in bySender {
        SumSharesPrefix(C, r1, r2, i + 1);
        return Err(MissingRankedParticipant(r2[i].sender));
      }
      var verified := VerifyDerivativeShare(C, r2[i], bySender[r2[i].sender]);
      if verified.Err? {
        SumSharesPrefix(C, r1, r2, i + 1);
        return Err(verified.error);
      }
      value := C.F.Add(value, r2[i].value);
    }
    assert r2[..|r2|] == r2;
    r := Ok(value);
  }

  method FinalizeHtssDkg<T(==, !new)>(
    C: Curve<T>, id: U16, r1: seq<Round1Package<T>>, r2: seq<Round2Package<T>>, c: HierarchicalConfig)
    returns (r: Result<(GroupKey<T>, KeyShare<T>)>)
    requires C.F.Laws()
    ensures r == Finalize(C, id, r1, r2, c)
  {
    var rank := RankOf(c.participants, id);
    if rank.None? {
      return Err(MissingRankedParticipant(id));
    }
    var valid1 := ValidateRound1Set(C, r1, c);
    if valid1.Err? {
      return Err(valid1.error);
    }
    var valid2 := ValidateRound2Set(id, r2, c);
    if valid2.Err? {
      return Err(valid2.error);
    }
    var sum := SumSharesLoop(C, r1, r2);
    if sum.Err? {
      return Err(sum.error);
    }
    var key := GroupXOnlyPublicKey(C, r1);
    if key.Err? {
      return Err(key.error);
    }
    var (xonly, negated) := key.value;
    var value := sum.value;
    if negated {
      value := C.F.Sub(C.F.zero, value);
    }
    r := Ok((GroupKey(xonly), KeyShare(id, rank.value, value)));
  }
}
