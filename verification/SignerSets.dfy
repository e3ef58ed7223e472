/** Signer-set validation (validate_*_signer_set) and how the policies relate. */
module SignerSets {
  import opened Wrappers
  import opened Lists
  import opened Policies
  import opened Birkhoff
  import opened Fields

  // ---------------------------------------------------------------- threshold policy

  function CheckSigners(signers: seq<U16>, limit: U16): (r: Result<()>)
    ensures r.Ok? <==> Distinct(signers) && forall i :: 0 <= i < |signers| ==> signers[i] <= limit
  {
    if |signers| == 0 then Ok(())
    else
      var k := |signers| - 1;
      var _ :- CheckSigners(signers[..k], limit);
      if signers[k] > limit then Err(ParticipantOutOfRange(signers[k], limit))
      else if signers[k] in signers[..k] then Err(DuplicateParticipantId(signers[k]))
      else Ok(())
  }

  lemma {:induction false} CheckSignersPrefix(signers: seq<U16>, limit: U16, k: nat)
    requires k <= |signers| && CheckSigners(signers[..k], limit).Err?
    ensures CheckSigners(signers, limit) == CheckSigners(signers[..k], limit)
    decreases |signers|
  {
    if k == |signers| {
      assert signers[..k] == signers;
    } else {
      assert signers[..|signers| - 1][..k] == signers[..k];
      CheckSignersPrefix(signers[..|signers| - 1], limit, k);
    }
  }

  function SignerSetResult(signers: seq<U16>, t: ThresholdConfig): Result<()> {
    if |signers| < t.threshold then Fail(NotEnoughSigners) else CheckSigners(signers, t.participants)
  }

  method ValidateSignerSet(signers: seq<U16>, t: ThresholdConfig) returns (r: Result<()>)
    ensures r == SignerSetResult(signers, t)
    ensures r.Ok? <==>
      |signers| >= t.threshold && Distinct(signers) && forall i :: 0 <= i < |signers| ==> signers[i] <= t.participants
  {
    if |signers| < t.threshold {
      return Fail(NotEnoughSigners);
    }
    var seen: set<U16> := {};
    for i := 0 to |signers|
      invariant seen == Members(signers[..i])
      invariant CheckSigners(signers[..i], t.participants).Ok?
    {
      assert signers[..i + 1][..i] == signers[..i];
      assert signers[..i + 1] == signers[..i] + [signers[i]];
      if signers[i] > t.participants {
        CheckSignersPrefix(signers, t.participants, i + 1);
        return Err(ParticipantOutOfRange(signers[i], t.participants));
      }
      if signers[i] in seen {
        CheckSignersPrefix(signers, t.participants, i + 1);
        return Err(DuplicateParticipantId(signers[i]));
      }
      seen := seen + {signers[i]};
    }
    assert signers[..|signers|] == signers;
    r := Ok(());
  }

  // ---------------------------------------------------------------- hierarchical policy

  function RankOrZero(ps: seq<RankedParticipant>, id: nat): U16 {
    var r := RankOf(ps, id);
    if r.Some? then r.value else 0
  }

  function SignerRanks(signers: seq<U16>, ps: seq<RankedParticipant>): (s: seq<U16>)
    ensures |s| == |signers| && forall i :: 0 <= i < |s| ==> s[i] == RankOrZero(ps, signers[i])
  {
    seq(|signers|, i requires 0 <= i < |signers| => RankOrZero(ps, signers[i]))
  }

  ghost predicate AllRanked(signers: seq<U16>, ps: seq<RankedParticipant>) {
    forall i :: 0 <= i < |signers| ==> RankOf(ps, signers[i]).Some?
  }

  /** The rank lookup loop: stops at the first signer outside the roster. */
  function LookupRanks(signers: seq<U16>, ps: seq<RankedParticipant>): (r: Result<seq<U16>>)
    ensures r.Ok? <==> AllRanked(signers, ps)
    ensures r.Ok? ==> r.value == SignerRanks(signers, ps)
  {
    if |signers| == 0 then Ok([])
    else
      var k := |signers| - 1;
      var ranks :- LookupRanks(signers[..k], ps);
      assert SignerRanks(signers, ps)[..k] == SignerRanks(signers[..k], ps);
      var rank := RankOf(ps, signers[k]);
      if rank.None? then Err(MissingRankedParticipant(signers[k])) else Ok(ranks + [rank.value])
  }

  lemma {:induction false} LookupRanksPrefix(signers: seq<U16>, ps: seq<RankedParticipant>, k: nat)
    requires k <= |signers| && LookupRanks(signers[..k], ps).Err?
    ensures LookupRanks(signers, ps) == LookupRanks(signers[..k], ps)
    decreases |signers|
  {
    if k == |signers| {
      assert signers[..k] == signers;
    } else {
      assert signers[..|signers| - 1][..k] == signers[..k];
      LookupRanksPrefix(signers[..|signers| - 1], ps, k);
    }
  }

  /** The rank loop: sorted rank at position i is at most i, for the first t positions. */
  function CheckRankRule(sorted: seq<nat>, t: nat, i: nat): (r: Result<()>)
    requires t <= |sorted| && i <= t
    ensures r.Ok? <==> forall k :: i <= k < t ==> sorted[k] <= k
    decreases t - i
  {
    if i == t then Ok(())
    else if sorted[i] > i then Fail(RankRule(i, sorted[i]))
    else CheckRankRule(sorted, t, i + 1)
  }

  function HierarchicalResult(signers: seq<U16>, c: HierarchicalConfig): Result<()> {
    var t :- ThresholdOfHierarchical(c);
    var _ :- SignerSetResult(signers, t);
    var ranks :- LookupRanks(signers, c.participants);
    CheckRankRule(Sort(ranks), c.threshold, 0)
  }

  method LookupRanksLoop(signers: seq<U16>, ps: seq<RankedParticipant>) returns (r: Result<seq<U16>>)
    ensures r == LookupRanks(signers, ps)
  {
    var ranks: seq<U16> := [];
    for i := 0 to |signers|
      invariant LookupRanks(signers[..i], ps) == Ok(ranks)
    {
      assert signers[..i + 1][..i] == signers[..i];
      var rank := RankOf(ps, signers[i]);
      if rank.None? {
        LookupRanksPrefix(signers, ps, i + 1);
        return Err(MissingRankedParticipant(signers[i]));
      }
      ranks := ranks + [rank.value];
    }
    assert signers[..|signers|] == signers;
    r := Ok(ranks);
  }

  method CheckRankRuleLoop(sorted: seq<nat>, t: nat) returns (r: Result<()>)
    requires t <= |sorted|
    ensures r == CheckRankRule(sorted, t, 0)
  {
    for index := 0 to t
      invariant CheckRankRule(sorted, t, 0) == CheckRankRule(sorted, t, index)
    {
      if sorted[index] > index {
        return Fail(RankRule(index, sorted[index]));
      }
    }
    r := Ok(());
  }

  method ValidateHierarchicalSignerSet(signers: seq<U16>, c: HierarchicalConfig) returns (r: Result<()>)
    ensures r == HierarchicalResult(signers, c)
  {
    var t := ThresholdOfHierarchical(c);
    if t.Err? {
      return Err(t.error);
    }
    var valid := ValidateSignerSet(signers, t.value);
    if valid.Err? {
      return valid;
    }
    var ranks := LookupRanksLoop(signers, c.participants);
    if ranks.Err? {
      return Err(ranks.error);
    }
    r := CheckRankRuleLoop(Sort(ranks.value), c.threshold);
  }

  /** The rank rule without sorting: for every b up to t, at least b ranks lie below b. */
  ghost predicate RankRuleHolds(ranks: seq<nat>, t: nat) {
    forall b :: 1 <= b <= t ==> CountBelow(ranks, b) >= b
  }

  lemma {:induction false} SortedRuleAt(ranks: seq<nat>, k: nat)
    requires k < |ranks|
    ensures Sort(ranks)[k] <= k <==> CountBelow(ranks, k + 1) >= k + 1
  {
    var s := Sort(ranks);
    assert CountBelow(s, k + 1) == CountBelow(ranks, k + 1) by {
      CountBelowSort(ranks, k + 1);
    }
    assert s[k] < k + 1 <==> CountBelow(s, k + 1) > k by {
      SortedEntry(s, k, k + 1);
    }
  }

  lemma {:induction false} SortedRuleIsCounting(ranks: seq<nat>, t: nat)
    requires t <= |ranks|
    ensures CheckRankRule(Sort(ranks), t, 0).Ok? <==> RankRuleHolds(ranks, t)
  {
    var sorted := Sort(ranks);
    forall k | 0 <= k < t
      ensures sorted[k] <= k <==> CountBelow(ranks, k + 1) >= k + 1
    {
      SortedRuleAt(ranks, k);
    }
    SameRule(sorted, ranks, t);
  }

  lemma SameRule(sorted: seq<nat>, ranks: seq<nat>, t: nat)
    requires t <= |sorted|
    requires forall k :: 0 <= k < t ==> (sorted[k] <= k <==> CountBelow(ranks, k + 1) >= k + 1)
    ensures CheckRankRule(sorted, t, 0).Ok? <==> RankRuleHolds(ranks, t)
  {
    if CheckRankRule(sorted, t, 0).Ok? {
      forall b | 1 <= b <= t
        ensures CountBelow(ranks, b) >= b
      {
        assert sorted[b - 1] <= b - 1;
      }
    }
  }

  ghost predicate HierarchicalAccepts(signers: seq<U16>, c: HierarchicalConfig) {
    PassesPolicy(signers, c, |c.participants|)
  }

  /** Enough distinct members with ids up to n that pass the counting form of the rank rule. */
  ghost predicate PassesPolicy(signers: seq<U16>, c: HierarchicalConfig, n: nat) {
    && |signers| >= c.threshold && Distinct(signers) && AllRanked(signers, c.participants)
    && (forall i :: 0 <= i < |signers| ==> signers[i] <= n)
    && RankRuleHolds(SignerRanks(signers, c.participants), c.threshold)
  }

  /** Acceptance under any config, constructed or not: its own threshold must be possible for the
      16-bit participant count, and the signers must pass. */
  lemma HierarchicalResultExact(signers: seq<U16>, c: HierarchicalConfig)
    ensures HierarchicalResult(signers, c).Ok? <==>
      1 <= c.threshold <= |c.participants| % 65536 && PassesPolicy(signers, c, |c.participants| % 65536)
  {
    var n, t := |c.participants| % 65536, c.threshold;
    var ranks := SignerRanks(signers, c.participants);
    if 1 <= t <= n {
      assert ThresholdOfHierarchical(c) == Ok(ThresholdConfig(t, n));
      assert |signers| >= t ==> (CheckRankRule(Sort(ranks), t, 0).Ok? <==> RankRuleHolds(ranks, t)) by {
        if |signers| >= t {
          SortedRuleIsCounting(ranks, t);
        }
      }
    }
  }

  lemma HierarchicalResultMeaning(signers: seq<U16>, c: HierarchicalConfig)
    requires ConstructedHierarchical(c)
    ensures HierarchicalResult(signers, c).Ok? <==> HierarchicalAccepts(signers, c)
  {
    var n := |c.participants|;
    assert n % 65536 == n;
    var passes := PassesPolicy(signers, c, n % 65536);
    assert HierarchicalAccepts(signers, c) == passes;
    HierarchicalResultExact(signers, c);
  }

  // ---------------------------------------------------------------- grouped policy

  /** The quorum loop over the requirements. */
  function CheckQuorums(reqs: seq<Requirement>, ranks: seq<U16>): (r: Result<()>)
    ensures r.Ok? <==> forall i :: 0 <= i < |reqs| ==> CountEqual(ranks, reqs[i].rank) >= reqs[i].required
  {
    if |reqs| == 0 then Ok(())
    else
      var k := |reqs| - 1;
      var _ :- CheckQuorums(reqs[..k], ranks);
      if CountEqual(ranks, reqs[k].rank) < reqs[k].required then Fail(GroupQuorum(reqs[k].rank)) else Ok(())
  }

  lemma {:induction false} CheckQuorumsPrefix(reqs: seq<Requirement>, ranks: seq<U16>, k: nat)
    requires k <= |reqs| && CheckQuorums(reqs[..k], ranks).Err?
    ensures CheckQuorums(reqs, ranks) == CheckQuorums(reqs[..k], ranks)
    decreases |reqs|
  {
    if k == |reqs| {
      assert reqs[..k] == reqs;
    } else {
      assert reqs[..|reqs| - 1][..k] == reqs[..k];
      CheckQuorumsPrefix(reqs[..|reqs| - 1], ranks, k);
    }
  }

  function GroupedResult(signers: seq<U16>, c: GroupedConfig): Result<()> {
    var t :- ThresholdOfGrouped(c);
    var _ :- SignerSetResult(signers, t);
    var ranks :- LookupRanks(signers, c.participants);
    CheckQuorums(c.requirements, ranks)
  }

  function Tally(counts: map<U16, nat>, rank: U16): nat { if rank in counts then counts[rank] else 0 }

  /** Counts the selected signers of every rank. */
  method TallyRanks(signers: seq<U16>, ps: seq<RankedParticipant>) returns (r: Result<map<U16, nat>>)
    ensures r.Ok? <==> LookupRanks(signers, ps).Ok?
    ensures r.Err? ==> r.error == LookupRanks(signers, ps).error
    ensures r.Ok? ==> forall x: U16 :: Tally(r.value, x) == CountEqual(LookupRanks(signers, ps).value, x)
  {
    var selected: map<U16, nat> := map[];
    ghost var ranks: seq<U16> := [];
    for i := 0 to |signers|
      invariant LookupRanks(signers[..i], ps) == Ok(ranks)
      invariant forall x: U16 :: Tally(selected, x) == CountEqual(ranks, x)
    {
      assert signers[..i + 1][..i] == signers[..i];
      var rank := RankOf(ps, signers[i]);
      if rank.None? {
        LookupRanksPrefix(signers, ps, i + 1);
        return Err(MissingRankedParticipant(signers[i]));
      }
      selected := selected[rank.value := Tally(selected, rank.value) + 1];
      assert (ranks + [rank.value])[..|ranks|] == ranks;
      ranks := ranks + [rank.value];
    }
    assert signers[..|signers|] == signers;
    r := Ok(selected);
  }

  method CheckQuorumsLoop(reqs: seq<Requirement>, selected: map<U16, nat>, ghost ranks: seq<U16>)
    returns (r: Result<()>)
    requires forall x: U16 :: Tally(selected, x) == CountEqual(ranks, x)
    ensures r == CheckQuorums(reqs, ranks)
  {
    for i := 0 to |reqs|
      invariant CheckQuorums(reqs[..i], ranks).Ok?
    {
      assert reqs[..i + 1][..i] == reqs[..i];
      if Tally(selected, reqs[i].rank) < reqs[i].required {
        CheckQuorumsPrefix(reqs, ranks, i + 1);
        return Fail(GroupQuorum(reqs[i].rank));
      }
    }
    assert reqs[..|reqs|] == reqs;
    r := Ok(());
  }

  method ValidateGroupedSignerSet(signers: seq<U16>, c: GroupedConfig) returns (r: Result<()>)
    ensures r == GroupedResult(signers, c)
  {
    var t := ThresholdOfGrouped(c);
    if t.Err? {
      return Err(t.error);
    }
    var valid := ValidateSignerSet(signers, t.value);
    if valid.Err? {
      return valid;
    }
    var selected := TallyRanks(signers, c.participants);
    if selected.Err? {
      return Err(selected.error);
    }
    r := CheckQuorumsLoop(c.requirements, selected.value, LookupRanks(signers, c.participants).value);
  }

  ghost predicate GroupedAccepts(signers: seq<U16>, c: GroupedConfig) {
    && |signers| >= SumRequired(c.requirements, 65536) && Distinct(signers) && AllRanked(signers, c.participants)
    && (forall i :: 0 <= i < |signers| ==> signers[i] <= |c.participants|)
    && (forall i :: 0 <= i < |c.requirements| ==>
         CountEqual(SignerRanks(signers, c.participants), c.requirements[i].rank) >= c.requirements[i].required)
  }

  /** Acceptance under any grouped config: its required count, as the program adds it up, must be
      possible, and then the signers are enough distinct members in range that meet every quorum. */
  lemma GroupedResultExact(signers: seq<U16>, c: GroupedConfig)
    ensures GroupedResult(signers, c).Ok? <==>
      var n, t := |c.participants| % 65536, RequiredSignerCount(c.requirements);
      var ranks := SignerRanks(signers, c.participants);
      && 1 <= t <= n && |signers| >= t && Distinct(signers) && AllRanked(signers, c.participants)
      && (forall i :: 0 <= i < |signers| ==> signers[i] <= n)
      && (forall i :: 0 <= i < |c.requirements| ==>
           CountEqual(ranks, c.requirements[i].rank) >= c.requirements[i].required)
  {
  }

  lemma GroupedResultMeaning(signers: seq<U16>, c: GroupedConfig)
    requires ConstructedGrouped(c)
    ensures GroupedResult(signers, c).Ok? <==> GroupedAccepts(signers, c)
  {
    GroupedArithmetic(c);
    GroupedResultExact(signers, c);
  }

  // ---------------------------------------------------------------- grouped versus hierarchical

  /** For each declared rank r, the lower declared ranks require at least r signers. */
  ghost predicate QuorumsCoverRanks(c: GroupedConfig) {
    forall i :: 0 <= i < |c.requirements| ==>
      SumRequired(c.requirements, c.requirements[i].rank) >= c.requirements[i].rank
  }

  lemma {:induction false} SumRequiredStep(reqs: seq<Requirement>, b: nat)
    requires !Declared(reqs, b)
    ensures SumRequired(reqs, b + 1) == SumRequired(reqs, b)
  {
    if |reqs| > 0 {
      var k := |reqs| - 1;
      assert reqs[k].rank != b;
      assert forall i :: 0 <= i < k ==> reqs[..k][i] == reqs[i];
      SumRequiredStep(reqs[..k], b);
    }
  }

  /** Up to the largest declared rank, the lower quorums reach every b. */
  lemma {:induction false} QuorumsReach(c: GroupedConfig, i: nat, b: nat)
    requires QuorumsCoverRanks(c) && i < |c.requirements| && b <= c.requirements[i].rank
    ensures SumRequired(c.requirements, b) >= b
    decreases c.requirements[i].rank - b
  {
    if Declared(c.requirements, b) {
      var j :| 0 <= j < |c.requirements| && c.requirements[j].rank == b;
    } else {
      QuorumsReach(c, i, b + 1);
      SumRequiredStep(c.requirements, b);
    }
  }

  lemma {:induction false} SomeRankAbove(ranks: seq<nat>, b: nat)
    requires CountBelow(ranks, b) < |ranks|
    ensures exists i :: 0 <= i < |ranks| && ranks[i] >= b
  {
    if forall i :: 0 <= i < |ranks| ==> ranks[i] < b {
      CountBelowAll(ranks, b);
    }
  }

  lemma RankIsDeclared(signers: seq<U16>, c: GroupedConfig, i: nat)
    requires ConstructedGrouped(c) && AllRanked(signers, c.participants) && i < |signers|
    ensures Declared(c.requirements, SignerRanks(signers, c.participants)[i])
  {
    GroupedParts(c);
    var j :| 0 <= j < |c.participants| && c.participants[j].id == signers[i];
    RankOfMember(c.participants, j);
  }

  lemma CoveredImpliesRankRule(signers: seq<U16>, c: GroupedConfig)
    requires ConstructedGrouped(c) && QuorumsCoverRanks(c) && GroupedAccepts(signers, c)
    ensures RankRuleHolds(SignerRanks(signers, c.participants), SumRequired(c.requirements, 65536))
  {
    var reqs, ranks := c.requirements, SignerRanks(signers, c.participants);
    GroupedParts(c);
    forall b | 1 <= b <= SumRequired(reqs, 65536)
      ensures CountBelow(ranks, b) >= b
    {
      CountsPartition(reqs, ranks, b);
      SumRequiredAtMostCounts(reqs, ranks, b);
      if CountBelow(ranks, b) < b {
        SomeRankAbove(ranks, b);
        var i :| 0 <= i < |ranks| && ranks[i] >= b;
        RankIsDeclared(signers, c, i);
        var j :| 0 <= j < |reqs| && reqs[j].rank == ranks[i];
        QuorumsReach(c, j, b);
      }
    }
  }

  // The exact quorum: the first `required` participants of every rank.

  ghost function RequiredFor(reqs: seq<Requirement>, rank: nat): nat {
    if |reqs| == 0 then 0
    else if reqs[|reqs| - 1].rank == rank then reqs[|reqs| - 1].required
    else RequiredFor(reqs[..|reqs| - 1], rank)
  }

  ghost function ExactQuorum(ps: seq<RankedParticipant>, reqs: seq<Requirement>): (s: seq<RankedParticipant>)
    ensures forall i :: 0 <= i < |s| ==> s[i] in ps
  {
    if |ps| == 0 then []
    else
      var k := |ps| - 1;
      var s := ExactQuorum(ps[..k], reqs);
      assert forall p :: p in ps[..k] ==> p in ps;
      if CountEqual(RanksIn(s), ps[k].rank) < RequiredFor(reqs, ps[k].rank) then s + [ps[k]] else s
  }

  ghost function Min(a: nat, b: nat): nat { if a < b then a else b }

  lemma {:induction false} ExactQuorumCounts(ps: seq<RankedParticipant>, reqs: seq<Requirement>, rank: nat)
    ensures CountEqual(RanksIn(ExactQuorum(ps, reqs)), rank)
         == Min(CountEqual(RanksIn(ps), rank), RequiredFor(reqs, rank))
  {
    if |ps| > 0 {
      var k := |ps| - 1;
      ExactQuorumCounts(ps[..k], reqs, rank);
      var s := ExactQuorum(ps[..k], reqs);
      assert ps == ps[..k] + [ps[k]];
      CountRankAppend(ps[..k], ps[k], rank);
      CountRankAppend(s, ps[k], rank);
    }
  }

  lemma CountRankAppend(s: seq<RankedParticipant>, p: RankedParticipant, rank: nat)
    ensures CountEqual(RanksIn(s + [p]), rank) == CountEqual(RanksIn(s), rank) + (if p.rank == rank then 1 else 0)
  {
    assert RanksIn(s + [p]) == RanksIn(s) + [p.rank];
    CountEqualAppend(RanksIn(s), p.rank, rank);
  }

  lemma {:induction false} ExactQuorumDistinct(ps: seq<RankedParticipant>, reqs: seq<Requirement>)
    requires Distinct(Ids(ps))
    ensures Distinct(Ids(ExactQuorum(ps, reqs)))
  {
    if |ps| > 0 {
      var k := |ps| - 1;
      var s := ExactQuorum(ps[..k], reqs);
      assert Ids(ps)[..k] == Ids(ps[..k]);
      ExactQuorumDistinct(ps[..k], reqs);
      LastIdIsNew(ps, s);
      assert Ids(s + [ps[k]]) == Ids(s) + [ps[k].id];
      DistinctAppend(Ids(s), ps[k].id);
    }
  }

  lemma LastIdIsNew(ps: seq<RankedParticipant>, s: seq<RankedParticipant>)
    requires Distinct(Ids(ps)) && |ps| > 0 && forall i :: 0 <= i < |s| ==> s[i] in ps[..|ps| - 1]
    ensures ps[|ps| - 1].id !in Ids(s)
  {
    var k := |ps| - 1;
    forall i | 0 <= i < |s|
      ensures Ids(s)[i] != ps[k].id
    {
      var j :| 0 <= j < k && ps[..k][j] == s[i];
      assert Ids(ps)[j] != Ids(ps)[k];
    }
  }

  lemma {:induction false} RequiredForDeclared(reqs: seq<Requirement>, i: nat)
    requires DistinctRanks(reqs) && i < |reqs|
    ensures RequiredFor(reqs, reqs[i].rank) == reqs[i].required
  {
    if i < |reqs| - 1 {
      RequiredForDeclared(reqs[..|reqs| - 1], i);
    }
  }

  /** With exactly the required count of every rank, the sums agree. */
  lemma {:induction false} ExactSums(reqs: seq<Requirement>, ranks: seq<nat>, b: nat)
    requires forall i :: 0 <= i < |reqs| ==> CountEqual(ranks, reqs[i].rank) == reqs[i].required
    ensures SumCounts(reqs, ranks, b) == SumRequired(reqs, b)
  {
    if |reqs| > 0 {
      ExactSums(reqs[..|reqs| - 1], ranks, b);
    }
  }

  lemma {:induction false} SumRequiredSplit(reqs: seq<Requirement>, i: nat, b: nat)
    requires i < |reqs| && reqs[i].rank < b
    ensures SumRequired(reqs, b) >= SumRequired(reqs, reqs[i].rank) + reqs[i].required
  {
    var k, r := |reqs| - 1, reqs[i].rank;
    if i < k {
      SumRequiredSplit(reqs[..k], i, b);
    } else {
      SumRequiredMonotone(reqs[..k], r, b);
    }
  }

  lemma {:induction false} SumRequiredMonotone(reqs: seq<Requirement>, a: nat, b: nat)
    requires a <= b
    ensures SumRequired(reqs, a) <= SumRequired(reqs, b)
  {
    if |reqs| > 0 {
      SumRequiredMonotone(reqs[..|reqs| - 1], a, b);
    }
  }

  /** Every constructed config with ids 1..n accepts its exact quorum. */
  lemma ExactQuorumAccepted(c: GroupedConfig)
    requires ConstructedGrouped(c) && forall i :: 0 <= i < |c.participants| ==> c.participants[i].id <= |c.participants|
    ensures
      var s := Ids(ExactQuorum(c.participants, c.requirements));
      && GroupedAccepts(s, c)
      && forall b :: CountBelow(SignerRanks(s, c.participants), b) == SumRequired(c.requirements, b)
  {
    var ps, reqs := c.participants, c.requirements;
    var q := ExactQuorum(ps, reqs);
    var s := Ids(q);
    GroupedParts(c);
    ExactQuorumDistinct(ps, reqs);
    forall i | 0 <= i < |q|
      ensures RankOf(ps, s[i]) == Some(q[i].rank) && s[i] <= |ps| && Declared(reqs, q[i].rank)
    {
      var j :| 0 <= j < |ps| && ps[j] == q[i];
      RankOfMember(ps, j);
    }
    var ranks := SignerRanks(s, ps);
    assert ranks == RanksIn(q);
    forall i | 0 <= i < |reqs|
      ensures CountEqual(ranks, reqs[i].rank) == reqs[i].required
    {
      ExactQuorumCounts(ps, reqs, reqs[i].rank);
      RequiredForDeclared(reqs, i);
    }
    forall b: nat
      ensures CountBelow(ranks, b) == SumRequired(reqs, b)
    {
      CountsPartition(reqs, ranks, b);
      ExactSums(reqs, ranks, b);
    }
    CountBelowAll(ranks, 65536);
  }

  /** Main result: every signer set accepted by the grouped policy satisfies the
      rank rule of the derived hierarchical policy exactly when, for each declared
      rank r, the required counts of the lower ranks sum to at least r. */
  lemma GroupedVersusRankRule(c: GroupedConfig)
    requires ConstructedGrouped(c) && forall i :: 0 <= i < |c.participants| ==> c.participants[i].id <= |c.participants|
    ensures HierarchicalFromGrouped(c).Ok?
    ensures QuorumsCoverRanks(c) <==>
      forall s: seq<U16> :: GroupedResult(s, c).Ok? ==> HierarchicalResult(s, HierarchicalFromGrouped(c).value).Ok?
  {
    GroupedArithmetic(c);
    var h := HierarchicalFromGrouped(c).value;
    forall s: seq<U16>
      ensures GroupedResult(s, c).Ok? <==> GroupedAccepts(s, c)
      ensures HierarchicalResult(s, h).Ok? <==> HierarchicalAccepts(s, h)
    {
      GroupedResultMeaning(s, c);
      HierarchicalResultMeaning(s, h);
    }
    if QuorumsCoverRanks(c) {
      forall s: seq<U16> | GroupedAccepts(s, c)
        ensures HierarchicalAccepts(s, h)
      {
        CoveredImpliesRankRule(s, c);
      }
    } else {
      var i :|
        && 0 <= i < |c.requirements|
        && SumRequired(c.requirements, c.requirements[i].rank) < c.requirements[i].rank;
      var s := Ids(ExactQuorum(c.participants, c.requirements));
      ExactQuorumAccepted(c);
      ExactQuorumBreaksRule(c, i);
      assert GroupedResult(s, c).Ok? && !HierarchicalResult(s, h).Ok?;
    }
  }

  lemma ExactQuorumBreaksRule(c: GroupedConfig, i: nat)
    requires ConstructedGrouped(c) && forall j :: 0 <= j < |c.participants| ==> c.participants[j].id <= |c.participants|
    requires i < |c.requirements| && SumRequired(c.requirements, c.requirements[i].rank) < c.requirements[i].rank
    ensures
      var s := Ids(ExactQuorum(c.participants, c.requirements));
      !RankRuleHolds(SignerRanks(s, c.participants), SumRequired(c.requirements, 65536))
  {
    GroupedParts(c);
    ExactQuorumAccepted(c);
    var r := c.requirements[i].rank;
    var b := SumRequired(c.requirements, r) + 1;
    var ranks := SignerRanks(Ids(ExactQuorum(c.participants, c.requirements)), c.participants);
    SumRequiredSplit(c.requirements, i, 65536);
    assert CountBelow(ranks, r) == b - 1;
    CountBelowMonotone(ranks, b, r);
  }

  /** One member of rank 0 and one of rank 5, both required. */
  function SparseRanks(): GroupedConfig {
    GroupedConfig([RankedParticipant(1, 0), RankedParticipant(2, 5)], [Requirement(0, 1, 1), Requirement(5, 1, 1)])
  }

  lemma SparseCounts(ranks: seq<nat>)
    requires ranks == [0, 5]
    ensures CountEqual(ranks, 0) == 1 && CountEqual(ranks, 5) == 1 && CountBelow(ranks, 2) == 1
  {
    var first := ranks[..1];
    assert first == [0] && first[..0] == [];
    assert CountEqual(first, 0) == 1 && CountEqual(first, 5) == 0 && CountBelow(first, 2) == 1;
  }

  lemma SparseConstructed()
    ensures ConstructedGrouped(SparseRanks())
  {
    var c := SparseRanks();
    var ids, ranks := Ids(c.participants), RanksIn(c.participants);
    assert ids == [1, 2] && ranks == [0, 5];
    SparseCounts(ranks);
    assert c.requirements[0].rank == 0 && c.requirements[1].rank == 5;
    assert Declared(c.requirements, 0) && Declared(c.requirements, 5);
    assert FirstRepeat(ids).None?;
  }

  lemma SparseLookup()
    ensures SignerRanks([1, 2], SparseRanks().participants) == [0, 5] && AllRanked([1, 2], SparseRanks().participants)
  {
    var ps := SparseRanks().participants;
    assert Ids(ps) == [1, 2];
    RankOfMember(ps, 0);
    RankOfMember(ps, 1);
  }

  lemma SparseSums(reqs: seq<Requirement>)
    requires |reqs| == 2 && reqs[0] == Requirement(0, 1, 1) && reqs[1] == Requirement(5, 1, 1)
    ensures SumRequired(reqs, 5) == 1 && SumRequired(reqs, 65536) == 2
  {
    var first := reqs[..1];
    assert first[..0] == [] && first[0] == reqs[0];
    assert SumRequired(first, 5) == 1 && SumRequired(first, 65536) == 1;
  }

  lemma SparseAccepted()
    requires ConstructedGrouped(SparseRanks())
    ensures GroupedResult([1, 2], SparseRanks()).Ok?
  {
    var c := SparseRanks();
    SparseLookup();
    SparseCounts(SignerRanks([1, 2], c.participants));
    SparseSums(c.requirements);
    GroupedResultMeaning([1, 2], c);
  }

  lemma SparseRejected()
    requires ConstructedGrouped(SparseRanks())
    ensures HierarchicalFromGrouped(SparseRanks()).Ok?
    ensures HierarchicalResult([1, 2], HierarchicalFromGrouped(SparseRanks()).value).Err?
  {
    var c := SparseRanks();
    GroupedArithmetic(c);
    SparseLookup();
    SparseCounts(SignerRanks([1, 2], c.participants));
    SparseSums(c.requirements);
    HierarchicalResultMeaning([1, 2], HierarchicalFromGrouped(c).value);
  }

  /** A grouped policy need not imply its derived rank rule: ids 1 and 2 meet both quorums,
      and the derived validator rejects them. */
  lemma GroupedMayBreakRule()
    ensures ConstructedGrouped(SparseRanks()) && !QuorumsCoverRanks(SparseRanks())
    ensures HierarchicalFromGrouped(SparseRanks()).Ok? && GroupedResult([1, 2], SparseRanks()).Ok?
    ensures HierarchicalResult([1, 2], HierarchicalFromGrouped(SparseRanks()).value).Err?
  {
    SparseConstructed();
    SparseAccepted();
    SparseRejected();
    SparseSums(SparseRanks().requirements);
    assert SparseRanks().requirements[1].rank == 5;
  }

  // ---------------------------------------------------------------- interpolation points

  /** birkhoff_points_from_hierarchical_signer_set */
  function SignerPoints(signers: seq<U16>, c: HierarchicalConfig): (r: Result<seq<BirkhoffPoint>>)
    ensures r.Ok? ==> |r.value| == |signers|
    ensures r.Ok? ==> forall i :: 0 <= i < |signers| ==>
      r.value[i] == BirkhoffPoint(signers[i], signers[i], RankOrZero(c.participants, signers[i]))
  {
    var _ :- HierarchicalResult(signers, c);
    if exists i :: 0 <= i < |signers| && signers[i] == 0 then Fail(ZeroXCoordinate)
    else Ok(seq(|signers|, i requires 0 <= i < |signers| =>
      BirkhoffPoint(signers[i], signers[i], RankOrZero(c.participants, signers[i]))))
  }

  /** Accepted signers have distinct non-zero 16-bit ids, under any config. */
  lemma SignerPointsSize(signers: seq<U16>, c: HierarchicalConfig)
    requires SignerPoints(signers, c).Ok?
    ensures |signers| <= 65535
  {
    var ids: seq<nat> := signers;
    assert forall i :: 0 <= i < |signers| ==> signers[i] != 0;
    DistinctSize(ids);
    SubsetSize(Members(ids), Interval(65535));
  }

  lemma SignerPointsMeaning(signers: seq<U16>, c: HierarchicalConfig)
    requires ConstructedHierarchical(c)
    ensures SignerPoints(signers, c).Ok? <==> HierarchicalAccepts(signers, c)
    ensures SignerPoints(signers, c).Ok? ==> Distinct(SignerPoints(signers, c).value)
  {
    HierarchicalResultMeaning(signers, c);
    if HierarchicalAccepts(signers, c) {
      forall i | 0 <= i < |signers|
        ensures signers[i] >= 1
      {
        var j :| 0 <= j < |c.participants| && c.participants[j].id == signers[i];
      }
    }
  }

  /** The rank rule at full length is necessary: a signer set whose ranks break it
      anywhere below its own size has no coefficients. */
  lemma RankRuleNecessary<T(!new)>(F: Field<T>, signers: seq<U16>, c: HierarchicalConfig)
    requires F.Laws() && SignerPoints(signers, c).Ok?
    requires !RankRuleHolds(SignerRanks(signers, c.participants), |signers|)
    ensures InterpolationCoefficients(F, SignerPoints(signers, c).value) == Fail(SingularSystem)
  {
    var points := SignerPoints(signers, c).value;
    var b :| 1 <= b <= |signers| && CountBelow(SignerRanks(signers, c.participants), b) < b;
    assert Orders(points) == SignerRanks(signers, c.participants);
    PolyaNecessary(F, points, b);
  }
}
