/**
  Policies of dkgkit-core and the signer-set validators of dkgkit-frost:
  threshold, hierarchical (rank rule) and grouped (per-rank quorum).
 */
module Policies {
  import opened Wrappers
  import opened Lists

  datatype ThresholdConfig = ThresholdConfig(threshold: U16, participants: U16)
  datatype RankedParticipant = RankedParticipant(id: U16, rank: U16)
  datatype HierarchicalConfig = HierarchicalConfig(threshold: U16, participants: seq<RankedParticipant>)
  datatype Requirement = Requirement(rank: U16, required: U16, total: U16)
  datatype GroupedConfig = GroupedConfig(participants: seq<RankedParticipant>, requirements: seq<Requirement>)

  // ---------------------------------------------------------------- constructors

  function NewThreshold(threshold: U16, participants: U16): (r: Result<ThresholdConfig>)
    ensures r.Ok? <==> 1 <= threshold <= participants
    ensures r.Ok? ==> r.value.threshold == threshold && r.value.participants == participants
    ensures r.Err? ==> r.error == InvalidThreshold(threshold, participants)
  {
    if threshold == 0 || participants == 0 || threshold > participants
    then Err(InvalidThreshold(threshold, participants))
    else Ok(ThresholdConfig(threshold, participants))
  }

  function NewRankedParticipant(id: U16, rank: U16): (r: Result<RankedParticipant>)
    ensures r.Ok? <==> id >= 1
    ensures r.Ok? ==> r.value.id == id && r.value.rank == rank
    ensures r.Err? ==> r.error == InvalidParticipantId(0)
  {
    if id == 0 then Err(InvalidParticipantId(id)) else Ok(RankedParticipant(id, rank))
  }

  function NewRequirement(rank: U16, required: U16, total: U16): (r: Result<Requirement>)
    ensures r.Ok? <==> 1 <= required <= total
    ensures r.Ok? ==> r.value.rank == rank && r.value.required == required && r.value.total == total
    ensures r.Err? ==> r.error == InvalidThreshold(required, total)
  {
    if required == 0 || total == 0 || required > total
    then Err(InvalidThreshold(required, total))
    else Ok(Requirement(rank, required, total))
  }

  function Ids(ps: seq<RankedParticipant>): (s: seq<U16>)
    ensures |s| == |ps| && forall i :: 0 <= i < |s| ==> s[i] == ps[i].id
  {
    seq(|ps|, i requires 0 <= i < |ps| => ps[i].id)
  }

  function RanksIn(ps: seq<RankedParticipant>): (s: seq<U16>)
    ensures |s| == |ps| && forall i :: 0 <= i < |s| ==> s[i] == ps[i].rank
  {
    seq(|ps|, i requires 0 <= i < |ps| => ps[i].rank)
  }

  /** Hierarchical::new without its loop. */
  function HierarchicalOf(threshold: U16, ps: seq<RankedParticipant>): (r: Result<HierarchicalConfig>) {
    if |ps| > 65535 then Err(InvalidThreshold(threshold, 65535))
    else
      var _ :- NewThreshold(threshold, |ps|);
      var repeated := FirstRepeat(Ids(ps));
      if repeated.Some? then Err(DuplicateParticipantId(repeated.value))
      else Ok(HierarchicalConfig(threshold, ps))
  }

  method NewHierarchical(threshold: U16, ps: seq<RankedParticipant>) returns (r: Result<HierarchicalConfig>)
    ensures r == HierarchicalOf(threshold, ps)
    ensures r.Ok? <==> 1 <= threshold <= |ps| <= 65535 && Distinct(Ids(ps))
    ensures r.Ok? ==> r.value == HierarchicalConfig(threshold, ps)
  {
    if |ps| > 65535 {
      return Err(InvalidThreshold(threshold, 65535));
    }
    var count := NewThreshold(threshold, |ps|);
    if count.Err? {
      return Err(count.error);
    }
    var repeated := FindRepeat(Ids(ps));
    if repeated.Some? {
      return Err(DuplicateParticipantId(repeated.value));
    }
    r := Ok(HierarchicalConfig(threshold, ps));
  }

  /** The requirement loop of Grouped::new: distinct ranks with exact totals. */
  function CheckRequirements(reqs: seq<Requirement>, ranks: seq<U16>): (r: Result<()>)
    ensures r.Ok? <==>
      && (forall i, j :: 0 <= i < j < |reqs| ==> reqs[i].rank != reqs[j].rank)
      && (forall i :: 0 <= i < |reqs| ==> reqs[i].total == CountEqual(ranks, reqs[i].rank))
  {
    if |reqs| == 0 then Ok(())
    else
      var k := |reqs| - 1;
      var _ :- CheckRequirements(reqs[..k], ranks);
      if exists i :: 0 <= i < k && reqs[i].rank == reqs[k].rank then Fail(DuplicateRank(reqs[k].rank))
      else if reqs[k].total != CountEqual(ranks, reqs[k].rank) then Fail(RankTotalMismatch(reqs[k].rank))
      else Ok(())
  }

  predicate Declared(reqs: seq<Requirement>, rank: nat) {
    exists i :: 0 <= i < |reqs| && reqs[i].rank == rank
  }

  function CheckCoverage(ranks: seq<U16>, reqs: seq<Requirement>): (r: Result<()>)
    ensures r.Ok? <==> forall i :: 0 <= i < |ranks| ==> Declared(reqs, ranks[i])
  {
    if |ranks| == 0 then Ok(())
    else
      var k := |ranks| - 1;
      var _ :- CheckCoverage(ranks[..k], reqs);
      if Declared(reqs, ranks[k]) then Ok(()) else Fail(UndeclaredRank(ranks[k]))
  }

  function GroupedOf(ps: seq<RankedParticipant>, reqs: seq<Requirement>): (r: Result<GroupedConfig>) {
    if |ps| == 0 || |reqs| == 0 then Err(InvalidThreshold(0, |ps| % 65536))
    else
      var repeated := FirstRepeat(Ids(ps));
      if repeated.Some? then Err(DuplicateParticipantId(repeated.value))
      else
        var _ :- CheckRequirements(reqs, RanksIn(ps));
        var _ :- CheckCoverage(RanksIn(ps), reqs);
        Ok(GroupedConfig(ps, reqs))
  }

  lemma {:induction false} CheckRequirementsPrefix(reqs: seq<Requirement>, ranks: seq<U16>, k: nat)
    requires k <= |reqs| && CheckRequirements(reqs[..k], ranks).Err?
    ensures CheckRequirements(reqs, ranks) == CheckRequirements(reqs[..k], ranks)
    decreases |reqs|
  {
    if k == |reqs| {
      assert reqs[..k] == reqs;
    } else {
      assert reqs[..|reqs| - 1][..k] == reqs[..k];
      CheckRequirementsPrefix(reqs[..|reqs| - 1], ranks, k);
    }
  }

  lemma {:induction false} CheckCoveragePrefix(ranks: seq<U16>, reqs: seq<Requirement>, k: nat)
    requires k <= |ranks| && CheckCoverage(ranks[..k], reqs).Err?
    ensures CheckCoverage(ranks, reqs) == CheckCoverage(ranks[..k], reqs)
    decreases |ranks|
  {
    if k == |ranks| {
      assert ranks[..k] == ranks;
    } else {
      assert ranks[..|ranks| - 1][..k] == ranks[..k];
      CheckCoveragePrefix(ranks[..|ranks| - 1], reqs, k);
    }
  }

  lemma CheckRequirementsStep(reqs: seq<Requirement>, ranks: seq<U16>, i: nat)
    requires i < |reqs| && CheckRequirements(reqs[..i], ranks).Ok?
    ensures CheckRequirements(reqs[..i + 1], ranks) ==
      if exists j :: 0 <= j < i && reqs[j].rank == reqs[i].rank then Fail(DuplicateRank(reqs[i].rank))
      else if reqs[i].total != CountEqual(ranks, reqs[i].rank) then Fail(RankTotalMismatch(reqs[i].rank))
      else Ok(())
  {
    var before := reqs[..i + 1];
    assert before[..i] == reqs[..i] && forall j :: 0 <= j <= i ==> before[j] == reqs[j];
  }

  method CheckRequirementsLoop(reqs: seq<Requirement>, ranks: seq<U16>) returns (r: Result<()>, seen: set<nat>)
    ensures r == CheckRequirements(reqs, ranks)
    ensures r.Ok? ==> forall x :: x in seen <==> Declared(reqs, x)
  {
    seen := {};
    for i := 0 to |reqs|
      invariant forall x :: x in seen <==> exists j :: 0 <= j < i && reqs[j].rank == x
      invariant CheckRequirements(reqs[..i], ranks).Ok?
    {
      CheckRequirementsStep(reqs, ranks, i);
      if reqs[i].rank in seen {
        CheckRequirementsPrefix(reqs, ranks, i + 1);
        return Fail(DuplicateRank(reqs[i].rank)), seen;
      }
      seen := seen + {reqs[i].rank};
      if CountEqual(ranks, reqs[i].rank) != reqs[i].total {
        CheckRequirementsPrefix(reqs, ranks, i + 1);
        return Fail(RankTotalMismatch(reqs[i].rank)), seen;
      }
    }
    assert reqs[..|reqs|] == reqs;
    r := Ok(());
  }

  method CheckCoverageLoop(ranks: seq<U16>, reqs: seq<Requirement>, seen: set<nat>) returns (r: Result<()>)
    requires forall x :: x in seen <==> Declared(reqs, x)
    ensures r == CheckCoverage(ranks, reqs)
  {
    for i := 0 to |ranks|
      invariant CheckCoverage(ranks[..i], reqs).Ok?
    {
      assert ranks[..i + 1][..i] == ranks[..i];
      if ranks[i] !in seen {
        CheckCoveragePrefix(ranks, reqs, i + 1);
        return Fail(UndeclaredRank(ranks[i]));
      }
    }
    assert ranks[..|ranks|] == ranks;
    r := Ok(());
  }

  method NewGrouped(ps: seq<RankedParticipant>, reqs: seq<Requirement>) returns (r: Result<GroupedConfig>)
    ensures r == GroupedOf(ps, reqs)
    ensures r.Ok? <==>
      && |ps| > 0 && |reqs| > 0 && Distinct(Ids(ps)) && DistinctRanks(reqs)
      && (forall i :: 0 <= i < |reqs| ==> reqs[i].total == CountEqual(RanksIn(ps), reqs[i].rank))
      && (forall i :: 0 <= i < |ps| ==> exists j :: 0 <= j < |reqs| && reqs[j].rank == ps[i].rank)
    ensures r.Ok? ==> r.value == GroupedConfig(ps, reqs)
  {
    if |ps| == 0 || |reqs| == 0 {
      return Err(InvalidThreshold(0, |ps| % 65536));
    }
    var repeated := FindRepeat(Ids(ps));
    if repeated.Some? {
      return Err(DuplicateParticipantId(repeated.value));
    }
    var checked, seen := CheckRequirementsLoop(reqs, RanksIn(ps));
    if checked.Err? {
      return Err(checked.error);
    }
    var covered := CheckCoverageLoop(RanksIn(ps), reqs, seen);
    if covered.Err? {
      return Err(covered.error);
    }
    r := Ok(GroupedConfig(ps, reqs));
  }

  /** A roster as the constructors leave it: distinct, non-zero ids. */
  ghost predicate Roster(ps: seq<RankedParticipant>) {
    Distinct(Ids(ps)) && forall i :: 0 <= i < |ps| ==> ps[i].id >= 1
  }

  ghost predicate ConstructedHierarchical(c: HierarchicalConfig) {
    Roster(c.participants) && 1 <= c.threshold <= |c.participants| <= 65535
  }

  /** What GroupedThresholdConfig::new and its parts' constructors guarantee. */
  ghost predicate ConstructedGrouped(c: GroupedConfig) {
    && Roster(c.participants) && |c.participants| > 0
    && (forall i :: 0 <= i < |c.requirements| ==> 1 <= c.requirements[i].required <= c.requirements[i].total)
    && GroupedOf(c.participants, c.requirements) == Ok(c)
  }

  // ---------------------------------------------------------------- derived values

  /** participants.len() as u16 */
  function CountU16(ps: seq<RankedParticipant>): U16 { |ps| % 65536 }

  function ThresholdOfHierarchical(c: HierarchicalConfig): Result<ThresholdConfig> {
    NewThreshold(c.threshold, CountU16(c.participants))
  }

  /** The u16 sum of the required counts, wrapping at 65536. */
  function RequiredSignerCount(reqs: seq<Requirement>): U16 {
    if |reqs| == 0 then 0
    else (RequiredSignerCount(reqs[..|reqs| - 1]) + reqs[|reqs| - 1].required) % 65536
  }

  function ThresholdOfGrouped(c: GroupedConfig): Result<ThresholdConfig> {
    NewThreshold(RequiredSignerCount(c.requirements), CountU16(c.participants))
  }

  /** hierarchical_config_from_grouped_threshold */
  function HierarchicalFromGrouped(c: GroupedConfig): Result<HierarchicalConfig> {
    HierarchicalOf(RequiredSignerCount(c.requirements), c.participants)
  }

  function RankOf(ps: seq<RankedParticipant>, id: nat): (r: Option<U16>)
    ensures r.Some? <==> exists i :: 0 <= i < |ps| && ps[i].id == id
  {
    if |ps| == 0 then None
    else if ps[0].id == id then Some(ps[0].rank)
    else
      var tail := ps[1..];
      assert (exists i :: 0 <= i < |ps| && ps[i].id == id) ==> exists i :: 0 <= i < |tail| && tail[i].id == id by {
        if i :| 0 <= i < |ps| && ps[i].id == id {
          assert tail[i - 1].id == id;
        }
      }
      assert forall i :: 0 <= i < |ps| - 1 ==> tail[i] == ps[i + 1];
      RankOf(tail, id)
  }

  /** The participant that a lookup finds: the first with the id. */
  ghost predicate FirstWith(ps: seq<RankedParticipant>, id: nat, i: nat) {
    i < |ps| && ps[i].id == id && forall k :: 0 <= k < i ==> ps[k].id != id
  }

  lemma {:induction false} RankOfFirst(ps: seq<RankedParticipant>, id: nat, i: nat)
    requires FirstWith(ps, id, i)
    ensures RankOf(ps, id) == Some(ps[i].rank)
  {
    if i > 0 {
      assert FirstWith(ps[1..], id, i - 1);
      RankOfFirst(ps[1..], id, i - 1);
    }
  }

  /** A lookup returns the rank of the first participant with the id, and nothing else. */
  lemma {:induction false} RankOfExact(ps: seq<RankedParticipant>, id: nat, rank: U16)
    ensures RankOf(ps, id) == Some(rank) <==> exists i: nat :: FirstWith(ps, id, i) && ps[i].rank == rank
  {
    if RankOf(ps, id).Some? {
      var i := FindFirst(ps, id);
      RankOfFirst(ps, id, i);
    }
    if i: nat :| FirstWith(ps, id, i) && ps[i].rank == rank {
      RankOfFirst(ps, id, i);
    }
  }

  lemma {:induction false} FindFirst(ps: seq<RankedParticipant>, id: nat) returns (i: nat)
    requires RankOf(ps, id).Some?
    ensures FirstWith(ps, id, i)
  {
    if ps[0].id == id {
      i := 0;
    } else {
      var j := FindFirst(ps[1..], id);
      i := j + 1;
      assert forall k :: 0 < k < i ==> ps[k] == ps[1..][k - 1];
    }
  }

  lemma {:induction false} RankOfMember(ps: seq<RankedParticipant>, i: nat)
    requires Distinct(Ids(ps)) && i < |ps|
    ensures RankOf(ps, ps[i].id) == Some(ps[i].rank)
  {
    if i > 0 {
      assert Ids(ps)[0] != Ids(ps)[i];
      assert Ids(ps[1..]) == Ids(ps)[1..];
      RankOfMember(ps[1..], i - 1);
    }
  }

  // ---------------------------------------------------------------- arithmetic of grouped policies

  ghost function SumRequired(reqs: seq<Requirement>, b: nat): nat {
    if |reqs| == 0 then 0
    else SumRequired(reqs[..|reqs| - 1], b) + (if reqs[|reqs| - 1].rank < b then reqs[|reqs| - 1].required else 0)
  }

  ghost function SumCounts(reqs: seq<Requirement>, ranks: seq<nat>, b: nat): nat {
    if |reqs| == 0 then 0
    else
      var q := reqs[|reqs| - 1];
      SumCounts(reqs[..|reqs| - 1], ranks, b) + (if q.rank < b then CountEqual(ranks, q.rank) else 0)
  }

  ghost predicate DistinctRanks(reqs: seq<Requirement>) {
    forall i, j :: 0 <= i < j < |reqs| ==> reqs[i].rank != reqs[j].rank
  }

  /** Appending one rank adds one to the counts exactly when it is declared below b. */
  lemma {:induction false} SumCountsAppend(reqs: seq<Requirement>, ranks: seq<nat>, x: nat, b: nat)
    requires DistinctRanks(reqs)
    ensures SumCounts(reqs, ranks + [x], b)
         == SumCounts(reqs, ranks, b) + (if Declared(reqs, x) && x < b then 1 else 0)
  {
    if |reqs| > 0 {
      var k := |reqs| - 1;
      SumCountsAppend(reqs[..k], ranks, x, b);
      assert (ranks + [x])[..|ranks|] == ranks;
      assert Declared(reqs, x) <==> Declared(reqs[..k], x) || reqs[k].rank == x by {
        if Declared(reqs[..k], x) {
          var i :| 0 <= i < k && reqs[..k][i].rank == x;
          assert reqs[i].rank == x;
        }
        if i :| 0 <= i < |reqs| && reqs[i].rank == x {
          assert i < k ==> reqs[..k][i].rank == x;
        }
      }
    }
  }

  lemma {:induction false} SumCountsEmpty(reqs: seq<Requirement>, b: nat)
    ensures SumCounts(reqs, [], b) == 0
  {
    if |reqs| > 0 {
      SumCountsEmpty(reqs[..|reqs| - 1], b);
    }
  }

  /** The declared counts below b make up at most, and for declared ranks all, of CountBelow. */
  lemma {:induction false} CountsPartition(reqs: seq<Requirement>, ranks: seq<nat>, b: nat)
    requires DistinctRanks(reqs)
    ensures SumCounts(reqs, ranks, b) <= CountBelow(ranks, b)
    ensures (forall i :: 0 <= i < |ranks| ==> Declared(reqs, ranks[i])) ==>
      SumCounts(reqs, ranks, b) == CountBelow(ranks, b)
  {
    if |ranks| == 0 {
      SumCountsEmpty(reqs, b);
    } else {
      var k := |ranks| - 1;
      CountsPartition(reqs, ranks[..k], b);
      SumCountsAppend(reqs, ranks[..k], ranks[k], b);
      assert ranks[..k] + [ranks[k]] == ranks;
    }
  }

  lemma {:induction false} SumRequiredAtMostCounts(reqs: seq<Requirement>, ranks: seq<nat>, b: nat)
    requires forall i :: 0 <= i < |reqs| ==> reqs[i].required <= CountEqual(ranks, reqs[i].rank)
    ensures SumRequired(reqs, b) <= SumCounts(reqs, ranks, b)
  {
    if |reqs| > 0 {
      SumRequiredAtMostCounts(reqs[..|reqs| - 1], ranks, b);
    }
  }

  /** Distinct non-zero u16 ids: a roster has at most 65535 members. */
  lemma RosterSize(ps: seq<RankedParticipant>)
    requires Roster(ps)
    ensures |ps| <= 65535
  {
    var ids: seq<nat> := Ids(ps);
    DistinctSize(ids);
    SubsetSize(Members(ids), Interval(65535));
  }

  lemma {:induction false} RequiredDoesNotWrap(reqs: seq<Requirement>)
    requires SumRequired(reqs, 65536) <= 65535
    ensures RequiredSignerCount(reqs) == SumRequired(reqs, 65536)
  {
    if |reqs| > 0 {
      RequiredDoesNotWrap(reqs[..|reqs| - 1]);
    }
  }

  lemma GroupedParts(c: GroupedConfig)
    requires ConstructedGrouped(c)
    ensures DistinctRanks(c.requirements) && |c.requirements| > 0
    ensures forall i :: 0 <= i < |c.requirements| ==>
      var r := c.requirements[i];
      1 <= r.required <= r.total == CountEqual(RanksIn(c.participants), r.rank)
    ensures forall i :: 0 <= i < |c.participants| ==> Declared(c.requirements, c.participants[i].rank)
  {
    assert forall i :: 0 <= i < |c.participants| ==> RanksIn(c.participants)[i] == c.participants[i].rank;
  }

  /** For every constructed grouped config: rank totals partition the roster, the
      u16 sum does not wrap, and both derived configurations exist. */
  lemma GroupedArithmetic(c: GroupedConfig)
    requires ConstructedGrouped(c)
    ensures SumCounts(c.requirements, RanksIn(c.participants), 65536) == |c.participants| <= 65535
    ensures RequiredSignerCount(c.requirements) == SumRequired(c.requirements, 65536)
    ensures 1 <= RequiredSignerCount(c.requirements) <= |c.participants|
    ensures ThresholdOfGrouped(c) == Ok(ThresholdConfig(RequiredSignerCount(c.requirements), |c.participants|))
    ensures HierarchicalFromGrouped(c) == Ok(HierarchicalConfig(RequiredSignerCount(c.requirements), c.participants))
    ensures ConstructedHierarchical(HierarchicalFromGrouped(c).value)
  {
    var reqs, ranks := c.requirements, RanksIn(c.participants);
    GroupedParts(c);
    RosterSize(c.participants);
    CountsPartition(reqs, ranks, 65536);
    CountBelowAll(ranks, 65536);
    SumRequiredAtMostCounts(reqs, ranks, 65536);
    RequiredDoesNotWrap(reqs);
    assert reqs[|reqs| - 1].required >= 1;
  }
}
