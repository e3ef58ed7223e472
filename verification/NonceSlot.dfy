/**
  The single-use nonce slot of FrostSigningSession. The FROST mathematics behind a
  share is outside the model; whether it succeeds is an input of each call.
 */
module NonceSlot {
  import opened Wrappers

  datatype Request = Request(groupKey: int, signers: seq<U16>)
  datatype LocalShare = LocalShare(id: U16, groupKey: int)

  /** Nonces are numbered in the order they are generated. */
  datatype Slot = Slot(nonce: Option<nat>, next: nat)

  datatype Call =
    | Nonce(share: LocalShare, decodes: bool)
    | SignShare(share: LocalShare, restSucceeds: bool)
    | Aggregate(succeeds: bool)

  /** What a call did with a nonce. */
  datatype Event = Generated(nonce: nat) | Signed(nonce: nat) | Burned(nonce: nat) | Untouched

  function Step(r: Request, s: Slot, call: Call): (Slot, Event) {
    match call
    case Nonce(share, decodes) =>
      if share.groupKey != r.groupKey || !decodes then (s, Untouched)
      else (Slot(Some(s.next), s.next + 1), Generated(s.next))
    case SignShare(share, restSucceeds) =>
      if share.groupKey != r.groupKey || share.id !in r.signers || s.nonce.None? then (s, Untouched)
      else (Slot(None, s.next), if restSucceeds then Signed(s.nonce.value) else Burned(s.nonce.value))
    case Aggregate(_) => (s, Untouched)
  }

  class SigningSession {
    const request: Request
    var runtime: Option<nat>
    var next: nat

    constructor (request: Request)
      ensures this.request == request && State() == Slot(None, 0)
    {
      this.request := request;
      runtime, next := None, 0;
    }

    function State(): Slot
      reads this
    {
      Slot(runtime, next)
    }

    method GenerateNonce(share: LocalShare, decodes: bool) returns (r: Result<nat>)
      modifies this
      ensures State() == Step(request, old(State()), Nonce(share, decodes)).0
      ensures Step(request, old(State()), Nonce(share, decodes)).1 == if r.Ok? then Generated(r.value) else Untouched
    {
      if share.groupKey != request.groupKey {
        return Fail(GroupKeyMismatch);
      }
      if !decodes {
        return Err(Serialization);
      }
      r := Ok(next);
      runtime, next := Some(next), next + 1;
    }

    /** The nonce leaves the slot before anything that can still fail. */
    method SignWithNonce(share: LocalShare, restSucceeds: bool) returns (r: Result<nat>)
      modifies this
      ensures State() == Step(request, old(State()), SignShare(share, restSucceeds)).0
      ensures r.Ok? <==> Step(request, old(State()), SignShare(share, restSucceeds)).1.Signed?
      ensures r.Ok? ==> old(runtime) == Some(r.value)
      ensures share.groupKey == request.groupKey && share.id in request.signers ==> runtime == None
    {
      if share.groupKey != request.groupKey {
        return Fail(GroupKeyMismatch);
      }
      if share.id !in request.signers {
        return Fail(NotInSignerSet(share.id));
      }
      var taken := runtime;
      runtime := None;
      if taken.None? {
        return Fail(MissingNonce);
      }
      if !restSucceeds {
        return Fail(MissingLocalNonce);
      }
      r := Ok(taken.value);
    }
  }

  // ---------------------------------------------------------------- whole runs

  ghost function Run(r: Request, calls: seq<Call>): (Slot, seq<Event>)
    ensures |Run(r, calls).1| == |calls|
  {
    if |calls| == 0 then (Slot(None, 0), [])
    else
      var (s, events) := Run(r, calls[..|calls| - 1]);
      var (s', e) := Step(r, s, calls[|calls| - 1]);
      (s', events + [e])
  }

  predicate Consumes(e: Event, n: nat) { (e.Signed? || e.Burned?) && e.nonce == n }

  /** The nonce in the slot was generated and not consumed; all numbers used are below the counter. */
  ghost predicate Invariant(s: Slot, events: seq<Event>) {
    && (s.nonce.Some? ==> s.nonce.value < s.next && Generated(s.nonce.value) in events)
    && (forall i, n: nat :: 0 <= i < |events| && Consumes(events[i], n) ==>
         n < s.next && (s.nonce.Some? ==> n < s.nonce.value))
    && (forall i, j, m: nat, n: nat ::
         0 <= i < j < |events| && Consumes(events[i], m) && Consumes(events[j], n) ==> m < n)
  }

  lemma {:induction false} RunInvariant(r: Request, calls: seq<Call>)
    ensures Invariant(Run(r, calls).0, Run(r, calls).1)
  {
    if |calls| > 0 {
      var k := |calls| - 1;
      RunInvariant(r, calls[..k]);
      var (s, events) := Run(r, calls[..k]);
      var (s', e) := Step(r, s, calls[k]);
      var all := events + [e];
      assert s.nonce.Some? ==> Generated(s.nonce.value) in all;
      assert e.Generated? ==> all[k] == e;
    }
  }

  /** No nonce enters two signature shares: consumed nonces, whether signed or burned,
      strictly increase over every interleaving of calls. */
  lemma NonceSingleUse(r: Request, calls: seq<Call>, i: nat, j: nat, m: nat, n: nat)
    requires i < j < |calls| && Consumes(Run(r, calls).1[i], m) && Consumes(Run(r, calls).1[j], n)
    ensures m < n
  {
    RunInvariant(r, calls);
  }

  ghost function CountGenerated(events: seq<Event>): nat {
    if |events| == 0 then 0
    else CountGenerated(events[..|events| - 1]) + (if events[|events| - 1].Generated? then 1 else 0)
  }

  ghost function CountConsumed(events: seq<Event>): nat {
    if |events| == 0 then 0
    else
      var e := events[|events| - 1];
      CountConsumed(events[..|events| - 1]) + (if e.Signed? || e.Burned? then 1 else 0)
  }

  /** Shares and failed attempts together never outnumber the generated nonces. */
  lemma {:induction false} ConsumedAtMostGenerated(r: Request, calls: seq<Call>)
    ensures
      var (s, events) := Run(r, calls);
      CountConsumed(events) + (if s.nonce.Some? then 1 else 0) <= CountGenerated(events) == s.next
  {
    if |calls| > 0 {
      var k := |calls| - 1;
      ConsumedAtMostGenerated(r, calls[..k]);
      var (s, events) := Run(r, calls[..k]);
      var (_, e) := Step(r, s, calls[k]);
      assert (events + [e])[..k] == events;
    }
  }

  /** Every share uses a nonce that some earlier call generated. */
  lemma {:induction false} SignedWasGenerated(r: Request, calls: seq<Call>, j: nat, n: nat)
    requires j < |calls| && Consumes(Run(r, calls).1[j], n)
    ensures exists i :: 0 <= i < j && Run(r, calls).1[i] == Generated(n)
  {
    var k := |calls| - 1;
    var events := Run(r, calls[..k]).1;
    if j == k {
      RunInvariant(r, calls[..k]);
      var i :| 0 <= i < k && events[i] == Generated(n);
      assert Run(r, calls).1[i] == Generated(n);
    } else {
      SignedWasGenerated(r, calls[..k], j, n);
      var i :| 0 <= i < j && events[i] == Generated(n);
      assert Run(r, calls).1[i] == Generated(n);
    }
  }

  // ---------------------------------------------------------------- in terms of the calls alone

  /** A `nonce` call that gets as far as the slot. */
  ghost predicate Generates(r: Request, call: Call) {
    call.Nonce? && call.share.groupKey == r.groupKey && call.decodes
  }

  /** A `sign_share` call that gets as far as the slot, whether or not the rest succeeds. */
  ghost predicate Attempts(r: Request, call: Call) {
    call.SignShare? && call.share.groupKey == r.groupKey && call.share.id in r.signers
  }

  /** Some call generated a nonce, and no later one attempted to sign. */
  ghost predicate Armed(r: Request, calls: seq<Call>) {
    exists j :: 0 <= j < |calls| && ArmedBy(r, calls, j)
  }

  ghost predicate ArmedBy(r: Request, calls: seq<Call>, j: nat)
    requires j < |calls|
  {
    Generates(r, calls[j]) && forall k :: j < k < |calls| ==> !Attempts(r, calls[k])
  }

  /** Any attempt empties the slot, a failed one as well. */
  lemma AttemptEmpties(r: Request, calls: seq<Call>)
    requires |calls| > 0 && Attempts(r, calls[|calls| - 1])
    ensures Run(r, calls).0.nonce == None
  {
  }

  lemma ArmedLast(r: Request, calls: seq<Call>)
    requires |calls| > 0
    ensures
      var k := |calls| - 1;
      Armed(r, calls) <==> Generates(r, calls[k]) || (Armed(r, calls[..k]) && !Attempts(r, calls[k]))
  {
    var k := |calls| - 1;
    var before := calls[..k];
    assert forall i :: 0 <= i < k ==> before[i] == calls[i];
    if Generates(r, calls[k]) {
      assert ArmedBy(r, calls, k);
    }
    if j :| 0 <= j < k && ArmedBy(r, before, j) && !Attempts(r, calls[k]) {
      assert ArmedBy(r, calls, j);
    }
    if j :| 0 <= j < |calls| && ArmedBy(r, calls, j) && j < k {
      assert ArmedBy(r, before, j);
    }
  }

  /** The slot holds a nonce exactly when one was generated and no attempt came after it, and
      then it is the one generated last. */
  lemma {:induction false} SlotExact(r: Request, calls: seq<Call>)
    ensures
      var s := Run(r, calls).0;
      (s.nonce.Some? <==> Armed(r, calls)) && (s.nonce.Some? ==> s.nonce.value + 1 == s.next)
  {
    if |calls| > 0 {
      SlotExact(r, calls[..|calls| - 1]);
      ArmedLast(r, calls);
    }
  }

  /** The event of every call, from the calls alone: it generates; it signs exactly when it is an
      attempt with a fresh nonce whose rest succeeds; it burns exactly when the rest fails. */
  lemma {:induction false} EventExact(r: Request, calls: seq<Call>, i: nat)
    requires i < |calls|
    ensures
      var e := Run(r, calls).1[i];
      && (e.Generated? <==> Generates(r, calls[i]))
      && (e.Signed? <==> Attempts(r, calls[i]) && calls[i].restSucceeds && Armed(r, calls[..i]))
      && (e.Burned? <==> Attempts(r, calls[i]) && !calls[i].restSucceeds && Armed(r, calls[..i]))
    decreases |calls|
  {
    var k := |calls| - 1;
    if i < k {
      assert calls[..k][..i] == calls[..i];
      EventExact(r, calls[..k], i);
    } else {
      SlotExact(r, calls[..k]);
    }
  }

  /** Of two attempts with no `nonce` call between them the second signs nothing, whatever
      became of the first. */
  lemma SecondAttemptFails(r: Request, calls: seq<Call>, i: nat, j: nat)
    requires i < j < |calls| && Attempts(r, calls[i]) && Attempts(r, calls[j])
    requires forall k :: i < k < j ==> !calls[k].Nonce?
    ensures Run(r, calls).1[j] == Untouched
  {
    var before := calls[..j];
    forall n | 0 <= n < |before|
      ensures !ArmedBy(r, before, n)
    {
      assert before[n] == calls[n] && before[i] == calls[i];
    }
    EventExact(r, calls, j);
  }
}
