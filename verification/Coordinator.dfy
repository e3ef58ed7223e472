/** Packages as protocol messages, and the HTSS publish/drain pairs of dkgkit-sdk. */
module Coordinator {
  import opened Wrappers
  import opened Lists
  import opened Dkg
  import opened KeySets
  import opened Signing
  import opened Messages
  import opened Transport

  /** A decoded payload; bytes of another type are Other. */
  datatype Payload<T> =
    | Round1Payload(r1: Round1Package<T>) | Round2Payload(r2: Round2Package<T>)
    | NoncePayload(nonce: NoncePackage<T>) | SharePayload(share: SignatureShare<T>)
    | Other

  function Round1Message<T>(session: string, p: Round1Package<T>): Message<Payload<T>> {
    Broadcast(session, p.id, HtssDkgRound1, Round1Payload(p))
  }

  function Round2Message<T>(session: string, p: Round2Package<T>): Message<Payload<T>> {
    Direct(session, p.sender, p.recipient, HtssDkgRound2, Round2Payload(p))
  }

  function NonceMessage<T>(p: NoncePackage<T>): Message<Payload<T>> {
    Broadcast(p.session, p.id, HtssSigningNonce, NoncePayload(p))
  }

  function ShareMessage<T>(p: SignatureShare<T>): Message<Payload<T>> {
    Broadcast(p.session, p.id, HtssSignatureShare, SharePayload(p))
  }

  function NonceFromMessage<T>(m: Message<Payload<T>>): Result<NoncePackage<T>> {
    if m.kind != HtssSigningNonce then Fail(UnexpectedKind)
    else if m.recipient.Some? then Fail(NotBroadcast)
    else if !m.payload.NoncePayload? then Err(Serialization)
    else if m.payload.nonce.id != m.sender then Fail(SenderMismatch)
    else if m.payload.nonce.session != m.session then Fail(SessionMismatch)
    else Ok(m.payload.nonce)
  }

  function ShareFromMessage<T>(m: Message<Payload<T>>): Result<SignatureShare<T>> {
    if m.kind != HtssSignatureShare then Fail(UnexpectedKind)
    else if m.recipient.Some? then Fail(NotBroadcast)
    else if !m.payload.SharePayload? then Err(Serialization)
    else if m.payload.share.id != m.sender then Fail(SenderMismatch)
    else if m.payload.share.session != m.session then Fail(SessionMismatch)
    else Ok(m.payload.share)
  }

  function Round1FromMessage<T>(m: Message<Payload<T>>): Result<Round1Package<T>> {
    if m.kind != HtssDkgRound1 then Fail(UnexpectedKind)
    else if m.recipient.Some? then Fail(NotBroadcast)
    else if !m.payload.Round1Payload? then Err(Serialization)
    else if m.payload.r1.id != m.sender then Fail(SenderMismatch)
    else Ok(m.payload.r1)
  }

  function Round2FromMessage<T>(m: Message<Payload<T>>): Result<Round2Package<T>> {
    if m.kind != HtssDkgRound2 then Fail(UnexpectedKind)
    else if !m.payload.Round2Payload? then Err(Serialization)
    else if m.payload.r2.sender != m.sender then Fail(SenderMismatch)
    else if m.recipient != Some(m.payload.r2.recipient) then Fail(RecipientMismatch)
    else Ok(m.payload.r2)
  }

  function Round1Messages<T>(session: string, ps: seq<Round1Package<T>>): (ms: seq<Message<Payload<T>>>)
    ensures |ms| == |ps| && forall i :: 0 <= i < |ms| ==> ms[i] == Round1Message(session, ps[i])
  {
    seq(|ps|, i requires 0 <= i < |ps| => Round1Message(session, ps[i]))
  }

  function Round2Messages<T>(session: string, ps: seq<Round2Package<T>>): (ms: seq<Message<Payload<T>>>)
    ensures |ms| == |ps| && forall i :: 0 <= i < |ms| ==> ms[i] == Round2Message(session, ps[i])
  {
    seq(|ps|, i requires 0 <= i < |ps| => Round2Message(session, ps[i]))
  }

  function DecodeRound1<T>(ms: seq<Message<Payload<T>>>): Result<seq<Round1Package<T>>> {
    if |ms| == 0 then Ok([])
    else
      var ps :- DecodeRound1(ms[..|ms| - 1]);
      var p :- Round1FromMessage(ms[|ms| - 1]);
      Ok(ps + [p])
  }

  function DecodeRound2<T>(ms: seq<Message<Payload<T>>>): Result<seq<Round2Package<T>>> {
    if |ms| == 0 then Ok([])
    else
      var ps :- DecodeRound2(ms[..|ms| - 1]);
      var p :- Round2FromMessage(ms[|ms| - 1]);
      Ok(ps + [p])
  }

  function DecodeNonces<T>(ms: seq<Message<Payload<T>>>): Result<seq<NoncePackage<T>>> {
    if |ms| == 0 then Ok([])
    else
      var ps :- DecodeNonces(ms[..|ms| - 1]);
      var p :- NonceFromMessage(ms[|ms| - 1]);
      Ok(ps + [p])
  }

  function DecodeShares<T>(ms: seq<Message<Payload<T>>>): Result<seq<SignatureShare<T>>> {
    if |ms| == 0 then Ok([])
    else
      var ps :- DecodeShares(ms[..|ms| - 1]);
      var p :- ShareFromMessage(ms[|ms| - 1]);
      Ok(ps + [p])
  }

  function NonceMessages<T>(ps: seq<NoncePackage<T>>): seq<Message<Payload<T>>> {
    MapSeq((p: NoncePackage<T>) => NonceMessage(p), ps)
  }

  function ShareMessages<T>(ps: seq<SignatureShare<T>>): seq<Message<Payload<T>>> {
    MapSeq((p: SignatureShare<T>) => ShareMessage(p), ps)
  }

  function OnlyNonces<T>(): Predicate<Payload<T>> { (m: Message<Payload<T>>) => m.kind == HtssSigningNonce }
  function OnlyShares<T>(): Predicate<Payload<T>> { (m: Message<Payload<T>>) => m.kind == HtssSignatureShare }

  function OnlyRound1<T>(): Predicate<Payload<T>> { (m: Message<Payload<T>>) => m.kind == HtssDkgRound1 }

  function OnlyRound2For<T>(id: U16): Predicate<Payload<T>> {
    (m: Message<Payload<T>>) => m.kind == HtssDkgRound2 && IsFor(m, id)
  }

  // ---------------------------------------------------------------- decoding arbitrary messages

  /** A broadcast of the sender's own commitments. */
  ghost predicate CarriesRound1<T>(m: Message<Payload<T>>, p: Round1Package<T>) {
    m.kind == HtssDkgRound1 && m.recipient == None && m.payload == Round1Payload(p) && m.sender == p.id
  }

  lemma {:induction false} DecodeRound1Exact<T>(ms: seq<Message<Payload<T>>>, ps: seq<Round1Package<T>>)
    ensures DecodeRound1(ms) == Ok(ps) <==> |ps| == |ms| && forall i :: 0 <= i < |ms| ==> CarriesRound1(ms[i], ps[i])
  {
    if |ms| > 0 {
      var k := |ms| - 1;
      if |ps| == |ms| {
        DecodeRound1Exact(ms[..k], ps[..k]);
        assert ps == ps[..k] + [ps[k]];
      } else if DecodeRound1(ms[..k]).Ok? {
        DecodeRound1Exact(ms[..k], DecodeRound1(ms[..k]).value);
      }
    }
  }

  /** A direct message from the package's sender to its recipient. */
  ghost predicate CarriesRound2<T>(m: Message<Payload<T>>, p: Round2Package<T>) {
    m.kind == HtssDkgRound2 && m.recipient == Some(p.recipient) && m.payload == Round2Payload(p) && m.sender == p.sender
  }

  lemma {:induction false} DecodeRound2Exact<T>(ms: seq<Message<Payload<T>>>, ps: seq<Round2Package<T>>)
    ensures DecodeRound2(ms) == Ok(ps) <==> |ps| == |ms| && forall i :: 0 <= i < |ms| ==> CarriesRound2(ms[i], ps[i])
  {
    if |ms| > 0 {
      var k := |ms| - 1;
      if |ps| == |ms| {
        DecodeRound2Exact(ms[..k], ps[..k]);
        assert ps == ps[..k] + [ps[k]];
      } else if DecodeRound2(ms[..k]).Ok? {
        DecodeRound2Exact(ms[..k], DecodeRound2(ms[..k]).value);
      }
    }
  }

  /** A broadcast of the sender's own nonce, in its session. */
  ghost predicate CarriesNonce<T>(m: Message<Payload<T>>, p: NoncePackage<T>) {
    && m.kind == HtssSigningNonce && m.recipient == None && m.payload == NoncePayload(p)
    && m.sender == p.id && m.session == p.session
  }

  lemma {:induction false} DecodeNoncesExact<T>(ms: seq<Message<Payload<T>>>, ps: seq<NoncePackage<T>>)
    ensures DecodeNonces(ms) == Ok(ps) <==> |ps| == |ms| && forall i :: 0 <= i < |ms| ==> CarriesNonce(ms[i], ps[i])
  {
    if |ms| > 0 {
      var k := |ms| - 1;
      if |ps| == |ms| {
        DecodeNoncesExact(ms[..k], ps[..k]);
        assert ps == ps[..k] + [ps[k]];
      } else if DecodeNonces(ms[..k]).Ok? {
        DecodeNoncesExact(ms[..k], DecodeNonces(ms[..k]).value);
      }
    }
  }

  /** A broadcast of the sender's own signature share, in its session. */
  ghost predicate CarriesShare<T>(m: Message<Payload<T>>, p: SignatureShare<T>) {
    && m.kind == HtssSignatureShare && m.recipient == None && m.payload == SharePayload(p)
    && m.sender == p.id && m.session == p.session
  }

  lemma {:induction false} DecodeSharesExact<T>(ms: seq<Message<Payload<T>>>, ps: seq<SignatureShare<T>>)
    ensures DecodeShares(ms) == Ok(ps) <==> |ps| == |ms| && forall i :: 0 <= i < |ms| ==> CarriesShare(ms[i], ps[i])
  {
    if |ms| > 0 {
      var k := |ms| - 1;
      if |ps| == |ms| {
        DecodeSharesExact(ms[..k], ps[..k]);
        assert ps == ps[..k] + [ps[k]];
      } else if DecodeShares(ms[..k]).Ok? {
        DecodeSharesExact(ms[..k], DecodeShares(ms[..k]).value);
      }
    }
  }

  // ---------------------------------------------------------------- queue contents

  lemma {:induction false} DecodeRound1Messages<T>(session: string, ps: seq<Round1Package<T>>)
    ensures DecodeRound1(Round1Messages(session, ps)) == Ok(ps)
  {
    if |ps| > 0 {
      var k := |ps| - 1;
      DecodeRound1Messages(session, ps[..k]);
      assert Round1Messages(session, ps)[..k] == Round1Messages(session, ps[..k]);
      assert ps == ps[..k] + [ps[k]];
    }
  }

  lemma {:induction false} DecodeRound2Messages<T>(session: string, ps: seq<Round2Package<T>>)
    ensures DecodeRound2(Round2Messages(session, ps)) == Ok(ps)
  {
    if |ps| > 0 {
      var k := |ps| - 1;
      DecodeRound2Messages(session, ps[..k]);
      assert Round2Messages(session, ps)[..k] == Round2Messages(session, ps[..k]);
      assert ps == ps[..k] + [ps[k]];
    }
  }

  lemma {:induction false} DecodeNonceMessages<T>(ps: seq<NoncePackage<T>>)
    ensures DecodeNonces(NonceMessages(ps)) == Ok(ps)
  {
    if |ps| > 0 {
      var k := |ps| - 1;
      DecodeNonceMessages(ps[..k]);
      assert NonceMessages(ps)[..k] == NonceMessages(ps[..k]);
      assert ps == ps[..k] + [ps[k]];
    }
  }

  lemma {:induction false} DecodeShareMessages<T>(ps: seq<SignatureShare<T>>)
    ensures DecodeShares(ShareMessages(ps)) == Ok(ps)
  {
    if |ps| > 0 {
      var k := |ps| - 1;
      DecodeShareMessages(ps[..k]);
      assert ShareMessages(ps)[..k] == ShareMessages(ps[..k]);
      assert ps == ps[..k] + [ps[k]];
    }
  }

  /** A drain whose predicate holds of everything empties the queue. */
  lemma {:induction false} DrainAll<P>(q: seq<Message<P>>, session: string, p: Predicate<P>)
    requires forall i :: 0 <= i < |q| ==> Matches(session, p, q[i])
    ensures Drained(q, session, p) == q && Kept(q, session, p) == []
  {
    if |q| > 0 {
      DrainAll(q[..|q| - 1], session, p);
    }
  }

  function NotForRecipient<T>(packages: seq<Round2Package<T>>, id: nat): seq<Round2Package<T>> {
    if |packages| == 0 then []
    else
      var k := |packages| - 1;
      NotForRecipient(packages[..k], id) + (if packages[k].recipient == id then [] else [packages[k]])
  }

  /** Draining for one recipient takes its packages and leaves the others, in order. */
  lemma {:induction false} DrainRecipient<T>(session: string, ps: seq<Round2Package<T>>, id: U16)
    ensures
      var p := OnlyRound2For<T>(id);
      && Drained(Round2Messages(session, ps), session, p) == Round2Messages(session, ForRecipient(ps, id))
      && Kept(Round2Messages(session, ps), session, p) == Round2Messages(session, NotForRecipient(ps, id))
  {
    if |ps| > 0 {
      var k := |ps| - 1;
      DrainRecipient(session, ps[..k], id);
      assert Round2Messages(session, ps)[..k] == Round2Messages(session, ps[..k]);
      assert Round2Messages(session, ForRecipient(ps[..k], id) + [ps[k]])
          == Round2Messages(session, ForRecipient(ps[..k], id)) + [Round2Message(session, ps[k])];
      assert Round2Messages(session, NotForRecipient(ps[..k], id) + [ps[k]])
          == Round2Messages(session, NotForRecipient(ps[..k], id)) + [Round2Message(session, ps[k])];
      if ps[k].recipient == id {
        assert NotForRecipient(ps, id) == NotForRecipient(ps[..k], id);
      } else {
        assert ForRecipient(ps, id) == ForRecipient(ps[..k], id);
      }
    }
  }

  /** Removing one recipient's packages leaves every other recipient's untouched. */
  lemma {:induction false} OthersUntouched<T>(ps: seq<Round2Package<T>>, gone: nat, id: nat)
    requires gone != id
    ensures ForRecipient(NotForRecipient(ps, gone), id) == ForRecipient(ps, id)
  {
    if |ps| > 0 {
      var k := |ps| - 1;
      OthersUntouched(ps[..k], gone, id);
      if ps[k].recipient == gone {
        assert NotForRecipient(ps, gone) == NotForRecipient(ps[..k], gone);
      } else {
        var rest := NotForRecipient(ps[..k], gone);
        assert (rest + [ps[k]])[..|rest|] == rest;
      }
    }
  }

  lemma {:induction false} GoneIsGone<T>(ps: seq<Round2Package<T>>, gone: nat)
    ensures forall i :: 0 <= i < |NotForRecipient(ps, gone)| ==>
      NotForRecipient(ps, gone)[i] in ps && NotForRecipient(ps, gone)[i].recipient != gone
  {
    if |ps| > 0 {
      GoneIsGone(ps[..|ps| - 1], gone);
    }
  }

  lemma DrainRound1Messages<T>(session: string, ps: seq<Round1Package<T>>)
    ensures Drained(Round1Messages(session, ps), session, OnlyRound1()) == Round1Messages(session, ps)
    ensures Kept(Round1Messages(session, ps), session, OnlyRound1()) == []
  {
    DrainAll(Round1Messages(session, ps), session, OnlyRound1<T>());
  }

  lemma DrainNonceMessages<T>(session: string, ps: seq<NoncePackage<T>>)
    requires forall i :: 0 <= i < |ps| ==> ps[i].session == session
    ensures Drained(NonceMessages(ps), session, OnlyNonces()) == NonceMessages(ps)
    ensures Kept(NonceMessages(ps), session, OnlyNonces()) == []
  {
    DrainAll(NonceMessages(ps), session, OnlyNonces<T>());
  }

  lemma DrainShareMessages<T>(session: string, ps: seq<SignatureShare<T>>)
    requires forall i :: 0 <= i < |ps| ==> ps[i].session == session
    ensures Drained(ShareMessages(ps), session, OnlyShares()) == ShareMessages(ps)
    ensures Kept(ShareMessages(ps), session, OnlyShares()) == []
  {
    DrainAll(ShareMessages(ps), session, OnlyShares<T>());
  }

  ghost predicate AllWellFormed<P>(q: seq<Message<P>>) { forall m :: m in q ==> WellFormed(m) }

  /** FrostCoordinator over the envelope queue. The ghost queue is what the events encode. */
  class FrostCoordinator<T(!new)> {
    const relay: LocalNostrEventTransport<Payload<T>>
    ghost var queue: seq<Message<Payload<T>>>

    ghost predicate Consistent()
      reads this, relay
    {
      relay.events == Envelopes(queue)
    }

    /** Nothing malformed is queued, so that drains succeed. */
    ghost predicate Valid()
      reads this, relay
    {
      Consistent() && AllWellFormed(queue)
    }

    constructor ()
      ensures Valid() && fresh(relay) && queue == []
    {
      relay := new LocalNostrEventTransport();
      queue := [];
    }

    method Publish(m: Message<Payload<T>>)
      requires Consistent()
      modifies this, relay
      ensures Consistent() && queue == old(queue) + [m]
      ensures old(Valid()) && WellFormed(m) ==> Valid()
    {
      relay.Publish(m);
      assert Envelopes(queue + [m]) == Envelopes(queue) + [FromMessage(m)];
      queue := queue + [m];
    }

    method Drain(session: string, p: Predicate<Payload<T>>) returns (r: Result<seq<Message<Payload<T>>>>)
      requires Consistent()
      modifies this, relay
      ensures Consistent()
      ensures old(Valid()) ==>
        Valid() && r == Ok(Drained(old(queue), session, p)) && queue == Kept(old(queue), session, p)
      ensures old(Valid()) ==>
        && (forall m :: m in queue <==> m in old(queue) && !(m.session == session && p(m)))
        && (forall other :: other != session ==> OfSession(queue, other) == OfSession(old(queue), other))
      ensures !old(AllWellFormed(queue)) ==> r.Err? && queue == []
    {
      ghost var before := queue;
      ghost var split := DrainEvents(relay.events, session, p);
      assert split.Ok? <==> AllWellFormed(before) by {
        DrainOkIffWellFormed(before, session, p);
      }
      r := relay.DrainMatching(session, p);
      if AllWellFormed(before) {
        assert split == Ok(Split(Drained(before, session, p), Envelopes(Kept(before, session, p)))) by {
          DrainRefines(before, session, p);
        }
        queue := Kept(before, session, p);
        DrainMembers(before, session, p);
        OthersKept(before, session, p);
      } else {
        queue := [];
        assert Envelopes<Payload<T>>([]) == [];
      }
    }

    method PublishHtssDkgRound1(session: string, p: Round1Package<T>)
      requires Consistent()
      modifies this, relay
      ensures Consistent() && queue == old(queue) + [Round1Message(session, p)]
      ensures old(Valid()) && !IsBlank(session) && p.id >= 1 ==> Valid()
    {
      Publish(Round1Message(session, p));
    }

    method PublishHtssDkgRound2(session: string, p: Round2Package<T>)
      requires Consistent()
      modifies this, relay
      ensures Consistent() && queue == old(queue) + [Round2Message(session, p)]
      ensures old(Valid()) && !IsBlank(session) && p.sender >= 1 && p.recipient >= 1 ==> Valid()
    {
      Publish(Round2Message(session, p));
    }

    method DrainHtssDkgRound1(session: string) returns (r: Result<seq<Round1Package<T>>>)
      requires Consistent()
      modifies this, relay
      ensures Consistent()
      ensures old(Valid()) ==>
        && Valid() && queue == Kept(old(queue), session, OnlyRound1())
        && r == DecodeRound1(Drained(old(queue), session, OnlyRound1()))
        && (forall m :: m in queue <==> m in old(queue) && !(m.session == session && m.kind == HtssDkgRound1))
        && (forall other :: other != session ==> OfSession(queue, other) == OfSession(old(queue), other))
      ensures !old(AllWellFormed(queue)) ==> r.Err? && queue == []
    {
      var messages := Drain(session, OnlyRound1());
      if messages.Err? {
        return Err(messages.error);
      }
      r := DecodeRound1(messages.value);
    }

    method DrainHtssDkgRound2For(session: string, id: U16) returns (r: Result<seq<Round2Package<T>>>)
      requires Consistent()
      modifies this, relay
      ensures Consistent()
      ensures old(Valid()) ==>
        && Valid() && queue == Kept(old(queue), session, OnlyRound2For(id))
        && r == DecodeRound2(Drained(old(queue), session, OnlyRound2For(id)))
        && (forall m :: m in queue <==>
             && m in old(queue)
             && !(m.session == session && m.kind == HtssDkgRound2 && m.recipient in {None, Some(id)}))
        && (forall other :: other != session ==> OfSession(queue, other) == OfSession(old(queue), other))
      ensures !old(AllWellFormed(queue)) ==> r.Err? && queue == []
    {
      var messages := Drain(session, OnlyRound2For(id));
      if messages.Err? {
        return Err(messages.error);
      }
      r := DecodeRound2(messages.value);
    }

    method DrainHtssNonces(session: string) returns (r: Result<seq<NoncePackage<T>>>)
      requires Consistent()
      modifies this, relay
      ensures Consistent()
      ensures old(Valid()) ==>
        && Valid() && queue == Kept(old(queue), session, OnlyNonces())
        && r == DecodeNonces(Drained(old(queue), session, OnlyNonces()))
        && (forall m :: m in queue <==> m in old(queue) && !(m.session == session && m.kind == HtssSigningNonce))
        && (forall other :: other != session ==> OfSession(queue, other) == OfSession(old(queue), other))
      ensures !old(AllWellFormed(queue)) ==> r.Err? && queue == []
    {
      var messages := Drain(session, OnlyNonces());
      if messages.Err? {
        return Err(messages.error);
      }
      r := DecodeNonces(messages.value);
    }

    method DrainHtssSignatureShares(session: string) returns (r: Result<seq<SignatureShare<T>>>)
      requires Consistent()
      modifies this, relay
      ensures Consistent()
      ensures old(Valid()) ==>
        && Valid() && queue == Kept(old(queue), session, OnlyShares())
        && r == DecodeShares(Drained(old(queue), session, OnlyShares()))
        && (forall m :: m in queue <==> m in old(queue) && !(m.session == session && m.kind == HtssSignatureShare))
        && (forall other :: other != session ==> OfSession(queue, other) == OfSession(old(queue), other))
      ensures !old(AllWellFormed(queue)) ==> r.Err? && queue == []
    {
      var messages := Drain(session, OnlyShares());
      if messages.Err? {
        return Err(messages.error);
      }
      r := DecodeShares(messages.value);
    }
  }
}
