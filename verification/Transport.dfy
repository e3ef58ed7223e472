/** The message queues: MemoryTransport and LocalNostrEventTransport. */
module Transport {
  import opened Wrappers
  import opened Lists
  import opened Messages

  type Predicate<!P> = Message<P> -> bool

  predicate Matches<P>(session: string, p: Predicate<P>, m: Message<P>) { m.session == session && p(m) }

  /** The messages a drain returns, and those it leaves, both in queue order. */
  function Drained<P>(q: seq<Message<P>>, session: string, p: Predicate<P>): seq<Message<P>> {
    if |q| == 0 then []
    else
      var k := |q| - 1;
      Drained(q[..k], session, p) + (if Matches(session, p, q[k]) then [q[k]] else [])
  }

  function Kept<P>(q: seq<Message<P>>, session: string, p: Predicate<P>): seq<Message<P>> {
    if |q| == 0 then []
    else
      var k := |q| - 1;
      Kept(q[..k], session, p) + (if Matches(session, p, q[k]) then [] else [q[k]])
  }

  // ---------------------------------------------------------------- in memory

  class MemoryTransport<P> {
    var connected: bool
    var messages: seq<Message<P>>

    constructor ()
      ensures !connected && messages == []
    {
      connected, messages := false, [];
    }

    method Connect()
      modifies this
      ensures connected && messages == old(messages)
    {
      connected := true;
    }

    method Disconnect()
      modifies this
      ensures !connected && messages == old(messages)
    {
      connected := false;
    }

    method Publish(m: Message<P>)
      modifies this
      ensures messages == old(messages) + [m] && connected == old(connected)
    {
      messages := messages + [m];
    }

    method DrainMatching(session: string, p: Predicate<P>) returns (matched: seq<Message<P>>)
      modifies this
      ensures matched == Drained(old(messages), session, p)
      ensures messages == Kept(old(messages), session, p) && connected == old(connected)
      ensures forall m :: m in matched <==> m in old(messages) && m.session == session && p(m)
      ensures forall m :: m in messages <==> m in old(messages) && !(m.session == session && p(m))
      ensures forall other :: other != session ==> OfSession(messages, other) == OfSession(old(messages), other)
    {
      DrainMembers(messages, session, p);
      OthersKept(messages, session, p);
      matched := [];
      var kept: seq<Message<P>> := [];
      for i := 0 to |messages|
        invariant messages == old(messages) && connected == old(connected)
        invariant matched == Drained(messages[..i], session, p)
        invariant kept == Kept(messages[..i], session, p)
      {
        assert messages[..i + 1][..i] == messages[..i];
        if messages[i].session == session && p(messages[i]) {
          matched := matched + [messages[i]];
        } else {
          kept := kept + [messages[i]];
        }
      }
      assert messages[..|messages|] == messages;
      messages := kept;
    }

    method DrainSession(session: string) returns (matched: seq<Message<P>>)
      modifies this
      ensures matched == OfSession(old(messages), session)
      ensures forall m :: m in messages ==> m.session != session
      ensures forall other :: other != session ==> OfSession(messages, other) == OfSession(old(messages), other)
      ensures multiset(old(messages)) == multiset(matched) + multiset(messages)
      ensures connected == old(connected)
    {
      DrainSplits(messages, session, (m: Message<P>) => true);
      SessionDrained(messages, session, (m: Message<P>) => true);
      matched := DrainMatching(session, (m: Message<P>) => true);
    }

    method PeekSession(session: string) returns (found: seq<Message<P>>)
      ensures found == OfSession(messages, session)
    {
      found := [];
      for i := 0 to |messages|
        invariant found == OfSession(messages[..i], session)
      {
        assert messages[..i + 1][..i] == messages[..i];
        if messages[i].session == session {
          found := found + [messages[i]];
        }
      }
      assert messages[..|messages|] == messages;
    }
  }

  /** A drain loses and invents nothing. */
  lemma {:induction false} DrainSplits<P>(q: seq<Message<P>>, session: string, p: Predicate<P>)
    ensures multiset(q) == multiset(Drained(q, session, p)) + multiset(Kept(q, session, p))
  {
    if |q| > 0 {
      var k := |q| - 1;
      DrainSplits(q[..k], session, p);
      MultisetSplit(q, Drained(q[..k], session, p), Kept(q[..k], session, p));
    }
  }

  /** What a drain returns and keeps: the session's messages that p accepts, and all others. */
  lemma {:induction false} DrainMembers<P>(q: seq<Message<P>>, session: string, p: Predicate<P>)
    ensures forall m :: m in Drained(q, session, p) <==> m in q && m.session == session && p(m)
    ensures forall m :: m in Kept(q, session, p) <==> m in q && !(m.session == session && p(m))
  {
    if |q| > 0 {
      var k := |q| - 1;
      DrainMembers(q[..k], session, p);
      assert q == q[..k] + [q[k]];
    }
  }

  /** The messages of one session, in queue order. */
  function OfSession<P>(q: seq<Message<P>>, session: string): seq<Message<P>> {
    if |q| == 0 then []
    else
      var k := |q| - 1;
      OfSession(q[..k], session) + (if q[k].session == session then [q[k]] else [])
  }

  lemma OfSessionAppend<P>(q: seq<Message<P>>, m: Message<P>, session: string)
    ensures OfSession(q + [m], session) == OfSession(q, session) + (if m.session == session then [m] else [])
  {
    assert (q + [m])[..|q|] == q;
  }

  /** A drain leaves every other session's messages as they are, in order. */
  lemma {:induction false} OtherSessions<P>(q: seq<Message<P>>, session: string, p: Predicate<P>, other: string)
    requires other != session
    ensures OfSession(Kept(q, session, p), other) == OfSession(q, other)
  {
    if |q| > 0 {
      var k := |q| - 1;
      var kept := Kept(q[..k], session, p);
      OtherSessions(q[..k], session, p, other);
      OfSessionAppend(kept, q[k], other);
      assert kept + [] == kept && OfSession(q[..k], other) + [] == OfSession(q[..k], other);
    }
  }

  lemma OthersKept<P>(q: seq<Message<P>>, session: string, p: Predicate<P>)
    ensures forall other :: other != session ==> OfSession(Kept(q, session, p), other) == OfSession(q, other)
  {
    forall other | other != session
      ensures OfSession(Kept(q, session, p), other) == OfSession(q, other)
    {
      OtherSessions(q, session, p, other);
    }
  }

  /** Draining everything of a session returns the session's messages. */
  lemma {:induction false} SessionDrained<P>(q: seq<Message<P>>, session: string, p: Predicate<P>)
    requires forall m :: p(m)
    ensures Drained(q, session, p) == OfSession(q, session)
  {
    if |q| > 0 {
      SessionDrained(q[..|q| - 1], session, p);
    }
  }

  // ---------------------------------------------------------------- Nostr envelopes

  function Envelopes<P>(q: seq<Message<P>>): (e: seq<Event<P>>)
    ensures |e| == |q| && forall i :: 0 <= i < |q| ==> e[i] == FromMessage(q[i])
  {
    seq(|q|, i requires 0 <= i < |q| => FromMessage(q[i]))
  }

  lemma EnvelopesAppend<P>(q: seq<Message<P>>, m: Message<P>)
    ensures Envelopes(q + [m]) == Envelopes(q) + [FromMessage(m)]
  {
  }

  datatype Split<P> = Split(drained: seq<Message<P>>, kept: seq<Event<P>>)

  /** The drain loop over events: it stops at the first event that does not decode. */
  function DrainEvents<P>(events: seq<Event<P>>, session: string, p: Predicate<P>): Result<Split<P>> {
    if |events| == 0 then Ok(Split([], []))
    else
      var k := |events| - 1;
      var s :- DrainEvents(events[..k], session, p);
      var m :- ToMessage(events[k]);
      Ok(if Matches(session, p, m) then Split(s.drained + [m], s.kept) else Split(s.drained, s.kept + [events[k]]))
  }

  lemma {:induction false} DrainEventsPrefix<P>(events: seq<Event<P>>, session: string, p: Predicate<P>, k: nat)
    requires k <= |events| && DrainEvents(events[..k], session, p).Err?
    ensures DrainEvents(events, session, p) == DrainEvents(events[..k], session, p)
    decreases |events|
  {
    if k == |events| {
      assert events[..k] == events;
    } else {
      assert events[..|events| - 1][..k] == events[..k];
      DrainEventsPrefix(events[..|events| - 1], session, p, k);
    }
  }

  /** The events tagged with one session, in queue order. */
  function EventsOf<P>(events: seq<Event<P>>, session: string): seq<Event<P>> {
    if |events| == 0 then []
    else
      var k := |events| - 1;
      EventsOf(events[..k], session) + (if events[k].session == session then [events[k]] else [])
  }

  lemma EventsOfAppend<P>(events: seq<Event<P>>, e: Event<P>, session: string)
    ensures EventsOf(events + [e], session) == EventsOf(events, session) + (if e.session == session then [e] else [])
  {
    assert (events + [e])[..|events|] == events;
  }

  /** What a drain of events returns and keeps, by their tags and what they decode to. */
  ghost predicate SplitsBySession<P>(events: seq<Event<P>>, session: string, p: Predicate<P>, s: Split<P>) {
    && (forall e :: e in events ==> ToMessage(e).Ok?)
    && (forall m :: m in s.drained ==> m.session == session && p(m))
    && (forall e :: e in s.kept ==> e in events && !(e.session == session && p(ToMessage(e).value)))
    && (forall e :: e in events ==> e in s.kept || (e.session == session && p(ToMessage(e).value)))
    && (forall other :: other != session ==> EventsOf(s.kept, other) == EventsOf(events, other))
  }

  lemma {:induction false} DrainEventsMembers<P>(events: seq<Event<P>>, session: string, p: Predicate<P>)
    ensures DrainEvents(events, session, p).Ok? <==> forall e :: e in events ==> ToMessage(e).Ok?
    ensures DrainEvents(events, session, p).Ok? ==>
      SplitsBySession(events, session, p, DrainEvents(events, session, p).value)
  {
    if |events| > 0 {
      var k := |events| - 1;
      DrainEventsMembers(events[..k], session, p);
      assert events == events[..k] + [events[k]];
      if DrainEvents(events, session, p).Ok? {
        var s := DrainEvents(events[..k], session, p).value;
        SplitOneMore(events[..k], events[k], session, p, s);
      }
    }
  }

  lemma SplitOneMore<P>(events: seq<Event<P>>, e: Event<P>, session: string, p: Predicate<P>, s: Split<P>)
    requires SplitsBySession(events, session, p, s) && ToMessage(e).Ok?
    ensures
      var m := ToMessage(e).value;
      SplitsBySession(events + [e], session, p,
        if Matches(session, p, m) then Split(s.drained + [m], s.kept) else Split(s.drained, s.kept + [e]))
  {
    assert ToMessage(e).value.session == e.session;
    forall other | other != session
      ensures EventsOf(s.kept + [e], other) == EventsOf(events + [e], other)
      ensures e.session == session ==> EventsOf(s.kept, other) == EventsOf(events + [e], other)
    {
      EventsOfAppend(s.kept, e, other);
      EventsOfAppend(events, e, other);
      assert EventsOf(events, other) + [] == EventsOf(events, other);
    }
  }

  class LocalNostrEventTransport<P> {
    var connected: bool
    var events: seq<Event<P>>

    constructor ()
      ensures !connected && events == []
    {
      connected, events := false, [];
    }

    method Publish(m: Message<P>)
      modifies this
      ensures events == old(events) + [FromMessage(m)] && connected == old(connected)
    {
      events := events + [FromMessage(m)];
    }

    /** The events are taken out of the queue before they are decoded, so a failed
        drain leaves the queue empty. */
    method DrainMatching(session: string, p: Predicate<P>) returns (r: Result<seq<Message<P>>>)
      modifies this
      ensures connected == old(connected)
      ensures DrainEvents(old(events), session, p).Ok? ==>
        && r == Ok(DrainEvents(old(events), session, p).value.drained)
        && events == DrainEvents(old(events), session, p).value.kept
      ensures DrainEvents(old(events), session, p).Err? ==>
        r == Err(DrainEvents(old(events), session, p).error) && events == []
      ensures r.Ok? <==> forall e :: e in old(events) ==> ToMessage(e).Ok?
      ensures r.Ok? ==> forall m :: m in r.value ==> m.session == session && p(m)
      ensures r.Ok? ==> forall e :: e in old(events) ==>
        (e in events <==> !(e.session == session && p(ToMessage(e).value)))
      ensures forall e :: e in events ==> e in old(events)
      ensures r.Ok? ==>
        forall other :: other != session ==> EventsOf(events, other) == EventsOf(old(events), other)
    {
      var taken := events;
      events := [];
      var drained: seq<Message<P>> := [];
      var kept: seq<Event<P>> := [];
      for i := 0 to |taken|
        invariant taken == old(events) && events == [] && connected == old(connected)
        invariant DrainEvents(taken[..i], session, p) == Ok(Split(drained, kept))
      {
        assert taken[..i + 1][..i] == taken[..i];
        var m := ToMessage(taken[i]);
        if m.Err? {
          DrainEventsPrefix(taken, session, p, i + 1);
          DrainEventsMembers(taken, session, p);
          return Err(m.error);
        }
        if m.value.session == session && p(m.value) {
          drained := drained + [m.value];
        } else {
          kept := kept + [taken[i]];
        }
      }
      assert taken[..|taken|] == taken;
      DrainEventsMembers(taken, session, p);
      events := kept;
      r := Ok(drained);
    }
  }

  lemma DrainOneMore<P>(events: seq<Event<P>>, m: Message<P>, session: string, p: Predicate<P>)
    requires WellFormed(m) && DrainEvents(events, session, p).Ok?
    ensures
      var s := DrainEvents(events, session, p).value;
      DrainEvents(events + [FromMessage(m)], session, p)
        == Ok(if Matches(session, p, m) then Split(s.drained + [m], s.kept)
              else Split(s.drained, s.kept + [FromMessage(m)]))
  {
    EnvelopeRoundTrip(m);
    assert (events + [FromMessage(m)])[..|events|] == events;
  }

  /** On envelopes of well-formed messages a drain is the in-memory drain. */
  lemma {:induction false} DrainRefines<P>(q: seq<Message<P>>, session: string, p: Predicate<P>)
    requires forall i :: 0 <= i < |q| ==> WellFormed(q[i])
    ensures DrainEvents(Envelopes(q), session, p) == Ok(Split(Drained(q, session, p), Envelopes(Kept(q, session, p))))
  {
    if |q| == 0 {
      assert Envelopes(Kept(q, session, p)) == [];
    } else {
      var k := |q| - 1;
      var kept, drained := Kept(q[..k], session, p), Drained(q[..k], session, p);
      assert DrainEvents(Envelopes(q[..k]), session, p) == Ok(Split(drained, Envelopes(kept))) by {
        DrainRefines(q[..k], session, p);
      }
      EnvelopesAppend(kept, q[k]);
      EnvelopesAppend(q[..k], q[k]);
      assert q == q[..k] + [q[k]] && kept + [] == kept && drained + [] == drained;
      DrainOneMore(Envelopes(q[..k]), q[k], session, p);
    }
  }

  lemma DrainOkOneMore<P>(events: seq<Event<P>>, m: Message<P>, session: string, p: Predicate<P>)
    ensures DrainEvents(events + [FromMessage(m)], session, p).Ok? <==>
      DrainEvents(events, session, p).Ok? && WellFormed(m)
  {
    EnvelopeRoundTrip(m);
    assert (events + [FromMessage(m)])[..|events|] == events;
  }

  /** A drain of envelopes succeeds exactly when every pending message is well-formed,
      whatever session and predicate it asks for. */
  lemma {:induction false} DrainOkIffWellFormed<P>(q: seq<Message<P>>, session: string, p: Predicate<P>)
    ensures DrainEvents(Envelopes(q), session, p).Ok? <==> forall m :: m in q ==> WellFormed(m)
  {
    if |q| > 0 {
      var k := |q| - 1;
      DrainOkIffWellFormed(q[..k], session, p);
      DrainOkOneMore(Envelopes(q[..k]), q[k], session, p);
      assert Envelopes(q) == Envelopes(q[..k]) + [FromMessage(q[k])];
      assert q == q[..k] + [q[k]];
    }
  }

  // ---------------------------------------------------------------- whole runs

  datatype Op<!P> = Publish(message: Message<P>) | Drain(session: string, p: Predicate<P>)

  /** The memory queue after a run, and everything its drains returned, call by call. */
  datatype MemoryRun<P> = MemoryRun(queue: seq<Message<P>>, outputs: seq<seq<Message<P>>>)
  datatype NostrRun<P> = NostrRun(events: seq<Event<P>>, outputs: seq<Result<seq<Message<P>>>>)

  ghost function RunMemory<P>(q: seq<Message<P>>, ops: seq<Op<P>>): MemoryRun<P>
    decreases |ops|
  {
    if |ops| == 0 then MemoryRun(q, [])
    else
      var r := RunMemory(q, ops[..|ops| - 1]);
      match ops[|ops| - 1]
      case Publish(m) => MemoryRun(r.queue + [m], r.outputs)
      case Drain(s, p) => MemoryRun(Kept(r.queue, s, p), r.outputs + [Drained(r.queue, s, p)])
  }

  ghost function RunNostr<P>(e: seq<Event<P>>, ops: seq<Op<P>>): NostrRun<P>
    decreases |ops|
  {
    if |ops| == 0 then NostrRun(e, [])
    else
      var r := RunNostr(e, ops[..|ops| - 1]);
      match ops[|ops| - 1]
      case Publish(m) => NostrRun(r.events + [FromMessage(m)], r.outputs)
      case Drain(s, p) =>
        var d := DrainEvents(r.events, s, p);
        if d.Ok? then NostrRun(d.value.kept, r.outputs + [Ok(d.value.drained)])
        else NostrRun([], r.outputs + [Err(d.error)])
  }

  ghost function Published<P>(ops: seq<Op<P>>): seq<Message<P>> {
    if |ops| == 0 then []
    else
      var k := |ops| - 1;
      Published(ops[..k]) + (if ops[k].Publish? then [ops[k].message] else [])
  }

  ghost function Flatten<P>(outputs: seq<seq<Message<P>>>): seq<Message<P>> {
    if |outputs| == 0 then [] else Flatten(outputs[..|outputs| - 1]) + outputs[|outputs| - 1]
  }

  ghost function AllOk<P>(outputs: seq<seq<Message<P>>>): (r: seq<Result<seq<Message<P>>>>)
    ensures |r| == |outputs| && forall i :: 0 <= i < |r| ==> r[i] == Ok(outputs[i])
  {
    seq(|outputs|, i requires 0 <= i < |outputs| => Ok(outputs[i]))
  }

  lemma ConservePublish<A>(published: seq<A>, drained: seq<A>, queue: seq<A>, m: A)
    requires multiset(published) == multiset(drained) + multiset(queue)
    ensures multiset(published + [m]) == multiset(drained) + multiset(queue + [m])
  {
    MultisetAppend(published, m);
    MultisetAppend(queue, m);
  }

  lemma ConserveDrain<A>(published: seq<A>, drained: seq<A>, queue: seq<A>, d: seq<A>, kept: seq<A>)
    requires multiset(published) == multiset(drained) + multiset(queue)
    requires multiset(queue) == multiset(d) + multiset(kept)
    ensures multiset(published + []) == multiset(drained + d) + multiset(kept)
  {
    assert published + [] == published;
  }

  lemma FlattenAppend<P>(outputs: seq<seq<Message<P>>>, d: seq<Message<P>>)
    ensures Flatten(outputs + [d]) == Flatten(outputs) + d
  {
    assert (outputs + [d])[..|outputs|] == outputs;
  }

  /** Conservation: over every run, published messages are drained or still pending, each once. */
  lemma {:induction false} Conservation<P>(ops: seq<Op<P>>)
    ensures
      var r := RunMemory([], ops);
      multiset(Published(ops)) == multiset(Flatten(r.outputs)) + multiset(r.queue)
  {
    if |ops| > 0 {
      var k := |ops| - 1;
      Conservation(ops[..k]);
      var r := RunMemory([], ops[..k]);
      var published, drained := Published(ops[..k]), Flatten(r.outputs);
      match ops[k]
      case Publish(m) =>
        ConservePublish(published, drained, r.queue, m);
      case Drain(s, p) =>
        DrainSplits(r.queue, s, p);
        FlattenAppend(r.outputs, Drained(r.queue, s, p));
        ConserveDrain(published, drained, r.queue, Drained(r.queue, s, p), Kept(r.queue, s, p));
    }
  }

  ghost predicate WasPublished<P>(ops: seq<Op<P>>, m: Message<P>) {
    exists i :: 0 <= i < |ops| && ops[i].Publish? && ops[i].message == m
  }

  lemma PublishedBefore<P>(ops: seq<Op<P>>, k: nat, m: Message<P>)
    requires k <= |ops| && WasPublished(ops[..k], m)
    ensures WasPublished(ops, m)
  {
    var i :| 0 <= i < k && ops[..k][i].Publish? && ops[..k][i].message == m;
    assert ops[i].Publish? && ops[i].message == m;
  }

  lemma {:induction false} QueueIsPublished<P>(ops: seq<Op<P>>, m: Message<P>)
    requires m in RunMemory([], ops).queue
    ensures WasPublished(ops, m)
  {
    var k := |ops| - 1;
    var before := RunMemory([], ops[..k]).queue;
    if ops[k].Publish? && m == ops[k].message {
      assert ops[k].Publish? && ops[k].message == m;
    } else {
      assert m in before by {
        if ops[k].Drain? {
          DrainMembers(before, ops[k].session, ops[k].p);
        }
      }
      QueueIsPublished(ops[..k], m);
      PublishedBefore(ops, k, m);
    }
  }

  /** A message stays queued until the next drain. */
  lemma {:induction false} StaysQueued<P>(ops: seq<Op<P>>, i: nat)
    requires i < |ops| && ops[i].Publish? && forall j :: i < j < |ops| ==> !ops[j].Drain?
    ensures ops[i].message in RunMemory([], ops).queue
    decreases |ops|
  {
    if i < |ops| - 1 {
      StaysQueued(ops[..|ops| - 1], i);
    }
  }

  /** Publishing a message that no envelope can carry. */
  predicate Malformed<P>(op: Op<P>) { op.Publish? && !WellFormed(op.message) }

  /** No drain comes after a malformed message. */
  ghost predicate NothingLost<P>(ops: seq<Op<P>>) {
    forall i, j :: 0 <= i < j < |ops| && Malformed(ops[i]) ==> !ops[j].Drain?
  }

  /** What the memory queue holds and returned, as the envelope queue would. */
  ghost function AsNostr<P>(r: MemoryRun<P>): NostrRun<P> { NostrRun(Envelopes(r.queue), AllOk(r.outputs)) }

  lemma {:induction false} RefinesWhileNothingLost<P>(ops: seq<Op<P>>)
    requires NothingLost(ops)
    ensures RunNostr([], ops) == AsNostr(RunMemory([], ops))
  {
    if |ops| > 0 {
      var k := |ops| - 1;
      RefinesWhileNothingLost(ops[..k]);
      var r := RunMemory([], ops[..k]);
      match ops[k]
      case Publish(m) =>
        assert Envelopes(r.queue + [m]) == Envelopes(r.queue) + [FromMessage(m)];
      case Drain(s, p) =>
        QueueWellFormed(ops);
        DrainRefines(r.queue, s, p);
        assert AllOk(r.outputs + [Drained(r.queue, s, p)]) == AllOk(r.outputs) + [Ok(Drained(r.queue, s, p))];
    } else {
      assert Envelopes<P>([]) == [];
    }
  }

  lemma QueueWellFormed<P>(ops: seq<Op<P>>)
    requires |ops| > 0 && NothingLost(ops) && ops[|ops| - 1].Drain?
    ensures
      var q := RunMemory([], ops[..|ops| - 1]).queue;
      forall i :: 0 <= i < |q| ==> WellFormed(q[i])
  {
    var k := |ops| - 1;
    var q := RunMemory([], ops[..k]).queue;
    forall i | 0 <= i < |q|
      ensures WellFormed(q[i])
    {
      QueueIsPublished(ops[..k], q[i]);
      var j :| 0 <= j < k && ops[..k][j].Publish? && ops[..k][j].message == q[i];
      assert ops[j].message == q[i] && !Malformed(ops[j]);
    }
  }

  /** A drain after a malformed message fails, and the failure stays in the outputs. */
  lemma {:induction false} LossShows<P>(ops: seq<Op<P>>) returns (n: nat)
    requires !NothingLost(ops)
    ensures n < |RunNostr([], ops).outputs| && RunNostr([], ops).outputs[n].Err?
  {
    var k := |ops| - 1;
    if !NothingLost(ops[..k]) {
      n := LossShows(ops[..k]);
    } else {
      var before := ops[..k];
      assert forall i, j :: 0 <= i < j < k && Malformed(ops[i]) ==> !ops[j].Drain? by {
        assert forall i :: 0 <= i < k ==> before[i] == ops[i];
      }
      var i, j :| 0 <= i < j < |ops| && Malformed(ops[i]) && ops[j].Drain?;
      FirstLoss(ops, i);
      n := |RunNostr([], ops[..k]).outputs|;
    }
  }

  lemma FirstLoss<P>(ops: seq<Op<P>>, i: nat)
    requires i < |ops| - 1 && Malformed(ops[i]) && ops[|ops| - 1].Drain? && NothingLost(ops[..|ops| - 1])
    ensures
      var k := |ops| - 1;
      DrainEvents(RunNostr([], ops[..k]).events, ops[k].session, ops[k].p).Err?
  {
    var k := |ops| - 1;
    var before := ops[..k];
    assert Malformed(before[i]);
    StaysQueued(before, i);
    RefinesWhileNothingLost(before);
    DrainOkIffWellFormed(RunMemory([], before).queue, ops[k].session, ops[k].p);
  }

  /** Refinement: over a run the envelope queue holds and returns what the memory queue does,
      list by list and in the same order, if and only if no drain follows a malformed message. */
  lemma NostrRefinesMemory<P>(ops: seq<Op<P>>)
    ensures RunNostr([], ops) == AsNostr(RunMemory([], ops)) <==> NothingLost(ops)
  {
    if NothingLost(ops) {
      RefinesWhileNothingLost(ops);
    } else {
      var n := LossShows(ops);
    }
  }

  // ---------------------------------------------------------------- a loss

  lemma EnvelopesOfTwo<P>(a: Message<P>, b: Message<P>)
    ensures RunNostr([], [Publish(a), Publish(b)]) == NostrRun([FromMessage(a), FromMessage(b)], [])
  {
    var ops := [Publish(a), Publish(b)];
    assert ops[..1] == [Publish(a)] && ops[..1][..0] == [];
    assert RunNostr([], ops[..1]) == NostrRun([FromMessage(a)], []);
  }

  lemma SecondFails<P>(a: Message<P>, b: Message<P>, session: string, p: Predicate<P>)
    requires WellFormed(a) && ToMessage(FromMessage(b)).Err?
    ensures DrainEvents([FromMessage(a), FromMessage(b)], session, p) == Err(ToMessage(FromMessage(b)).error)
  {
    var e := [FromMessage(a), FromMessage(b)];
    assert e[..1] == [FromMessage(a)] && e[..1][..0] == [];
    EnvelopeRoundTrip(a);
    assert DrainEvents(e[..1][..0], session, p).Ok?;
    assert DrainEvents(e[..1], session, p).Ok?;
  }

  /** A good message followed by the same one with an empty kind: the next drain fails,
      whatever it asks for, and the good message is gone with the bad one. */
  lemma MalformedLosesQueue<P>(payload: P, session: string, p: Predicate<P>)
    ensures
      var good, bad := Broadcast("s", 1, HtssDkgRound1, payload), Broadcast("s", 1, Custom(""), payload);
      && WellFormed(good)
      && RunNostr([], [Publish(good), Publish(bad), Drain(session, p)]) == NostrRun([], [Err(EmptyMessageKind)])
  {
    var good, bad := Broadcast("s", 1, HtssDkgRound1, payload), Broadcast("s", 1, Custom(""), payload);
    assert !IsBlank("s") by {
      assert !IsSpace("s"[0]);
    }
    assert ToMessage(FromMessage(bad)) == Err(EmptyMessageKind) by {
      assert AsStr(Custom("")) == "" && FromStr("") == Custom("");
      assert ValidateMetadata(FromMessage(bad)) == Err(EmptyMessageKind);
    }
    EnvelopesOfTwo(good, bad);
    SecondFails(good, bad, session, p);
    var ops := [Publish(good), Publish(bad), Drain(session, p)];
    assert ops[..2] == [Publish(good), Publish(bad)];
  }
}
