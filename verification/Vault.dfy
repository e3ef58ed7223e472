/** The in-memory vault service: key generation and signing runs over the envelope queue. */
module Vault {
  import opened Wrappers
  import opened Lists
  import opened Curves
  import opened Policies
  import opened Dkg
  import opened KeySets
  import opened SignerSets
  import opened Vectors
  import opened Signing
  import opened HonestSigning
  import opened Messages
  import opened Coordinator

  /** The states in the order in which the service walks its sorted map. */
  ghost function InOrder<T>(order: seq<nat>, states: map<U16, Round1State<T>>): (s: seq<Round1State<T>>)
    requires forall i :: 0 <= i < |order| ==> order[i] <= 65535 && order[i] in states
    ensures |s| == |order| && forall i :: 0 <= i < |s| ==> s[i] == states[order[i]]
  {
    seq(|order|, i requires 0 <= i < |order| => states[order[i]])
  }

  /** The map holds roster members only, and the given entries for the first j of them. */
  ghost predicate StoresUpTo<A>(m: map<U16, A>, ps: seq<RankedParticipant>, values: seq<A>, j: nat)
    requires j <= |ps| == |values|
  {
    m.Keys <= Members(Ids(ps)) && forall i :: 0 <= i < j ==> ps[i].id in m && m[ps[i].id] == values[i]
  }

  ghost predicate StoresAll<A>(m: map<U16, A>, ps: seq<RankedParticipant>, values: seq<A>)
    requires |ps| == |values|
  {
    StoresUpTo(m, ps, values, |ps|)
  }

  lemma StoreNext<A>(m: map<U16, A>, ps: seq<RankedParticipant>, values: seq<A>, j: nat)
    requires Distinct(Ids(ps)) && j < |ps| == |values| && StoresUpTo(m, ps, values, j)
    ensures StoresUpTo(m[ps[j].id := values[j]], ps, values, j + 1)
  {
    forall k | 0 <= k < j
      ensures ps[k].id != ps[j].id
    {
      assert Ids(ps)[k] != Ids(ps)[j];
    }
    assert Ids(ps)[j] in Members(Ids(ps));
  }

  lemma AllStored<A>(m: map<U16, A>, ps: seq<RankedParticipant>, values: seq<A>)
    requires |ps| == |values| && StoresUpTo(m, ps, values, |ps|)
    ensures m.Keys == Members(Ids(ps))
  {
    forall id | id in Members(Ids(ps))
      ensures id in m
    {
      var i :| 0 <= i < |ps| && Ids(ps)[i] == id;
      assert ps[i].id in m;
    }
  }

  /** No other key is stored yet. */
  ghost predicate Agrees<T>(stored: Option<GroupKey<T>>, ks: KeySet<T>) { stored.None? || stored.value == ks.groupKey }

  class VaultService<T(==, !new)> {
    const C: Curve<T>
    const grouped: GroupedConfig
    const config: HierarchicalConfig
    const session: string
    const coordinator: FrostCoordinator<T>
    var states: map<U16, Round1State<T>>
    var shares: map<U16, KeyShare<T>>
    var groupKey: Option<GroupKey<T>>

    /** What the constructor checked, in terms of the derived policy. */
    ghost predicate Ready() { C.Valid() && !IsBlank(session) && ConstructedHierarchical(config) }

    /** Between runs: nothing is queued, and states and shares are roster members'. A new service
        is idle, and so is one whose last run succeeded. */
    ghost predicate Idle()
      reads this, coordinator, coordinator.relay
    {
      && coordinator.Valid() && coordinator.queue == []
      && states.Keys <= Members(Ids(config.participants)) && shares.Keys <= Members(Ids(config.participants))
    }

    constructor (C: Curve<T>, grouped: GroupedConfig, config: HierarchicalConfig, session: string)
      ensures this.C == C && this.grouped == grouped && this.config == config && this.session == session
      ensures Idle() && fresh(coordinator) && fresh(coordinator.relay)
      ensures states == map[] && shares == map[] && groupKey == None
    {
      this.C, this.grouped, this.config, this.session := C, grouped, config, session;
      coordinator := new FrostCoordinator();
      states, shares, groupKey := map[], map[], None;
    }

    /** One turn of the first loop: a member draws coefficients and publishes commitments. */
    method BeginMember(i: nat, drawn: seq<T>) returns (state: Round1State<T>)
      requires Ready() && coordinator.Valid() && i < |config.participants| && |drawn| == config.threshold
      modifies coordinator, coordinator.relay
      ensures
        var p := config.participants[i];
        state == Round1State(Round1Package(p.id, p.rank, drawn), drawn)
      ensures coordinator.Valid()
      ensures coordinator.queue == old(coordinator.queue) + [Round1Message(session, state.package)]
    {
      RankOfMember(config.participants, i);
      state := Round1(C, config.participants[i].id, config, drawn).value;
      coordinator.PublishHtssDkgRound1(session, state.package);
    }

    /** First loop. */
    method PublishRound1(coefficients: seq<seq<T>>)
      requires Ready() && Idle() && Drawn(C, config, coefficients)
      modifies this, coordinator, coordinator.relay
      ensures coordinator.Valid() && shares == old(shares) && groupKey == old(groupKey)
      ensures coordinator.queue == Round1Messages(session, Packages(HonestRound1(config.participants, coefficients)))
      ensures StoresAll(states, config.participants, HonestRound1(config.participants, coefficients))
    {
      ghost var all := HonestRound1(config.participants, coefficients);
      ghost var q := Round1Messages(session, Packages(all));
      for i := 0 to |config.participants|
        invariant coordinator.Valid() && coordinator.queue == q[..i]
        invariant shares == old(shares) && groupKey == old(groupKey)
        invariant StoresUpTo(states, config.participants, all, i)
      {
        var state := BeginMember(i, coefficients[i]);
        assert state == all[i] && q[..i + 1] == q[..i] + [Round1Message(session, state.package)];
        StoreNext(states, config.participants, all, i);
        states := states[config.participants[i].id := state];
      }
    }

    /** Second loop: contributors in ascending id order publish one package per member. */
    method PublishRound2(r1: seq<Round1Package<T>>, order: seq<nat>, ghost all: seq<Round1State<T>>)
      requires Ready() && coordinator.Valid() && coordinator.queue == [] && |all| == |order|
      requires forall i :: 0 <= i < |order| ==> order[i] <= 65535 && order[i] in states && states[order[i]] == all[i]
      requires forall i :: 0 <= i < |all| ==> WalkedOnce(C, all[i], r1, config, order[i])
      modifies coordinator, coordinator.relay
      ensures coordinator.Valid() && coordinator.queue == Round2Messages(session, AllDeals(C, all, config.participants))
    {
      ghost var deals: seq<Round2Package<T>> := [];
      for i := 0 to |order|
        invariant coordinator.Valid() && deals == AllDeals(C, all[..i], config.participants)
        invariant coordinator.queue == Round2Messages(session, deals)
      {
        assert all[..i + 1][..i] == all[..i];
        var dealt := Round2(C, states[order[i]], r1, config);
        PublishPackages(dealt.value, deals);
        deals := deals + dealt.value;
      }
      assert all[..|order|] == all;
    }

    method PublishPackages(packages: seq<Round2Package<T>>, ghost before: seq<Round2Package<T>>)
      requires Ready() && coordinator.Valid() && coordinator.queue == Round2Messages(session, before)
      requires forall i :: 0 <= i < |packages| ==> packages[i].sender >= 1 && packages[i].recipient >= 1
      modifies coordinator, coordinator.relay
      ensures coordinator.Valid() && coordinator.queue == Round2Messages(session, before + packages)
    {
      for i := 0 to |packages|
        invariant coordinator.Valid() && coordinator.queue == Round2Messages(session, before + packages[..i])
      {
        coordinator.PublishHtssDkgRound2(session, packages[i]);
        assert before + packages[..i + 1] == before + packages[..i] + [packages[i]];
      }
      assert packages[..|packages|] == packages;
    }

    method DrainOwn(id: U16, ghost pending: seq<Round2Package<T>>) returns (own: Result<seq<Round2Package<T>>>)
      requires coordinator.Valid() && coordinator.queue == Round2Messages(session, pending)
      modifies coordinator, coordinator.relay
      ensures coordinator.Valid() && coordinator.queue == Round2Messages(session, NotForRecipient(pending, id))
      ensures own == Ok(ForRecipient(pending, id))
    {
      own := coordinator.DrainHtssDkgRound2For(session, id);
      DrainRecipient(session, pending, id);
      DecodeRound2Messages(session, ForRecipient(pending, id));
    }

    /** Keeps the first key, compares later ones with it, and stores the share. */
    method StoreMember(j: nat, key: GroupKey<T>, share: KeyShare<T>, ghost ks: KeySet<T>) returns (r: Result<()>)
      requires Distinct(Ids(config.participants)) && j < |config.participants| == |ks.shares|
      requires key == ks.groupKey && share == ks.shares[j]
      requires StoresUpTo(shares, config.participants, ks.shares, j)
      modifies this
      ensures states == old(states) && (r.Ok? <==> Agrees(old(groupKey), ks))
      ensures r.Ok? ==> groupKey == Some(ks.groupKey) && StoresUpTo(shares, config.participants, ks.shares, j + 1)
      ensures r.Err? ==> groupKey == old(groupKey) && shares == old(shares)
    {
      if groupKey.Some? && groupKey.value.xonly != key.xonly {
        return Fail(GroupKeyMismatch);
      }
      if groupKey.None? {
        groupKey := Some(key);
      }
      StoreNext(shares, config.participants, ks.shares, j);
      shares := shares[config.participants[j].id := share];
      r := Ok(());
    }

    /** Honest contributors over this roster, what they published and dealt, and what every
        turn of the third loop will bring: the shares of ks, or nothing when the constants
        cancel. The facts are kept at named turns, so that the loop does not unfold them. */
    ghost predicate Dealt(
      all: seq<Round1State<T>>, r1: seq<Round1Package<T>>, deals: seq<Round2Package<T>>, ks: KeySet<T>, cancels: bool)
    {
      && |ks.shares| == |config.participants|
      && forall j: nat {:trigger Turn(j)} :: Turn(j) && j < |config.participants| ==>
           && Ready() && Round1Valid(C, r1, config) && HonestStates(C, all, r1, config)
           && ks == HonestKeySet(C, r1, config) && deals == AllDeals(C, all, config.participants)
           && cancels == ConstantsCancel(C, r1, config)
    }

    /** Member j finalizes on its own packages. */
    method FinalizeOwn(
      r1: seq<Round1Package<T>>, own: seq<Round2Package<T>>, j: nat, ghost all: seq<Round1State<T>>,
      ghost deals: seq<Round2Package<T>>, ghost ks: KeySet<T>, ghost cancels: bool)
      returns (f: Result<(GroupKey<T>, KeyShare<T>)>)
      requires Dealt(all, r1, deals, ks, cancels) && j < |config.participants|
      requires own == ForRecipient(deals, config.participants[j].id)
      ensures f.Ok? <==> !cancels
      ensures f.Ok? ==> f.value == (ks.groupKey, ks.shares[j])
    {
      assert Turn(j);
      f := FinalizeMember(C, all, r1, own, config, j);
    }

    /** One turn of the third loop: member j drains its packages, finalizes and stores its share. */
    method FinishMember(
      r1: seq<Round1Package<T>>, j: nat, ghost all: seq<Round1State<T>>, ghost deals: seq<Round2Package<T>>,
      ghost ks: KeySet<T>, ghost cancels: bool, ghost pending: seq<Round2Package<T>>)
      returns (r: Result<()>)
      requires coordinator.Valid() && Dealt(all, r1, deals, ks, cancels)
      requires Distinct(Ids(config.participants)) && j < |config.participants|
      requires coordinator.queue == Round2Messages(session, pending)
      requires ForRecipient(pending, config.participants[j].id) == ForRecipient(deals, config.participants[j].id)
      requires StoresUpTo(shares, config.participants, ks.shares, j)
      modifies this, coordinator, coordinator.relay
      ensures coordinator.Valid() && states == old(states)
      ensures coordinator.queue == Round2Messages(session, NotForRecipient(pending, config.participants[j].id))
      ensures r.Ok? <==> !cancels && Agrees(old(groupKey), ks)
      ensures r.Ok? ==> groupKey == Some(ks.groupKey) && StoresUpTo(shares, config.participants, ks.shares, j + 1)
      ensures r.Err? ==> groupKey == old(groupKey) && shares == old(shares)
    {
      var own := DrainOwn(config.participants[j].id, pending);
      var final := FinalizeOwn(r1, own.value, j, all, deals, ks, cancels);
      if final.Err? {
        return Err(final.error);
      }
      r := StoreMember(j, final.value.0, final.value.1, ks);
    }

    /** Third loop. */
    method FinalizeMembers(
      r1: seq<Round1Package<T>>, ghost all: seq<Round1State<T>>, ghost deals: seq<Round2Package<T>>,
      ghost ks: KeySet<T>, ghost cancels: bool)
      returns (r: Result<()>)
      requires coordinator.Valid() && Dealt(all, r1, deals, ks, cancels)
      requires Distinct(Ids(config.participants)) && |config.participants| > 0
      requires Awaiting(config.participants, deals, deals, 0)
      requires coordinator.queue == Round2Messages(session, deals)
      requires shares.Keys <= Members(Ids(config.participants))
      modifies this, coordinator, coordinator.relay
      ensures states == old(states)
      ensures r.Ok? <==> !cancels && Agrees(old(groupKey), ks)
      ensures r.Ok? ==> Finished(ks)
      ensures r.Err? ==> groupKey == old(groupKey) && shares == old(shares)
    {
      ghost var pending := deals;
      for j := 0 to |config.participants|
        invariant states == old(states) && coordinator.Valid() && coordinator.queue == Round2Messages(session, pending)
        invariant Awaiting(config.participants, pending, deals, j)
        invariant j > 0 ==> !cancels && Agrees(old(groupKey), ks) && groupKey == Some(ks.groupKey)
        invariant j == 0 ==> groupKey == old(groupKey) && shares == old(shares)
        invariant StoresUpTo(shares, config.participants, ks.shares, j)
      {
        r := FinishMember(r1, j, all, deals, ks, cancels, pending);
        if r.Err? {
          return;
        }
        DropRecipient(config.participants, pending, deals, j);
        pending := NotForRecipient(pending, config.participants[j].id);
      }
      NothingAwaits(config.participants, pending, deals);
      AllStored(shares, config.participants, ks.shares);
      r := Ok(());
    }

    /** The third loop over honest deals: it succeeds exactly when the constants do not cancel. */
    method FinishAll(r1: seq<Round1Package<T>>, ghost all: seq<Round1State<T>>) returns (r: Result<()>)
      requires coordinator.Valid() && Ready() && Round1Valid(C, r1, config) && HonestStates(C, all, r1, config)
      requires coordinator.queue == Round2Messages(session, AllDeals(C, all, config.participants))
      requires shares.Keys <= Members(Ids(config.participants))
      modifies this, coordinator, coordinator.relay
      ensures states == old(states)
      ensures r.Ok? <==> !ConstantsCancel(C, r1, config) && Agrees(old(groupKey), HonestKeySet(C, r1, config))
      ensures r.Ok? ==> Finished(HonestKeySet(C, r1, config))
      ensures r.Err? ==> groupKey == old(groupKey) && shares == old(shares)
    {
      RecipientsInRoster(C, all, config.participants);
      r := FinalizeMembers(
        r1, all, AllDeals(C, all, config.participants), HonestKeySet(C, r1, config), ConstantsCancel(C, r1, config));
    }

    /** One group key, exactly the roster's shares, and nothing left on the relay. */
    ghost predicate Finished(ks: KeySet<T>)
      reads this, coordinator, coordinator.relay
    {
      && coordinator.Valid() && coordinator.queue == [] && groupKey == Some(ks.groupKey)
      && |ks.shares| == |config.participants| && shares.Keys == Members(Ids(config.participants))
      && StoresAll(shares, config.participants, ks.shares)
    }

    method ExchangeRound1(coefficients: seq<seq<T>>) returns (r1: Result<seq<Round1Package<T>>>)
      requires Ready() && Idle() && Drawn(C, config, coefficients)
      modifies this, coordinator, coordinator.relay
      ensures coordinator.Valid() && coordinator.queue == [] && shares == old(shares) && groupKey == old(groupKey)
      ensures r1 == Ok(Packages(HonestRound1(config.participants, coefficients)))
      ensures StoresAll(states, config.participants, HonestRound1(config.participants, coefficients))
    {
      ghost var packages := Packages(HonestRound1(config.participants, coefficients));
      PublishRound1(coefficients);
      r1 := coordinator.DrainHtssDkgRound1(session);
      DrainRound1Messages(session, packages);
      DecodeRound1Messages(session, packages);
    }

    method ExchangeRound2(coefficients: seq<seq<T>>, r1: seq<Round1Package<T>>) returns (ghost all: seq<Round1State<T>>)
      requires Ready() && coordinator.Valid() && Drawn(C, config, coefficients) && coordinator.queue == []
      requires r1 == Packages(HonestRound1(config.participants, coefficients))
      requires StoresAll(states, config.participants, HonestRound1(config.participants, coefficients))
      modifies coordinator, coordinator.relay
      ensures coordinator.Valid() && HonestStates(C, all, r1, config)
      ensures coordinator.queue == Round2Messages(session, AllDeals(C, all, config.participants))
    {
      var order := Sort(Ids(config.participants));
      SortedOrder(C, config, coefficients, states, order);
      all := InOrder(order, states);
      WalkIsHonest(C, config, r1, all, order);
      PublishRound2(r1, order, all);
    }

    /** The whole run, on a new service or again: it succeeds exactly when the constant terms do
        not cancel and no other key is already stored; then every member holds its share of one
        key set on one polynomial. A run that fails changes neither key nor shares. */
    method RunHtssDkg(coefficients: seq<seq<T>>) returns (r: Result<()>)
      requires Ready() && Idle() && Drawn(C, config, coefficients)
      modifies this, coordinator, coordinator.relay
      ensures Round1Valid(C, Packages(HonestRound1(config.participants, coefficients)), config)
      ensures
        var r1 := Packages(HonestRound1(config.participants, coefficients));
        && (r.Ok? <==> !ConstantsCancel(C, r1, config) && Agrees(old(groupKey), HonestKeySet(C, r1, config)))
        && (r.Ok? ==> Finished(HonestKeySet(C, r1, config)) && Idle())
        && (r.Ok? ==> LiesOn(C, HonestKeySet(C, r1, config), config, GroupPolynomial(C, r1, config.threshold)))
        && (r.Err? ==> groupKey == old(groupKey) && shares == old(shares))
    {
      HonestRound1Valid(C, config, coefficients);
      var round1 := ExchangeRound1(coefficients);
      ghost var all := ExchangeRound2(coefficients, round1.value);
      r := FinishAll(round1.value, all);
      if r.Ok? {
        HonestKeySetLiesOn(C, round1.value, config);
      }
    }

    // -------------------------------------------------------------- signing

    method SelectShares(signers: seq<U16>) returns (r: Result<seq<KeyShare<T>>>)
      ensures r.Ok? <==> forall i :: 0 <= i < |signers| ==> signers[i] in shares
      ensures r.Ok? ==> |r.value| == |signers| && forall i :: 0 <= i < |signers| ==> r.value[i] == shares[signers[i]]
    {
      var selected: seq<KeyShare<T>> := [];
      for i := 0 to |signers|
        invariant |selected| == i
        invariant forall k :: 0 <= k < i ==> signers[k] in shares && selected[k] == shares[signers[k]]
      {
        if signers[i] !in shares {
          return Err(MissingRankedParticipant(signers[i]));
        }
        selected := selected + [shares[signers[i]]];
      }
      r := Ok(selected);
    }

    method PublishNonces(nonces: seq<LocalNonce<T>>, signingSession: string)
      requires coordinator.Valid() && coordinator.queue == [] && !IsBlank(signingSession)
      requires forall i :: 0 <= i < |nonces| ==>
        nonces[i].package.session == signingSession && nonces[i].package.id >= 1
      modifies coordinator, coordinator.relay
      ensures coordinator.Valid() && coordinator.queue == NonceMessages(PublicNonces(nonces))
    {
      ghost var q := NonceMessages(PublicNonces(nonces));
      for i := 0 to |nonces|
        invariant coordinator.Valid() && coordinator.queue == q[..i]
      {
        assert q[i] == NonceMessage(nonces[i].package) && q[..i + 1] == q[..i] + [q[i]];
        coordinator.Publish(NonceMessage(nonces[i].package));
      }
      assert q[..|nonces|] == q;
    }

    /** All nonces go out and come back in order. */
    method ExchangeNonces(nonces: seq<LocalNonce<T>>, signingSession: string) returns (r: Result<seq<NoncePackage<T>>>)
      requires coordinator.Valid() && coordinator.queue == [] && !IsBlank(signingSession)
      requires forall i :: 0 <= i < |nonces| ==>
        nonces[i].package.session == signingSession && nonces[i].package.id >= 1
      modifies coordinator, coordinator.relay
      ensures coordinator.Valid() && coordinator.queue == [] && r == Ok(PublicNonces(nonces))
    {
      PublishNonces(nonces, signingSession);
      r := coordinator.DrainHtssNonces(signingSession);
      DrainNonceMessages(signingSession, PublicNonces(nonces));
      DecodeNonceMessages(PublicNonces(nonces));
    }

    /** A plain signing run of this vault: nothing but its outcome is open. */
    ghost predicate SigningContext(
      run: Run<T>, p: seq<T>, key: GroupKey<T>, digest: int, public: seq<NoncePackage<T>>, signers: seq<U16>)
    {
      && C.Valid() && LiesOn(C, run.ks, config, p) && !IsBlank(run.session)
      && PlainRun(run, key, digest, run.nonces, signers, config)
      && HonestNonces(C, run.nonces, signers, run.session) && public == PublicNonces(run.nonces)
      && Distinct(signers)
    }

    /** What all turns of a run will bring: the honest shares, or nothing from anybody. The
        facts are kept at named turns, so that the loop over the signers does not unfold them. */
    ghost predicate Planned(
      plan: Option<seq<SignatureShare<T>>>, key: GroupKey<T>, digest: int, selected: seq<KeyShare<T>>,
      nonces: seq<LocalNonce<T>>, public: seq<NoncePackage<T>>, signers: seq<U16>, run: Run<T>, p: seq<T>)
    {
      && |selected| == |signers| == |nonces|
      && (plan.Some? ==> |plan.value| == |signers|)
      && forall i: nat {:trigger Turn(i)} :: Turn(i) && i < |signers| ==>
           && SigningContext(run, p, key, digest, public, signers)
           && run.nonces == nonces && HoldsShares(run.ks, signers, selected)
           && (plan.Some? <==> HonestSigners(C, run, p))
           && (plan.Some? ==> plan.value == HonestShares(C, run, p))
    }

    method ShareOf(
      key: GroupKey<T>, digest: int, selected: seq<KeyShare<T>>, nonces: seq<LocalNonce<T>>,
      public: seq<NoncePackage<T>>, signers: seq<U16>, i: nat,
      ghost run: Run<T>, ghost p: seq<T>, ghost plan: Option<seq<SignatureShare<T>>>)
      returns (r: Result<SignatureShare<T>>)
      requires i < |signers| && Planned(plan, key, digest, selected, nonces, public, signers, run, p)
      ensures r.Ok? <==> plan.Some?
      ensures r.Ok? ==> r.value == plan.value[i] && WellFormed(ShareMessage(r.value))
    {
      assert Turn(i);
      r := SignShare(C, key, digest, selected[i], nonces[i], public, signers, config);
      SignerDecides(C, run, p, selected[i], i);
    }

    /** One signer's turn. */
    method SignOne(
      key: GroupKey<T>, digest: int, selected: seq<KeyShare<T>>, nonces: seq<LocalNonce<T>>,
      public: seq<NoncePackage<T>>,
      signers: seq<U16>, i: nat, ghost run: Run<T>, ghost p: seq<T>, ghost plan: Option<seq<SignatureShare<T>>>)
      returns (r: Result<SignatureShare<T>>)
      requires coordinator.Valid() && i < |signers|
      requires Planned(plan, key, digest, selected, nonces, public, signers, run, p)
      modifies coordinator, coordinator.relay
      ensures coordinator.Valid() && (r.Ok? <==> plan.Some?)
      ensures r.Ok? ==> r.value == plan.value[i]
      ensures coordinator.queue == old(coordinator.queue) + (if r.Ok? then [ShareMessage(r.value)] else [])
    {
      r := ShareOf(key, digest, selected, nonces, public, signers, i, run, p, plan);
      if r.Ok? {
        coordinator.Publish(ShareMessage(r.value));
      }
    }

    /** Every signer signs and publishes; the first refusal stops the run. */
    method SignAll(
      key: GroupKey<T>, digest: int, selected: seq<KeyShare<T>>, nonces: seq<LocalNonce<T>>,
      public: seq<NoncePackage<T>>,
      signers: seq<U16>, ghost run: Run<T>, ghost p: seq<T>, ghost plan: Option<seq<SignatureShare<T>>>)
      returns (r: Result<()>)
      requires coordinator.Valid() && coordinator.queue == [] && |signers| > 0
      requires Planned(plan, key, digest, selected, nonces, public, signers, run, p)
      modifies coordinator, coordinator.relay
      ensures coordinator.Valid() && (r.Ok? <==> plan.Some?)
      ensures coordinator.queue == if r.Ok? then ShareMessages(plan.value) else []
    {
      for i := 0 to |selected|
        invariant coordinator.Valid() && (i > 0 ==> plan.Some?)
        invariant coordinator.queue == if i == 0 then [] else ShareMessages(plan.value)[..i]
      {
        var share := SignOne(key, digest, selected, nonces, public, signers, i, run, p, plan);
        if share.Err? {
          return Err(share.error);
        }
      }
      r := Ok(());
    }

    method CollectShares(signingSession: string, ghost sent: seq<SignatureShare<T>>)
      returns (r: Result<seq<SignatureShare<T>>>)
      requires coordinator.Valid() && coordinator.queue == ShareMessages(sent)
      requires forall i :: 0 <= i < |sent| ==> sent[i].session == signingSession
      modifies coordinator, coordinator.relay
      ensures coordinator.Valid() && coordinator.queue == [] && r == Ok(sent)
    {
      r := coordinator.DrainHtssSignatureShares(signingSession);
      DrainShareMessages(signingSession, sent);
      DecodeShareMessages(sent);
    }

    /** Shares out, shares back, aggregate. */
    method SignAndAggregate(
      key: GroupKey<T>, digest: int, selected: seq<KeyShare<T>>, nonces: seq<LocalNonce<T>>,
      public: seq<NoncePackage<T>>, signers: seq<U16>, signingSession: string, ghost run: Run<T>, ghost p: seq<T>)
      returns (r: Result<SignatureShare<T>>, sig: Option<Signature<T>>)
      requires coordinator.Valid() && coordinator.queue == [] && SigningContext(run, p, key, digest, public, signers)
      requires run.nonces == nonces && |signers| > 0 && HoldsShares(run.ks, signers, selected)
      requires run.session == signingSession
      modifies coordinator, coordinator.relay
      ensures coordinator.Valid() && coordinator.queue == [] && (r.Ok? <==> HonestSigners(C, run, p))
      ensures r.Ok? ==>
        && r.value == HonestShares(C, run, p)[0]
        && sig.Some? && Verify(C, key.xonly, digest, sig.value)
    {
      sig := None;
      ghost var plan := if HonestSigners(C, run, p) then Some(HonestShares(C, run, p)) else None;
      var signed := SignAll(key, digest, selected, nonces, public, signers, run, p, plan);
      if signed.Err? {
        return Err(signed.error), None;
      }
      var shares := CollectShares(signingSession, HonestShares(C, run, p));
      HonestGroupSignature(C, run, p, public, shares.value);
      var aggregate := Aggregate(C, key, digest, public, shares.value, signers, config);
      if !Verify(C, key.xonly, digest, aggregate.value) {
        assert false;
        return Fail(SignatureRejected), None;
      }
      sig := Some(aggregate.value);
      r := Ok(shares.value[0]);
    }

    /** The run after the policy accepted the signers. */
    method SignAccepted(
      signingSession: string, digest: int, signers: seq<U16>, secrets: seq<T>, ghost ks: KeySet<T>, ghost p: seq<T>)
      returns (r: Result<SignatureShare<T>>, sig: Option<Signature<T>>)
      requires C.Valid() && Finished(ks) && LiesOn(C, ks, config, p) && !IsBlank(signingSession)
      requires |signers| > 0 && Distinct(signers) && AllRanked(signers, config.participants)
      requires |secrets| == |signers| && forall i :: 0 <= i < |secrets| ==> secrets[i] != C.F.zero
      modifies coordinator, coordinator.relay
      ensures Finished(ks)
      ensures r.Ok? <==> SignerCoefficients(C.F, signers, config).Ok? && Total(C.F, secrets) != C.F.zero
      ensures r.Ok? ==>
        && r.value.id == signers[0] && r.value.session == signingSession
        && sig.Some? && Verify(C, ks.groupKey.xonly, digest, sig.value)
    {
      StoredShares(C, ks, config, p, signers, shares);
      var selected := SelectShares(signers);
      var nonces := MakeNonces(signers, signingSession, secrets);
      assert Secrets(nonces) == secrets;
      var public := ExchangeNonces(nonces, signingSession);
      ghost var run := Run(ks, config, signers, nonces, signingSession, digest, ks.groupKey.xonly, false);
      r, sig := SignAndAggregate(
        groupKey.value, digest, selected.value, nonces, public.value, signers, signingSession, run, p);
    }

    /** A signing run: it succeeds exactly when the grouped policy accepts the signers, key
        generation has finished, the session has a name, the signers' system is solvable and
        the nonces do not cancel; then the aggregate verifies under the vault key. A finished
        vault stays finished, with an empty relay, whatever the outcome. */
    method SignAuthorization(
      signingSession: string, digest: int, signers: seq<U16>, secrets: seq<T>, ghost ks: KeySet<T>, ghost p: seq<T>)
      returns (r: Result<SignatureShare<T>>, sig: Option<Signature<T>>)
      requires Ready() && ConstructedGrouped(grouped) && HierarchicalFromGrouped(grouped) == Ok(config)
      requires groupKey.Some? ==> Finished(ks) && LiesOn(C, ks, config, p)
      requires |secrets| == |signers| && forall i :: 0 <= i < |secrets| ==> secrets[i] != C.F.zero
      modifies coordinator, coordinator.relay
      ensures r.Ok? <==>
        && GroupedResult(signers, grouped).Ok? && groupKey.Some? && !IsBlank(signingSession)
        && SignerCoefficients(C.F, signers, config).Ok? && Total(C.F, secrets) != C.F.zero
      ensures r.Ok? ==>
        && |signers| > 0 && r.value.id == signers[0] && r.value.session == signingSession
        && sig.Some? && Verify(C, ks.groupKey.xonly, digest, sig.value)
      ensures groupKey.Some? ==> Finished(ks)
    {
      sig := None;
      var accepted := ValidateGroupedSignerSet(signers, grouped);
      if accepted.Err? {
        return Err(accepted.error), None;
      }
      if groupKey.None? {
        return Fail(NotFinalized), None;
      }
      if IsBlank(signingSession) {
        return Err(EmptySessionId), None;
      }
      GroupedSignersAreMembers(grouped, config, signers);
      r, sig := SignAccepted(signingSession, digest, signers, secrets, ks, p);
    }
  }

  /** InMemoryVaultService::new: the grouped policy must convert, and the session needs a name. */
  method NewVault<T(==, !new)>(C: Curve<T>, grouped: GroupedConfig, session: string)
    returns (r: Result<VaultService<T>>)
    ensures HierarchicalFromGrouped(grouped).Err? ==> r == Err(HierarchicalFromGrouped(grouped).error)
    ensures HierarchicalFromGrouped(grouped).Ok? && IsBlank(session) ==> r == Err(EmptySessionId)
    ensures r.Ok? <==> HierarchicalFromGrouped(grouped).Ok? && !IsBlank(session)
    ensures r.Ok? ==>
      && fresh(r.value) && fresh(r.value.coordinator) && fresh(r.value.coordinator.relay)
      && r.value.C == C && r.value.grouped == grouped && r.value.session == session
      && HierarchicalFromGrouped(grouped) == Ok(r.value.config)
      && r.value.Idle() && r.value.states == map[] && r.value.shares == map[] && r.value.groupKey == None
    ensures r.Ok? && C.Valid() && ConstructedGrouped(grouped) ==> r.value.Ready()
    ensures ConstructedGrouped(grouped) && !IsBlank(session) ==> r.Ok?
  {
    if ConstructedGrouped(grouped) {
      GroupedArithmetic(grouped);
    }
    var config := HierarchicalFromGrouped(grouped);
    if config.Err? {
      return Err(config.error);
    }
    if IsBlank(session) {
      return Err(EmptySessionId);
    }
    var vault := new VaultService(C, grouped, config.value, session);
    r := Ok(vault);
  }

  // ---------------------------------------------------------------- signing bookkeeping

  /** Fresh nonces with the random secrets given (htss_nonce for every signer). */
  function MakeNonces<T>(signers: seq<U16>, session: string, secrets: seq<T>): (n: seq<LocalNonce<T>>)
    requires |secrets| == |signers|
    ensures |n| == |signers|
    ensures forall i :: 0 <= i < |n| ==> n[i] == LocalNonce(NoncePackage(signers[i], session, secrets[i]), secrets[i])
  {
    seq(|signers|, i requires 0 <= i < |signers| =>
      LocalNonce(NoncePackage(signers[i], session, secrets[i]), secrets[i]))
  }

  /** Names a turn of a loop; the facts of the turn are instantiated by it alone. */
  ghost predicate Turn(i: nat) { true }

  /** A run under the group key itself. */
  ghost predicate PlainRun<T>(
    run: Run<T>, key: GroupKey<T>, digest: int, nonces: seq<LocalNonce<T>>, signers: seq<U16>, c: HierarchicalConfig)
  {
    && run.ks.groupKey == key && run.config == c && run.signers == signers && run.nonces == nonces
    && run.digest == digest && run.output == key.xonly && !run.negateKey
  }

  ghost predicate HoldsShares<T>(ks: KeySet<T>, signers: seq<U16>, selected: seq<KeyShare<T>>) {
    && |selected| == |signers|
    && forall i :: 0 <= i < |signers| ==>
         signers[i] >= 1 && selected[i].id == signers[i] && FindShare(ks.shares, signers[i]) == Some(selected[i])
  }

  /** What the i-th signer's call returns in a plain run. */
  ghost function RunShare<T(!new)>(C: Curve<T>, run: Run<T>, share: KeyShare<T>, i: nat): Result<SignatureShare<T>>
    requires i < |run.nonces|
  {
    var public := PublicNonces(run.nonces);
    SignShare(C, run.ks.groupKey, run.digest, share, run.nonces[i], public, run.signers, run.config)
  }

  lemma SignerRefuses<T(!new)>(C: Curve<T>, run: Run<T>, p: seq<T>, share: KeyShare<T>, i: nat)
    requires C.Valid() && LiesOn(C, run.ks, run.config, p) && HonestNonces(C, run.nonces, run.signers, run.session)
    requires Distinct(run.signers) && i < |run.signers| && !HonestSigners(C, run, p)
    ensures RunShare(C, run, share, i).Err?
  {
    var public := PublicNonces(run.nonces);
    SignShareExact(
      C, run.digest, run.ks.groupKey.xonly, false, share, run.nonces[i], public, run.signers, run.config);
    if Total(C.F, Secrets(run.nonces)) == C.F.zero {
      CancelledNonces(C, run.nonces, run.signers, run.session);
    }
  }

  /** A signer produces its honest share exactly in an honest run. */
  lemma SignerDecides<T(!new)>(C: Curve<T>, run: Run<T>, p: seq<T>, share: KeyShare<T>, i: nat)
    requires C.Valid() && LiesOn(C, run.ks, run.config, p) && HonestNonces(C, run.nonces, run.signers, run.session)
    requires run.output == run.ks.groupKey.xonly && !run.negateKey && Distinct(run.signers) && i < |run.signers|
    requires share.id == run.signers[i] && FindShare(run.ks.shares, run.signers[i]) == Some(share)
    ensures
      var r := RunShare(C, run, share, i);
      && (r.Ok? <==> HonestSigners(C, run, p))
      && (r.Ok? ==> r.value == HonestShares(C, run, p)[i])
  {
    if HonestSigners(C, run, p) {
      HonestShare(C, run, p, i, run.signers, PublicNonces(run.nonces));
    } else {
      SignerRefuses(C, run, p, share, i);
    }
  }

  lemma GroupedSignersAreMembers(g: GroupedConfig, c: HierarchicalConfig, signers: seq<U16>)
    requires ConstructedGrouped(g) && HierarchicalFromGrouped(g) == Ok(c) && GroupedResult(signers, g).Ok?
    ensures |signers| > 0 && Distinct(signers) && AllRanked(signers, c.participants)
  {
    GroupedResultMeaning(signers, g);
    GroupedArithmetic(g);
  }

  /** The vault's share map holds what the key set says. */
  lemma StoredShares<T(!new)>(
    C: Curve<T>, ks: KeySet<T>, c: HierarchicalConfig, p: seq<T>, signers: seq<U16>, shares: map<U16, KeyShare<T>>)
    requires LiesOn(C, ks, c, p) && AllRanked(signers, c.participants)
    requires StoresAll(shares, c.participants, ks.shares)
    ensures forall i :: 0 <= i < |signers| ==> signers[i] in shares
    ensures HoldsShares(ks, signers, seq(|signers|, i requires 0 <= i < |signers| => shares[signers[i]]))
  {
    forall i | 0 <= i < |signers|
      ensures signers[i] in shares && signers[i] >= 1 && shares[signers[i]].id == signers[i]
      ensures FindShare(ks.shares, signers[i]) == Some(shares[signers[i]])
    {
      var j :| 0 <= j < |c.participants| && c.participants[j].id == signers[i];
      FindDealtShare(C.F, p, c.participants, j);
    }
  }

  // ---------------------------------------------------------------- key generation bookkeeping

  /** Members from j on still find all their packages, and nobody else's are left. */
  ghost predicate Awaiting<T>(
    ps: seq<RankedParticipant>, pending: seq<Round2Package<T>>, deals: seq<Round2Package<T>>, j: nat)
    requires j <= |ps|
  {
    && (forall i :: j <= i < |ps| ==> ForRecipient(pending, ps[i].id) == ForRecipient(deals, ps[i].id))
    && (forall i :: 0 <= i < |pending| ==> pending[i].recipient in Ids(ps)[j..])
  }

  lemma {:induction false} RecipientsInRoster<T(!new)>(
    C: Curve<T>, all: seq<Round1State<T>>, ps: seq<RankedParticipant>)
    ensures Awaiting(ps, AllDeals(C, all, ps), AllDeals(C, all, ps), 0)
  {
    assert Ids(ps)[0..] == Ids(ps);
    if |all| > 0 {
      RecipientsInRoster(C, all[..|all| - 1], ps);
      var d := DealShares(C, all[|all| - 1], ps);
      assert forall i :: 0 <= i < |d| ==> d[i].recipient == Ids(ps)[i];
    }
  }

  lemma DropRecipient<T>(
    ps: seq<RankedParticipant>, pending: seq<Round2Package<T>>, deals: seq<Round2Package<T>>, j: nat)
    requires Distinct(Ids(ps)) && j < |ps| && Awaiting(ps, pending, deals, j)
    ensures Awaiting(ps, NotForRecipient(pending, ps[j].id), deals, j + 1)
  {
    var rest := NotForRecipient(pending, ps[j].id);
    forall i | j + 1 <= i < |ps|
      ensures ForRecipient(rest, ps[i].id) == ForRecipient(deals, ps[i].id)
    {
      assert Ids(ps)[j] != Ids(ps)[i];
      OthersUntouched(pending, ps[j].id, ps[i].id);
    }
    GoneIsGone(pending, ps[j].id);
    forall i | 0 <= i < |rest|
      ensures rest[i].recipient in Ids(ps)[j + 1..]
    {
      OtherTail(Ids(ps), j, rest[i].recipient);
    }
  }

  lemma OtherTail(ids: seq<U16>, j: nat, id: U16)
    requires j < |ids| && id in ids[j..] && id != ids[j]
    ensures id in ids[j + 1..]
  {
    assert ids[j..] == [ids[j]] + ids[j + 1..];
  }

  lemma SomeoneAwaits<T>(pending: seq<Round2Package<T>>, ids: seq<U16>)
    requires forall i :: 0 <= i < |pending| ==> pending[i].recipient in ids
    ensures |pending| == 0 || |ids| > 0
  {
    if |pending| > 0 {
      assert pending[0].recipient in ids;
    }
  }

  lemma NothingAwaits<T>(ps: seq<RankedParticipant>, pending: seq<Round2Package<T>>, deals: seq<Round2Package<T>>)
    requires Awaiting(ps, pending, deals, |ps|)
    ensures pending == []
  {
    SomeoneAwaits(pending, Ids(ps)[|ps|..]);
  }

  /** The i-th state of the walk is the state of one roster member. */
  lemma WalkedState<T(!new)>(
    C: Curve<T>, c: HierarchicalConfig, coefficients: seq<seq<T>>, states: map<U16, Round1State<T>>, order: seq<nat>,
    i: nat)
    returns (j: nat)
    requires ConstructedHierarchical(c) && Drawn(C, c, coefficients)
    requires order == Sort(Ids(c.participants)) && i < |order|
    requires StoresAll(states, c.participants, HonestRound1(c.participants, coefficients))
    ensures j < |c.participants| && order[i] == c.participants[j].id && order[i] in states
    ensures states[order[i]] == HonestRound1(c.participants, coefficients)[j]
  {
    var ids: seq<nat> := Ids(c.participants);
    SortMultiset(ids);
    assert order[i] in multiset(ids);
    j :| 0 <= j < |ids| && ids[j] == order[i];
  }

  lemma HonestRound2Ok<T(!new)>(C: Curve<T>, c: HierarchicalConfig, coefficients: seq<seq<T>>, j: nat)
    requires ConstructedHierarchical(c) && Drawn(C, c, coefficients) && j < |c.participants|
    ensures
      var states := HonestRound1(c.participants, coefficients);
      Round2(C, states[j], Packages(states), c).Ok? && states[j].package in Packages(states)
  {
    var states := HonestRound1(c.participants, coefficients);
    HonestRound1Valid(C, c, coefficients);
    assert SenderIds(Packages(states))[j] == states[j].package.id;
    assert Packages(states)[j] == states[j].package;
  }

  ghost predicate WalkedOnce<T(!new)>(
    C: Curve<T>, s: Round1State<T>, r1: seq<Round1Package<T>>, c: HierarchicalConfig, id: nat)
  {
    && s.package.id == id >= 1 && s.package in r1 && s.secrets == s.package.commitments
    && Round2(C, s, r1, c).Ok?
  }

  lemma WalkedIsHonest<T(!new)>(
    C: Curve<T>, c: HierarchicalConfig, coefficients: seq<seq<T>>, states: map<U16, Round1State<T>>, order: seq<nat>,
    i: nat)
    requires ConstructedHierarchical(c) && Drawn(C, c, coefficients)
    requires order == Sort(Ids(c.participants)) && i < |order|
    requires StoresAll(states, c.participants, HonestRound1(c.participants, coefficients))
    ensures order[i] <= 65535 && order[i] in states
    ensures WalkedOnce(C, states[order[i]], Packages(HonestRound1(c.participants, coefficients)), c, order[i])
  {
    var j := WalkedState(C, c, coefficients, states, order, i);
    HonestRound2Ok(C, c, coefficients, j);
  }

  /** Walking the states in ascending id order is walking all of them once. */
  lemma SortedOrder<T(!new)>(
    C: Curve<T>, c: HierarchicalConfig, coefficients: seq<seq<T>>, states: map<U16, Round1State<T>>, order: seq<nat>)
    requires ConstructedHierarchical(c) && Drawn(C, c, coefficients) && order == Sort(Ids(c.participants))
    requires StoresAll(states, c.participants, HonestRound1(c.participants, coefficients))
    ensures forall i :: 0 <= i < |order| ==> order[i] <= 65535 && order[i] in states
    ensures forall i :: 0 <= i < |order| ==>
      WalkedOnce(C, InOrder(order, states)[i], Packages(HonestRound1(c.participants, coefficients)), c, order[i])
    ensures Distinct(order) && |order| == |c.participants|
  {
    SortMultiset(Ids(c.participants));
    DistinctOrder<nat>(Ids(c.participants), order);
    forall i | 0 <= i < |order|
      ensures order[i] <= 65535 && order[i] in states
      ensures WalkedOnce(C, states[order[i]], Packages(HonestRound1(c.participants, coefficients)), c, order[i])
    {
      WalkedIsHonest(C, c, coefficients, states, order, i);
    }
  }

  lemma WalkIsHonest<T(!new)>(
    C: Curve<T>, c: HierarchicalConfig, r1: seq<Round1Package<T>>, all: seq<Round1State<T>>, order: seq<nat>)
    requires Distinct(order) && |order| == |c.participants| == |all|
    requires forall i :: 0 <= i < |all| ==> WalkedOnce(C, all[i], r1, c, order[i])
    ensures HonestStates(C, all, r1, c)
  {
  }
}
