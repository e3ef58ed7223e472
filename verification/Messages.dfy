/** Protocol messages of dkgkit-core and their Nostr envelopes (dkgkit-nostr). */
module Messages {
  import opened Wrappers

  datatype Kind =
    | SessionManifest | FrostDkgRound1 | FrostDkgRound2 | HtssDkgRound1 | HtssDkgRound2
    | FrostSigningNonce | FrostSignatureShare | HtssSigningNonce | HtssSignatureShare
    | Custom(name: string)

  datatype Message<P> = Message(
    version: string, session: string, sender: U16, recipient: Option<U16>, kind: Kind, payload: P)

  const PROTOCOL_VERSION := "dkgkit/0.1"
  const EVENT_KIND: nat := 30333
  const APP_TAG := "dkgkit"

  function Broadcast<P>(session: string, sender: U16, kind: Kind, payload: P): Message<P> {
    Message(PROTOCOL_VERSION, session, sender, None, kind, payload)
  }

  function Direct<P>(session: string, sender: U16, recipient: U16, kind: Kind, payload: P): Message<P> {
    Message(PROTOCOL_VERSION, session, sender, Some(recipient), kind, payload)
  }

  /** ProtocolMessage::is_for */
  predicate IsFor<P>(m: Message<P>, id: U16) { m.recipient.None? || m.recipient.value == id }

  function AsStr(k: Kind): string {
    match k
    case SessionManifest => "session_manifest"
    case FrostDkgRound1 => "frost_dkg_round1"
    case FrostDkgRound2 => "frost_dkg_round2"
    case HtssDkgRound1 => "htss_dkg_round1"
    case HtssDkgRound2 => "htss_dkg_round2"
    case FrostSigningNonce => "frost_signing_nonce"
    case FrostSignatureShare => "frost_signature_share"
    case HtssSigningNonce => "htss_signing_nonce"
    case HtssSignatureShare => "htss_signature_share"
    case Custom(name) => name
  }

  function FromStr(s: string): Kind {
    if s == "session_manifest" then SessionManifest
    else if s == "frost_dkg_round1" || s == "round1" then FrostDkgRound1
    else if s == "frost_dkg_round2" || s == "round2" then FrostDkgRound2
    else if s == "htss_dkg_round1" then HtssDkgRound1
    else if s == "htss_dkg_round2" then HtssDkgRound2
    else if s == "frost_signing_nonce" || s == "nonce" then FrostSigningNonce
    else if s == "frost_signature_share" || s == "signature_share" then FrostSignatureShare
    else if s == "htss_signing_nonce" then HtssSigningNonce
    else if s == "htss_signature_share" then HtssSignatureShare
    else Custom(s)
  }

  /** The texts that stand for a named kind. */
  const KIND_NAMES: set<string> := {
    "session_manifest", "frost_dkg_round1", "round1", "frost_dkg_round2", "round2", "htss_dkg_round1",
    "htss_dkg_round2", "frost_signing_nonce", "nonce", "frost_signature_share", "signature_share",
    "htss_signing_nonce", "htss_signature_share"}

  /** Kinds survive the trip through text, except a custom kind that is spelled like a named one. */
  lemma KindRoundTrip(k: Kind)
    ensures FromStr(AsStr(k)) == k <==> !(k.Custom? && k.name in KIND_NAMES)
  {
  }

  /** Unicode White_Space, as str::trim removes it. */
  predicate IsSpace(c: char) {
    var n := c as int;
    9 <= n <= 13 || n == 32 || n == 0x85 || n == 0xA0 || n == 0x1680 || 0x2000 <= n <= 0x200A
      || n == 0x2028 || n == 0x2029 || n == 0x202F || n == 0x205F || n == 0x3000
  }

  predicate IsBlank(s: string) { forall i :: 0 <= i < |s| ==> IsSpace(s[i]) }

  // ---------------------------------------------------------------- envelopes

  /** Event content: a JSON text of a message, or text that does not decode. Texts that
      differ in spelling alone (white space, field order) decode to the same message; the
      encoder writes spelling 0. */
  datatype Content<P> = Json(message: Message<P>, spelling: nat) | Undecodable

  datatype Event<P> = Event(
    kind: nat, app: string, session: string, sender: U16, recipient: Option<U16>,
    messageKind: string, content: Content<P>)

  function FromMessage<P>(m: Message<P>): Event<P> {
    Event(EVENT_KIND, APP_TAG, m.session, m.sender, m.recipient, AsStr(m.kind), Json(m, 0))
  }

  function ValidateMetadata<P>(e: Event<P>): Result<()> {
    if e.kind != EVENT_KIND then Fail(MetadataMismatch)
    else if e.app != APP_TAG then Fail(MetadataMismatch)
    else if IsBlank(e.session) then Err(EmptySessionId)
    else if e.sender == 0 then Err(InvalidParticipantId(0))
    else if e.recipient == Some(0) then Err(InvalidParticipantId(0))
    else
      var k := FromStr(e.messageKind);
      if k.Custom? && IsBlank(k.name) then Err(EmptyMessageKind) else Ok(())
  }

  function ToMessage<P>(e: Event<P>): Result<Message<P>> {
    var _ :- ValidateMetadata(e);
    if e.content.Undecodable? then Err(Serialization)
    else
      var m := e.content.message;
      if m.session != e.session then Fail(SessionMismatch)
      else if m.sender != e.sender then Fail(SenderMismatch)
      else if m.recipient != e.recipient then Fail(RecipientMismatch)
      else if AsStr(m.kind) != e.messageKind then Fail(UnexpectedKind)
      else Ok(m)
  }

  /** A message that its envelope can carry. */
  predicate WellFormed<P>(m: Message<P>) {
    && !IsBlank(m.session) && m.sender != 0 && m.recipient != Some(0)
    && !(m.kind.Custom? && IsBlank(m.kind.name))
  }

  lemma BlankKind(k: Kind)
    ensures (FromStr(AsStr(k)).Custom? && IsBlank(FromStr(AsStr(k)).name)) <==> (k.Custom? && IsBlank(k.name))
  {
    if k.Custom? && !FromStr(k.name).Custom? {
      assert !IsSpace(k.name[0]);
    }
  }

  /** The envelope of m, with its content spelled in some way. */
  ghost predicate IsEnvelope<P>(e: Event<P>, m: Message<P>) {
    e.content.Json? && e == FromMessage(m).(content := Json(m, e.content.spelling))
  }

  /** The envelope is exact: an event decodes to m if and only if it is an envelope of m and
      m is well-formed. No metadata and no field of m can be altered without being noticed. */
  lemma EnvelopeExact<P>(e: Event<P>, m: Message<P>)
    ensures ToMessage(e) == Ok(m) <==> IsEnvelope(e, m) && WellFormed(m)
  {
    BlankKind(m.kind);
  }

  lemma EnvelopeRoundTrip<P>(m: Message<P>)
    ensures ToMessage(FromMessage(m)).Ok? <==> WellFormed(m)
    ensures WellFormed(m) ==> ToMessage(FromMessage(m)) == Ok(m)
  {
    EnvelopeExact(FromMessage(m), m);
  }
}
