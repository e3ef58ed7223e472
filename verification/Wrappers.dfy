/** 16-bit integers, results and errors (DkgKitError), with message texts reduced to their reasons. */
module Wrappers {
  type U16 = n: nat | n <= 65535

  datatype Option<+T> = None | Some(value: T)

  datatype Reason =
    | EmptyPointSet | ZeroXCoordinate | SystemNotSquare | SingularSystem
    | NotEnoughSigners | RankRule(position: nat, rank: nat) | GroupQuorum(rank: nat)
    | DuplicateRank(rank: nat) | RankTotalMismatch(rank: nat) | UndeclaredRank(rank: nat)
    | NotInSignerSet(id: nat) | SessionMismatch | SetMismatch | RankMismatch(id: nat)
    | ParticipantMismatch | InvalidPoint | ZeroAggregate | CommitmentCount(id: nat)
    | MissingOwnPackage(id: nat) | CoefficientCount(id: nat) | WrongRecipient(id: nat)
    | CommitmentCheckFailed(id: nat) | MissingCommitment(id: nat) | GroupKeyMismatch
    | ZeroSecret | InvalidXOnly | SignatureRejected | UnexpectedKind | NotBroadcast
    | SenderMismatch | RecipientMismatch | MetadataMismatch
    | MissingNonce | MissingLocalNonce | InvalidNetwork | InvalidIndex | InvalidTweak | ZeroTweak
    | PointAtInfinity | ChildMismatch | NotFinalized

  datatype Error =
    | InvalidThreshold(threshold: nat, participants: nat)
    | InvalidParticipantId(id: nat)
    | DuplicateParticipantId(id: nat)
    | ParticipantOutOfRange(id: nat, participants: nat)
    | MissingRankedParticipant(id: nat)
    | EmptySessionId
    | EmptyMessageKind
    | Serialization
    | Panic
    | Protocol(reason: Reason)

  datatype Result<+T> = Ok(value: T) | Err(error: Error) {
    predicate IsFailure() { Err? }
    function PropagateFailure<U>(): Result<U>
      requires Err?
    {
      Err(error)
    }
    function Extract(): T
      requires Ok?
    {
      value
    }
  }

  function Fail<T>(reason: Reason): Result<T> { Err(Protocol(reason)) }
}
