/**
 Errors as Go chains them, and what each layer makes of a mutation's outcome. What decides the exit
 code in the end is which of these errors keep their cause and which drop it.
 */
module Outcomes {
  import opened Bytes

  datatype Operation = Create | Claim | Revoke

  datatype Code =
    | InvalidCommand | InvalidOption | InvalidInput | InvalidCredentialSource
    | LocalIoFailed | SecretUnavailable | PassphraseFailed | PlaintextInvalid | ServerRejected
    | NetworkUnavailable | RateLimitedCode | ServiceUnavailable | UnsupportedSecret
    | CreateOutcomeUnknown | ClaimOutcomeUnknown | RevokeOutcomeUnknown | Internal
    | NoCode

  datatype Err =
    | Canceled // the context's cancellation
    | PromptInterrupted // Ctrl+C or end of input at a prompt
    | Leaf // any other error without a cause
    | Wrapped(inner: Err) // a transport error around its cause
    | Unavailable
    | OutcomeUnknown(op: Operation)
    | Temporary(failure: Option<Err>, retryAfter: Option<nat>)
    | RateLimited(retryAfter: Option<nat>)
    | Rejected(status: int)
    | Command(exit: int, code: Code, cause: Option<Err>)

  /** What the error keeps of its cause: outcome-unknown, rate-limited and rejected keep nothing. */
  function Unwrap(e: Err): Option<Err> {
    match e
    case Wrapped(inner) => Some(inner)
    case Temporary(failure, _) => failure
    case Command(_, _, cause) => cause
    case _ => None
  }

  predicate Is(e: Err, target: Err) {
    e == target || match Unwrap(e) case Some(inner) => Is(inner, target) case None => false
  }

  datatype Kind = IsCommand | IsUnknown | IsRateLimited | IsTemporary | IsRejected

  predicate HasKind(e: Err, kind: Kind) {
    match kind
    case IsCommand => e.Command?
    case IsUnknown => e.OutcomeUnknown?
    case IsRateLimited => e.RateLimited?
    case IsTemporary => e.Temporary?
    case IsRejected => e.Rejected?
  }

  /** The first error of a kind along the chain. */
  function FirstOf(e: Err, kind: Kind): (r: Option<Err>)
    ensures r.Some? ==> HasKind(r.value, kind)
  {
    if HasKind(e, kind) then Some(e)
    else match Unwrap(e) case Some(inner) => FirstOf(inner, kind) case None => None
  }

  // ----- the network layer -----

  /** Once the headers are out nobody knows; before that the cause is kept. */
  function MutationError(op: Operation, wrote: bool, cause: Err): Err {
    if wrote then OutcomeUnknown(op) else Temporary(Some(cause), None)
  }

  const NOT_FOUND := 404
  const TOO_MANY := 429
  const UNAVAILABLE := 503
  const BAD_REQUEST := 400
  const TOO_LARGE := 413
  const OK := 200

  /** The statuses documented as proof that the mutation did not happen. */
  predicate Definitive(op: Operation, status: int) {
    || status == TOO_MANY || status == UNAVAILABLE
    || (status == NOT_FOUND && op != Create)
    || ((status == BAD_REQUEST || status == TOO_LARGE) && op == Create)
  }

  function ClassifyStatus(op: Operation, status: int, retryAfter: Option<nat>): Err {
    if status == NOT_FOUND && (op == Claim || op == Revoke) then Unavailable
    else if status == TOO_MANY then RateLimited(retryAfter)
    else if status == UNAVAILABLE then Temporary(None, retryAfter)
    else if (status == BAD_REQUEST || status == TOO_LARGE) && op == Create then Rejected(status)
    else OutcomeUnknown(op)
  }

  // ----- the command layer -----

  function UnknownCode(op: Operation): Code {
    match op
    case Create => CreateOutcomeUnknown
    case Claim => ClaimOutcomeUnknown
    case Revoke => RevokeOutcomeUnknown
  }

  function MapApiError(e: Err): Err {
    if Is(e, Unavailable) then Command(4, SecretUnavailable, Some(e))
    else if FirstOf(e, IsUnknown).Some? then
      var unknown := FirstOf(e, IsUnknown).value;
      Command(9, if unknown.OutcomeUnknown? then UnknownCode(unknown.op) else Internal, Some(e))
    else if FirstOf(e, IsRateLimited).Some? then Command(7, RateLimitedCode, Some(e))
    else if FirstOf(e, IsTemporary).Some? then
      var temporary := FirstOf(e, IsTemporary).value;
      var unreached := temporary.Temporary? && temporary.failure.Some?;
      Command(7, if unreached then NetworkUnavailable else ServiceUnavailable, Some(e))
    else if FirstOf(e, IsRejected).Some? then Command(6, ServerRejected, Some(e))
    else Command(10, Internal, Some(e))
  }

  // ----- the exit code -----

  /** The closed registry of machine codes. */
  function RegisteredExit(code: Code): Option<int> {
    match code
    case InvalidCommand | InvalidOption | InvalidInput | InvalidCredentialSource => Some(2)
    case LocalIoFailed => Some(3)
    case SecretUnavailable => Some(4)
    case PassphraseFailed | PlaintextInvalid => Some(5)
    case ServerRejected => Some(6)
    case NetworkUnavailable | RateLimitedCode | ServiceUnavailable => Some(7)
    case UnsupportedSecret => Some(8)
    case CreateOutcomeUnknown | ClaimOutcomeUnknown | RevokeOutcomeUnknown => Some(9)
    case Internal => Some(10)
    case NoCode => None
  }

  /** How output stands: whether errors are printed as JSON, and whether that can be written. */
  datatype Console = Console(json: bool, jsonWritable: bool)

  function Printed(exit: int, c: Console): int {
    if c.json && !c.jsonWritable then 3 else exit
  }

  function Report(err: Option<Err>, c: Console): int {
    match err
    case None => 0
    case Some(e) =>
      match FirstOf(e, IsCommand)
      case None => Printed(10, c)
      case Some(command) =>
        if command.Command? && command.exit >= 128 then command.exit
        else if command.Command? && RegisteredExit(command.code) == Some(command.exit) then Printed(command.exit, c)
        else Printed(10, c)
  }

  function ReportAfterSignal(err: Option<Err>, signalExit: int, c: Console): int {
    match err
    case None => signalExit
    case Some(e) =>
      if Is(e, Canceled) || Is(e, PromptInterrupted) then signalExit
      else
        match FirstOf(e, IsCommand)
        case Some(command) =>
          if command.Command? && command.exit >= 128 then signalExit else Report(err, c)
        case None => Report(err, c)
  }

  // ----- what the layers do together -----

  /** An error of the transport: its chain ends in cancellation or in something opaque. */
  predicate IsTransport(e: Err) {
    match e
    case Wrapped(inner) => IsTransport(inner)
    case Canceled => true
    case Leaf => true
    case _ => false
  }

  lemma TransportHasNoKind(e: Err, kind: Kind)
    requires IsTransport(e)
    ensures FirstOf(e, kind) == None
  {
    if e.Wrapped? {
      TransportHasNoKind(e.inner, kind);
    }
  }

  lemma TransportIsOnlyCanceled(e: Err, target: Err)
    requires IsTransport(e) && (target.Unavailable? || target.PromptInterrupted?)
    ensures !Is(e, target)
  {
    if e.Wrapped? {
      TransportIsOnlyCanceled(e.inner, target);
    }
  }

  lemma UnsentMapsToNetwork(cause: Err)
    requires IsTransport(cause)
    ensures var e := Temporary(Some(cause), None); MapApiError(e) == Command(7, NetworkUnavailable, Some(e))
  {
    var e := Temporary(Some(cause), None);
    TransportIsOnlyCanceled(cause, Unavailable);
    assert !Is(e, Unavailable);
    TransportHasNoKind(cause, IsUnknown);
    assert FirstOf(e, IsUnknown) == None;
    TransportHasNoKind(cause, IsRateLimited);
    assert FirstOf(e, IsRateLimited) == None;
    assert FirstOf(e, IsTemporary) == Some(e);
  }

  lemma ChainThroughCommand(e: Err, exit: int, code: Code, target: Err)
    requires !target.Command? && !target.Temporary?
    ensures Is(Command(exit, code, Some(Temporary(Some(e), None))), target) <==> Is(e, target)
  {
    var t := Temporary(Some(e), None);
    assert Is(t, target) <==> Is(e, target);
  }

  /** The signal reaches the exit code exactly when the cause was kept: never once headers were written. */
  lemma FailedRequestExit(op: Operation, wrote: bool, cause: Err, signalExit: int, c: Console)
    requires IsTransport(cause)
    ensures var e := Some(MapApiError(MutationError(op, wrote, cause)));
            && Report(e, c) == Printed(if wrote then 9 else 7, c)
            && ReportAfterSignal(e, signalExit, c) ==
                 if wrote then Printed(9, c) else if Is(cause, Canceled) then signalExit else Printed(7, c)
  {
    if !wrote {
      UnsentMapsToNetwork(cause);
      TransportIsOnlyCanceled(cause, PromptInterrupted);
      ChainThroughCommand(cause, 7, NetworkUnavailable, PromptInterrupted);
      ChainThroughCommand(cause, 7, NetworkUnavailable, Canceled);
    }
  }

  function DefinitiveExit(op: Operation, status: int): int {
    if status == NOT_FOUND then 4 else if status == TOO_MANY || status == UNAVAILABLE then 7 else 6
  }

  /** An answer decides the exit code on its own; a signal changes nothing. */
  lemma AnsweredExit(op: Operation, status: int, retryAfter: Option<nat>, signalExit: int, c: Console)
    ensures var e := Some(MapApiError(ClassifyStatus(op, status, retryAfter)));
            var exit := Printed(if Definitive(op, status) then DefinitiveExit(op, status) else 9, c);
            Report(e, c) == exit && ReportAfterSignal(e, signalExit, c) == exit
  {
  }

  /** What the command itself may report, before the request or after a confirmed one. */
  predicate IsLocal(e: Err) {
    e.Command? && (e.exit == 130 || (e.exit in {2, 3, 5, 8, 10} && RegisteredExit(e.code) == Some(e.exit)))
  }

  lemma LocalExit(e: Err, signalExit: int, c: Console)
    requires IsLocal(e)
    ensures Report(Some(e), c) in {130, 2, 3, 5, 8, 10}
    ensures ReportAfterSignal(Some(e), signalExit, c) in {signalExit, 2, 3, 5, 8, 10}
  {
  }
}
