/**
 One mutation under signals, as interleaved steps of the main routine, the dispatched command, the
 network and whoever sends signals. Each step is one atomic action of one of them.
 */
module SignalProtocol {
  import opened Bytes
  import opened Outcomes

  datatype Signal = Interrupt | Terminate

  function SignalExit(sig: Signal): int {
    if sig == Terminate then 143 else 130
  }

  /** Where the main routine stands. `joined` tells an exit behind the dispatch from one before it. */
  datatype Main =
    | Starting
    | Waiting
    | TookSignal(sig: Signal)
    | Joining(sig: Signal)
    | Exited(code: int, joined: bool, after: Option<Signal>)

  /** Where the dispatched command stands. */
  datatype Dispatch =
    | NotStarted
    | Preparing
    | InFlight
    | ReadingBody
    | Delivering
    | Finished(err: Option<Err>)

  datatype State = State(
    main: Main,
    dispatch: Dispatch,
    op: Operation,
    console: Console,
    signals: seq<Signal>, // sent and not yet taken
    closed: bool, // an injected signal source may be closed
    canceled: bool,
    requests: nat, // requests handed to the transport
    sent: bool, // the request headers left the process
    wrote: bool, // the transport reported them written, before the request returned
    status: Option<int>,
    confirmed: bool) // a complete valid success was read

  datatype Step =
    | SignalArrives(sig: Signal)
    | SignalsClose
    | StartTakesSignal
    | StartDispatches
    | PreparationFails(reason: Err)
    | SendsRequest
    | HeadersSent
    | HeadersReported
    | RequestFails(cause: Err)
    | AnswerArrives(status: int, retryAfter: Option<nat>)
    | BodyIncomplete
    | BodyComplete
    | CommandReturns(err: Option<Err>)
    | MainTakesResult
    | MainTakesSignal
    | MainFindsResult
    | MainCancels
    | MainJoins

  /** No transport error tells of a cancellation that did not happen. */
  predicate Honest(s: State, e: Err) {
    Is(e, Canceled) ==> s.canceled
  }

  predicate Enabled(s: State, step: Step) {
    match step
    case SignalArrives(_) => !s.closed
    case SignalsClose => !s.closed
    case StartTakesSignal => s.main.Starting? && s.signals != []
    case StartDispatches => s.main.Starting? && s.signals == []
    case PreparationFails(e) => s.dispatch.Preparing? && IsLocal(e) && Honest(s, e)
    case SendsRequest => s.dispatch.Preparing?
    case HeadersSent => s.requests > 0 && !s.sent && !s.main.Exited?
    case HeadersReported => s.dispatch.InFlight? && !s.wrote
    case RequestFails(cause) => s.dispatch.InFlight? && IsTransport(cause) && Honest(s, cause)
    case AnswerArrives(_, _) => s.dispatch.InFlight? && s.sent
    case BodyIncomplete => s.dispatch.ReadingBody?
    case BodyComplete => s.dispatch.ReadingBody?
    case CommandReturns(err) => s.dispatch.Delivering? && (err.Some? ==> IsLocal(err.value))
    case MainTakesResult => s.main.Waiting? && s.dispatch.Finished?
    case MainTakesSignal => s.main.Waiting? && s.signals != []
    case MainFindsResult => s.main.TookSignal? && s.dispatch.Finished?
    case MainCancels => s.main.TookSignal? && !s.dispatch.Finished?
    case MainJoins => s.main.Joining? && s.dispatch.Finished?
  }

  function Next(s: State, step: Step): State
    requires Enabled(s, step)
  {
    match step
    case SignalArrives(sig) => s.(signals := s.signals + [sig])
    case SignalsClose => s.(closed := true)
    case StartTakesSignal =>
      s.(main := Exited(SignalExit(s.signals[0]), false, Some(s.signals[0])), signals := s.signals[1..],
          canceled := true)
    case StartDispatches => s.(main := Waiting, dispatch := Preparing)
    case PreparationFails(e) => s.(dispatch := Finished(Some(e)))
    case SendsRequest => s.(dispatch := InFlight, requests := s.requests + 1)
    case HeadersSent => s.(sent := true)
    case HeadersReported => s.(wrote := true)
    case RequestFails(cause) => s.(dispatch := Finished(Some(MapApiError(MutationError(s.op, s.wrote, cause)))))
    case AnswerArrives(status, retryAfter) =>
      if status == OK then s.(dispatch := ReadingBody, status := Some(status))
      else s.(dispatch := Finished(Some(MapApiError(ClassifyStatus(s.op, status, retryAfter)))), status := Some(status))
    case BodyIncomplete => s.(dispatch := Finished(Some(MapApiError(OutcomeUnknown(s.op)))))
    case BodyComplete => s.(dispatch := Delivering, confirmed := true)
    case CommandReturns(err) => s.(dispatch := Finished(err))
    case MainTakesResult => s.(main := Exited(Report(s.dispatch.err, s.console), true, None))
    case MainTakesSignal => s.(main := TookSignal(s.signals[0]), signals := s.signals[1..])
    case MainFindsResult => s.(main := Exited(Report(s.dispatch.err, s.console), true, None))
    case MainCancels => s.(main := Joining(s.main.sig), canceled := true)
    case MainJoins =>
      s.(main := Exited(ReportAfterSignal(s.dispatch.err, SignalExit(s.main.sig), s.console), true, Some(s.main.sig)))
  }

  /** A run: every step is enabled where it is taken. */
  ghost predicate IsRun(s: State, steps: seq<Step>, end: State)
    decreases |steps|
  {
    if steps == [] then s == end else Enabled(s, steps[0]) && IsRun(Next(s, steps[0]), steps[1..], end)
  }

  /** Before anything happened; signals may already be waiting. */
  predicate Initial(s: State) {
    && s.main.Starting? && s.dispatch.NotStarted? && !s.canceled
    && s.requests == 0 && !s.sent && !s.wrote && s.status.None? && !s.confirmed
  }

  // ----- what holds in every reachable state -----

  /** Nothing proves what the server did. */
  predicate Unproven(s: State) {
    !s.confirmed && !(s.status.Some? && Definitive(s.op, s.status.value))
  }

  /** Headers went out, and nothing proves what the server did. */
  predicate Undetermined(s: State) {
    s.sent && Unproven(s)
  }

  /**
   The command has been told that headers went out: the transport reported them written in time, or
   an answer came. (The report is about a buffer that need not have left the process.)
   */
  predicate ToldSent(s: State) {
    s.wrote || s.status.Some?
  }

  /** The error the command ends with tells what is known of the mutation. */
  ghost predicate ErrorTells(s: State, err: Option<Err>) {
    if s.confirmed then err.Some? ==> IsLocal(err.value)
    else
      err.Some? &&
      forall signalExit: int ::
        ExitTells(s, Report(err, s.console), ReportAfterSignal(err, signalExit, s.console), signalExit)
  }

  predicate ExitTells(s: State, exit: int, afterSignal: int, signalExit: int) {
    if ToldSent(s) && Unproven(s) then exit == afterSignal == Printed(9, s.console)
    else if ToldSent(s) then
      s.status.Some? && exit == afterSignal == Printed(DefinitiveExit(s.op, s.status.value), s.console)
    else exit in {130, 2, 3, 5, 7, 8, 10} && afterSignal in {signalExit, 2, 3, 5, 7, 8, 10}
  }

  ghost predicate Invariant(s: State) {
    && (s.main.Starting? ==> s.dispatch.NotStarted?)
    && (s.dispatch.NotStarted? ==> s.requests == 0)
    && (s.dispatch.Preparing? ==> s.requests == 0)
    && s.requests <= 1
    && (s.requests == 0 ==> !s.sent && !s.wrote)
    && (s.status.Some? ==> s.sent)
    && (s.confirmed ==> s.status == Some(OK))
    && (s.dispatch.InFlight? ==> s.requests == 1 && s.status.None?)
    && (s.dispatch.ReadingBody? ==> s.status == Some(OK) && !s.confirmed)
    && (s.dispatch.Delivering? ==> s.confirmed)
    && (!s.dispatch.Delivering? && !s.dispatch.Finished? ==> !s.confirmed)
    && (s.dispatch.Finished? ==> ErrorTells(s, s.dispatch.err))
    && match s.main {
         case Exited(code, joined, after) =>
           if joined then
             && s.dispatch.Finished?
             && code == (if after.Some? then ReportAfterSignal(s.dispatch.err, SignalExit(after.value), s.console)
                         else Report(s.dispatch.err, s.console))
           else s.dispatch.NotStarted? && after.Some? && code == SignalExit(after.value)
         case _ => true
       }
  }

  lemma RequestFailureTells(s: State, cause: Err)
    requires Invariant(s) && Enabled(s, RequestFails(cause))
    ensures ErrorTells(s, Some(MapApiError(MutationError(s.op, s.wrote, cause))))
  {
    hide Report, ReportAfterSignal, MapApiError, MutationError;
    forall signalExit: int {
      FailedRequestExit(s.op, s.wrote, cause, signalExit, s.console);
    }
  }

  lemma AnswerTells(s: State, status: int, retryAfter: Option<nat>)
    requires !s.confirmed && s.status == Some(status)
    ensures ErrorTells(s, Some(MapApiError(ClassifyStatus(s.op, status, retryAfter))))
  {
    hide Report, ReportAfterSignal, MapApiError, ClassifyStatus;
    forall signalExit: int {
      AnsweredExit(s.op, status, retryAfter, signalExit, s.console);
    }
  }

  lemma LocalFailureTells(s: State, e: Err)
    requires IsLocal(e) && !ToldSent(s) && !s.confirmed
    ensures ErrorTells(s, Some(e))
  {
    hide Report, ReportAfterSignal;
    forall signalExit: int {
      LocalExit(e, signalExit, s.console);
    }
  }

  lemma StepKeepsInvariant(s: State, step: Step)
    requires Invariant(s) && Enabled(s, step)
    ensures Invariant(Next(s, step))
  {
    hide Report, ReportAfterSignal, MapApiError, MutationError, ClassifyStatus, ErrorTells;
    var t := Next(s, step);
    match step {
      case PreparationFails(e) => LocalFailureTells(t, e);
      case RequestFails(cause) =>
        RequestFailureTells(s, cause);
        SameKnowledge(s, t, ErrorOf(t));
      case AnswerArrives(status, retryAfter) =>
        if status != OK {
          AnswerTells(t, status, retryAfter);
        }
      case BodyIncomplete =>
        assert ClassifyStatus(s.op, OK, None) == OutcomeUnknown(s.op) by { OkIsNoProof(s.op); }
        AnswerTells(t, OK, None);
      case CommandReturns(err) => ConfirmedTells(t, err);
      case _ => SameKnowledge(s, t, ErrorOf(s));
    }
  }

  function ErrorOf(s: State): Option<Err> {
    if s.dispatch.Finished? then s.dispatch.err else None
  }

  lemma OkIsNoProof(op: Operation)
    ensures ClassifyStatus(op, OK, None) == OutcomeUnknown(op)
  {
  }

  lemma ConfirmedTells(s: State, err: Option<Err>)
    requires s.confirmed && (err.Some? ==> IsLocal(err.value))
    ensures ErrorTells(s, err)
  {
  }

  lemma SameKnowledge(s: State, t: State, err: Option<Err>)
    ensures ErrorTells(s, err) && s.op == t.op && s.console == t.console
            && s.wrote == t.wrote && s.status == t.status && s.confirmed == t.confirmed
            ==> ErrorTells(t, err)
  {
    hide Report, ReportAfterSignal;
    if ErrorTells(s, err) && s.op == t.op && s.console == t.console
       && s.wrote == t.wrote && s.status == t.status && s.confirmed == t.confirmed && !s.confirmed {
      forall signalExit: int
        ensures ExitTells(t, Report(err, t.console), ReportAfterSignal(err, signalExit, t.console), signalExit)
      {
        assert ExitTells(s, Report(err, s.console), ReportAfterSignal(err, signalExit, s.console), signalExit);
      }
    }
  }

  lemma {:induction false} RunKeepsInvariant(s: State, steps: seq<Step>, end: State)
    requires Invariant(s) && IsRun(s, steps, end)
    ensures Invariant(end)
    decreases |steps|
  {
    hide Invariant, Next, Enabled;
    if steps != [] {
      StepKeepsInvariant(s, steps[0]);
      RunKeepsInvariant(Next(s, steps[0]), steps[1..], end);
    }
  }

  // ----- the guarantees -----

  /** In every interleaving: what an exit says about the mutation. */
  lemma OutcomesSurviveSignals(s: State, steps: seq<Step>, end: State)
    requires Initial(s) && IsRun(s, steps, end) && end.main.Exited?
    // at most one request, and the process leaves only behind the command, or before it began
    ensures end.requests <= 1
    ensures end.main.joined ==> end.dispatch.Finished?
    ensures !end.main.joined ==> end.requests == 0 && end.main.after.Some?
    ensures !end.main.joined ==> end.main.code == if end.main.after == Some(Terminate) then 143 else 130
    // an outcome nobody can know is reported as such, cancelled or not, exactly when the command
    // was told in time that headers went out
    ensures Unproven(end) && ToldSent(end) ==> end.main.code == Printed(9, end.console)
    ensures end.main.code == 9 <==> Unproven(end) && ToldSent(end) && Printed(9, end.console) == 9
    // a definitive refusal is reported as such, cancelled or not
    ensures end.sent && !end.confirmed && !Undetermined(end) ==>
              end.status.Some? && end.main.code == Printed(DefinitiveExit(end.op, end.status.value), end.console)
    ensures end.main.code == 4 ==> end.status == Some(NOT_FOUND) && end.op != Create
    // a signal exit after transmission means that the mutation was confirmed, or that the
    // transport's report came too late; success always means that it was confirmed
    ensures end.main.code in {130, 143} && end.sent ==> end.confirmed || !ToldSent(end)
    ensures end.main.code == 0 ==> end.confirmed
    // a command without an error was confirmed; it exits with success, or with the code of a signal
    // that came before its end
    ensures end.main.joined && end.dispatch.err == None ==>
              && end.confirmed
              && end.main.code ==
                   if end.main.after == None then 0 else if end.main.after == Some(Terminate) then 143 else 130
    // and one with an error reports it, unless a signal came before
    ensures end.main.joined && end.main.after == None ==> end.main.code == Report(end.dispatch.err, end.console)
  {
    hide Report, ReportAfterSignal, IsRun;
    RunKeepsInvariant(s, steps, end);
    if end.main.joined {
      ReadExit(end);
      WithoutError(end.console);
    }
  }

  lemma WithoutError(c: Console)
    ensures Report(None, c) == 0 && forall exit :: ReportAfterSignal(None, exit, c) == exit
  {
  }

  lemma ReadExit(s: State)
    requires Invariant(s) && s.main.Exited? && s.main.joined
    ensures if s.confirmed then s.main.code in {0, 130, 143, 2, 3, 5, 8, 10}
            else if ToldSent(s) && Unproven(s) then s.main.code == Printed(9, s.console)
            else if ToldSent(s) then
              s.status.Some? && s.main.code == Printed(DefinitiveExit(s.op, s.status.value), s.console)
            else s.main.code in {130, 143, 2, 3, 5, 7, 8, 10}
  {
    hide IsLocal;
    var err := s.dispatch.err;
    var signalExit := if s.main.after.Some? then SignalExit(s.main.after.value) else 130;
    if s.confirmed {
      if err.Some? {
        LocalExit(err.value, signalExit, s.console);
      }
    } else {
      hide Report, ReportAfterSignal;
      assert ExitTells(s, Report(err, s.console), ReportAfterSignal(err, signalExit, s.console), signalExit);
    }
  }

  /** A signal that waits when the process starts prevents the request in every interleaving. */
  lemma {:induction false} QueuedSignalPreventsRequest(s: State, steps: seq<Step>, end: State)
    requires s.dispatch.NotStarted? && s.requests == 0
    requires s.main.Starting? ==> s.signals != []
    requires s.main.Starting? || s.main.Exited?
    requires IsRun(s, steps, end)
    ensures end.requests == 0 && end.dispatch.NotStarted?
    ensures end.main.Exited? && s.main.Starting? ==> end.main.code == if s.signals[0] == Terminate then 143 else 130
    decreases |steps|
  {
    if steps != [] {
      var t := Next(s, steps[0]);
      QueuedSignalPreventsRequest(t, steps[1..], end);
      if s.main.Exited? {
        ExitIsFinal(t, steps[1..], end);
      } else if t.main.Exited? {
        ExitIsFinal(t, steps[1..], end);
      }
    }
  }

  lemma {:induction false} ExitIsFinal(s: State, steps: seq<Step>, end: State)
    requires s.main.Exited? && IsRun(s, steps, end)
    ensures end.main == s.main
    decreases |steps|
  {
    if steps != [] {
      ExitIsFinal(Next(s, steps[0]), steps[1..], end);
    }
  }

  lemma RunFrom(s: State, step: Step, rest: seq<Step>, end: State)
    requires Enabled(s, step) && IsRun(Next(s, step), rest, end)
    ensures IsRun(s, [step] + rest, end)
  {
    hide Enabled, Next;
    assert ([step] + rest)[1..] == rest;
  }

  /** A signal while the request is in flight, and the transport fails because of the cancellation. */
  lemma CancelledInFlight(s: State, sig: Signal) returns (steps: seq<Step>, end: State)
    requires s.main.Waiting? && s.dispatch.InFlight? && s.signals == [] && !s.closed && !s.wrote
    ensures IsRun(s, steps, end)
    ensures end.main == Exited(if sig == Terminate then 143 else 130, true, Some(sig)) && end.requests == s.requests
    ensures end.sent == s.sent && !end.wrote && end.status == s.status && end.confirmed == s.confirmed
  {
    hide IsRun, MapApiError, MutationError, ReportAfterSignal, Report;
    var cause := Wrapped(Canceled);
    FailedRequestExit(s.op, false, cause, SignalExit(sig), s.console);
    var canceled, before := Signalled(s, sig);
    var failed := Next(canceled, RequestFails(cause));
    end := Next(failed, MainJoins);
    EmptyRun(end);
    RunFrom(failed, MainJoins, [], end);
    RunFrom(canceled, RequestFails(cause), [MainJoins] + [], end);
    RunOn(s, before, canceled, [RequestFails(cause)] + ([MainJoins] + []), end);
    steps := before + ([RequestFails(cause)] + ([MainJoins] + []));
  }

  /**
   An answer that came wins over the signal: whatever the status, from any request whose headers are
   out there is a run in which the signal comes first and the exit is still that of the answer.
   */
  lemma AnsweredBehindSignal(s: State, sig: Signal, status: int, retryAfter: Option<nat>)
    returns (steps: seq<Step>, end: State)
    requires s.main.Waiting? && s.dispatch.InFlight? && s.signals == [] && !s.closed && s.sent
    ensures IsRun(s, steps, end) && end.status == Some(status) && end.main.Exited? && end.main.after == Some(sig)
    ensures end.main.code ==
              if status == OK then if sig == Terminate then 143 else 130
              else if s.console.json && !s.console.jsonWritable then 3
              else if status == 404 && s.op != Create then 4
              else if s.op == Create && (status == 400 || status == 413) then 6
              else if status == 429 || status == 503 then 7
              else 9
    ensures end.confirmed <==> s.confirmed || status == OK
  {
    hide IsRun, MapApiError, ClassifyStatus, ReportAfterSignal, Report;
    var canceled, before := Signalled(s, sig);
    var answered := Next(canceled, AnswerArrives(status, retryAfter));
    var tail: seq<Step>;
    if status == OK {
      var complete := Next(answered, BodyComplete);
      var returned := Next(complete, CommandReturns(None));
      end := Next(returned, MainJoins);
      WithoutError(s.console);
      EmptyRun(end);
      RunFrom(returned, MainJoins, [], end);
      RunFrom(complete, CommandReturns(None), [MainJoins] + [], end);
      RunFrom(answered, BodyComplete, [CommandReturns(None)] + ([MainJoins] + []), end);
      tail := [BodyComplete] + ([CommandReturns(None)] + ([MainJoins] + []));
    } else {
      AnsweredExit(s.op, status, retryAfter, SignalExit(sig), s.console);
      end := Next(answered, MainJoins);
      EmptyRun(end);
      RunFrom(answered, MainJoins, [], end);
      tail := [MainJoins] + [];
    }
    RunFrom(canceled, AnswerArrives(status, retryAfter), tail, end);
    RunOn(s, before, canceled, [AnswerArrives(status, retryAfter)] + tail, end);
    steps := before + ([AnswerArrives(status, retryAfter)] + tail);
  }

  lemma Signalled(s: State, sig: Signal) returns (canceled: State, steps: seq<Step>)
    requires s.main.Waiting? && !s.dispatch.Finished? && s.signals == [] && !s.closed
    ensures IsRun(s, steps, canceled) && canceled == s.(main := Joining(sig), canceled := true)
  {
    hide IsRun;
    var signalled := Next(s, SignalArrives(sig));
    var took := Next(signalled, MainTakesSignal);
    canceled := Next(took, MainCancels);
    EmptyRun(canceled);
    RunFrom(took, MainCancels, [], canceled);
    RunFrom(signalled, MainTakesSignal, [MainCancels] + [], canceled);
    RunFrom(s, SignalArrives(sig), [MainTakesSignal] + ([MainCancels] + []), canceled);
    steps := [SignalArrives(sig)] + ([MainTakesSignal] + ([MainCancels] + []));
  }

  lemma {:induction false} RunOn(s: State, steps: seq<Step>, middle: State, more: seq<Step>, end: State)
    requires IsRun(s, steps, middle) && IsRun(middle, more, end)
    ensures IsRun(s, steps + more, end)
    decreases |steps|
  {
    hide Enabled, Next;
    if steps == [] {
      assert steps + more == more;
    } else {
      RunOn(Next(s, steps[0]), steps[1..], middle, more, end);
      assert (steps + more)[1..] == steps[1..] + more;
    }
  }

  /**
   The signal's code can follow a request, and even transmitted headers when the transport has not
   reported them by the time the cancelled request returns: both runs start from scratch.
   */
  lemma InterruptedBeforeReport(op: Operation, console: Console, headers: bool, sig: Signal)
    returns (s: State, steps: seq<Step>, end: State)
    ensures Initial(s) && IsRun(s, steps, end)
    ensures end.main == Exited(if sig == Terminate then 143 else 130, true, Some(sig))
    ensures end.requests == 1 && end.sent == headers
    ensures headers ==> Undetermined(end) && !ToldSent(end)
  {
    hide IsRun;
    s := State(Starting, NotStarted, op, console, [], false, false, 0, false, false, None, false);
    var started := Next(s, StartDispatches);
    var requested := Next(started, SendsRequest);
    var sent := if headers then Next(requested, HeadersSent) else requested;
    steps, end := CancelledInFlight(sent, sig);
    if headers {
      RunFrom(requested, HeadersSent, steps, end);
      steps := [HeadersSent] + steps;
    }
    RunFrom(started, SendsRequest, steps, end);
    RunFrom(s, StartDispatches, [SendsRequest] + steps, end);
    steps := [StartDispatches] + ([SendsRequest] + steps);
  }

  lemma EmptyRun(s: State)
    ensures IsRun(s, [], s)
  {
  }
}
