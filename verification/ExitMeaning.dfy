/**
 The exit codes as numbers, for every error the command can end with: the table the interface
 documents, and what a signal, an answer and a broken output make of it.
 */
module ExitMeaning {
  import opened Bytes
  import opened Outcomes

  /** The published pairs of a machine code and its exit code. */
  const PUBLISHED: set<(Code, int)> := {
    (InvalidCommand, 2), (InvalidOption, 2), (InvalidInput, 2), (InvalidCredentialSource, 2),
    (LocalIoFailed, 3), (SecretUnavailable, 4), (PassphraseFailed, 5), (PlaintextInvalid, 5),
    (ServerRejected, 6), (NetworkUnavailable, 7), (RateLimitedCode, 7), (ServiceUnavailable, 7),
    (UnsupportedSecret, 8), (CreateOutcomeUnknown, 9), (ClaimOutcomeUnknown, 9),
    (RevokeOutcomeUnknown, 9), (Internal, 10)}

  /** The error at some depth of the chain: itself, or that of its cause. */
  function At(e: Err, depth: nat): Option<Err>
    decreases depth
  {
    if depth == 0 then Some(e)
    else
      match e
      case Wrapped(inner) => At(inner, depth - 1)
      case Temporary(Some(inner), _) => At(inner, depth - 1)
      case Command(_, _, Some(inner)) => At(inner, depth - 1)
      case _ => None
  }

  /** The outermost command error of the chain, at that depth. */
  ghost predicate IsFirstCommand(e: Err, depth: nat) {
    && At(e, depth).Some? && At(e, depth).value.Command?
    && forall d: nat | d < depth :: At(e, d).Some? && !At(e, d).value.Command?
  }

  ghost predicate HasCommand(e: Err) {
    exists depth: nat :: IsFirstCommand(e, depth)
  }

  lemma {:induction false} FirstCommandFound(e: Err, depth: nat)
    requires IsFirstCommand(e, depth)
    ensures FirstOf(e, IsCommand) == At(e, depth)
    decreases depth
  {
    if depth > 0 {
      assert At(e, 0) == Some(e);
      var inner := At(e, 1).value;
      forall d: nat ensures At(e, d + 1) == At(inner, d) {
      }
      FirstCommandFound(inner, depth - 1);
    }
  }

  lemma {:induction false} FoundIsFirstCommand(e: Err) returns (depth: nat)
    requires FirstOf(e, IsCommand).Some?
    ensures IsFirstCommand(e, depth)
    decreases e
  {
    if e.Command? {
      depth := 0;
    } else {
      var inner := Unwrap(e).value;
      var below := FoundIsFirstCommand(inner);
      depth := below + 1;
      forall d: nat | d <= depth ensures d > 0 ==> At(e, d) == At(inner, d - 1) {
      }
    }
  }

  /** What stands in an error report: 128 and above as it is, a published pair, and else 10. */
  lemma ReportedExit(e: Err, depth: nat, c: Console)
    requires IsFirstCommand(e, depth)
    ensures var command := At(e, depth).value;
            Report(Some(e), c) ==
              if command.exit >= 128 then command.exit
              else if c.json && !c.jsonWritable then 3
              else if (command.code, command.exit) in PUBLISHED then command.exit
              else 10
  {
    FirstCommandFound(e, depth);
    var command := At(e, depth).value;
    RegistryIsPublished(command.code, command.exit);
  }

  lemma RegistryIsPublished(code: Code, exit: int)
    ensures RegisteredExit(code) == Some(exit) <==> (code, exit) in PUBLISHED
  {
  }

  /** Success is 0; an error that no command names is an internal one. */
  lemma UnnamedExit(err: Option<Err>, c: Console)
    requires err.Some? ==> !HasCommand(err.value)
    ensures Report(err, c) == if err == None then 0 else if c.json && !c.jsonWritable then 3 else 10
  {
    if err.Some? && FirstOf(err.value, IsCommand).Some? {
      var depth := FoundIsFirstCommand(err.value);
    }
  }

  /** The cancellation, or an interrupted prompt, stands somewhere in the chain. */
  ghost predicate TellsOfInterruption(e: Err) {
    exists depth: nat :: At(e, depth) in {Some(Canceled), Some(PromptInterrupted)}
  }

  lemma {:induction false} InterruptionIsFound(e: Err, depth: nat)
    requires At(e, depth) in {Some(Canceled), Some(PromptInterrupted)}
    ensures Is(e, Canceled) || Is(e, PromptInterrupted)
    decreases depth
  {
    if depth > 0 {
      InterruptionIsFound(Unwrap(e).value, depth - 1);
    }
  }

  lemma {:induction false} FoundIsInterruption(e: Err)
    requires Is(e, Canceled) || Is(e, PromptInterrupted)
    ensures TellsOfInterruption(e)
    decreases e
  {
    if e in {Canceled, PromptInterrupted} {
      assert At(e, 0) == Some(e);
    } else {
      var inner := Unwrap(e).value;
      FoundIsInterruption(inner);
      var depth: nat :| At(inner, depth) in {Some(Canceled), Some(PromptInterrupted)};
      assert At(e, depth + 1) == At(inner, depth);
    }
  }

  /** Behind a signal its code stands for success, interruption and other signals, and for nothing else. */
  lemma ExitBehindSignal(err: Option<Err>, signalExit: int, c: Console)
    ensures err == None ==> ReportAfterSignal(err, signalExit, c) == signalExit
    ensures err.Some? && TellsOfInterruption(err.value) ==> ReportAfterSignal(err, signalExit, c) == signalExit
    ensures err.Some? && !TellsOfInterruption(err.value) ==>
              forall depth: nat | IsFirstCommand(err.value, depth) ::
                ReportAfterSignal(err, signalExit, c) ==
                  if At(err.value, depth).value.exit >= 128 then signalExit else Report(err, c)
    ensures err.Some? && !TellsOfInterruption(err.value) && !HasCommand(err.value) ==>
              ReportAfterSignal(err, signalExit, c) == Report(err, c)
  {
    hide Report;
    if err.Some? {
      var e := err.value;
      if TellsOfInterruption(e) {
        var depth: nat :| At(e, depth) in {Some(Canceled), Some(PromptInterrupted)};
        InterruptionIsFound(e, depth);
      } else {
        if Is(e, Canceled) || Is(e, PromptInterrupted) {
          FoundIsInterruption(e);
        }
        forall depth: nat | IsFirstCommand(e, depth) ensures FirstOf(e, IsCommand) == At(e, depth) {
          FirstCommandFound(e, depth);
        }
        if FirstOf(e, IsCommand).Some? {
          var depth := FoundIsFirstCommand(e);
        }
      }
    }
  }

  /** The exit of every answer, by its status: what proves nothing is an unknown outcome. */
  lemma AnswerExits(op: Operation, status: int, retryAfter: Option<nat>, signalExit: int, c: Console)
    ensures var e := Some(MapApiError(ClassifyStatus(op, status, retryAfter)));
            && Report(e, c) == ReportAfterSignal(e, signalExit, c)
            && Report(e, c) ==
                 if c.json && !c.jsonWritable then 3
                 else if status == 404 && op != Create then 4
                 else if op == Create && (status == 400 || status == 413) then 6
                 else if status == 429 || status == 503 then 7
                 else 9
  {
    AnsweredExit(op, status, retryAfter, signalExit, c);
  }

  /** The machine code printed with it: which of the three codes of exit 7 and of exit 9 it is. */
  lemma AnswerCodes(op: Operation, status: int, retryAfter: Option<nat>)
    ensures var e := MapApiError(ClassifyStatus(op, status, retryAfter));
            e.Command? && e.code ==
              if status == 404 && op != Create then SecretUnavailable
              else if op == Create && (status == 400 || status == 413) then ServerRejected
              else if status == 429 then RateLimitedCode
              else if status == 503 then ServiceUnavailable
              else if op == Create then CreateOutcomeUnknown
              else if op == Claim then ClaimOutcomeUnknown
              else RevokeOutcomeUnknown
  {
    assert Is(OutcomeUnknown(op), Unavailable) == false;
  }

  /** And without an answer: nobody knows once headers were written, and the cause counts before that. */
  lemma UnansweredCodes(op: Operation, wrote: bool, cause: Err)
    requires IsTransport(cause)
    ensures var e := MapApiError(MutationError(op, wrote, cause));
            && e.Command?
            && (e.exit, e.code) ==
                 (if !wrote then (7, NetworkUnavailable)
                  else if op == Create then (9, CreateOutcomeUnknown)
                  else if op == Claim then (9, ClaimOutcomeUnknown)
                  else (9, RevokeOutcomeUnknown))
  {
    if !wrote {
      UnsentMapsToNetwork(cause);
    }
  }
}
