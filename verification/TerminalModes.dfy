/**
 Who owns the terminal's modes. Every section under the mutex is one step; every write behind it
 (leaving a mode, restoring a saved state) is a later step of its own, in any order.
 */
module TerminalModes {
  import opened Bytes

  datatype Mode = Cooked | RawMode | NoEcho

  /** The mode found when it was saved, and the mode it made way for. */
  datatype Saved = Saved(mode: Mode, taken: Mode)

  datatype Tty = Tty(
    raw: Option<nat>, // the saved state the editor or viewer owns
    password: Option<nat>, // the saved state the password prompt owns
    paste: bool,
    alternate: bool,
    fired: set<nat>, // restore closures already called
    saved: seq<Saved>, // by id
    // writes that cleanups have committed to and not yet performed
    owedPasteOff: nat, owedAltOff: nat, owedRestores: multiset<nat>,
    // writes performed
    pasteOn: nat, pasteOff: nat, // of mode 2004
    altOn: nat, altOff: nat, // of mode 1049
    restored: multiset<nat>,
    // what the terminal is in
    mode: Mode, pasteMode: bool, altMode: bool)

  function Fresh(mode: Mode): Tty {
    Tty(None, None, false, false, {}, [], 0, 0, multiset{}, 0, 0, 0, 0, multiset{}, mode, false, false)
  }

  datatype Step =
    | MakeRaw
    | MakePassword
    | CloseRaw(id: nat)
    | ClosePassword(id: nat)
    | EnterAlternate
    | LeaveAlternate
    | Emergency
    | WritePasteOff
    | WriteAltOff
    | Restore(id: nat)

  predicate Enabled(t: Tty, step: Step) {
    match step
    case MakeRaw => t.raw.None? && t.password.None?
    case MakePassword => t.raw.None? && t.password.None?
    case CloseRaw(id) => id < |t.saved| && t.saved[id].taken == RawMode && id !in t.fired
    case ClosePassword(id) => id < |t.saved| && t.saved[id].taken == NoEcho && id !in t.fired
    case EnterAlternate => !t.alternate
    case LeaveAlternate => true
    case Emergency => true
    case WritePasteOff => t.owedPasteOff > 0
    case WriteAltOff => t.owedAltOff > 0
    case Restore(id) => id in t.owedRestores && id < |t.saved|
  }

  function Count(b: bool): nat {
    if b then 1 else 0
  }

  /** The section under the mutex that gives up the raw mode, if `id` still owns it. */
  function GiveUpRaw(t: Tty, id: nat): Tty {
    if t.raw != Some(id) then t
    else
      t.(raw := None, paste := false,
         owedPasteOff := t.owedPasteOff + Count(t.paste), owedRestores := t.owedRestores[id := t.owedRestores[id] + 1])
  }

  function GiveUpPassword(t: Tty, id: nat): Tty {
    if t.password != Some(id) then t
    else t.(password := None, owedRestores := t.owedRestores[id := t.owedRestores[id] + 1])
  }

  function GiveUpAlternate(t: Tty): Tty {
    t.(alternate := false, owedAltOff := t.owedAltOff + Count(t.alternate))
  }

  /** The emergency section: everything given up at once; one saved state at most is owed. */
  function GiveUpAll(t: Tty): Tty {
    var owner := if t.raw.Some? then t.raw else t.password;
    t.(raw := None, password := None, paste := false, alternate := false,
       owedPasteOff := t.owedPasteOff + Count(t.paste),
       owedAltOff := t.owedAltOff + Count(t.alternate),
       owedRestores :=
         if owner.Some? then t.owedRestores[owner.value := t.owedRestores[owner.value] + 1] else t.owedRestores)
  }

  function Next(t: Tty, step: Step): Tty
    requires Enabled(t, step)
  {
    match step
    case MakeRaw =>
      t.(raw := Some(|t.saved|), saved := t.saved + [Saved(t.mode, RawMode)], mode := RawMode,
         paste := true, pasteOn := t.pasteOn + 1, pasteMode := true)
    case MakePassword => t.(password := Some(|t.saved|), saved := t.saved + [Saved(t.mode, NoEcho)], mode := NoEcho)
    case CloseRaw(id) => GiveUpRaw(t.(fired := t.fired + {id}), id)
    case ClosePassword(id) => GiveUpPassword(t.(fired := t.fired + {id}), id)
    case EnterAlternate => t.(alternate := true, altOn := t.altOn + 1, altMode := true)
    case LeaveAlternate => GiveUpAlternate(t)
    case Emergency => GiveUpAll(t)
    case WritePasteOff => t.(owedPasteOff := t.owedPasteOff - 1, pasteOff := t.pasteOff + 1, pasteMode := false)
    case WriteAltOff => t.(owedAltOff := t.owedAltOff - 1, altOff := t.altOff + 1, altMode := false)
    case Restore(id) =>
      t.(owedRestores := t.owedRestores[id := t.owedRestores[id] - 1],
         restored := t.restored[id := t.restored[id] + 1],
         mode := t.saved[id].mode)
  }

  ghost predicate IsRun(t: Tty, steps: seq<Step>, end: Tty)
    decreases |steps|
  {
    if steps == [] then t == end else Enabled(t, steps[0]) && IsRun(Next(t, steps[0]), steps[1..], end)
  }

  // ----- ownership -----

  /** Every saved state is in exactly one place: owned, owed, or restored. */
  predicate AccountedFor(t: Tty, id: nat) {
    Count(t.raw == Some(id)) + Count(t.password == Some(id)) + t.owedRestores[id] + t.restored[id] ==
        Count(id < |t.saved|)
  }

  ghost predicate Invariant(t: Tty) {
    && !(t.raw.Some? && t.password.Some?)
    && (t.paste <==> t.raw.Some?)
    && t.pasteOn == t.pasteOff + t.owedPasteOff + Count(t.paste)
    && t.altOn == t.altOff + t.owedAltOff + Count(t.alternate)
    && forall id: nat :: AccountedFor(t, id)
  }

  lemma StepKeepsInvariant(t: Tty, step: Step)
    requires Invariant(t) && Enabled(t, step)
    ensures Invariant(Next(t, step))
  {
    forall id: nat ensures AccountedFor(Next(t, step), id) {
      assert AccountedFor(t, id);
    }
  }

  lemma {:induction false} RunKeepsInvariant(t: Tty, steps: seq<Step>, end: Tty)
    requires Invariant(t) && IsRun(t, steps, end)
    ensures Invariant(end)
    decreases |steps|
  {
    hide Invariant, Next, Enabled;
    if steps != [] {
      StepKeepsInvariant(t, steps[0]);
      RunKeepsInvariant(Next(t, steps[0]), steps[1..], end);
    }
  }

  /**
   In every interleaving of closures and emergency restores: never two owners, no saved state
   restored twice, and once nothing is owed every state given up is restored exactly once and
   every mode entered is left exactly once.
   */
  lemma ModesAreUndoneOnce(t: Tty, steps: seq<Step>, end: Tty)
    requires t == Fresh(t.mode) && IsRun(t, steps, end)
    ensures !(end.raw.Some? && end.password.Some?)
    ensures forall id: nat :: end.restored[id] <= 1
    ensures NothingOwed(end) ==>
              && (forall id: nat :: id < |end.saved| && end.raw != Some(id) && end.password != Some(id) ==>
                  end.restored[id] == 1)
              && end.pasteOn == end.pasteOff + Count(end.raw.Some?)
              && end.altOn == end.altOff + Count(end.alternate)
  {
    hide IsRun;
    FreshInvariant(t.mode);
    RunKeepsInvariant(t, steps, end);
    forall id: nat
      ensures end.restored[id] <= 1
      ensures NothingOwed(end) && id < |end.saved| && end.raw != Some(id) && end.password != Some(id) ==>
          end.restored[id] == 1
    {
      assert AccountedFor(end, id);
    }
  }

  predicate NothingOwed(t: Tty) {
    t.owedPasteOff == 0 && t.owedAltOff == 0 && t.owedRestores == multiset{}
  }

  /**
   Over every run: only its own closure, or the emergency cleanup, takes a mode from its owner. The
   closures of earlier modes never cancel it, however late they are called.
   */
  lemma {:induction false} StaleClosureIsHarmless(t: Tty, id: nat, steps: seq<Step>, end: Tty)
    requires IsRun(t, steps, end) && Emergency !in steps
    ensures t.raw == Some(id) && CloseRaw(id) !in steps ==> end.raw == Some(id)
    ensures t.password == Some(id) && ClosePassword(id) !in steps ==> end.password == Some(id)
    ensures t.alternate && LeaveAlternate !in steps ==> end.alternate
    decreases |steps|
  {
    if steps != [] {
      assert steps[0] in steps;
      StaleClosureIsHarmless(Next(t, steps[0]), id, steps[1..], end);
    }
  }

  // ----- what the terminal is really in -----

  /** A cleanup has let go of a mode and not yet restored it. */
  predicate RestorePending(t: Tty) {
    t.owedRestores != multiset{}
  }

  predicate Acquires(step: Step) {
    step.MakeRaw? || step.MakePassword? || step.EnterAlternate?
  }

  /** The step takes no mode that a pending write would undo. */
  predicate Calm(t: Tty, step: Step) {
    match step
    case MakeRaw => !RestorePending(t) && t.owedPasteOff == 0
    case MakePassword => !RestorePending(t)
    case EnterAlternate => t.owedAltOff == 0
    case _ => true
  }

  ghost predicate IsCalmRun(t: Tty, steps: seq<Step>, end: Tty)
    decreases |steps|
  {
    if steps == [] then t == end
    else Enabled(t, steps[0]) && Calm(t, steps[0]) && IsCalmRun(Next(t, steps[0]), steps[1..], end)
  }

  function OwnedMode(t: Tty, base: Mode): Mode {
    if t.raw.Some? then RawMode else if t.password.Some? then NoEcho else base
  }

  /** The terminal is in all the modes that are owned and in no other. */
  predicate InOwnedModes(t: Tty, base: Mode) {
    t.mode == OwnedMode(t, base) && t.pasteMode == t.paste && t.altMode == t.alternate
  }

  /** All saved states are the base mode; each mode is owned or being undone, never both. */
  ghost predicate Tracks(t: Tty, base: Mode) {
    && Invariant(t)
    && (forall id :: 0 <= id < |t.saved| ==> t.saved[id].mode == base)
    && |t.owedRestores| + Count(t.raw.Some?) + Count(t.password.Some?) <= 1
    && t.owedPasteOff + Count(t.paste) <= 1
    && t.owedAltOff + Count(t.alternate) <= 1
    && (!RestorePending(t) ==> t.mode == OwnedMode(t, base))
    && (t.owedPasteOff == 0 ==> t.pasteMode == t.paste)
    && (t.owedAltOff == 0 ==> t.altMode == t.alternate)
  }

  lemma StepTracks(t: Tty, step: Step, base: Mode)
    requires Tracks(t, base) && Enabled(t, step) && Calm(t, step)
    ensures Tracks(Next(t, step), base)
  {
    StepKeepsInvariant(t, step);
    hide Invariant;
    if Acquires(step) {
      AcquiringTracks(t, step, base);
    } else if IsWrite(step) {
      WriteTracks(t, step, base);
    } else if step.Emergency? {
      EmergencyTracks(t, base);
    } else {
      GivingUpTracks(t, step, base);
    }
  }

  lemma EmergencyTracks(t: Tty, base: Mode)
    requires Tracks(t, base)
    requires Invariant(Next(t, Emergency))
    ensures Tracks(Next(t, Emergency), base)
  {
    hide Invariant;
  }

  lemma AcquiringTracks(t: Tty, step: Step, base: Mode)
    requires Tracks(t, base) && Enabled(t, step) && Calm(t, step) && Acquires(step)
    requires Invariant(Next(t, step))
    ensures Tracks(Next(t, step), base)
  {
    hide Invariant;
  }

  lemma WriteTracks(t: Tty, step: Step, base: Mode)
    requires Tracks(t, base) && Enabled(t, step) && IsWrite(step)
    requires Invariant(Next(t, step))
    ensures Tracks(Next(t, step), base)
  {
    hide Invariant;
  }

  lemma GivingUpTracks(t: Tty, step: Step, base: Mode)
    requires Tracks(t, base) && Enabled(t, step) && !Acquires(step) && !IsWrite(step) && !step.Emergency?
    requires Invariant(Next(t, step))
    ensures Tracks(Next(t, step), base)
  {
    hide Invariant;
  }

  lemma {:induction false} CalmRunTracks(t: Tty, steps: seq<Step>, end: Tty, base: Mode)
    requires Tracks(t, base) && IsCalmRun(t, steps, end)
    ensures Tracks(end, base)
    decreases |steps|
  {
    hide Tracks, Next, Enabled, Calm;
    if steps != [] {
      StepTracks(t, steps[0], base);
      CalmRunTracks(Next(t, steps[0]), steps[1..], end, base);
    }
  }

  lemma CalmRunTracksFresh(t: Tty, steps: seq<Step>, end: Tty)
    requires t == Fresh(t.mode) && IsCalmRun(t, steps, end)
    ensures Tracks(end, t.mode)
  {
    hide IsCalmRun, Tracks;
    FreshTracks(t.mode);
    CalmRunTracks(t, steps, end, t.mode);
  }

  /** In calm runs each of the three modes is what is owned whenever no write that undoes it is pending. */
  lemma CalmRunsEndWhereTheyBegan(t: Tty, steps: seq<Step>, end: Tty)
    requires t == Fresh(t.mode) && IsCalmRun(t, steps, end)
    ensures !RestorePending(end) ==> end.mode == OwnedMode(end, t.mode)
    ensures end.owedPasteOff == 0 ==> end.pasteMode == end.raw.Some?
    ensures end.owedAltOff == 0 ==> end.altMode == end.alternate
  {
    CalmRunTracksFresh(t, steps, end);
  }

  lemma FreshTracks(base: Mode)
    ensures Tracks(Fresh(base), base)
  {
    hide Invariant;
    FreshInvariant(base);
    NoneOwed(Fresh(base).owedRestores);
  }

  lemma FreshInvariant(base: Mode)
    ensures Invariant(Fresh(base))
  {
  }

  lemma NoneOwed(m: multiset<nat>)
    requires m == multiset{}
    ensures |m| == 0
  {
  }

  // ----- a caller that finishes every cleanup before it goes on -----

  predicate IsWrite(step: Step) {
    step.WritePasteOff? || step.WriteAltOff? || step.Restore?
  }

  /** Nothing but the writes of a cleanup happens while any of them is pending. */
  ghost predicate IsSequentialRun(t: Tty, steps: seq<Step>, end: Tty)
    decreases |steps|
  {
    if steps == [] then t == end
    else
      && Enabled(t, steps[0])
      && (IsWrite(steps[0]) || NothingOwed(t))
      && IsSequentialRun(Next(t, steps[0]), steps[1..], end)
  }

  /** One routine that prompts, views and cleans up in turn leaves the terminal as it found it. */
  lemma SequentialRunsEndWhereTheyBegan(t: Tty, steps: seq<Step>, end: Tty)
    requires t == Fresh(t.mode) && IsSequentialRun(t, steps, end) && NothingOwed(end)
    ensures InOwnedModes(end, t.mode)
  {
    hide IsCalmRun, IsSequentialRun, Fresh;
    SequentialRunIsCalm(t, steps, end);
    CalmRunTracksFresh(t, steps, end);
  }

  lemma {:induction false} SequentialRunIsCalm(t: Tty, steps: seq<Step>, end: Tty)
    requires IsSequentialRun(t, steps, end)
    ensures IsCalmRun(t, steps, end)
    decreases |steps|
  {
    hide Next, Enabled;
    if steps != [] {
      SequentialRunIsCalm(Next(t, steps[0]), steps[1..], end);
    }
  }

  // ----- a caller that does not -----

  ghost predicate IsCompletion(t: Tty, writes: seq<Step>, end: Tty) {
    IsRun(t, writes, end) && NothingOwed(end) && forall i :: 0 <= i < |writes| ==> IsWrite(writes[i])
  }

  /** What the pending writes will undo, whatever their order. */
  ghost predicate Doomed(t: Tty, base: Mode, mode: bool, paste: bool, alt: bool) {
    && (forall id :: id in t.owedRestores ==> id < |t.saved| && t.saved[id].mode == base)
    && (mode ==> RestorePending(t) || t.mode == base)
    && (paste ==> t.owedPasteOff > 0 || !t.pasteMode)
    && (alt ==> t.owedAltOff > 0 || !t.altMode)
  }

  lemma WriteKeepsDoomed(t: Tty, step: Step, base: Mode, mode: bool, paste: bool, alt: bool)
    requires Doomed(t, base, mode, paste, alt) && Enabled(t, step) && IsWrite(step)
    ensures Doomed(Next(t, step), base, mode, paste, alt)
    ensures SameOwners(t, Next(t, step))
  {
  }

  predicate SameOwners(t: Tty, u: Tty) {
    u.raw == t.raw && u.password == t.password && u.paste == t.paste && u.alternate == t.alternate
  }

  lemma {:induction false} WritesComplete(
    t: Tty, writes: seq<Step>, end: Tty, base: Mode, mode: bool, paste: bool, alt: bool)
    requires Doomed(t, base, mode, paste, alt) && IsCompletion(t, writes, end)
    ensures SameOwners(t, end)
    ensures (mode ==> end.mode == base) && (paste ==> !end.pasteMode) && (alt ==> !end.altMode)
    decreases |writes|
  {
    if writes != [] {
      hide Next, Enabled, Doomed;
      var next := Next(t, writes[0]);
      assert IsWrite(writes[0]);
      WriteKeepsDoomed(t, writes[0], base, mode, paste, alt);
      assert IsCompletion(next, writes[1..], end);
      WritesComplete(next, writes[1..], end, base, mode, paste, alt);
    }
  }

  /** Writes alone are a calm run. */
  lemma {:induction false} CompletionIsCalm(t: Tty, writes: seq<Step>, end: Tty)
    requires IsCompletion(t, writes, end)
    ensures IsCalmRun(t, writes, end)
    decreases |writes|
  {
    hide Next, Enabled;
    if writes != [] {
      assert IsWrite(writes[0]);
      assert IsCompletion(Next(t, writes[0]), writes[1..], end);
      CompletionIsCalm(Next(t, writes[0]), writes[1..], end);
    }
  }

  /** The mode the step puts the terminal in, where it is an input mode. */
  function Taken(step: Step, base: Mode): Mode {
    if step.MakeRaw? then RawMode else if step.MakePassword? then NoEcho else base
  }

  /**
   Calm is exactly what it takes, for all three modes and any order of the pending writes: once they
   are done the terminal is in the modes owned if and only if the mode was taken with no write pending
   that undoes it. (Restoring a base mode that is itself the mode taken would change nothing.)
   */
  lemma LateCleanupUndoesNewMode(t: Tty, step: Step, base: Mode, writes: seq<Step>, end: Tty)
    requires Tracks(t, base) && Enabled(t, step) && Acquires(step) && IsCompletion(Next(t, step), writes, end)
    requires step.EnterAlternate? || Taken(step, base) != base
    ensures InOwnedModes(end, base) <==> Calm(t, step)
  {
    hide IsRun;
    var taken := Next(t, step);
    if Calm(t, step) {
      StepTracks(t, step, base);
      CompletionIsCalm(taken, writes, end);
      CalmRunTracks(taken, writes, end, base);
    } else {
      OwedStatesExist(t);
      var restore := !step.EnterAlternate? && RestorePending(t);
      WritesComplete(taken, writes, end, base, restore, step.MakeRaw? && t.owedPasteOff > 0, step.EnterAlternate?);
    }
  }

  lemma OwedStatesExist(t: Tty)
    requires Invariant(t)
    ensures forall id :: id in t.owedRestores ==> id < |t.saved|
  {
    forall id | id in t.owedRestores ensures id < |t.saved| {
      assert AccountedFor(t, id);
    }
  }

  /** The pending writes can always be done. */
  lemma {:induction false} CleanupsCanFinish(t: Tty) returns (writes: seq<Step>, end: Tty)
    requires Invariant(t)
    ensures IsCompletion(t, writes, end)
    decreases t.owedPasteOff + t.owedAltOff + |t.owedRestores|
  {
    OwedStatesExist(t);
    if NothingOwed(t) {
      writes, end := [], t;
    } else {
      var step: Step;
      if t.owedPasteOff > 0 {
        step := WritePasteOff;
      } else if t.owedAltOff > 0 {
        step := WriteAltOff;
      } else {
        var id :| id in t.owedRestores;
        step := Restore(id);
        assert t.owedRestores[id := t.owedRestores[id] - 1] == t.owedRestores - multiset{id};
      }
      StepKeepsInvariant(t, step);
      hide Invariant;
      var rest;
      rest, end := CleanupsCanFinish(Next(t, step));
      writes := [step] + rest;
      assert writes[1..] == rest;
    }
  }

  ghost predicate Reaches(t: Tty, end: Tty) {
    exists steps :: IsRun(t, steps, end)
  }

  lemma ReachesFrom(t: Tty, step: Step, end: Tty)
    requires Enabled(t, step) && Reaches(Next(t, step), end)
    ensures Reaches(t, end)
  {
    hide Enabled, Next;
    var rest :| IsRun(Next(t, step), rest, end);
    assert ([step] + rest)[1..] == rest;
    assert IsRun(t, [step] + rest, end);
  }

  lemma StaysThere(t: Tty)
    ensures Reaches(t, t)
  {
    assert IsRun(t, [], t);
  }

  /**
   An emergency cleanup overtaken by a new raw mode: everything is cleaned up and accounted for in
   the end, and the terminal is left raw.
   */
  lemma OverlapLeavesTerminalRaw() returns (end: Tty)
    ensures Reaches(Fresh(Cooked), end)
    ensures end.raw.None? && end.password.None? && NothingOwed(end) && end.mode == RawMode
  {
    hide Reaches;
    var t0 := Fresh(Cooked);
    var t1 := Next(t0, MakeRaw);
    var t2 := Next(t1, Emergency);
    var t3 := Next(t2, MakeRaw);
    var t4 := Next(t3, WritePasteOff);
    var t5 := Next(t4, Restore(0));
    var t6 := Next(t5, CloseRaw(1));
    var t7 := Next(t6, WritePasteOff);
    end := Next(t7, Restore(1));
    assert t3.saved == [Saved(Cooked, RawMode), Saved(RawMode, RawMode)];
    assert end.owedRestores == multiset{};
    StaysThere(end);
    ReachesFrom(t7, Restore(1), end);
    ReachesFrom(t6, WritePasteOff, end);
    ReachesFrom(t5, CloseRaw(1), end);
    ReachesFrom(t4, Restore(0), end);
    ReachesFrom(t3, WritePasteOff, end);
    ReachesFrom(t2, MakeRaw, end);
    ReachesFrom(t1, Emergency, end);
    ReachesFrom(t0, MakeRaw, end);
  }

  /** The same with the alternate screen: owned, and no longer what the terminal shows. */
  lemma OverlapLosesAlternateScreen() returns (end: Tty)
    ensures Reaches(Fresh(Cooked), end)
    ensures end.alternate && NothingOwed(end) && !end.altMode
  {
    hide Reaches;
    var t0 := Fresh(Cooked);
    var t1 := Next(t0, EnterAlternate);
    var t2 := Next(t1, Emergency);
    var t3 := Next(t2, EnterAlternate);
    end := Next(t3, WriteAltOff);
    StaysThere(end);
    ReachesFrom(t3, WriteAltOff, end);
    ReachesFrom(t2, EnterAlternate, end);
    ReachesFrom(t1, Emergency, end);
    ReachesFrom(t0, EnterAlternate, end);
  }
}
