/**
 What the keys mean, byte by byte: which event every byte, control sequence, rune and paste stands
 for wherever it appears in the input, said with the bytes themselves.
 */
module KeyMeaning {
  import opened Bytes
  import opened KeyTokens
  import KeyProperties
  import Utf8

  /** A byte that is a key by itself: what it means, and what the bytes behind it mean is unaffected. */
  lemma KeyByte(b: Byte, rest: seq<Byte>, cr: bool) returns (ev: Event)
    requires b != 0x1b && !(0xC2 <= b <= 0xF4) && !(cr && b == 0x0a)
    ensures Drain([b] + rest, cr) == Prepend([ev], Drain(rest, b == 0x0d))
    ensures ev == CtrlC <==> b == 0x03
    ensures ev == CtrlD <==> b == 0x04
    ensures ev == Backspace <==> b == 0x08 || b == 0x7f
    ensures ev == Tab <==> b == 0x09
    ensures ev == Enter <==> b == 0x0a || b == 0x0d
    ensures ev == CtrlO <==> b == 0x0f
    ensures ev == CtrlU <==> b == 0x15
    ensures ev == CtrlW <==> b == 0x17
    ensures ev == Space <==> b == 0x20
    ensures ev == Rune(b) <==> 0x21 <= b <= 0x7e
    ensures ev == Ignored <==> b >= 0x80 || (b < 0x20 && b !in {0x03, 0x04, 0x08, 0x09, 0x0a, 0x0d, 0x0f, 0x15, 0x17})
  {
    ev := ControlEvent(b);
    Behind([b], [ev], rest, cr);
  }

  /** A decided front: its events, and then those of the rest. */
  lemma Behind(front: seq<Byte>, events: seq<Event>, rest: seq<Byte>, cr: bool)
    requires front != [] && FirstLexeme(front + rest, cr) == Lexeme(|front|, events)
    ensures Drain(front + rest, cr) == Prepend(events, Drain(rest, front[0] == CR))
  {
    hide FirstLexeme;
    DrainLexeme(front + rest, cr);
    assert (front + rest)[|front|..] == rest;
  }

  /** Every input of one byte. */
  lemma OneByteInput(b: Byte)
    ensures b == 0x03 ==> Tokenize([b], false) == [CtrlC]
    ensures b == 0x04 ==> Tokenize([b], false) == [CtrlD]
    ensures b == 0x08 || b == 0x7f ==> Tokenize([b], false) == [Backspace]
    ensures b == 0x09 ==> Tokenize([b], false) == [Tab]
    ensures b == 0x0a || b == 0x0d ==> Tokenize([b], false) == [Enter]
    ensures b == 0x0f ==> Tokenize([b], false) == [CtrlO]
    ensures b == 0x15 ==> Tokenize([b], false) == [CtrlU]
    ensures b == 0x17 ==> Tokenize([b], false) == [CtrlW]
    ensures b == 0x20 ==> Tokenize([b], false) == [Space]
    ensures 0x21 <= b <= 0x7e ==> Tokenize([b], false) == [Rune(b)]
    ensures b >= 0x80 || (b < 0x20 && b !in {0x03, 0x04, 0x08, 0x09, 0x0a, 0x0d, 0x0f, 0x15, 0x17}) ==>
              Tokenize([b], false) == [Ignored]
    ensures b == 0x1b || 0xC2 <= b <= 0xF4 <==> Drain([b], false) == Drained([], [b], false)
  {
    assert [b] + [] == [b];
    if b != 0x1b && !(0xC2 <= b <= 0xF4) {
      var ev := KeyByte(b, [], false);
    }
  }

  /** A carriage return takes a line feed right behind it along; the other pairs are two Enters. */
  lemma CarriageReturnLineFeed(rest: seq<Byte>, cr: bool)
    ensures Drain([0x0d, 0x0a] + rest, cr) == Prepend([Enter], Drain(rest, false))
    ensures Drain([0x0d, 0x0d] + rest, cr) == Prepend([Enter, Enter], Drain(rest, true))
    ensures Drain([0x0a, 0x0d] + rest, false) == Prepend([Enter, Enter], Drain(rest, true))
    ensures Drain([0x0a, 0x0a] + rest, false) == Prepend([Enter, Enter], Drain(rest, false))
  {
    hide Drain;
    assert [0x0d] + ([0x0a] + rest) == [0x0d, 0x0a] + rest && [0x0d] + ([0x0d] + rest) == [0x0d, 0x0d] + rest;
    assert [0x0a] + ([0x0d] + rest) == [0x0a, 0x0d] + rest && [0x0a] + ([0x0a] + rest) == [0x0a, 0x0a] + rest;
    var return1 := KeyByte(0x0d, [0x0a] + rest, cr);
    Behind([0x0a], [], rest, true);
    var return2 := KeyByte(0x0d, [0x0d] + rest, cr);
    var return3 := KeyByte(0x0d, rest, true);
    var feed1 := KeyByte(0x0a, [0x0d] + rest, false);
    var return4 := KeyByte(0x0d, rest, false);
    var feed2 := KeyByte(0x0a, [0x0a] + rest, false);
    var feed3 := KeyByte(0x0a, rest, false);
    Twice(Enter, Drain(rest, true));
    Twice(Enter, Drain(rest, false));
    assert [Enter] + ([] + Drain(rest, false).events) == [Enter] + Drain(rest, false).events;
  }

  lemma Twice(ev: Event, d: Drained)
    ensures Prepend([ev], Prepend([ev], d)) == Prepend([ev, ev], d)
  {
    assert [ev] + ([ev] + d.events) == [ev, ev] + d.events;
  }

  // ----- escape sequences -----

  predicate IsFinal(b: Byte) {
    0x40 <= b <= 0x7e
  }

  lemma FinalAt(front: seq<Byte>, i: nat, rest: seq<Byte>)
    requires i <= |front| && forall k :: i <= k < |front| ==> !IsFinal(front[k])
    ensures FinalIndex(front + rest, i) == |front| + FinalIndex(rest, 0)
    decreases |front| - i
  {
    if i < |front| {
      FinalAt(front, i + 1, rest);
    } else {
      FinalShifted(front, rest, 0);
    }
  }

  lemma FinalShifted(front: seq<Byte>, rest: seq<Byte>, i: nat)
    requires i <= |rest|
    ensures FinalIndex(front + rest, |front| + i) == |front| + FinalIndex(rest, i)
    decreases |rest| - i
  {
    if i < |rest| && !IsFinal(rest[i]) {
      FinalShifted(front, rest, i + 1);
    }
  }

  /** A complete control sequence of at most sixteen bytes, other than the paste marker, is one ignored event. */
  lemma ControlSequence(params: seq<Byte>, final: Byte, rest: seq<Byte>, cr: bool)
    requires |params| <= 13 && (forall i :: 0 <= i < |params| ==> !IsFinal(params[i])) && IsFinal(final)
    requires params + [final] != [0x32, 0x30, 0x30, 0x7e]
    ensures Drain([0x1b, 0x5b] + params + [final] + rest, cr) == Prepend([Ignored], Drain(rest, false))
  {
    var front := [0x1b, 0x5b] + params;
    var s := front + [final] + rest;
    assert s == front + ([final] + rest);
    FinalAt(front, 2, [final] + rest);
    assert FinalIndex(s, 2) == |front|;
    assert s[..|front| + 1] == front + [final];
    assert (front + [final])[2..] == params + [final];
    assert FirstLexeme(s, cr) == Lexeme(|front| + 1, [Ignored]);
    Behind(front + [final], [Ignored], rest, cr);
  }

  /** With no final byte among its first sixteen it is given up with its seventeenth, whatever that is. */
  lemma EndlessSequence(params: seq<Byte>, last: Byte, rest: seq<Byte>, cr: bool)
    requires |params| == 14 && forall i :: 0 <= i < |params| ==> !IsFinal(params[i])
    ensures Drain([0x1b, 0x5b] + params + [last] + rest, cr) == Prepend([Ignored], Drain(rest, false))
  {
    var front := [0x1b, 0x5b] + params;
    var s := front + [last] + rest;
    assert s == front + ([last] + rest);
    FinalAt(front, 2, [last] + rest);
    assert FirstLexeme(s, cr) == Lexeme(17, [Ignored]);
    Behind(front + [last], [Ignored], rest, cr);
  }

  /** ESC O and one byte, or ESC and any byte but [ and O: one ignored event, and no rune. */
  lemma EscapePair(x: Byte, rest: seq<Byte>, cr: bool)
    ensures Drain([0x1b, 0x4f, x] + rest, cr) == Prepend([Ignored], Drain(rest, false))
    ensures x != 0x5b && x != 0x4f ==> Drain([0x1b, x] + rest, cr) == Prepend([Ignored], Drain(rest, false))
  {
    Behind([0x1b, 0x4f, x], [Ignored], rest, cr);
    if x != 0x5b && x != 0x4f {
      Behind([0x1b, x], [Ignored], rest, cr);
    }
  }

  // ----- runes -----

  /** An encoded rune beyond ASCII is that rune. */
  lemma EncodedRune(r: int, rest: seq<Byte>, cr: bool)
    requires Utf8.IsScalar(r) && r >= 0x80
    ensures Drain(Utf8.Encode(r) + rest, cr) == Prepend([Rune(r)], Drain(rest, false))
  {
    var front := Utf8.Encode(r);
    Utf8.EncodeThenDecode(r, rest);
    Utf8.EncodeThenDecode(r, []);
    assert front + [] == front;
    RuneAnnounced(front);
    ContinuationsAre(front, rest, 1);
    assert FirstLexeme(front + rest, cr) == Lexeme(|front|, [Rune(r)]);
    Behind(front, [Rune(r)], rest, cr);
  }

  lemma RuneAnnounced(front: seq<Byte>)
    requires front != [] && Utf8.RuneSize(front) == |front| && front != [front[0]]
    ensures |front| == 1 + Utf8.Continuations(front[0]) && 0xC2 <= front[0] <= 0xF4
    ensures forall i :: 0 < i < |front| ==> Utf8.IsContinuation(front[i])
  {
  }

  lemma ContinuationsAre(front: seq<Byte>, rest: seq<Byte>, i: nat)
    requires 0 < i <= |front| && forall k :: i <= k < |front| ==> Utf8.IsContinuation(front[k])
    ensures ContinuationsEnd(front + rest, i, |front|) == |front|
    decreases |front| - i
  {
    if i < |front| {
      ContinuationsAre(front, rest, i + 1);
    }
  }

  /** How many continuation bytes must follow a lead byte (section 4 of RFC 3629). */
  function Announced(lead: Byte): nat {
    if 0xC2 <= lead <= 0xDF then 1
    else if 0xE0 <= lead <= 0xEF then 2
    else if 0xF0 <= lead <= 0xF4 then 3
    else 0
  }

  /** As many continuation bytes as announced, but no rune: overlong, a surrogate, or too large. */
  lemma MalformedRune(front: seq<Byte>, rest: seq<Byte>, cr: bool)
    requires front != [] && Announced(front[0]) > 0 && |front| == 1 + Announced(front[0])
    requires forall i :: 0 < i < |front| ==> 0x80 <= front[i] <= 0xBF
    requires Utf8.RuneSize(front) != |front|
    ensures Drain(front + rest, cr) == Prepend([Ignored], Drain(rest, false))
  {
    ContinuationsAre(front, rest, 1);
    assert (front + rest)[..|front|] == front;
    Utf8.RuneIsLocal(front + rest, |front|);
    Behind(front, [Ignored], rest, cr);
  }

  /** Fewer than announced: one ignored event, and the byte that came instead is read afresh. */
  lemma TornRune(front: seq<Byte>, b: Byte, rest: seq<Byte>, cr: bool)
    requires front != [] && 1 <= |front| <= Announced(front[0])
    requires (forall i :: 0 < i < |front| ==> 0x80 <= front[i] <= 0xBF) && !(0x80 <= b <= 0xBF)
    ensures Drain(front + [b] + rest, cr) == Prepend([Ignored], Drain([b] + rest, false))
  {
    assert front + [b] + rest == front + ([b] + rest);
    TornAt(front, [b] + rest, 1, 1 + Announced(front[0]));
    Behind(front, [Ignored], [b] + rest, cr);
  }

  lemma TornAt(front: seq<Byte>, rest: seq<Byte>, i: nat, n: nat)
    requires 0 < i <= |front| < n && (forall k :: i <= k < |front| ==> Utf8.IsContinuation(front[k]))
    requires rest != [] && !Utf8.IsContinuation(rest[0])
    ensures ContinuationsEnd(front + rest, i, n) == |front|
    decreases |front| - i
  {
    if i < |front| {
      TornAt(front, rest, i + 1, n);
    }
  }

  // ----- pastes -----

  predicate EndsPasteAt(s: seq<Byte>, k: nat) {
    k + 6 <= |s| && s[k..k + 6] == [0x1b, 0x5b, 0x32, 0x30, 0x31, 0x7e]
  }

  /** ESC [ 2 0 0 ~, the payload, ESC [ 2 0 1 ~: one paste, or one refusal past 4096 bytes. */
  lemma PasteBytes(payload: seq<Byte>, rest: seq<Byte>, cr: bool)
    requires forall k: nat :: !EndsPasteAt(payload, k)
    ensures Drain([0x1b, 0x5b, 0x32, 0x30, 0x30, 0x7e] + payload + [0x1b, 0x5b, 0x32, 0x30, 0x31, 0x7e] + rest, cr)
         == Prepend([if |payload| <= 4096 then Paste(payload) else InputTooLong], Drain(rest, false))
  {
    forall k: nat ensures !TerminatorAt(payload, k) {
      assert !EndsPasteAt(payload, k);
    }
    KeyProperties.FramedPasteIsOneEvent(payload, rest, cr);
  }

  // ----- the timer -----

  lemma {:induction false} PumpsBehind(events: seq<Event>, d: Drained, ticks: seq<KeyProperties.Tick>)
    ensures KeyProperties.Pump(Prepend(events, d), ticks) == Prepend(events, KeyProperties.Pump(d, ticks))
    decreases |ticks|
  {
    if ticks != [] {
      hide Drain, Pending;
      var next := KeyProperties.Take(d, ticks[0]);
      assert events + (d.events + [Ignored]) == events + d.events + [Ignored];
      assert forall more: seq<Event> :: events + (d.events + more) == events + d.events + more;
      assert KeyProperties.Take(Prepend(events, d), ticks[0]) == Prepend(events, next);
      PumpsBehind(events, next, ticks[1..]);
    }
  }

  /**
   A pause inside anything unfinished, but not inside a paste, ends it as one ignored event, and the
   bytes behind the pause are read afresh.
   */
  lemma PauseAbandons(held: seq<Byte>, cr: bool, ticks: seq<KeyProperties.Tick>)
    requires held != [] && !([0x1b, 0x5b, 0x32, 0x30, 0x30, 0x7e] <= held)
    requires forall i :: 0 <= i < |ticks| ==> ticks[i].Byte?
    ensures KeyProperties.Pump(Drained([], held, cr), [KeyProperties.Timeout] + ticks)
         == Prepend([Ignored], Drain(KeyProperties.BytesOf(ticks), cr))
  {
    var all := [KeyProperties.Timeout] + ticks;
    assert all[0] == KeyProperties.Timeout && all[1..] == ticks;
    assert Expire(Drained([], held, cr)) == Prepend([Ignored], Drained([], [], cr));
    PumpsBehind([Ignored], Drained([], [], cr), ticks);
    assert Drain([], cr) == Drained([], [], cr);
    KeyProperties.NoTimeoutNoDifference([], cr, ticks);
    assert [] + KeyProperties.BytesOf(ticks) == KeyProperties.BytesOf(ticks);
  }

  /** Between keys, and inside a paste, a pause means nothing. */
  lemma PauseIsNothing(d: Drained, ticks: seq<KeyProperties.Tick>)
    requires d.held == [] || [0x1b, 0x5b, 0x32, 0x30, 0x30, 0x7e] <= d.held
    ensures KeyProperties.Pump(d, [KeyProperties.Timeout] + ticks) == KeyProperties.Pump(d, ticks)
  {
    var all := [KeyProperties.Timeout] + ticks;
    assert all[0] == KeyProperties.Timeout && all[1..] == ticks;
  }
}
