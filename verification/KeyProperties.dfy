/** What the tokenizer promises about any input: nothing is invented, pastes are framed exactly. */
module KeyProperties {
  import opened Bytes
  import opened KeyTokens
  import KeyDecoding
  import Utf8

  // ----- every character delivered is a piece of the input, in order -----

  /** The bytes that an event which carries text must have been made of. */
  predicate Spells(e: Event, piece: seq<Byte>) {
    match e
    case Rune(r) => Utf8.IsScalar(r) && piece == Utf8.Encode(r)
    case Paste(text) => piece == text
    case _ => true
  }

  /** The events are spelled by disjoint pieces of s, in order. */
  ghost predicate SpelledInOrder(events: seq<Event>, s: seq<Byte>) {
    events == []
    || exists i, j :: 0 <= i <= j <= |s| && Spells(events[0], s[i..j]) && SpelledInOrder(events[1..], s[j..])
  }

  lemma SpelledLater(events: seq<Event>, p: seq<Byte>, s: seq<Byte>)
    requires SpelledInOrder(events, s)
    ensures SpelledInOrder(events, p + s)
  {
    if events != [] {
      var i, j :| 0 <= i <= j <= |s| && Spells(events[0], s[i..j]) && SpelledInOrder(events[1..], s[j..]);
      assert (p + s)[|p| + i..|p| + j] == s[i..j];
      assert (p + s)[|p| + j..] == s[j..];
    }
  }

  lemma SpelledThenIgnored(events: seq<Event>, s: seq<Byte>)
    requires SpelledInOrder(events, s)
    ensures SpelledInOrder(events + [Ignored], s)
  {
    if events == [] {
      assert Spells(Ignored, s[0..0]);
      assert ([Ignored])[1..] == [];
      assert SpelledInOrder([], s[0..]);
    } else {
      var i, j :| 0 <= i <= j <= |s| && Spells(events[0], s[i..j]) && SpelledInOrder(events[1..], s[j..]);
      SpelledThenIgnored(events[1..], s[j..]);
      assert (events + [Ignored])[1..] == events[1..] + [Ignored];
    }
  }

  lemma LexemeSpelled(s: seq<Byte>, cr: bool) returns (i: nat, j: nat)
    requires s != [] && FirstLexeme(s, cr).Lexeme? && |FirstLexeme(s, cr).events| == 1
    ensures i <= j <= FirstLexeme(s, cr).size
    ensures Spells(FirstLexeme(s, cr).events[0], s[i..j])
  {
    var Lexeme(n, events) := FirstLexeme(s, cr);
    i, j := 0, n;
    match events[0] {
      case Rune(r) =>
        Utf8.DecodeThenEncode(s);
      case Paste(text) =>
        i, j := |PASTE_START|, |PASTE_START| + |text|;
        assert text == s[|PASTE_START|..][..|text|];
      case _ =>
    }
  }

  lemma {:induction false} DrainSpelled(s: seq<Byte>, cr: bool)
    ensures SpelledInOrder(Drain(s, cr).events, s)
    decreases |s|
  {
    if s != [] && FirstLexeme(s, cr).Lexeme? {
      var Lexeme(n, events) := FirstLexeme(s, cr);
      var rest := Drain(s[n..], s[0] == CR).events;
      DrainSpelled(s[n..], s[0] == CR);
      if events == [] {
        assert events + rest == rest;
        assert s == s[..n] + s[n..];
        SpelledLater(rest, s[..n], s[n..]);
      } else {
        var i, j := LexemeSpelled(s, cr);
        assert s[j..] == s[j..n] + s[n..];
        SpelledLater(rest, s[j..n], s[n..]);
        assert (events + rest)[1..] == rest && (events + rest)[0] == events[0];
      }
    }
  }

  /** Runes and pastes delivered from any input are contiguous, disjoint pieces of it, in order. */
  lemma EventsAreInput(s: seq<Byte>, cr: bool)
    ensures SpelledInOrder(Tokenize(s, cr), s)
  {
    DrainSpelled(s, cr);
    if Drain(s, cr).held != [] {
      SpelledThenIgnored(Drain(s, cr).events, s);
    } else {
      assert Tokenize(s, cr) == Drain(s, cr).events;
    }
  }

  // ----- paste framing -----

  function Framed(payload: seq<Byte>): seq<Byte> {
    PASTE_START + payload + PASTE_END
  }

  /** The terminator overlaps no proper suffix of itself, so framing creates no earlier one. */
  lemma TerminatorIsBorderFree(payload: seq<Byte>, tail: seq<Byte>, r: nat)
    requires FindTerminator(payload).None? && r < |payload|
    ensures !TerminatorAt(payload + PASTE_END + tail, r)
  {
    hide FindTerminator;
    var body := payload + PASTE_END + tail;
    if r + |PASTE_END| <= |payload| {
      assert !TerminatorAt(payload, r);
      assert payload[r..r + |PASTE_END|] == body[r..r + |PASTE_END|];
    } else {
      EscapeOnlyFirst(|payload| - r);
      assert body[|payload|] == ESC;
      assert body[r..r + |PASTE_END|][|payload| - r] == body[|payload|];
    }
  }

  lemma EscapeOnlyFirst(k: nat)
    requires 0 < k < |PASTE_END|
    ensures PASTE_END[k] != ESC
  {
  }

  lemma FirstTerminatorOfFrame(payload: seq<Byte>, tail: seq<Byte>)
    requires FindTerminator(payload).None?
    ensures FindTerminator(payload + PASTE_END + tail) == Some(|payload|)
  {
    var body := payload + PASTE_END + tail;
    assert body[|payload|..|payload| + |PASTE_END|] == PASTE_END;
    assert TerminatorAt(body, |payload|);
    if FindTerminator(body).value < |payload| {
      TerminatorIsBorderFree(payload, tail, FindTerminator(body).value);
    }
  }

  lemma FramedLexeme(payload: seq<Byte>, tail: seq<Byte>, cr: bool)
    requires FindTerminator(payload).None?
    ensures FirstLexeme(Framed(payload) + tail, cr) == Lexeme(|Framed(payload)|, [PasteEvent(payload)])
  {
    var body := payload + PASTE_END + tail;
    var s := Framed(payload) + tail;
    assert s == PASTE_START + body;
    FirstTerminatorOfFrame(payload, tail);
    FinalIndexStable(PASTE_START, body, 2);
    assert FinalIndex(PASTE_START, 4) == 5;
    assert s[..6] == PASTE_START && s[6..] == body;
    assert body[..|payload|] == payload;
  }

  /** A framed paste is exactly one event, whatever comes before it on the ground and behind it. */
  lemma FramedPasteIsOneEvent(payload: seq<Byte>, tail: seq<Byte>, cr: bool)
    requires FindTerminator(payload).None?
    ensures Drain(Framed(payload) + tail, cr) == Prepend([PasteEvent(payload)], Drain(tail, false))
  {
    var s := Framed(payload);
    FramedLexeme(payload, tail, cr);
    assert (s + tail)[|s|..] == tail;
  }

  /** Before its last byte the frame decides nothing. */
  lemma NothingBeforeTheLastByte(payload: seq<Byte>, k: nat, cr: bool)
    requires FindTerminator(payload).None? && 0 < k < |Framed(payload)|
    ensures Drain(Framed(payload)[..k], cr) == Drained([], Framed(payload)[..k], false)
  {
    var s := Framed(payload);
    assert s[..k] + s[k..] == s + [];
    FramedLexeme(payload, [], cr);
    if FirstLexeme(s[..k], cr).Lexeme? {
      LexemeStable(s[..k], s[k..], cr);
    }
  }

  // ----- the reader's timer -----

  /** What reaches the decoder: a byte, or the expiry of the inter-byte timer. */
  datatype Tick = Byte(b: Byte) | Timeout

  function Take(d: Drained, tick: Tick): Drained {
    match tick
    case Byte(b) => Resume(d, [b])
    case Timeout => Expire(d)
  }

  function Pump(d: Drained, ticks: seq<Tick>): Drained
    decreases |ticks|
  {
    if ticks == [] then d else Pump(Take(d, ticks[0]), ticks[1..])
  }

  function BytesOf(ticks: seq<Tick>): seq<Byte> {
    if ticks == [] then []
    else (if ticks[0].Byte? then [ticks[0].b] else []) + BytesOf(ticks[1..])
  }

  /** The reader with its timer: bytes and expiries in any order drive the decoder as the pump says. */
  method DecodeTicks(ticks: seq<Tick>) returns (events: seq<Event>)
    ensures var d := Pump(Drained([], [], false), ticks);
            events == d.events + if d.held == [] then [] else [Ignored]
  {
    hide Drain;
    var decoder := new KeyDecoding.KeyDecoder();
    events := [];
    assert ticks[0..] == ticks;
    for i := 0 to |ticks|
      invariant decoder.Valid() && fresh(decoder)
      invariant Pump(Drained(events, decoder.held, decoder.cr), ticks[i..]) == Pump(Drained([], [], false), ticks)
    {
      assert ticks[i..][0] == ticks[i] && ticks[i..][1..] == ticks[i + 1..];
      assert events + ([] + [Ignored]) == events + [Ignored] && events + [] == events;
      var more;
      match ticks[i] {
        case Byte(b) => more := decoder.Feed(b);
        case Timeout => more := decoder.Timeout();
      }
      events := events + more;
    }
    var rest := decoder.Flush();
    events := events + rest;
  }

  lemma OnlyTimeouts(d: Drained, ticks: seq<Tick>)
    requires d.held == [] && BytesOf(ticks) == []
    ensures Pump(d, ticks) == d
  {
    if ticks != [] {
      assert ticks[0].Timeout?;
      OnlyTimeouts(d, ticks[1..]);
    }
  }

  /**
   Once the start marker is recognised, no timer schedule changes the paste: any interleaving of
   expiries with the rest of the frame delivers the same single event.
   */
  lemma {:induction false} PasteIgnoresTimers(payload: seq<Byte>, taken: nat, ticks: seq<Tick>)
    requires FindTerminator(payload).None?
    requires |PASTE_START| <= taken < |Framed(payload)|
    requires BytesOf(ticks) == Framed(payload)[taken..]
    ensures Pump(Drained([], Framed(payload)[..taken], false), ticks) == Drained([PasteEvent(payload)], [], false)
    decreases |ticks|
  {
    hide FirstLexeme, Drain, FindTerminator;
    var s := Framed(payload);
    var d := Drained([], s[..taken], false);
    if ticks[0].Timeout? {
      assert s[..taken][..|PASTE_START|] == PASTE_START;
      assert Take(d, ticks[0]) == d;
      PasteIgnoresTimers(payload, taken, ticks[1..]);
    } else {
      assert [ticks[0].b] + BytesOf(ticks[1..]) == s[taken..];
      assert ticks[0].b == s[taken] && BytesOf(ticks[1..]) == s[taken + 1..];
      NextPasteByte(payload, taken);
      if taken + 1 < |s| {
        PasteIgnoresTimers(payload, taken + 1, ticks[1..]);
      } else {
        OnlyTimeouts(Take(d, ticks[0]), ticks[1..]);
      }
    }
  }

  lemma NextPasteByte(payload: seq<Byte>, taken: nat)
    requires FindTerminator(payload).None?
    requires 0 < taken < |Framed(payload)|
    ensures Take(Drained([], Framed(payload)[..taken], false), Byte(Framed(payload)[taken]))
         == if taken + 1 < |Framed(payload)| then Drained([], Framed(payload)[..taken + 1], false)
            else Drained([PasteEvent(payload)], [], false)
  {
    hide FirstLexeme, FindTerminator;
    var s := Framed(payload);
    assert s[..taken] + [s[taken]] == s[..taken + 1];
    if taken + 1 < |s| {
      NothingBeforeTheLastByte(payload, taken + 1, false);
    } else {
      FramedPasteIsOneEvent(payload, [], false);
      assert s[..|s|] == s == s + [];
    }
  }

  /** With no expiry, the schedule is invisible: the pump drains the bytes it was given. */
  lemma {:induction false} NoTimeoutNoDifference(s: seq<Byte>, cr: bool, ticks: seq<Tick>)
    requires forall i :: 0 <= i < |ticks| ==> ticks[i].Byte?
    ensures Pump(Drain(s, cr), ticks) == Drain(s + BytesOf(ticks), cr)
    decreases |ticks|
  {
    hide FirstLexeme, Drain, Take;
    if ticks == [] {
      assert s + [] == s;
    } else {
      TakeByte(s, cr, ticks[0]);
      NoTimeoutNoDifference(s + [ticks[0].b], cr, ticks[1..]);
      assert s + [ticks[0].b] + BytesOf(ticks[1..]) == s + ([ticks[0].b] + BytesOf(ticks[1..]));
    }
  }

  lemma TakeByte(s: seq<Byte>, cr: bool, tick: Tick)
    requires tick.Byte?
    ensures Take(Drain(s, cr), tick) == Drain(s + [tick.b], cr)
  {
    hide Drain;
    DrainInChunks(s, [tick.b], cr);
  }
}
