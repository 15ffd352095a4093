/**
 The incremental key decoder: one byte at a time, nine fields of state. Its fields always stand
 for the bytes it has taken and not yet turned into an event, and every step returns exactly the
 events the whole-buffer tokenizer finds in those bytes plus the new one.
 */
module KeyDecoding {
  import opened Bytes
  import opened KeyTokens
  import Utf8

  datatype DecodeState = Ground | Escape | Csi | Ss3 | Utf8Rune | InPaste

  /** Every offset before n is already known to start no terminator, whatever bytes still come. */
  ghost predicate RuledOut(body: seq<Byte>, n: nat) {
    forall i :: 0 <= i < n ==> MismatchAt(body, i)
  }

  ghost predicate MismatchAt(body: seq<Byte>, i: nat) {
    exists j :: 0 <= j < |PASTE_END| && i + j < |body| && body[i + j] != PASTE_END[j]
  }

  class KeyDecoder {
    var st: DecodeState
    var seqLen: nat
    var csi: seq<Byte>
    var u8: seq<Byte>
    var u8need: nat
    var paste: seq<Byte>
    var pmatch: nat
    var pover: bool
    var cr: bool

    // Bytes taken since the last decided lexeme, and the paste payload among them.
    ghost var held: seq<Byte>
    ghost var payload: seq<Byte>

    ghost predicate Valid()
      reads this
    {
      && (held != [] ==> !cr && FirstLexeme(held, false).NeedMore?)
      && match st {
           case Ground => held == []
           case Escape => held == [ESC] && seqLen == 1
           case Csi =>
             && held == [ESC, 0x5b] + csi
             && seqLen == |held| <= MAX_SEQ_LEN
             && FinalIndex(held, 2) == |held|
           case Ss3 => held == [ESC, 0x4f]
           case Utf8Rune =>
             && held == u8 && u8 != []
             && 0 < u8need
             && |u8| + u8need == 1 + Utf8.Continuations(u8[0])
             && ContinuationsEnd(u8, 1, |u8| + u8need) == |u8|
           case InPaste =>
             && pmatch < |PASTE_END|
             && held == PASTE_START + payload + PASTE_END[..pmatch]
             && RuledOut(payload + PASTE_END[..pmatch], |payload|)
             && (pover <==> |payload| > MAX_PASTE_BYTES)
             && (!pover ==> paste == payload)
         }
    }

    constructor ()
      ensures Valid() && held == [] && !cr
    {
      st, seqLen, csi, u8, u8need := Ground, 0, [], [], 0;
      paste, pmatch, pover, cr := [], 0, false, false;
      held, payload := [], [];
    }

    /** Whether an inter-byte timeout applies: inside every sequence except a paste. */
    predicate Pending()
      reads this
    {
      st == Escape || st == Csi || st == Ss3 || st == Utf8Rune
    }

    method Reset()
      modifies this
      ensures Valid() && held == [] && st == Ground && cr == old(cr)
      ensures paste == [] && pmatch == 0 && !pover && payload == []
    {
      st, seqLen, csi, u8, u8need := Ground, 0, [], [], 0;
      paste, pmatch, pover := [], 0, false;
      held, payload := [], [];
    }

    /** Abandons whatever is in flight: exactly the event an input ending here still owes. */
    method Flush() returns (events: seq<Event>)
      requires Valid()
      modifies this
      ensures Valid() && held == [] && cr == old(cr)
      ensures events == if old(held) == [] then [] else [Ignored]
    {
      if st == Ground {
        return [];
      }
      Reset();
      return [Ignored];
    }

    /** One byte: the decoder moves from draining `held` to draining `held + [b]`. */
    method Feed(b: Byte) returns (events: seq<Event>)
      requires Valid()
      modifies this
      ensures Valid()
      ensures Drained(events, held, cr) == Drain(old(held) + [b], old(cr))
      decreases if st == Utf8Rune then 1 else 0
    {
      match st {
        case Ground => events := OnGround(b);
        case Escape => events := OnEscape(b);
        case Ss3 =>
          assert FirstLexeme(held + [b], false) == Lexeme(3, [Ignored]);
          WholeLexeme(held + [b], cr);
          st, seqLen, held := Ground, 0, [];
          events := [Ignored];
        case Csi => events := OnCsi(b);
        case InPaste => events := OnPaste(b);
        case Utf8Rune => events := OnRune(b);
      }
    }

    method OnGround(b: Byte) returns (events: seq<Event>)
      requires Valid() && st == Ground
      modifies this
      ensures Valid()
      ensures Drained(events, held, cr) == Drain([b], old(cr))
    {
      SingleByte(b, cr);
      if cr {
        cr := false;
        if b == LF {
          return [];
        }
      }
      if b == ESC {
        st, seqLen, held := Escape, 1, [b];
        return [];
      } else if 0xC2 <= b <= 0xDF {
        StartRune(b, 1);
        return [];
      } else if 0xE0 <= b <= 0xEF {
        StartRune(b, 2);
        return [];
      } else if 0xF0 <= b <= 0xF4 {
        StartRune(b, 3);
        return [];
      }
      cr := b == CR;
      return [ControlEvent(b)];
    }

    method StartRune(b: Byte, continuations: nat)
      requires Valid() && st == Ground && !cr
      requires 0 < continuations == Utf8.Continuations(b)
      modifies this
      ensures Valid() && held == [b] && !cr
    {
      st, u8, u8need, held := Utf8Rune, [b], continuations, [b];
    }

    method OnEscape(b: Byte) returns (events: seq<Event>)
      requires Valid() && st == Escape
      modifies this
      ensures Valid()
      ensures Drained(events, held, cr) == Drain(old(held) + [b], old(cr))
    {
      ghost var s := held + [b];
      seqLen := seqLen + 1;
      if b == 0x5b {
        st, csi, held := Csi, [], s;
        return [];
      } else if b == 0x4f {
        st, held := Ss3, s;
        return [];
      }
      assert FirstLexeme(s, false) == Lexeme(2, [Ignored]);
      WholeLexeme(s, cr);
      st, held := Ground, [];
      return [Ignored];
    }

    method OnCsi(b: Byte) returns (events: seq<Event>)
      requires Valid() && st == Csi
      modifies this
      ensures Valid()
      ensures Drained(events, held, cr) == Drain(old(held) + [b], old(cr))
    {
      ghost var s := held + [b];
      NextCsiByte(held, b);
      seqLen := seqLen + 1;
      if seqLen > MAX_SEQ_LEN {
        Reset();
        return [Ignored];
      }
      if IsCsiFinal(b) {
        var isPasteStart := b == 0x7e && csi == [0x32, 0x30, 0x30];
        assert s[2..|s| - 1] == csi && s[|s| - 1] == b;
        assert isPasteStart ==> s == PASTE_START;
        assert s == PASTE_START ==> csi == PASTE_START[2..5];
        Reset();
        if isPasteStart {
          st, held := InPaste, s;
          assert PASTE_START + [] + PASTE_END[..0] == s;
          return [];
        }
        return [Ignored];
      }
      csi, held := csi + [b], s;
      return [];
    }

    method OnPaste(b: Byte) returns (events: seq<Event>)
      requires Valid() && st == InPaste
      modifies this
      ensures Valid()
      ensures Drained(events, held, cr) == Drain(old(held) + [b], old(cr))
    {
      if b == PASTE_END[pmatch] {
        MatchGrows(held, payload, pmatch, b);
        pmatch, held := pmatch + 1, held + [b];
        if pmatch == |PASTE_END| {
          assert PASTE_END[..pmatch] == PASTE_END;
          TerminatorReached(payload);
          var p, over := paste, pover;
          Reset();
          return [if over then InputTooLong else Paste(p)];
        }
        return [];
      }
      OnPasteMismatch(b);
      return [];
    }

    /** The partial match was payload after all: replay it, and retry the match at this byte. */
    method OnPasteMismatch(b: Byte)
      requires Valid() && st == InPaste && b != PASTE_END[pmatch]
      modifies this
      ensures Valid() && st == InPaste && cr == old(cr) && held == old(held) + [b]
    {
      MatchBroken(held, payload, pmatch, b);
      AppendPaste(PASTE_END[..pmatch]);
      pmatch, held := 0, held + [b];
      if b == PASTE_END[0] {
        pmatch := 1;
      } else {
        AppendPaste([b]);
      }
      assert payload == old(payload) + PASTE_END[..old(pmatch)] + if b == ESC then [] else [b];
    }

    /** Collects payload until the bound is passed; from then on only remembers that it was. */
    method AppendPaste(p: seq<Byte>)
      requires pover <==> |payload| > MAX_PASTE_BYTES
      requires !pover ==> paste == payload
      modifies `paste, `pover, `payload
      ensures payload == old(payload) + p
      ensures pover <==> |payload| > MAX_PASTE_BYTES
      ensures !pover ==> paste == payload
    {
      payload := payload + p;
      if pover {
        return;
      }
      if |p| > MAX_PASTE_BYTES - |paste| {
        paste, pover := [], true;
        return;
      }
      paste := paste + p;
    }

    method OnRune(b: Byte) returns (events: seq<Event>)
      requires Valid() && st == Utf8Rune
      modifies this
      ensures Valid()
      ensures Drained(events, held, cr) == Drain(old(held) + [b], old(cr))
      decreases 1, 0
    {
      hide FirstLexeme, Utf8.RuneSize, Utf8.RuneValue, Utf8.Valid;
      NextContinuation(u8, b, u8need);
      if !Utf8.IsContinuation(b) {
        TornRune(u8, b, u8need);
        u8, u8need, st, held := [], 0, Ground, [];
        assert held + [b] == [b] && Valid();
        hide Valid, Drain, ContinuationsEnd;
        events := Feed(b);
        return [Ignored] + events;
      }
      u8, u8need, held := u8 + [b], u8need - 1, held + [b];
      if u8need > 0 {
        UndecidedRune(held);
        return [];
      }
      CompleteRune(u8);
      hide Drain, ContinuationsEnd;
      if !Utf8.Valid(u8) {
        events := [Ignored];
      } else {
        events := [Rune(Utf8.RuneValue(u8))];
      }
      st, u8, held := Ground, [], [];
    }

    /** One read's worth of bytes, however the terminal cut the stream. */
    method FeedChunk(chunk: seq<Byte>) returns (events: seq<Event>)
      requires Valid()
      modifies this
      ensures Valid()
      ensures Drained(events, held, cr) == Drain(old(held) + chunk, old(cr))
    {
      hide Valid, Drain, FirstLexeme;
      events := [];
      UndecidedSoFar();
      assert old(held) + chunk[..0] == held;
      ghost var drained := Drained(events, held, cr);
      for i := 0 to |chunk|
        invariant Valid()
        invariant drained == Drained(events, held, cr)
        invariant drained == Drain(old(held) + chunk[..i], old(cr))
      {
        assert old(held) + chunk[..i + 1] == old(held) + chunk[..i] + [chunk[i]];
        DrainOneMore(old(held) + chunk[..i], chunk[i], old(cr), drained);
        var more := Feed(chunk[i]);
        events := events + more;
        drained := Prepend(drained.events, Drained(more, held, cr));
      }
      assert chunk[..|chunk|] == chunk;
    }

    lemma UndecidedSoFar()
      requires Valid()
      ensures Drain(held, cr) == Drained([], held, cr)
    {
    }

    lemma PendingIsHeld()
      requires Valid()
      ensures Pending() <==> KeyTokens.Pending(held)
    {
      match st {
        case Csi =>
          assert PASTE_START[5] == 0x7e;
        case Utf8Rune => assert u8[0] != ESC;
        case InPaste => assert held[..|PASTE_START|] == PASTE_START;
        case _ =>
      }
    }

    /** The reader's timer: it abandons a pending sequence and leaves anything else alone. */
    method Timeout() returns (events: seq<Event>)
      requires Valid()
      modifies this
      ensures Valid() && cr == old(cr)
      ensures Drained(events, held, cr) == Expire(Drained([], old(held), old(cr)))
    {
      PendingIsHeld();
      if Pending() {
        events := Flush();
      } else {
        events := [];
      }
    }
  }

  /** A whole input, from the first byte to the end of the stream, in any chunks. */
  method DecodeAll(chunks: seq<seq<Byte>>) returns (events: seq<Event>)
    ensures events == Tokenize(Flatten(chunks), false)
  {
    var d := new KeyDecoder();
    events := [];
    for i := 0 to |chunks|
      invariant d.Valid()
      invariant fresh(d)
      invariant Drained(events, d.held, d.cr) == Drain(Flatten(chunks[..i]), false)
    {
      assert chunks[..i + 1] == chunks[..i] + [chunks[i]];
      FlattenAppend(chunks[..i], [chunks[i]]);
      assert Flatten([chunks[i]]) == chunks[i];
      DrainInChunks(Flatten(chunks[..i]), chunks[i], false);
      var more := d.FeedChunk(chunks[i]);
      events := events + more;
    }
    assert chunks[..|chunks|] == chunks;
    var rest := d.Flush();
    events := events + rest;
  }

  // ----- what a single step decides -----

  lemma WholeLexeme(s: seq<Byte>, cr: bool)
    requires s != [] && FirstLexeme(s, cr).Lexeme? && FirstLexeme(s, cr).size == |s|
    ensures Drain(s, cr) == Drained(FirstLexeme(s, cr).events, [], s[0] == CR)
  {
    assert s[|s|..] == [];
  }

  lemma SingleByte(b: Byte, cr: bool)
    ensures FirstLexeme([b], cr) ==
            if cr && b == LF then Lexeme(1, [])
            else if b == ESC || Utf8.Continuations(b) > 0 then NeedMore
            else Lexeme(1, [ControlEvent(b)])
    ensures FirstLexeme([b], cr).Lexeme? ==> Drain([b], cr) == Drained(FirstLexeme([b], cr).events, [], b == CR)
  {
    if FirstLexeme([b], cr).Lexeme? {
      WholeLexeme([b], cr);
    }
  }

  lemma DrainOneMore(s: seq<Byte>, b: Byte, cr: bool, d: Drained)
    requires d == Drain(s, cr)
    ensures Drain(s + [b], cr) == Prepend(d.events, Drain(d.held + [b], d.cr))
  {
    DrainInChunks(s, [b], cr);
  }

  lemma NextCsiByte(held: seq<Byte>, b: Byte)
    requires [ESC, 0x5b] <= held && |held| <= MAX_SEQ_LEN && FinalIndex(held, 2) == |held|
    ensures var s := held + [b];
            && (!IsCsiFinal(b) ==> FinalIndex(s, 2) == |s|)
            && (if |s| > MAX_SEQ_LEN then Drain(s, false) == Drained([Ignored], [], false)
                else if !IsCsiFinal(b) || s == PASTE_START then FirstLexeme(s, false).NeedMore?
                else Drain(s, false) == Drained([Ignored], [], false))
  {
    var s := held + [b];
    FinalIndexStable(held, [b], 2);
    assert s[0] == ESC && s[1] == 0x5b;
    assert s[|held|] == b;
    assert s[..|s|] == s;
    if |s| > MAX_SEQ_LEN {
      assert EscapeLexeme(s) == Lexeme(|s|, [Ignored]);
      WholeLexeme(s, false);
    } else if IsCsiFinal(b) && s != PASTE_START {
      assert FinalIndex(s, 2) == |held|;
      assert EscapeLexeme(s) == Lexeme(|s|, [Ignored]);
      WholeLexeme(s, false);
    } else if IsCsiFinal(b) {
      assert FinalIndex(s, 2) == |held|;
      assert s[|PASTE_START|..] == [];
    }
  }

  lemma StillRuledOut(body: seq<Byte>, b: Byte, n: nat)
    requires RuledOut(body, n)
    ensures RuledOut(body + [b], n)
  {
    forall i | 0 <= i < n ensures MismatchAt(body + [b], i) {
      assert MismatchAt(body, i);
      var j :| 0 <= j < |PASTE_END| && i + j < |body| && body[i + j] != PASTE_END[j];
      assert (body + [b])[i + j] != PASTE_END[j];
    }
  }

  /** One more byte of the terminator: either it is complete, or the paste is still open. */
  lemma MatchGrows(held: seq<Byte>, payload: seq<Byte>, pmatch: nat, b: Byte)
    requires pmatch < |PASTE_END| && b == PASTE_END[pmatch]
    requires held == PASTE_START + payload + PASTE_END[..pmatch]
    requires RuledOut(payload + PASTE_END[..pmatch], |payload|)
    ensures held + [b] == PASTE_START + payload + PASTE_END[..pmatch + 1]
    ensures RuledOut(payload + PASTE_END[..pmatch + 1], |payload|)
    ensures pmatch + 1 < |PASTE_END| ==> FirstLexeme(held + [b], false).NeedMore?
  {
    StillRuledOut(payload + PASTE_END[..pmatch], b, |payload|);
    assert PASTE_END[..pmatch] + [b] == PASTE_END[..pmatch + 1];
    assert payload + PASTE_END[..pmatch] + [b] == payload + PASTE_END[..pmatch + 1];
    if pmatch + 1 < |PASTE_END| {
      StillInPaste(held + [b], payload, pmatch + 1);
    }
  }

  /**
   A mismatch rules out every start inside the failed match, because ESC occurs only first in
   the terminator: replaying the match as payload and retrying at the new byte loses nothing.
   */
  lemma MatchBroken(held: seq<Byte>, payload: seq<Byte>, pmatch: nat, b: Byte)
    requires pmatch < |PASTE_END| && b != PASTE_END[pmatch]
    requires held == PASTE_START + payload + PASTE_END[..pmatch]
    requires RuledOut(payload + PASTE_END[..pmatch], |payload|)
    ensures var retry := if b == ESC then 1 else 0;
            var payload' := payload + PASTE_END[..pmatch] + if b == ESC then [] else [b];
            && held + [b] == PASTE_START + payload' + PASTE_END[..retry]
            && RuledOut(payload' + PASTE_END[..retry], |payload'|)
            && FirstLexeme(held + [b], false).NeedMore?
  {
    var retry := if b == ESC then 1 else 0;
    var payload' := payload + PASTE_END[..pmatch] + if b == ESC then [] else [b];
    var body := payload + PASTE_END[..pmatch] + [b];
    assert PASTE_END[..1] == [ESC] && PASTE_END[..0] == [];
    assert body == payload' + PASTE_END[..retry];
    StillRuledOut(payload + PASTE_END[..pmatch], b, |payload|);
    forall i | 0 <= i < |payload'| ensures MismatchAt(body, i) {
      if i >= |payload| {
        var j := if i == |payload| then pmatch else 0;
        assert body[i + j] != PASTE_END[j];
      }
    }
    StillInPaste(held + [b], payload', retry);
  }

  /** Ruled-out offsets hold no terminator, and a partial match is too short to be one. */
  lemma StillInPaste(held: seq<Byte>, payload: seq<Byte>, pmatch: nat)
    requires pmatch < |PASTE_END|
    requires held == PASTE_START + payload + PASTE_END[..pmatch]
    requires RuledOut(payload + PASTE_END[..pmatch], |payload|)
    ensures FirstLexeme(held, false).NeedMore?
  {
    var body := payload + PASTE_END[..pmatch];
    PasteStartsHere(held, body);
    if FindTerminator(body).Some? {
      NoTerminator(body, FindTerminator(body).value, |payload|);
    }
  }

  lemma PasteStartsHere(s: seq<Byte>, body: seq<Byte>)
    requires s == PASTE_START + body
    ensures FirstLexeme(s, false) == PasteLexeme(s)
    ensures s[|PASTE_START|..] == body
  {
    FinalIndexStable(PASTE_START, body, 2);
    assert FinalIndex(PASTE_START, 4) == 5;
    assert s[..6] == PASTE_START;
  }

  lemma NoTerminator(body: seq<Byte>, i: nat, n: nat)
    requires RuledOut(body, n) && i < n
    ensures !TerminatorAt(body, i)
  {
    assert MismatchAt(body, i);
    var j :| 0 <= j < |PASTE_END| && i + j < |body| && body[i + j] != PASTE_END[j];
    if i + |PASTE_END| <= |body| {
      assert body[i..i + |PASTE_END|][j] == body[i + j];
    }
  }

  lemma FirstTerminatorIs(payload: seq<Byte>, tail: seq<Byte>)
    requires RuledOut(payload + PASTE_END + tail, |payload|)
    ensures FindTerminator(payload + PASTE_END + tail) == Some(|payload|)
  {
    var body := payload + PASTE_END + tail;
    assert body[|payload|..|payload| + |PASTE_END|] == PASTE_END;
    assert TerminatorAt(body, |payload|);
    var r := FindTerminator(body);
    if r.value < |payload| {
      NoTerminator(body, r.value, |payload|);
    }
  }

  lemma PasteCloses(payload: seq<Byte>, tail: seq<Byte>)
    requires FindTerminator(payload + PASTE_END + tail) == Some(|payload|)
    ensures FirstLexeme(PASTE_START + payload + PASTE_END + tail, false)
         == Lexeme(|PASTE_START + payload + PASTE_END|, [PasteEvent(payload)])
  {
    var body := payload + PASTE_END + tail;
    var s := PASTE_START + payload + PASTE_END + tail;
    assert s == PASTE_START + body;
    PasteStartsHere(s, body);
    assert body[..|payload|] == payload;
  }

  lemma TerminatorReached(payload: seq<Byte>)
    requires RuledOut(payload + PASTE_END, |payload|)
    ensures Drain(PASTE_START + payload + PASTE_END, false) == Drained([PasteEvent(payload)], [], false)
  {
    assert payload + PASTE_END + [] == payload + PASTE_END;
    FirstTerminatorIs(payload, []);
    PasteCloses(payload, []);
    var s := PASTE_START + payload + PASTE_END;
    assert s + [] == s;
    WholeLexeme(s, false);
  }

  /** A continuation byte that is not the last one announced leaves the rune open. */
  lemma NextContinuation(u8: seq<Byte>, b: Byte, need: nat)
    requires u8 != [] && 0 < need && |u8| + need == 1 + Utf8.Continuations(u8[0])
    requires ContinuationsEnd(u8, 1, |u8| + need) == |u8|
    ensures Utf8.IsContinuation(b) ==> ContinuationsEnd(u8 + [b], 1, |u8| + need) == |u8| + 1
    ensures Utf8.IsContinuation(b) && need > 1 ==> FirstLexeme(u8 + [b], false).NeedMore?
  {
    ExtendContinuations(u8, b, 1, |u8| + need);
    assert (u8 + [b])[0] == u8[0];
  }

  lemma ExtendContinuations(u8: seq<Byte>, b: Byte, i: nat, n: nat)
    requires i <= |u8| < n && ContinuationsEnd(u8, i, n) == |u8|
    ensures ContinuationsEnd(u8 + [b], i, n) == |u8| + if Utf8.IsContinuation(b) then 1 else 0
    decreases |u8| - i
  {
    if i < |u8| {
      ExtendContinuations(u8, b, i + 1, n);
    }
  }

  lemma UndecidedRune(s: seq<Byte>)
    requires s != [] && FirstLexeme(s, false).NeedMore?
    ensures Drain(s, false) == Drained([], s, false)
  {
    hide FirstLexeme;
  }

  /** Any other byte tears the rune: one ignored event, and the byte starts over on the ground. */
  lemma TornRune(u8: seq<Byte>, b: Byte, need: nat)
    requires u8 != [] && 0 < need && |u8| + need == 1 + Utf8.Continuations(u8[0])
    requires ContinuationsEnd(u8, 1, |u8| + need) == |u8|
    requires !Utf8.IsContinuation(b)
    ensures Drain(u8 + [b], false) == Prepend([Ignored], Drain([b], false))
  {
    var s := u8 + [b];
    ExtendContinuations(u8, b, 1, |u8| + need);
    assert s[0] == u8[0];
    assert FirstLexeme(s, false) == Lexeme(|u8|, [Ignored]);
    DrainLexeme(s, false);
    assert s[|u8|..] == [b];
  }

  lemma CompleteRune(s: seq<Byte>)
    requires s != [] && Utf8.Continuations(s[0]) > 0 && |s| == 1 + Utf8.Continuations(s[0])
    requires ContinuationsEnd(s, 1, |s|) == |s|
    ensures Utf8.Valid(s) ==> Utf8.RuneSize(s) == |s|
    ensures Drain(s, false) == Drained([if Utf8.Valid(s) then Rune(Utf8.RuneValue(s)) else Ignored], [], false)
  {
    ValidLeadIsOneRune(s);
    WholeLexeme(s, false);
  }

  /** A lead byte with all the continuation bytes it announces is one rune or none. */
  lemma ValidLeadIsOneRune(s: seq<Byte>)
    requires s != [] && Utf8.Continuations(s[0]) > 0 && |s| == 1 + Utf8.Continuations(s[0])
    ensures Utf8.Valid(s) <==> Utf8.RuneSize(s) == |s|
  {
    if Utf8.RuneSize(s) == |s| {
      assert s[|s|..] == [];
    }
  }
}
