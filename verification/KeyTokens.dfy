/**
 What the key decoder must compute, said about a whole buffer at once: cut the first lexeme
 off the front, say which event it stands for, and go on behind it.
 */
module KeyTokens {
  import opened Bytes
  import Utf8

  datatype Event =
    | Rune(r: int)
    | Space
    | Tab
    | Enter
    | Backspace
    | CtrlC
    | CtrlD
    | CtrlW
    | CtrlU
    | CtrlO
    | Paste(text: seq<Byte>)
    | InputTooLong
    | Resize
    | Ignored

  const PASTE_START: seq<Byte> := [ESC, 0x5b, 0x32, 0x30, 0x30, 0x7e] // ESC [ 2 0 0 ~
  const PASTE_END: seq<Byte> := [ESC, 0x5b, 0x32, 0x30, 0x31, 0x7e] // ESC [ 2 0 1 ~
  const MAX_SEQ_LEN := 16
  const MAX_PASTE_BYTES := 4096

  /** The front of a buffer: either it is not decided yet, or `size` bytes of it mean `events`. */
  datatype Lexeme = NeedMore | Lexeme(size: nat, events: seq<Event>)

  function ControlEvent(b: Byte): Event {
    if b == 0x03 then CtrlC
    else if b == 0x04 then CtrlD
    else if b == 0x08 || b == 0x7f then Backspace
    else if b == 0x09 then Tab
    else if b == CR || b == LF then Enter
    else if b == 0x0f then CtrlO
    else if b == 0x15 then CtrlU
    else if b == 0x17 then CtrlW
    else if b == 0x20 then Space
    else if 0x20 < b < 0x7f then Rune(b)
    else Ignored // other C0 controls, and bytes that can start no UTF-8 rune
  }

  predicate IsCsiFinal(b: Byte) {
    0x40 <= b <= 0x7e
  }

  /** The first index from i on that holds a CSI final byte, or |s|. */
  function FinalIndex(s: seq<Byte>, i: nat): (f: nat)
    requires i <= |s|
    ensures i <= f <= |s|
    ensures forall k :: i <= k < f ==> !IsCsiFinal(s[k])
    ensures f < |s| ==> IsCsiFinal(s[f])
    decreases |s| - i
  {
    if i == |s| || IsCsiFinal(s[i]) then i else FinalIndex(s, i + 1)
  }

  ghost predicate TerminatorAt(s: seq<Byte>, i: nat) {
    i + |PASTE_END| <= |s| && s[i..i + |PASTE_END|] == PASTE_END
  }

  /** Where the first paste terminator of s starts. */
  function FindTerminator(s: seq<Byte>): (r: Option<nat>)
    ensures r.Some? ==> TerminatorAt(s, r.value) && forall k :: 0 <= k < r.value ==> !TerminatorAt(s, k)
    ensures r.None? ==> forall k: nat :: !TerminatorAt(s, k)
  {
    if |s| < |PASTE_END| then None
    else if s[..|PASTE_END|] == PASTE_END then
      assert TerminatorAt(s, 0);
      Some(0)
    else
      var r := FindTerminator(s[1..]);
      assert forall k: nat :: k > 0 && TerminatorAt(s, k) ==> TerminatorAt(s[1..], k - 1) by {
        forall k: nat | k > 0 && TerminatorAt(s, k) ensures TerminatorAt(s[1..], k - 1) {
          assert s[1..][k - 1..k - 1 + |PASTE_END|] == s[k..k + |PASTE_END|];
        }
      }
      assert r.Some? ==> s[1..][r.value..r.value + |PASTE_END|] == s[r.value + 1..r.value + 1 + |PASTE_END|];
      assert forall k: nat :: k > 0 && TerminatorAt(s, k) <==>
          k > 0 && TerminatorAt(s[1..], k - 1) && TerminatorAt(s, k);
      if r.Some? then Some(r.value + 1) else None
  }

  function PasteEvent(payload: seq<Byte>): Event {
    if |payload| <= MAX_PASTE_BYTES then Paste(payload) else InputTooLong
  }

  function PasteLexeme(s: seq<Byte>): Lexeme
    requires PASTE_START <= s
  {
    var body := s[|PASTE_START|..];
    match FindTerminator(body)
    case None => NeedMore
    case Some(i) => Lexeme(|PASTE_START| + i + |PASTE_END|, [PasteEvent(body[..i])])
  }

  function EscapeLexeme(s: seq<Byte>): Lexeme
    requires s != [] && s[0] == ESC
  {
    if |s| == 1 then NeedMore
    else if s[1] == 0x5b then // CSI
      var f := FinalIndex(s, 2);
      if f < |s| && f < MAX_SEQ_LEN then
        if s[..f + 1] == PASTE_START then PasteLexeme(s) else Lexeme(f + 1, [Ignored])
      else if |s| > MAX_SEQ_LEN then Lexeme(MAX_SEQ_LEN + 1, [Ignored])
      else NeedMore
    else if s[1] == 0x4f then // SS3
      if |s| == 2 then NeedMore else Lexeme(3, [Ignored])
    else Lexeme(2, [Ignored])
  }

  /** The first index from i on, at most n, that holds no continuation byte. */
  function ContinuationsEnd(s: seq<Byte>, i: nat, n: nat): (e: nat)
    requires i <= |s| && i <= n
    ensures i <= e <= |s| && e <= n
    ensures forall k :: i <= k < e ==> Utf8.IsContinuation(s[k])
    ensures e < n && e < |s| ==> !Utf8.IsContinuation(s[e])
    decreases |s| - i
  {
    if i == |s| || i == n || !Utf8.IsContinuation(s[i]) then i else ContinuationsEnd(s, i + 1, n)
  }

  function RuneLexeme(s: seq<Byte>): Lexeme
    requires s != [] && Utf8.Continuations(s[0]) > 0
  {
    var n := 1 + Utf8.Continuations(s[0]);
    var e := ContinuationsEnd(s, 1, n);
    if e == n then Lexeme(n, [if Utf8.RuneSize(s) == n then Rune(Utf8.RuneValue(s)) else Ignored])
    else if e == |s| then NeedMore
    else Lexeme(e, [Ignored]) // torn: the offending byte starts the next lexeme
  }

  /** The first lexeme of s; `cr` says that the byte before s was a carriage return key. */
  function FirstLexeme(s: seq<Byte>, cr: bool): (x: Lexeme)
    requires s != []
    ensures x.Lexeme? ==> 1 <= x.size <= |s| && |x.events| <= 1
  {
    if cr && s[0] == LF then Lexeme(1, [])
    else if s[0] == ESC then EscapeLexeme(s)
    else if Utf8.Continuations(s[0]) > 0 then RuneLexeme(s)
    else Lexeme(1, [ControlEvent(s[0])])
  }

  /** Everything a buffer decides, the undecided rest, and whether a CR came last. */
  datatype Drained = Drained(events: seq<Event>, held: seq<Byte>, cr: bool)

  function Drain(s: seq<Byte>, cr: bool): (d: Drained)
    ensures |d.events| + |d.held| <= |s|
    decreases |s|
  {
    if s == [] then Drained([], [], cr)
    else
      match FirstLexeme(s, cr)
      case NeedMore => Drained([], s, false)
      case Lexeme(n, events) =>
        Prepend(events, Drain(s[n..], s[0] == CR))
  }

  function Prepend(events: seq<Event>, d: Drained): Drained {
    Drained(events + d.events, d.held, d.cr)
  }

  lemma DrainLexeme(s: seq<Byte>, cr: bool)
    requires s != [] && FirstLexeme(s, cr).Lexeme?
    ensures Drain(s, cr) == Prepend(FirstLexeme(s, cr).events, Drain(s[FirstLexeme(s, cr).size..], s[0] == CR))
  {
  }

  /** The events of a complete input: an unfinished sequence at its end counts once, as ignored. */
  function Tokenize(s: seq<Byte>, cr: bool): (events: seq<Event>)
    ensures |events| <= |s|
  {
    var d := Drain(s, cr);
    d.events + if d.held == [] then [] else [Ignored]
  }

  /** Whether the reader's inter-byte timer runs: inside every sequence except a paste. */
  predicate Pending(held: seq<Byte>) {
    held != [] && !(PASTE_START <= held)
  }

  /** The timer fires: a pending sequence is abandoned, nothing else changes. */
  function Expire(d: Drained): Drained {
    if Pending(d.held) then Drained(d.events + [Ignored], [], d.cr) else d
  }

  // ----- a decided lexeme stays decided -----

  lemma FinalIndexStable(s: seq<Byte>, t: seq<Byte>, i: nat)
    requires i <= |s|
    ensures FinalIndex(s, i) < |s| ==> FinalIndex(s + t, i) == FinalIndex(s, i)
    ensures FinalIndex(s, i) == |s| ==> FinalIndex(s + t, i) >= |s|
    decreases |s| - i
  {
    if i < |s| && !IsCsiFinal(s[i]) {
      FinalIndexStable(s, t, i + 1);
    }
  }

  lemma TerminatorStable(s: seq<Byte>, t: seq<Byte>)
    requires FindTerminator(s).Some?
    ensures FindTerminator(s + t) == FindTerminator(s)
  {
    var i := FindTerminator(s).value;
    assert TerminatorAt(s, i);
    assert (s + t)[i..i + |PASTE_END|] == s[i..i + |PASTE_END|];
    assert TerminatorAt(s + t, i);
    var j := FindTerminator(s + t).value;
    if j < i {
      assert (s + t)[j..j + |PASTE_END|] == s[j..j + |PASTE_END|];
      assert TerminatorAt(s, j);
    }
  }

  lemma ContinuationsEndStable(s: seq<Byte>, t: seq<Byte>, i: nat, n: nat)
    requires i <= |s| && i <= n
    ensures var e := ContinuationsEnd(s, i, n); e < |s| || e == n ==> ContinuationsEnd(s + t, i, n) == e
    decreases |s| - i
  {
    if i < |s| && i < n && Utf8.IsContinuation(s[i]) {
      ContinuationsEndStable(s, t, i + 1, n);
    }
  }

  lemma PasteStable(s: seq<Byte>, t: seq<Byte>)
    requires PASTE_START <= s && PasteLexeme(s).Lexeme?
    ensures PASTE_START <= s + t && PasteLexeme(s + t) == PasteLexeme(s)
  {
    var body := s[|PASTE_START|..];
    TerminatorStable(body, t);
    assert (s + t)[|PASTE_START|..] == body + t;
    assert (body + t)[..FindTerminator(body).value] == body[..FindTerminator(body).value];
  }

  lemma EscapeStable(s: seq<Byte>, t: seq<Byte>)
    requires s != [] && s[0] == ESC && EscapeLexeme(s).Lexeme?
    ensures EscapeLexeme(s + t) == EscapeLexeme(s)
  {
    if s[1] == 0x5b {
      var f := FinalIndex(s, 2);
      FinalIndexStable(s, t, 2);
      if f < |s| && f < MAX_SEQ_LEN {
        assert (s + t)[..f + 1] == s[..f + 1];
        if s[..f + 1] == PASTE_START {
          PasteStable(s, t);
        }
      } else {
        assert FinalIndex(s + t, 2) >= MAX_SEQ_LEN;
      }
    }
  }

  lemma LexemeStable(s: seq<Byte>, t: seq<Byte>, cr: bool)
    requires s != [] && FirstLexeme(s, cr).Lexeme?
    ensures FirstLexeme(s + t, cr) == FirstLexeme(s, cr)
  {
    if cr && s[0] == LF {
    } else if s[0] == ESC {
      EscapeStable(s, t);
    } else if Utf8.Continuations(s[0]) > 0 {
      var n := 1 + Utf8.Continuations(s[0]);
      ContinuationsEndStable(s, t, 1, n);
      if ContinuationsEnd(s, 1, n) == n {
        assert (s + t)[..|s|] == s;
        Utf8.RuneIsLocal(s + t, |s|);
      }
    }
  }

  /**
   Chunking is invisible: draining a buffer at once gives what draining its first part, and then
   its second part behind whatever the first left undecided, gives.
   */
  lemma {:induction false} DrainInChunks(s: seq<Byte>, t: seq<Byte>, cr: bool)
    ensures Drain(s + t, cr) == Resume(Drain(s, cr), t)
    decreases |s|
  {
    if s == [] {
      assert s + t == t && [] + t == t;
    } else if FirstLexeme(s, cr).Lexeme? {
      var Lexeme(n, events) := FirstLexeme(s, cr);
      LexemeStable(s, t, cr);
      assert (s + t)[n..] == s[n..] + t;
      DrainInChunks(s[n..], t, s[0] == CR);
      PrependEvents(events, Drain(s[n..], s[0] == CR), t);
    } else {
      assert FirstLexeme(s, cr) == FirstLexeme(s, false);
      assert Drain(s + t, cr) == Drain(s + t, false) by { UndecidedIgnoresCr(s, t, cr); }
    }
  }

  /** Going on with t from a drained buffer. */
  function Resume(d: Drained, t: seq<Byte>): Drained {
    Prepend(d.events, Drain(d.held + t, d.cr))
  }

  lemma PrependEvents(events: seq<Event>, d: Drained, t: seq<Byte>)
    ensures Resume(Prepend(events, d), t) == Prepend(events, Resume(d, t))
  {
    var next := Drain(d.held + t, d.cr);
    assert events + d.events + next.events == events + (d.events + next.events);
  }

  /** A buffer whose front is undecided does not start with the line feed a CR would absorb. */
  lemma UndecidedIgnoresCr(s: seq<Byte>, t: seq<Byte>, cr: bool)
    requires s != [] && FirstLexeme(s, cr).NeedMore?
    ensures Drain(s + t, cr) == Drain(s + t, false)
  {
    assert (s + t)[0] == s[0];
    assert s[0] != LF;
  }
}
