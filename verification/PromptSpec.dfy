/**
 The phrase prompt as a state and a step: what every gesture does to the committed words and the
 partial word, in terms of the candidates a plain scan of the list finds.
 */
module PromptSpec {
  import opened Bytes
  import opened WordLists
  import opened PhraseGrammar
  import opened Completion
  import opened KeyTokens
  import Utf8

  datatype PromptState = PromptState(committed: seq<Word>, buf: seq<int>, done: bool)

  const START := PromptState([], [], false)

  // ----- the buffer holds runes, the list holds bytes -----

  /** Go's string(rune): what is no scalar value becomes the replacement character. */
  function EncodeRune(r: int): (s: seq<Byte>)
    ensures s != []
  {
    if Utf8.IsScalar(r) then Utf8.Encode(r) else Utf8.Encode(0xFFFD)
  }

  function Text(buf: seq<int>): seq<Byte> {
    if buf == [] then [] else Text(buf[..|buf| - 1]) + EncodeRune(buf[|buf| - 1])
  }

  /** Go's []rune(string). */
  function Runes(s: seq<Byte>): seq<int>
    decreases |s|
  {
    if s == [] then []
    else if Utf8.RuneSize(s) == 0 then [0xFFFD] + Runes(s[1..])
    else [Utf8.RuneValue(s)] + Runes(s[Utf8.RuneSize(s)..])
  }

  lemma RunesOfAscii(s: seq<Byte>)
    requires Utf8.IsAscii(s)
    ensures Runes(s) == s
  {
    if s != [] {
      RunesOfAscii(s[1..]);
    }
  }

  lemma TextOfAscii(s: seq<Byte>)
    requires Utf8.IsAscii(s)
    ensures Text(s) == s
  {
    if s != [] {
      TextOfAscii(s[..|s| - 1]);
    }
  }

  // ----- one gesture -----

  function CandidatesOf(ws: seq<Word>, s: PromptState): seq<Word> {
    Candidates(ws, s.committed, Text(s.buf))
  }

  /** What is left of the only candidate of a non-empty partial word. */
  function GhostOf(ws: seq<Word>, s: PromptState): (g: seq<Byte>)
    ensures s.buf != [] && |CandidatesOf(ws, s)| == 1 ==> CandidatesOf(ws, s) == [Text(s.buf) + g]
    ensures s.buf == [] || |CandidatesOf(ws, s)| != 1 ==> g == []
  {
    var cs := CandidatesOf(ws, s);
    if s.buf != [] && |cs| == 1 then
      assert cs[0] in cs;
      var g := cs[0][|Text(s.buf)|..];
      assert cs[0] == Text(s.buf) + g;
      g
    else []
  }

  /** Committing past the limit rings the bell and changes nothing. */
  function CommitWord(s: PromptState, w: Word): (PromptState, bool) {
    if |s.committed| >= MAX_PHRASE_WORDS then (s, true)
    else (PromptState(s.committed + [w], [], s.done), false)
  }

  function CommitUnique(ws: seq<Word>, s: PromptState): (PromptState, bool) {
    var cs := CandidatesOf(ws, s);
    if |cs| == 1 then CommitWord(s, cs[0]) else (s, true)
  }

  function TypeRune(ws: seq<Word>, s: PromptState, r: int): (PromptState, bool) {
    if r < 0x20 || r == 0x7f then (s, false)
    else
      var c := if 0x41 <= r <= 0x5a then r + 32 else r;
      if Candidates(ws, s.committed, Text(s.buf) + EncodeRune(c)) != [] then (s.(buf := s.buf + [c]), false)
      else (s, true)
  }

  function PressTab(ws: seq<Word>, s: PromptState): (PromptState, bool) {
    var cs := CandidatesOf(ws, s);
    if s.buf == [] then (s, false)
    else if |cs| == 1 then CommitWord(s, cs[0])
    else (s.(buf := Runes(LongestCommonPrefix(cs, Text(s.buf)))), false)
  }

  function PressEnter(ws: seq<Word>, min: nat, s: PromptState): (PromptState, bool) {
    if s.buf != [] then CommitUnique(ws, s)
    else if |s.committed| >= min then (s.(done := true), false)
    else (s, false)
  }

  function PressBackspace(s: PromptState): PromptState {
    if s.buf != [] then s.(buf := s.buf[..|s.buf| - 1])
    else if s.committed != [] then
      s.(committed := s.committed[..|s.committed| - 1], buf := Runes(s.committed[|s.committed| - 1]))
    else s
  }

  function DeleteWord(s: PromptState): PromptState {
    if s.buf != [] then s.(buf := [])
    else if s.committed != [] then s.(committed := s.committed[..|s.committed| - 1])
    else s
  }

  function PasteText(ws: seq<Word>, s: PromptState, text: seq<Byte>): (PromptState, bool) {
    match Parse(ws, s.committed, text)
    case Words(words) => (s.(committed := s.committed + words), false)
    case Rejected(_) => (s, true)
  }

  /** The state after a gesture, and whether the bell rings. */
  function Next(ws: seq<Word>, min: nat, s: PromptState, e: Event): (PromptState, bool) {
    match e
    case Rune(r) => TypeRune(ws, s, r)
    case Space => if s.buf == [] then (s, false) else CommitUnique(ws, s)
    case Tab => PressTab(ws, s)
    case Enter => PressEnter(ws, min, s)
    case Backspace => (PressBackspace(s), false)
    case CtrlW => (DeleteWord(s), false)
    case CtrlU => (s.(buf := []), false)
    case CtrlO => (s, true)
    case Paste(text) => PasteText(ws, s, text)
    case InputTooLong => (s, true)
    case _ => (s, false)
  }

  function Run(ws: seq<Word>, min: nat, s: PromptState, events: seq<Event>): PromptState
    decreases |events|
  {
    if events == [] then s else Run(ws, min, Next(ws, min, s, events[0]).0, events[1..])
  }

  lemma {:induction false} RunConcat(ws: seq<Word>, min: nat, s: PromptState, a: seq<Event>, b: seq<Event>)
    ensures Run(ws, min, s, a + b) == Run(ws, min, Run(ws, min, s, a), b)
    decreases |a|
  {
    if a == [] {
      assert a + b == b;
    } else {
      assert (a + b)[1..] == a[1..] + b;
      RunConcat(ws, min, Next(ws, min, s, a[0]).0, a[1..], b);
    }
  }

  // ----- what every gesture keeps -----

  /** The partial word starts some list word (committed or not). */
  ghost predicate StartsListWord(ws: seq<Word>, buf: seq<int>) {
    buf == [] || exists w :: w in ws && buf <= w
  }

  ghost predicate Invariant(ws: seq<Word>, s: PromptState) {
    && |s.committed| <= MAX_PHRASE_WORDS
    && AllListed(ws, s.committed)
    && Distinct(s.committed)
    && StartsListWord(ws, s.buf)
  }

  lemma ListWordIsAscii(ws: seq<Word>, w: Word)
    requires ValidList(ws) && w in ws
    ensures Utf8.IsAscii(w) && IsListWord(w)
  {
    var i :| 0 <= i < |ws| && ws[i] == w;
    assert IsListWord(ws[i]);
  }

  /** The partial word is plain ASCII: its string form has the same characters. */
  lemma BufferIsText(ws: seq<Word>, buf: seq<int>)
    requires ValidList(ws) && StartsListWord(ws, buf)
    ensures Text(buf) == buf
  {
    if buf != [] {
      var w :| w in ws && buf <= w;
      ListWordIsAscii(ws, w);
      var s: seq<Byte> := w[..|buf|];
      TextOfAscii(s);
      assert s == buf;
    }
  }

  lemma PrefixStartsWord(ws: seq<Word>, p: seq<Byte>, w: Word)
    requires ValidList(ws) && w in ws && p <= w
    ensures Runes(p) == p && StartsListWord(ws, Runes(p))
  {
    ListWordIsAscii(ws, w);
    RunesOfAscii(p);
  }

  lemma AsciiHeadIsAll(c: nat)
    requires EncodeRune(c)[0] < 0x80
    ensures EncodeRune(c) == [c]
  {
  }

  /** A rune is accepted only as the next ASCII character of some candidate. */
  lemma TypedRuneExtends(ws: seq<Word>, s: PromptState, c: nat)
    requires ValidList(ws) && StartsListWord(ws, s.buf)
    requires Candidates(ws, s.committed, Text(s.buf) + EncodeRune(c)) != []
    ensures StartsListWord(ws, s.buf + [c])
  {
    hide ValidList, Candidates, EncodeRune, Text;
    var extended := Text(s.buf) + EncodeRune(c);
    var w := Candidates(ws, s.committed, extended)[0];
    assert w in ws && extended <= w;
    BufferIsText(ws, s.buf);
    ListWordIsAscii(ws, w);
    assert w[|s.buf|] == EncodeRune(c)[0];
    AsciiHeadIsAll(c);
    assert s.buf + [c] <= w;
  }

  lemma CommitKeeps(ws: seq<Word>, s: PromptState, w: Word)
    requires Invariant(ws, s) && w in ws && w !in s.committed
    ensures Invariant(ws, CommitWord(s, w).0)
  {
  }

  lemma PasteKeeps(ws: seq<Word>, s: PromptState, text: seq<Byte>)
    requires Invariant(ws, s)
    ensures Invariant(ws, PasteText(ws, s, text).0)
  {
    ParseAccepts(ws, s.committed, Tokens(text));
    if Parse(ws, s.committed, text).Words? {
      var words := Parse(ws, s.committed, text).words;
      assert NoneIn(words, s.committed);
      forall i, j | 0 <= i < j < |s.committed + words|
        ensures (s.committed + words)[i] != (s.committed + words)[j]
      {
        if i < |s.committed| <= j {
          assert words[j - |s.committed|] in words;
        }
      }
    }
  }

  lemma TabKeeps(ws: seq<Word>, s: PromptState)
    requires ValidList(ws) && Invariant(ws, s)
    ensures Invariant(ws, PressTab(ws, s).0)
  {
    var cs := CandidatesOf(ws, s);
    if s.buf != [] {
      if |cs| == 1 {
        assert cs[0] in cs;
        CommitKeeps(ws, s, cs[0]);
      } else {
        var l := LongestCommonPrefix(cs, Text(s.buf));
        BufferIsText(ws, s.buf);
        if cs == [] {
          var w :| w in ws && s.buf <= w;
          PrefixStartsWord(ws, l, w);
        } else {
          assert cs[0] in cs;
          PrefixStartsWord(ws, l, cs[0]);
        }
      }
    }
  }

  lemma BackspaceKeeps(ws: seq<Word>, s: PromptState)
    requires ValidList(ws) && Invariant(ws, s)
    ensures Invariant(ws, PressBackspace(s))
  {
    if s.buf != [] {
      var w :| w in ws && s.buf <= w;
      assert s.buf[..|s.buf| - 1] <= w;
    } else if s.committed != [] {
      var w := s.committed[|s.committed| - 1];
      assert w in s.committed;
      PrefixStartsWord(ws, w, w);
    }
  }

  lemma CommitUniqueKeeps(ws: seq<Word>, s: PromptState)
    requires Invariant(ws, s)
    ensures Invariant(ws, CommitUnique(ws, s).0)
  {
    var cs := CandidatesOf(ws, s);
    if |cs| == 1 {
      assert cs[0] in cs;
      CommitKeeps(ws, s, cs[0]);
    }
  }

  lemma TypingKeeps(ws: seq<Word>, s: PromptState, r: int)
    requires ValidList(ws) && Invariant(ws, s)
    ensures Invariant(ws, TypeRune(ws, s, r).0)
  {
    var c := if 0x41 <= r <= 0x5a then r + 32 else r;
    if c >= 0x20 && Candidates(ws, s.committed, Text(s.buf) + EncodeRune(c)) != [] {
      TypedRuneExtends(ws, s, c);
    }
  }

  /** Every gesture, in every state: distinct list words, at most 64, and a partial list word. */
  lemma NextKeepsInvariant(ws: seq<Word>, min: nat, s: PromptState, e: Event)
    requires ValidList(ws) && Invariant(ws, s)
    ensures Invariant(ws, Next(ws, min, s, e).0)
  {
    hide TypeRune, PressTab, PasteText, PressBackspace, CommitUnique;
    match e {
      case Rune(r) => TypingKeeps(ws, s, r);
      case Space => CommitUniqueKeeps(ws, s);
      case Tab => TabKeeps(ws, s);
      case Enter => CommitUniqueKeeps(ws, s);
      case Backspace => BackspaceKeeps(ws, s);
      case Paste(text) => PasteKeeps(ws, s, text);
      case _ =>
    }
  }
}
