/**
 What every gesture at the prompt does, said with the words of the list: when a key commits, when it
 rings the bell, and what it leaves of the partial word.
 */
module PromptGestures {
  import opened Bytes
  import opened WordLists
  import opened PhraseGrammar
  import opened Completion
  import opened KeyTokens
  import opened PromptSpec

  /** The word is on the list, not committed, and starts with p. */
  predicate Matches(ws: seq<Word>, committed: seq<Word>, p: seq<int>, w: Word) {
    w in ws && w !in committed && p <= w
  }

  /** The word matches, and no other does. */
  ghost predicate OnlyMatch(ws: seq<Word>, committed: seq<Word>, p: seq<Byte>, w: Word) {
    Matches(ws, committed, p, w) && forall v :: Matches(ws, committed, p, v) ==> v == w
  }

  ghost predicate SomeMatch(ws: seq<Word>, committed: seq<Word>, p: seq<int>) {
    exists w :: Matches(ws, committed, p, w)
  }

  lemma OnlyMatchIsOnlyCandidate(ws: seq<Word>, committed: seq<Word>, p: seq<Byte>)
    requires Distinct(ws)
    ensures var cs := Candidates(ws, committed, p);
            && (forall w :: w in cs <==> Matches(ws, committed, p, w))
            && (forall w :: OnlyMatch(ws, committed, p, w) <==> cs == [w])
            && (|cs| == 1 ==> OnlyMatch(ws, committed, p, cs[0]))
  {
    CandidatesDistinct(ws, committed, p);
    hide Candidates;
    var cs := Candidates(ws, committed, p);
    assert |cs| == 1 ==> cs == [cs[0]];
    forall w ensures OnlyMatch(ws, committed, p, w) <==> cs == [w] {
      if OnlyMatch(ws, committed, p, w) {
        OnlyMatchIsAll(ws, committed, p, w, cs);
      }
      if cs == [w] {
        assert w in cs;
        forall v | Matches(ws, committed, p, v) ensures v == w {
          assert v in cs;
        }
      }
    }
  }

  lemma OnlyMatchIsAll(ws: seq<Word>, committed: seq<Word>, p: seq<Byte>, w: Word, cs: seq<Word>)
    requires OnlyMatch(ws, committed, p, w) && Distinct(cs) && forall v :: v in cs <==> Matches(ws, committed, p, v)
    ensures cs == [w]
  {
    assert |cs| > 1 ==> cs[0] != cs[1];
    assert w in cs;
    forall i | 0 <= i < |cs| ensures cs[i] == w {
      assert cs[i] in cs;
      assert Matches(ws, committed, p, cs[i]);
    }
  }

  /**
   Space and Enter on a partial word: they commit a word if and only if it is the only match and fewer
   than 64 words stand committed; otherwise the bell rings and nothing changes.
   */
  lemma SpaceAndEnterCommitTheOnlyMatch(ws: seq<Word>, min: nat, s: PromptState, e: Event)
    requires Distinct(ws) && s.buf != [] && (e == Space || e == Enter)
    ensures forall w :: |s.committed| < 64 && OnlyMatch(ws, s.committed, Text(s.buf), w) ==>
              Next(ws, min, s, e) == (PromptState(s.committed + [w], [], s.done), false)
    ensures |s.committed| >= 64 || !(exists w :: OnlyMatch(ws, s.committed, Text(s.buf), w)) ==>
              Next(ws, min, s, e) == (s, true)
  {
    OnlyMatchIsOnlyCandidate(ws, s.committed, Text(s.buf));
    hide Candidates, Text;
  }

  /** Tab on a partial word commits the only match as Space does. */
  lemma TabCommitsTheOnlyMatch(ws: seq<Word>, min: nat, s: PromptState, w: Word)
    requires Distinct(ws) && s.buf != [] && OnlyMatch(ws, s.committed, Text(s.buf), w)
    ensures Next(ws, min, s, Tab) ==
              if |s.committed| < 64 then (PromptState(s.committed + [w], [], s.done), false) else (s, true)
  {
    OnlyMatchIsOnlyCandidate(ws, s.committed, Text(s.buf));
    hide Candidates, Text;
  }

  /** Every match starts with q. */
  ghost predicate StartsAll(ws: seq<Word>, committed: seq<Word>, p: seq<Byte>, q: seq<Byte>) {
    forall w :: Matches(ws, committed, p, w) ==> q <= w
  }

  /**
   With several matches, or none, no bell rings, the committed words stay, and the partial word becomes
   the longest text that all matches start with; without a match it stays as it is.
   */
  lemma TabCompletesToTheLongest(ws: seq<Word>, min: nat, s: PromptState, q: seq<Byte>)
    requires ValidList(ws) && Invariant(ws, s) && s.buf != []
    requires !(exists w :: OnlyMatch(ws, s.committed, Text(s.buf), w))
    ensures var p := Text(s.buf);
            var (after, bell) := Next(ws, min, s, Tab);
            && p == s.buf && !bell && after == s.(buf := after.buf) && Text(after.buf) == after.buf
            && p <= Text(after.buf) && StartsAll(ws, s.committed, p, Text(after.buf))
            && (SomeMatch(ws, s.committed, p) && StartsAll(ws, s.committed, p, q) ==> q <= Text(after.buf))
            && (!SomeMatch(ws, s.committed, p) ==> after == s)
  {
    SortedIsDistinct(ws);
    hide Candidates, Text, Runes, ValidList, Matches, OnlyMatch, StartsAll, LongestCommonPrefix, Next;
    var p := Text(s.buf);
    BufferIsText(ws, s.buf);
    OnlyMatchIsOnlyCandidate(ws, s.committed, p);
    var cs := CandidatesOf(ws, s);
    CompletedBuffer(ws, s);
    CommonPrefixKeepsCandidates(ws, s.committed, p);
    LongestOfMatches(ws, s.committed, p, q);
    TabOfSeveral(ws, min, s);
  }

  lemma TabOfSeveral(ws: seq<Word>, min: nat, s: PromptState)
    requires s.buf != [] && |CandidatesOf(ws, s)| != 1
    ensures Next(ws, min, s, Tab) == (s.(buf := Runes(LongestCommonPrefix(CandidatesOf(ws, s), Text(s.buf)))), false)
  {
    hide Candidates, Text, Runes, LongestCommonPrefix;
  }

  lemma LongestOfMatches(ws: seq<Word>, committed: seq<Word>, p: seq<Byte>, q: seq<Byte>)
    ensures var cs := Candidates(ws, committed, p);
            var l := LongestCommonPrefix(cs, p);
            && StartsAll(ws, committed, p, l)
            && (cs != [] && StartsAll(ws, committed, p, q) ==> q <= l)
            && (cs == [] ==> l == p)
            && (cs == [] <==> !SomeMatch(ws, committed, p))
  {
    var cs := Candidates(ws, committed, p);
    var l := LongestCommonPrefix(cs, p);
    forall w | Matches(ws, committed, p, w) ensures w in cs && l <= w {
      assert w in cs;
      var i :| 0 <= i < |cs| && cs[i] == w;
    }
    if cs != [] {
      assert cs[0] in cs && Matches(ws, committed, p, cs[0]);
      if StartsAll(ws, committed, p, q) {
        forall i | 0 <= i < |cs| ensures q <= cs[i] {
          assert cs[i] in cs && Matches(ws, committed, p, cs[i]);
        }
        LongestIsLongest(cs, p, q);
      }
    }
  }

  /** The completed buffer is the common prefix itself, byte for byte. */
  lemma CompletedBuffer(ws: seq<Word>, s: PromptState)
    requires ValidList(ws) && Invariant(ws, s) && s.buf != []
    ensures var l := LongestCommonPrefix(CandidatesOf(ws, s), Text(s.buf)); Runes(l) == l && Text(Runes(l)) == l
  {
    var cs := CandidatesOf(ws, s);
    var l := LongestCommonPrefix(cs, Text(s.buf));
    BufferIsText(ws, s.buf);
    if cs != [] {
      assert cs[0] in cs && l <= cs[0];
      PrefixStartsWord(ws, l, cs[0]);
    } else {
      var w :| w in ws && s.buf <= w;
      PrefixStartsWord(ws, l, w);
    }
    BufferIsText(ws, Runes(l));
  }

  /**
   A rune: controls do nothing, capitals count as small letters, and what is typed is kept if and only if
   some match starts with it; otherwise the bell rings and nothing changes.
   */
  lemma RuneIsKeptWhileItMatches(ws: seq<Word>, min: nat, s: PromptState, r: int)
    requires ValidList(ws) && Invariant(ws, s)
    ensures r < 0x20 || r == 0x7f ==> Next(ws, min, s, Rune(r)) == (s, false)
    ensures r >= 0x20 && r != 0x7f ==>
              var c := if 'A' as int <= r <= 'Z' as int then r - 'A' as int + 'a' as int else r;
              Next(ws, min, s, Rune(r)) ==
                if SomeMatch(ws, s.committed, s.buf + [c]) then (s.(buf := s.buf + [c]), false) else (s, true)
  {
    hide Candidates, Text, EncodeRune, ValidList, Invariant, SomeMatch;
    if r >= 0x20 && r != 0x7f {
      LetterMatches(ws, s, if 0x41 <= r <= 0x5a then r + 32 else r);
    }
  }

  lemma LetterMatches(ws: seq<Word>, s: PromptState, c: nat)
    requires ValidList(ws) && Invariant(ws, s)
    ensures Candidates(ws, s.committed, Text(s.buf) + EncodeRune(c)) != []
       <==> SomeMatch(ws, s.committed, s.buf + [c])
  {
    hide Candidates, Text, EncodeRune, ValidList;
    var p := Text(s.buf) + EncodeRune(c);
    var cs := Candidates(ws, s.committed, p);
    if cs != [] {
      assert cs[0] in cs;
      TypedLetterIsAscii(ws, s, c, cs[0]);
      assert Matches(ws, s.committed, s.buf + [c], cs[0]);
    }
    if w :| Matches(ws, s.committed, s.buf + [c], w) {
      ListLetterIsText(ws, s, c, w);
      assert w in cs;
    }
  }

  lemma ListLetterIsText(ws: seq<Word>, s: PromptState, c: nat, w: Word)
    requires ValidList(ws) && StartsListWord(ws, s.buf) && w in ws && s.buf + [c] <= w
    ensures Text(s.buf) + EncodeRune(c) == s.buf + [c]
  {
    hide Text, EncodeRune, ValidList;
    BufferIsText(ws, s.buf);
    ListWordIsAscii(ws, w);
    assert w[|s.buf|] == c;
    AsciiLetter(c);
  }

  lemma AsciiLetter(c: nat)
    requires c < 0x80
    ensures EncodeRune(c) == [c]
  {
  }

  lemma TypedLetterIsAscii(ws: seq<Word>, s: PromptState, c: nat, w: Word)
    requires ValidList(ws) && w in ws && StartsListWord(ws, s.buf) && Text(s.buf) + EncodeRune(c) <= w
    ensures s.buf + [c] <= w
  {
    hide EncodeRune, Text;
    BufferIsText(ws, s.buf);
    ListWordIsAscii(ws, w);
    assert w[|s.buf|] == EncodeRune(c)[0];
    AsciiHeadIsAll(c);
  }

  /** The deleting keys, on a partial word and without one. */
  lemma DeletingKeys(ws: seq<Word>, min: nat, s: PromptState)
    requires ValidList(ws) && Invariant(ws, s)
    ensures s.buf != [] ==> Next(ws, min, s, Backspace) == (s.(buf := s.buf[..|s.buf| - 1]), false)
    ensures s.buf != [] ==> Next(ws, min, s, CtrlW) == (s.(buf := []), false)
    ensures Next(ws, min, s, CtrlU) == (s.(buf := []), false)
    ensures s.buf == [] && s.committed != [] ==>
              var init, last := s.committed[..|s.committed| - 1], s.committed[|s.committed| - 1];
              && Next(ws, min, s, Backspace) == (PromptState(init, last, s.done), false)
              && Next(ws, min, s, CtrlW) == (PromptState(init, [], s.done), false)
    ensures s.buf == [] && s.committed == [] ==>
              Next(ws, min, s, Backspace) == (s, false) && Next(ws, min, s, CtrlW) == (s, false)
  {
    hide Candidates, Text;
    if s.buf == [] && s.committed != [] {
      var last := s.committed[|s.committed| - 1];
      assert last in s.committed;
      PrefixStartsWord(ws, last, last);
    }
  }

  /** The other keys: what needs a partial word does nothing without one, and two only ring the bell. */
  lemma OtherKeys(ws: seq<Word>, min: nat, s: PromptState, e: Event)
    ensures s.buf == [] && (e == Space || e == Tab) ==> Next(ws, min, s, e) == (s, false)
    ensures s.buf == [] && e == Enter ==>
              Next(ws, min, s, e) == (if |s.committed| >= min then s.(done := true) else s, false)
    ensures e == CtrlO || e == InputTooLong ==> Next(ws, min, s, e) == (s, true)
    ensures e == CtrlC || e == CtrlD || e == Ignored || e == Resize ==> Next(ws, min, s, e) == (s, false)
  {
  }
}
