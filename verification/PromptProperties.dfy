/** What the prompt promises over whole runs, and what single gestures never do. */
module PromptProperties {
  import opened Bytes
  import opened WordLists
  import opened PhraseGrammar
  import opened Completion
  import opened KeyTokens
  import opened PromptSpec

  /** Over every sequence of gestures: distinct list words, at most 64, and a partial list word. */
  lemma {:induction false} EveryRunKeepsInvariant(ws: seq<Word>, min: nat, s: PromptState, events: seq<Event>)
    requires ValidList(ws) && Invariant(ws, s)
    ensures Invariant(ws, Run(ws, min, s, events))
    decreases |events|
  {
    if events != [] {
      NextKeepsInvariant(ws, min, s, events[0]);
      EveryRunKeepsInvariant(ws, min, Next(ws, min, s, events[0]).0, events[1..]);
    }
  }

  /** Only Enter submits: on an empty partial word, with enough words, and without changing them. */
  lemma SubmitsOnlyOnEnter(ws: seq<Word>, min: nat, s: PromptState, e: Event)
    requires !s.done
    ensures Next(ws, min, s, e).0.done <==> e.Enter? && s.buf == [] && |s.committed| >= min
    ensures Next(ws, min, s, e).0.done ==> Next(ws, min, s, e).0 == s.(done := true)
  {
    hide Candidates, LongestCommonPrefix, Parse, Text;
    match e {
      case Rune(r) => hide EncodeRune;
      case _ =>
    }
  }

  lemma {:induction false} DoneIsForever(ws: seq<Word>, min: nat, s: PromptState, events: seq<Event>)
    requires s.done
    ensures Run(ws, min, s, events).done
    decreases |events|
  {
    if events != [] {
      hide Candidates, LongestCommonPrefix, Parse, Text;
      DoneIsForever(ws, min, Next(ws, min, s, events[0]).0, events[1..]);
    }
  }

  // ----- paste -----

  /** The text is short enough, and its words are distinct, on the list, not committed and not too many. */
  predicate IsAcceptable(ws: seq<Word>, s: PromptState, text: seq<Byte>) {
    |text| <= MAX_PHRASE_BYTES && Acceptable(ws, s.committed, FoldAll(Tokens(text)))
  }

  /** A paste commits all its words, in order, or changes nothing and rings the bell. */
  lemma PasteIsAtomic(ws: seq<Word>, s: PromptState, text: seq<Byte>)
    ensures PasteText(ws, s, text)
         == if IsAcceptable(ws, s, text)
            then (s.(committed := s.committed + FoldAll(Tokens(text))), false)
            else (s, true)
  {
    hide Tokens, ParseTokens, FoldAll, Acceptable;
    LongTextIsRejected(ws, s.committed, text);
    ParseAccepts(ws, s.committed, Tokens(text));
  }

  lemma LongTextIsRejected(ws: seq<Word>, committed: seq<Word>, text: seq<Byte>)
    ensures Parse(ws, committed, text)
         == if |text| > MAX_PHRASE_BYTES then Rejected(TooLong) else ParseTokens(ws, committed, Tokens(text))
  {
  }

  lemma RunTwo(ws: seq<Word>, min: nat, s: PromptState, a: Event, b: Event)
    ensures Run(ws, min, s, [a, b]) == Next(ws, min, Next(ws, min, s, a).0, b).0
  {
    hide Next;
    var mid := Next(ws, min, s, a).0;
    assert [a, b][1..] == [b] && [b][1..] == [];
    assert Run(ws, min, s, [a, b]) == Run(ws, min, mid, [b]);
    assert Run(ws, min, mid, [b]) == Run(ws, min, Next(ws, min, mid, b).0, []);
  }

  // ----- a partial word always leaves a choice, except after a paste -----

  predicate Completable(ws: seq<Word>, s: PromptState) {
    s.buf != [] ==> CandidatesOf(ws, s) != []
  }

  lemma FewerCommittedMoreCandidates(ws: seq<Word>, a: seq<Word>, b: seq<Word>, p: seq<Byte>, q: seq<Byte>)
    requires q <= p && (forall w :: w in b ==> w in a) && Candidates(ws, a, p) != []
    ensures Candidates(ws, b, q) != []
  {
    var w := Candidates(ws, a, p)[0];
    assert w in Candidates(ws, a, p);
    assert w in Candidates(ws, b, q);
  }

  lemma TabStaysCompletable(ws: seq<Word>, s: PromptState)
    requires ValidList(ws) && Invariant(ws, s) && Completable(ws, s)
    ensures Completable(ws, PressTab(ws, s).0)
  {
    var cs := CandidatesOf(ws, s);
    if s.buf != [] && |cs| != 1 {
      var l := LongestCommonPrefix(cs, Text(s.buf));
      CommonPrefixKeepsCandidates(ws, s.committed, Text(s.buf));
      assert cs[0] in cs && l <= cs[0];
      PrefixStartsWord(ws, l, cs[0]);
      BufferIsText(ws, Runes(l));
    }
  }

  lemma BackspaceStaysCompletable(ws: seq<Word>, s: PromptState)
    requires ValidList(ws) && Invariant(ws, s) && Completable(ws, s)
    ensures Completable(ws, PressBackspace(s))
  {
    if s.buf != [] {
      FewerCommittedMoreCandidates(ws, s.committed, s.committed, Text(s.buf), Text(s.buf[..|s.buf| - 1]));
    } else if s.committed != [] {
      var n := |s.committed| - 1;
      var w := s.committed[n];
      assert w in s.committed;
      PrefixStartsWord(ws, w, w);
      BufferIsText(ws, Runes(w));
      WholeWordIsUnique(ws, s.committed[..n], w);
    }
  }

  /** Without pastes the partial word always has an uncommitted candidate. */
  lemma NextStaysCompletable(ws: seq<Word>, min: nat, s: PromptState, e: Event)
    requires ValidList(ws) && Invariant(ws, s) && Completable(ws, s) && !e.Paste?
    ensures Completable(ws, Next(ws, min, s, e).0)
  {
    hide PressTab, PressBackspace, Candidates;
    match e {
      case Rune(r) =>
        var c := if 0x41 <= r <= 0x5a then r + 32 else r;
        assert (s.buf + [c])[..|s.buf|] == s.buf;
      case Tab => TabStaysCompletable(ws, s);
      case Backspace => BackspaceStaysCompletable(ws, s);
      case _ =>
    }
  }

  /** Over whole runs without pastes a partial word always has an uncommitted candidate. */
  lemma {:induction false} PasteFreeRunStaysCompletable(ws: seq<Word>, min: nat, s: PromptState, events: seq<Event>)
    requires ValidList(ws) && Invariant(ws, s) && Completable(ws, s)
    requires forall i :: 0 <= i < |events| ==> !events[i].Paste?
    ensures Completable(ws, Run(ws, min, s, events))
    decreases |events|
  {
    hide Next, Invariant, Completable;
    if events != [] {
      assert !events[0].Paste?;
      NextKeepsInvariant(ws, min, s, events[0]);
      NextStaysCompletable(ws, min, s, events[0]);
      PasteFreeRunStaysCompletable(ws, min, Next(ws, min, s, events[0]).0, events[1..]);
    }
  }

  /** The text leaves the partial word a candidate: some candidate is none of its words. */
  ghost predicate SparesCandidate(ws: seq<Word>, s: PromptState, text: seq<Byte>) {
    exists w :: w in CandidatesOf(ws, s) && w !in FoldAll(Tokens(text))
  }

  /**
   A paste keeps the partial word completable exactly when there is no partial word, or the text is
   not acceptable, or it spares one of the candidates.
   */
  lemma PasteStaysCompletable(ws: seq<Word>, s: PromptState, text: seq<Byte>)
    requires Completable(ws, s)
    ensures Completable(ws, PasteText(ws, s, text).0)
       <==> s.buf == [] || !IsAcceptable(ws, s, text) || SparesCandidate(ws, s, text)
  {
    hide Candidates, Text, Tokens, FoldAll, Parse, Acceptable;
    PasteIsAtomic(ws, s, text);
    if s.buf != [] && IsAcceptable(ws, s, text) {
      var words := FoldAll(Tokens(text));
      var before, after := CandidatesOf(ws, s), CandidatesOf(ws, PasteText(ws, s, text).0);
      PastedAreGone(ws, s.committed, words, Text(s.buf));
      if after != [] {
        assert after[0] in after;
        assert after[0] in before && after[0] !in words;
      }
    }
  }

  /** The gesture is no paste that takes the partial word's last candidate. */
  ghost predicate Spares(ws: seq<Word>, s: PromptState, e: Event) {
    e.Paste? ==> s.buf == [] || !IsAcceptable(ws, s, e.text) || SparesCandidate(ws, s, e.text)
  }

  ghost predicate SparingRun(ws: seq<Word>, min: nat, s: PromptState, events: seq<Event>)
    decreases |events|
  {
    events == [] || (Spares(ws, s, events[0]) && SparingRun(ws, min, Next(ws, min, s, events[0]).0, events[1..]))
  }

  ghost predicate CompletableThroughout(ws: seq<Word>, min: nat, s: PromptState, events: seq<Event>)
    decreases |events|
  {
    && Completable(ws, s)
    && (events == [] || CompletableThroughout(ws, min, Next(ws, min, s, events[0]).0, events[1..]))
  }

  /** A run never strands its partial word if and only if each of its pastes spares a candidate. */
  lemma {:induction false} RunStaysCompletable(ws: seq<Word>, min: nat, s: PromptState, events: seq<Event>)
    requires ValidList(ws) && Invariant(ws, s) && Completable(ws, s)
    ensures CompletableThroughout(ws, min, s, events) <==> SparingRun(ws, min, s, events)
    decreases |events|
  {
    hide Invariant, Completable, ValidList;
    if events != [] {
      var next := Next(ws, min, s, events[0]).0;
      StepStaysCompletable(ws, min, s, events[0]);
      NextKeepsInvariant(ws, min, s, events[0]);
      hide Next, Spares;
      if Completable(ws, next) {
        RunStaysCompletable(ws, min, next, events[1..]);
      }
    }
  }

  lemma StepStaysCompletable(ws: seq<Word>, min: nat, s: PromptState, e: Event)
    requires ValidList(ws) && Invariant(ws, s) && Completable(ws, s)
    ensures Completable(ws, Next(ws, min, s, e).0) <==> Spares(ws, s, e)
  {
    hide Completable, PasteText;
    if e.Paste? {
      PasteStaysCompletable(ws, s, e.text);
    } else {
      NextStaysCompletable(ws, min, s, e);
    }
  }

  /** What pasted words leave of the candidates: those that were not pasted. */
  lemma PastedAreGone(ws: seq<Word>, committed: seq<Word>, words: seq<Word>, p: seq<Byte>)
    ensures forall w :: w in Candidates(ws, committed + words, p) <==> w in Candidates(ws, committed, p) && w !in words
  {
  }

  // ----- gestures that never change the meaning -----

  /** Tab with several candidates: same candidates, their longest common prefix, and idempotent. */
  lemma TabNeverChangesMeaning(ws: seq<Word>, s: PromptState)
    requires ValidList(ws) && Invariant(ws, s) && s.buf != [] && |CandidatesOf(ws, s)| != 1
    ensures var after := PressTab(ws, s).0;
            && after.committed == s.committed
            && CandidatesOf(ws, after) == CandidatesOf(ws, s)
            && Text(after.buf) == LongestCommonPrefix(CandidatesOf(ws, s), Text(s.buf))
            && PressTab(ws, after).0 == after
  {
    var cs := CandidatesOf(ws, s);
    var l := LongestCommonPrefix(cs, Text(s.buf));
    CommonPrefixKeepsCandidates(ws, s.committed, Text(s.buf));
    TabKeeps(ws, s);
    BufferIsText(ws, s.buf);
    if cs != [] {
      assert cs[0] in cs && l <= cs[0];
      PrefixStartsWord(ws, l, cs[0]);
    } else {
      var w :| w in ws && s.buf <= w;
      PrefixStartsWord(ws, l, w);
    }
    BufferIsText(ws, Runes(l));
  }

  /** Taking the last word back for editing and committing it again restores the same state. */
  lemma BackspaceThenSpaceRestores(ws: seq<Word>, min: nat, s: PromptState)
    requires ValidList(ws) && Invariant(ws, s) && s.buf == []
    ensures Run(ws, min, s, [Backspace, Space]) == s
  {
    RunTwo(ws, min, s, Backspace, Space);
    if s.committed != [] {
      RestoreLastWord(ws, min, s);
    }
  }

  lemma RestoreLastWord(ws: seq<Word>, min: nat, s: PromptState)
    requires ValidList(ws) && Invariant(ws, s) && s.buf == [] && s.committed != []
    ensures Next(ws, min, PressBackspace(s), Space).0 == s
  {
    hide Runes, Text, Candidates;
    var n := |s.committed| - 1;
    var w := s.committed[n];
    assert w in s.committed && w in ws;
    PrefixStartsWord(ws, w, w);
    ListWordIsAscii(ws, w);
    BufferIsText(ws, Runes(w));
    WholeWordIsUnique(ws, s.committed[..n], w);
    assert s.committed[..n] + [w] == s.committed;
  }

  /** A ghost completes the partial word to the one candidate, and Space then commits that word. */
  lemma GhostIsWhatSpaceCommits(ws: seq<Word>, min: nat, s: PromptState)
    requires s.buf != [] && |CandidatesOf(ws, s)| == 1 && |s.committed| < MAX_PHRASE_WORDS
    ensures Next(ws, min, s, Space).0 == PromptState(s.committed + [Text(s.buf) + GhostOf(ws, s)], [], s.done)
    ensures Next(ws, min, s, Tab) == Next(ws, min, s, Space)
  {
  }
}
