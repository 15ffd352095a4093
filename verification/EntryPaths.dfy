/**
 Every way of entering a phrase, from the bytes the terminal delivers to the phrase returned:
 the raw prompt (typed or pasted), the plain line prompt, and the strict reader.
 */
module EntryPaths {
  import opened Bytes
  import opened WordLists
  import opened PhraseGrammar
  import opened Completion
  import opened KeyTokens
  import opened PromptSpec
  import opened PromptProperties
  import KeyMeaning
  import KeyProperties
  import LineReader
  import Phrases
  import PromptMachine

  // ----- the raw prompt -----

  /** The phrase the prompt returns, or nothing when it is interrupted or its input ends. */
  function Prompt(ws: seq<Word>, min: nat, s: PromptState, events: seq<Event>): Option<seq<Byte>>
    decreases |events|
  {
    if events == [] || events[0].CtrlC? then None
    else
      var next := Next(ws, min, s, events[0]).0;
      if next.done then Some(Join(next.committed)) else Prompt(ws, min, next, events[1..])
  }

  method ReadPhrase(ws: seq<Word>, events: seq<Event>) returns (phrase: Option<seq<Byte>>)
    requires ValidList(ws)
    ensures phrase == Prompt(ws, PHRASE_WORDS, START, events)
  {
    hide Next;
    var m := new PromptMachine.Machine(ws, PHRASE_WORDS);
    for i := 0 to |events|
      invariant m.Valid() && !m.done && m.words == ws && m.minWords == PHRASE_WORDS
      invariant fresh(m)
      invariant Prompt(ws, PHRASE_WORDS, START, events) == Prompt(ws, PHRASE_WORDS, m.State(), events[i..])
    {
      var ev := events[i];
      assert events[i..][0] == ev && events[i..][1..] == events[i + 1..];
      if ev.CtrlC? {
        return None;
      }
      if ev.CtrlD? || ev.Ignored? {
        FlowControlIsNoGesture(ws, PHRASE_WORDS, m.State(), ev);
      } else {
        var out := m.Handle(ev);
        if out.done {
          return out.phrase;
        }
      }
    }
    return None;
  }

  lemma FlowControlIsNoGesture(ws: seq<Word>, min: nat, s: PromptState, e: Event)
    requires e.CtrlD? || e.Ignored?
    ensures Next(ws, min, s, e).0 == s
  {
  }

  lemma {:induction false} PromptRuns(ws: seq<Word>, min: nat, s: PromptState, a: seq<Event>, b: seq<Event>)
    requires CtrlC !in a && !Run(ws, min, s, a).done
    ensures Prompt(ws, min, s, a + b) == Prompt(ws, min, Run(ws, min, s, a), b)
    decreases |a|
  {
    hide Next;
    if a == [] {
      assert a + b == b;
    } else {
      var next := Next(ws, min, s, a[0]).0;
      if next.done {
        DoneIsForever(ws, min, next, a[1..]);
      }
      assert (a + b)[1..] == a[1..] + b && a[0] in a;
      PromptRuns(ws, min, next, a[1..], b);
    }
  }

  /** Whatever was typed, pasted and edited: a phrase the prompt returns is canonical already. */
  lemma {:induction false} PromptReturnsCanonical(ws: seq<Word>, min: nat, s: PromptState, events: seq<Event>)
    requires ValidList(ws) && Invariant(ws, s) && !s.done && min >= PHRASE_WORDS
    requires Prompt(ws, min, s, events).Some?
    ensures var y := Prompt(ws, min, s, events).value; Canonical(ws, y) == Some(y)
    decreases |events|
  {
    hide Next;
    var next := Next(ws, min, s, events[0]).0;
    NextKeepsInvariant(ws, min, s, events[0]);
    SubmitsOnlyOnEnter(ws, min, s, events[0]);
    if next.done {
      CanonicalOfJoin(ws, next.committed);
    } else {
      PromptReturnsCanonical(ws, min, next, events[1..]);
    }
  }

  // ----- interrupting -----

  /**
   Ctrl+C, typed while no sequence or paste is under way, ends the prompt without a phrase, whatever
   stands typed and whatever follows, unless the keys before it submitted.
   */
  lemma CtrlCInterrupts(ws: seq<Word>, min: nat, keys: seq<Byte>, more: seq<Byte>)
    requires Drain(keys, false).held == []
    requires Prompt(ws, min, START, Drain(keys, false).events) == None
    ensures Prompt(ws, min, START, Tokenize(keys + [0x03] + more, false)) == None
  {
    hide Drain, Prompt;
    var before := Drain(keys, false);
    assert keys + [0x03] + more == keys + ([0x03] + more);
    DrainInChunks(keys, [0x03] + more, false);
    assert before.held + ([0x03] + more) == [0x03] + more;
    var ev := KeyMeaning.KeyByte(0x03, more, before.cr);
    var d := Drain(more, false);
    var rest := d.events + if d.held == [] then [] else [Ignored];
    var whole := Drain(keys + [0x03] + more, false);
    assert whole.events == before.events + ([CtrlC] + d.events);
    assert Tokenize(keys + [0x03] + more, false) == before.events + ([CtrlC] + rest);
    NothingBehindCtrlC(ws, min, START, before.events, rest);
  }

  lemma {:induction false} NothingBehindCtrlC(ws: seq<Word>, min: nat, s: PromptState, a: seq<Event>, rest: seq<Event>)
    requires Prompt(ws, min, s, a) == None
    ensures Prompt(ws, min, s, a + ([CtrlC] + rest)) == None
    decreases |a|
  {
    hide Next;
    if a == [] {
      assert a + ([CtrlC] + rest) == [CtrlC] + rest;
    } else {
      assert (a + ([CtrlC] + rest))[1..] == a[1..] + ([CtrlC] + rest);
      if !a[0].CtrlC? {
        NothingBehindCtrlC(ws, min, Next(ws, min, s, a[0]).0, a[1..], rest);
      }
    }
  }

  // ----- typing -----

  /** The keys that type the words, a Space behind each. */
  function Keys(words: seq<Word>): seq<Byte> {
    if words == [] then []
    else Keys(words[..|words| - 1]) + (words[|words| - 1] + [SPACE])
  }

  function KeyEvents(s: seq<Byte>): (events: seq<Event>)
    ensures |events| == |s|
    ensures forall i :: 0 <= i < |s| ==> events[i] == ControlEvent(s[i])
  {
    seq(|s|, i requires 0 <= i < |s| => ControlEvent(s[i]))
  }

  lemma KeyEventsConcat(a: seq<Byte>, b: seq<Byte>)
    ensures KeyEvents(a + b) == KeyEvents(a) + KeyEvents(b)
  {
  }

  /** Printable ASCII and carriage returns: one event per byte, with nothing left undecided. */
  lemma {:induction false} PlainKeys(s: seq<Byte>)
    requires forall i :: 0 <= i < |s| ==> 0x20 <= s[i] < 0x7f || s[i] == CR
    ensures forall cr :: Drain(s, cr).events == KeyEvents(s) && Drain(s, cr).held == []
  {
    if s != [] {
      PlainKeys(s[1..]);
      forall cr ensures Drain(s, cr).events == KeyEvents(s) && Drain(s, cr).held == [] {
        assert FirstLexeme(s, cr) == Lexeme(1, [ControlEvent(s[0])]);
        assert KeyEvents(s) == [ControlEvent(s[0])] + KeyEvents(s[1..]);
      }
    }
  }

  lemma TypeLetter(ws: seq<Word>, min: nat, s: PromptState, w: Word, k: nat)
    requires ValidList(ws) && w in ws && w !in s.committed && k < |w| && s.buf == w[..k]
    ensures Next(ws, min, s, ControlEvent(w[k])).0 == s.(buf := w[..k + 1])
  {
    hide Candidates, Text;
    ListWordIsAscii(ws, w);
    assert IsListByte(w[k]);
    var c := w[k];
    assert ControlEvent(c) == Rune(c) && EncodeRune(c) == [c];
    PrefixStartsWord(ws, w[..k], w);
    assert StartsListWord(ws, w[..k]);
    BufferIsText(ws, w[..k]);
    assert w[..k] + [c] == w[..k + 1];
    assert w in Candidates(ws, s.committed, w[..k] + [c]);
  }

  lemma {:induction false} TypeLetters(ws: seq<Word>, min: nat, s: PromptState, w: Word, k: nat)
    requires ValidList(ws) && w in ws && w !in s.committed && k <= |w| && s.buf == []
    ensures Run(ws, min, s, KeyEvents(w[..k])) == s.(buf := w[..k])
    decreases k
  {
    hide Next;
    if k == 0 {
      assert w[..0] == [];
    } else {
      TypeLetters(ws, min, s, w, k - 1);
      TypeLetter(ws, min, s.(buf := w[..k - 1]), w, k - 1);
      assert w[..k] == w[..k - 1] + [w[k - 1]];
      KeyEventsConcat(w[..k - 1], [w[k - 1]]);
      assert KeyEvents([w[k - 1]]) == [ControlEvent(w[k - 1])];
      RunConcat(ws, min, s, KeyEvents(w[..k - 1]), KeyEvents([w[k - 1]]));
      RunOne(ws, min, s.(buf := w[..k - 1]), ControlEvent(w[k - 1]));
    }
  }

  lemma RunOne(ws: seq<Word>, min: nat, s: PromptState, e: Event)
    ensures Run(ws, min, s, [e]) == Next(ws, min, s, e).0
  {
    hide Next;
    assert [e][1..] == [];
    assert Run(ws, min, Next(ws, min, s, e).0, []) == Next(ws, min, s, e).0;
  }

  /** Typing a fresh list word and Space commits exactly that word. */
  lemma TypeWord(ws: seq<Word>, min: nat, s: PromptState, w: Word)
    requires ValidList(ws) && w in ws && w !in s.committed && s.buf == [] && |s.committed| < MAX_PHRASE_WORDS
    ensures Run(ws, min, s, KeyEvents(w + [SPACE])) == s.(committed := s.committed + [w])
  {
    hide Candidates, Text;
    TypeLetters(ws, min, s, w, |w|);
    assert w[..|w|] == w;
    KeyEventsConcat(w, [SPACE]);
    assert KeyEvents([SPACE]) == [Space];
    RunConcat(ws, min, s, KeyEvents(w), [Space]);
    RunOne(ws, min, s.(buf := w), Space);
    PrefixStartsWord(ws, w, w);
    BufferIsText(ws, w);
    WholeWordIsUnique(ws, s.committed, w);
    ListWordIsAscii(ws, w);
  }

  lemma {:induction false} TypeWords(ws: seq<Word>, min: nat, words: seq<Word>)
    requires ValidList(ws) && AllListed(ws, words) && Distinct(words) && |words| <= MAX_PHRASE_WORDS
    ensures Run(ws, min, START, KeyEvents(Keys(words))) == PromptState(words, [], false)
    decreases |words|
  {
    hide Next;
    if words != [] {
      var init, w := words[..|words| - 1], words[|words| - 1];
      assert w in words;
      TypeWords(ws, min, init);
      KeyEventsConcat(Keys(init), w + [SPACE]);
      RunConcat(ws, min, START, KeyEvents(Keys(init)), KeyEvents(w + [SPACE]));
      TypeWord(ws, min, PromptState(init, [], false), w);
      assert init + [w] == words;
    }
  }

  lemma {:induction false} KeysArePlain(ws: seq<Word>, words: seq<Word>)
    requires ValidList(ws) && AllListed(ws, words)
    ensures forall i :: 0 <= i < |Keys(words)| ==> 0x20 <= Keys(words)[i] < 0x7f
  {
    if words != [] {
      var init, w := words[..|words| - 1], words[|words| - 1];
      KeysArePlain(ws, init);
      assert w in words;
      ListWordIsAscii(ws, w);
      forall i | 0 <= i < |w| ensures 0x20 <= w[i] < 0x7f {
        assert IsListByte(w[i]);
      }
    }
  }

  /** Once the words stand committed, Enter returns them joined. */
  lemma SubmitReturnsJoin(ws: seq<Word>, min: nat, words: seq<Word>, events: seq<Event>)
    requires CtrlC !in events && min <= |words|
    requires Run(ws, min, START, events) == PromptState(words, [], false)
    ensures Prompt(ws, min, START, events + [Enter]) == Some(Join(words))
  {
    PromptRuns(ws, min, START, events, [Enter]);
    assert Next(ws, min, PromptState(words, [], false), Enter).0 == PromptState(words, [], true);
  }

  lemma TypedEvents(ws: seq<Word>, words: seq<Word>)
    requires ValidList(ws) && AllListed(ws, words)
    ensures Tokenize(Keys(words) + [CR], false) == KeyEvents(Keys(words)) + [Enter]
    ensures CtrlC !in KeyEvents(Keys(words))
  {
    KeysArePlain(ws, words);
    PlainKeys(Keys(words) + [CR]);
    KeyEventsConcat(Keys(words), [CR]);
    assert KeyEvents([CR]) == [Enter];
  }

  /** The typed phrase, from key bytes to the phrase returned. */
  lemma TypedPhrase(ws: seq<Word>, min: nat, words: seq<Word>)
    requires ValidList(ws) && AllListed(ws, words) && Distinct(words) && min <= |words| <= MAX_PHRASE_WORDS
    ensures Prompt(ws, min, START, Tokenize(Keys(words) + [CR], false)) == Some(Join(words))
  {
    hide Tokenize, Run, Prompt;
    TypedEvents(ws, words);
    TypeWords(ws, min, words);
    SubmitReturnsJoin(ws, min, words, KeyEvents(Keys(words)));
  }

  // ----- pasting -----

  lemma NoEscapeNoTerminator(x: seq<Byte>)
    requires forall i :: 0 <= i < |x| ==> x[i] != ESC
    ensures FindTerminator(x).None?
  {
    forall k: nat ensures !TerminatorAt(x, k) {
      if k + |PASTE_END| <= |x| {
        assert x[k..k + |PASTE_END|][0] == x[k] != PASTE_END[0];
      }
    }
  }

  lemma VariantHasNoTerminator(ws: seq<Word>, words: seq<Word>, x: seq<Byte>)
    requires ValidList(ws) && AllListed(ws, words) && FoldAll(Tokens(x)) == words
    ensures FindTerminator(x).None?
  {
    PhraseBytes(ws, x);
    forall i | 0 <= i < |x| ensures x[i] != ESC {
      assert IsPhraseByte(x[i]);
    }
    NoEscapeNoTerminator(x);
  }

  lemma SubmitKey()
    ensures Drain([CR], false) == Drained([Enter], [], true)
  {
    assert FirstLexeme([CR], false) == Lexeme(1, [Enter]);
    assert [CR][1..] == [];
  }

  lemma PastedEvents(x: seq<Byte>)
    requires FindTerminator(x).None? && |x| <= MAX_PASTE_BYTES
    ensures Tokenize(KeyProperties.Framed(x) + [CR], false) == [Paste(x)] + [Enter]
  {
    hide FindTerminator, FirstLexeme, Drain, KeyProperties.Framed;
    SubmitKey();
    KeyProperties.FramedPasteIsOneEvent(x, [CR], false);
  }

  /** The pasted phrase in any case and spacing, from framed bytes to the phrase returned. */
  lemma PastedPhrase(ws: seq<Word>, min: nat, words: seq<Word>, x: seq<Byte>)
    requires ValidList(ws) && AllListed(ws, words) && Distinct(words) && min <= |words| <= MAX_PHRASE_WORDS
    requires IsVariant(x, words) && |x| <= MAX_PHRASE_BYTES
    ensures Prompt(ws, min, START, Tokenize(KeyProperties.Framed(x) + [CR], false)) == Some(Join(words))
  {
    hide Tokenize, Run, Prompt, FindTerminator, Tokens, FoldAll, IsVariant, KeyProperties.Framed;
    VariantReadsBack(x, words);
    VariantHasNoTerminator(ws, words, x);
    PastedEvents(x);
    PasteIsAtomic(ws, START, x);
    assert [] + words == words;
    RunOne(ws, min, START, Paste(x));
    SubmitReturnsJoin(ws, min, words, [Paste(x)]);
  }

  /**
   A paste can take a partial word's last candidate, on every list and with every word: typed to its
   end but not committed, and then pasted, the word stands committed and is left over as a partial
   word that nothing completes.
   */
  lemma PasteCanStrandPartialWord(ws: seq<Word>, min: nat, w: Word)
    requires ValidList(ws) && w in ws
    ensures var typed := Run(ws, min, START, KeyEvents(w));
            var stranded := Run(ws, min, START, KeyEvents(w) + [Paste(w)]);
            && CandidatesOf(ws, typed) == [w]
            && stranded == PromptState([w], w, false) && CandidatesOf(ws, stranded) == []
  {
    hide Run, Candidates, Text, PasteText, ValidList;
    var typed := PromptState([], w, false);
    TypeLetters(ws, min, START, w, |w|);
    assert w[..|w|] == w;
    PasteOfTypedWord(ws, w);
    RunConcat(ws, min, START, KeyEvents(w), [Paste(w)]);
    RunOne(ws, min, typed, Paste(w));
    PrefixStartsWord(ws, w, w);
    BufferIsText(ws, w);
    WholeWordIsUnique(ws, [], w);
    WholeWordIsUnique(ws, [w], w);
  }

  lemma PasteOfTypedWord(ws: seq<Word>, w: Word)
    requires ValidList(ws) && w in ws
    ensures PasteText(ws, PromptState([], w, false), w) == (PromptState([w], w, false), false)
  {
    ListWordsAreTokens(ws, [w]);
    assert IsToken([w][0]);
    TokensOfToken(w);
    ListWordFits(ws, w);
    hide Tokens, FoldAll, Parse, ValidList, Acceptable, PasteText;
    PasteIsAtomic(ws, PromptState([], w, false), w);
    assert [] + [w] == [w];
  }

  lemma ListWordFits(ws: seq<Word>, w: Word)
    requires ValidList(ws) && w in ws
    ensures |w| <= MAX_PHRASE_BYTES && Acceptable(ws, [], [w])
  {
    ListWordIsAscii(ws, w);
  }

  // ----- plain lines -----

  /** What the plain prompt reads next: a line, a line over the byte limit, or an error. */
  datatype LineInput = Line(text: seq<Byte>) | LineTooLong | LineError

  function PlainLines(ws: seq<Word>, min: nat, committed: seq<Word>, lines: seq<LineInput>): Option<seq<Byte>>
    decreases |lines|
  {
    if lines == [] || lines[0].LineError? then None
    else if lines[0].LineTooLong? then PlainLines(ws, min, committed, lines[1..])
    else if lines[0].text == [] then
      if |committed| >= min then Some(Join(committed)) else PlainLines(ws, min, committed, lines[1..])
    else
      match Parse(ws, committed, lines[0].text)
      case Words(words) => PlainLines(ws, min, committed + words, lines[1..])
      case Rejected(_) => PlainLines(ws, min, committed, lines[1..])
  }

  /** One word a line or many, until an empty line finds enough of them. */
  method ReadPhrasePlainLines(ws: seq<Word>, min: nat, lines: seq<LineInput>) returns (phrase: Option<seq<Byte>>)
    requires ValidList(ws)
    ensures phrase == PlainLines(ws, min, [], lines)
  {
    hide Parse, Join;
    var committed: seq<Word> := [];
    for i := 0 to |lines|
      invariant PlainLines(ws, min, [], lines) == PlainLines(ws, min, committed, lines[i..])
    {
      assert lines[i..][0] == lines[i] && lines[i..][1..] == lines[i + 1..];
      match lines[i] {
        case LineError => return None;
        case LineTooLong =>
        case Line(text) =>
          if |text| == 0 {
            if |committed| >= min {
              var out := Phrases.JoinWords(committed);
              return Some(out);
            }
          } else {
            var parsed := Phrases.ParseInteractiveWords(ws, text, committed);
            if parsed.Words? {
              committed := committed + parsed.words;
            }
          }
      }
    }
    return None;
  }

  /**
   A line that is too long or rejected, or an empty one that comes too early, counts for nothing; an
   error ends the prompt; an empty line ends it with the phrase once there are enough words.
   */
  lemma PlainLineByLine(ws: seq<Word>, min: nat, committed: seq<Word>, line: LineInput, rest: seq<LineInput>)
    ensures var whole := PlainLines(ws, min, committed, [line] + rest);
            match line
            case LineError => whole == None
            case LineTooLong => whole == PlainLines(ws, min, committed, rest)
            case Line(text) =>
              && (text == [] && |committed| >= min ==> whole == Some(Join(committed)))
              && (text == [] && |committed| < min ==> whole == PlainLines(ws, min, committed, rest))
              && (text != [] && (|text| > 1024 || !Acceptable(ws, committed, FoldAll(Tokens(text)))) ==>
                    whole == PlainLines(ws, min, committed, rest))
              && (text != [] && |text| <= 1024 && Acceptable(ws, committed, FoldAll(Tokens(text))) ==>
                    whole == PlainLines(ws, min, committed + FoldAll(Tokens(text)), rest))
  {
    hide Join, Tokens, Acceptable, ParseTokens, FoldAll;
    assert ([line] + rest)[1..] == rest;
    if line.Line? {
      ParseAccepts(ws, committed, Tokens(line.text));
    }
  }

  ghost predicate Collected(ws: seq<Word>, committed: seq<Word>) {
    AllListed(ws, committed) && Distinct(committed) && |committed| <= MAX_PHRASE_WORDS
  }

  lemma CollectMore(ws: seq<Word>, committed: seq<Word>, text: seq<Byte>)
    requires Collected(ws, committed) && Parse(ws, committed, text).Words?
    ensures Collected(ws, committed + Parse(ws, committed, text).words)
  {
    hide Parse;
    var s := PromptState(committed, [], false);
    PasteKeeps(ws, s, text);
  }

  /** Whatever the lines were: a phrase the plain prompt returns is canonical already. */
  lemma {:induction false} PlainReturnsCanonical(ws: seq<Word>, min: nat, committed: seq<Word>, lines: seq<LineInput>)
    requires ValidList(ws) && Collected(ws, committed) && min >= PHRASE_WORDS
    requires PlainLines(ws, min, committed, lines).Some?
    ensures var y := PlainLines(ws, min, committed, lines).value; Canonical(ws, y) == Some(y)
    decreases |lines|
  {
    hide Parse, Canonical, Join;
    if lines[0].Line? && lines[0].text == [] && |committed| >= min {
      CanonicalOfJoin(ws, committed);
    } else if lines[0].Line? && lines[0].text != [] && Parse(ws, committed, lines[0].text).Words? {
      CollectMore(ws, committed, lines[0].text);
      PlainReturnsCanonical(ws, min, committed + Parse(ws, committed, lines[0].text).words, lines[1..]);
    } else {
      PlainReturnsCanonical(ws, min, committed, lines[1..]);
    }
  }

  /** The lines, each non-empty and within the limit, spell the words between them. */
  predicate LinesSpell(lines: seq<seq<Byte>>, words: seq<Word>) {
    if lines == [] then words == []
    else
      var first := FoldAll(Tokens(lines[0]));
      lines[0] != [] && |lines[0]| <= MAX_PHRASE_BYTES && first <= words && LinesSpell(lines[1..], words[|first|..])
  }

  function AsLines(lines: seq<seq<Byte>>): (r: seq<LineInput>)
    ensures |r| == |lines| && forall i :: 0 <= i < |lines| ==> r[i] == Line(lines[i])
  {
    seq(|lines|, i requires 0 <= i < |lines| => Line(lines[i]))
  }

  lemma PlainLine(ws: seq<Word>, committed: seq<Word>, words: seq<Word>, text: seq<Byte>)
    requires AllListed(ws, committed + words) && Distinct(committed + words)
    requires |committed + words| <= MAX_PHRASE_WORDS && |text| <= MAX_PHRASE_BYTES
    requires FoldAll(Tokens(text)) <= words
    ensures Parse(ws, committed, text) == Words(FoldAll(Tokens(text)))
  {
    hide Tokens, FoldAll, ParseTokens;
    ParseAccepts(ws, committed, Tokens(text));
    AcceptablePrefix(ws, committed, words, FoldAll(Tokens(text)));
  }

  lemma AcceptablePrefix(ws: seq<Word>, committed: seq<Word>, words: seq<Word>, first: seq<Word>)
    requires AllListed(ws, committed + words) && Distinct(committed + words)
    requires |committed + words| <= MAX_PHRASE_WORDS && first <= words
    ensures Acceptable(ws, committed, first)
  {
    var all := committed + words;
    forall w | w in first ensures w in ws && w !in committed {
      var i :| 0 <= i < |first| && first[i] == w;
      assert all[|committed| + i] == w && w in all;
      forall k | 0 <= k < |committed| ensures committed[k] != w {
        assert all[k] != all[|committed| + i];
      }
    }
    forall i, j | 0 <= i < j < |first| ensures first[i] != first[j] {
      assert all[|committed| + i] != all[|committed| + j];
    }
  }

  /** The phrase on any number of lines and an empty one behind them. */
  lemma {:induction false} PlainPhrase(
    ws: seq<Word>, min: nat, committed: seq<Word>, words: seq<Word>, lines: seq<seq<Byte>>, rest: seq<LineInput>)
    requires AllListed(ws, committed + words) && Distinct(committed + words)
    requires min <= |committed + words| <= MAX_PHRASE_WORDS
    requires LinesSpell(lines, words)
    ensures PlainLines(ws, min, committed, AsLines(lines) + ([Line([])] + rest)) == Some(Join(committed + words))
    decreases |lines|
  {
    hide Parse, Join, Tokens;
    var input := AsLines(lines) + ([Line([])] + rest);
    if lines == [] {
      assert committed + words == committed;
    } else {
      var first := FoldAll(Tokens(lines[0]));
      PlainLine(ws, committed, words, lines[0]);
      assert committed + first + words[|first|..] == committed + words;
      assert input[1..] == AsLines(lines[1..]) + ([Line([])] + rest);
      PlainPhrase(ws, min, committed + first, words[|first|..], lines[1..], rest);
    }
  }

  // ----- plain lines, from the keys that type them -----

  /** What the plain prompt reads from the events, one line after the other. */
  function LinesRead(events: seq<Event>, end: LineReader.End): seq<LineInput>
    decreases |events|
  {
    if events == [] then [LineError]
    else
      match LineReader.Read(MAX_PHRASE_BYTES, LineReader.Editing([], false), events, end)
      case Line(bytes) => [Line(bytes)] + LinesRead(LineReader.AfterLine(events), end)
      case TooLong => [LineTooLong] + LinesRead(LineReader.AfterLine(events), end)
      case _ => [LineError]
  }

  /** The keys that type the lines, a line feed behind each. */
  function KeyLines(lines: seq<seq<Byte>>): seq<Byte> {
    if lines == [] then [] else lines[0] + [LF] + KeyLines(lines[1..])
  }

  predicate Typeable(lines: seq<seq<Byte>>) {
    forall i :: 0 <= i < |lines| ==> LineReader.IsLineText(lines[i])
  }

  lemma LinesFit(lines: seq<seq<Byte>>, words: seq<Word>)
    requires LinesSpell(lines, words)
    ensures forall i :: 0 <= i < |lines| ==> |lines[i]| <= MAX_PHRASE_BYTES
  {
    hide Tokens, FoldAll;
    if lines != [] {
      LinesFit(lines[1..], words[|FoldAll(Tokens(lines[0]))|..]);
      forall i | 0 <= i < |lines| ensures |lines[i]| <= MAX_PHRASE_BYTES {
        assert i > 0 ==> lines[i] == lines[1..][i - 1];
      }
    }
  }

  lemma FirstLineRead(text: seq<Byte>, more: seq<Byte>, end: LineReader.End)
    requires LineReader.IsLineText(text) && |text| <= MAX_PHRASE_BYTES
    ensures var d := Drain(text + [LF] + more, false);
            && LinesRead(d.events, end) == [Line(text)] + LinesRead(Drain(more, false).events, end)
            && d.held == Drain(more, false).held
  {
    hide Drain, LineReader.Read, LineReader.IsLineText;
    LineReader.LineComesBack(text, MAX_PHRASE_BYTES, LineReader.Editing([], false), more, end);
    LineReader.LineIsTaken(text, more);
    assert [] + text == text;
    var events := Drain(text + [LF] + more, false).events;
    assert events != [] by { NothingReadIsNoLine(end); }
  }

  lemma NothingReadIsNoLine(end: LineReader.End)
    ensures !LineReader.Read(MAX_PHRASE_BYTES, LineReader.Editing([], false), [], end).Line?
  {
  }

  /** Decoded and read back, the lines are the lines. */
  lemma {:induction false} TypedLinesAreRead(lines: seq<seq<Byte>>, more: seq<Byte>, end: LineReader.End)
    requires Typeable(lines) && forall i :: 0 <= i < |lines| ==> |lines[i]| <= MAX_PHRASE_BYTES
    ensures var d := Drain(KeyLines(lines) + more, false);
            && LinesRead(d.events, end) == AsLines(lines) + LinesRead(Drain(more, false).events, end)
            && d.held == Drain(more, false).held
    decreases |lines|
  {
    hide Drain, LinesRead, LineReader.IsLineText, LineReader.Read;
    if lines == [] {
      assert KeyLines(lines) + more == more;
    } else {
      var text, rest := lines[0], lines[1..];
      TypedLinesAreRead(rest, more, end);
      FirstLineRead(text, KeyLines(rest) + more, end);
      assert KeyLines(lines) + more == text + [LF] + (KeyLines(rest) + more);
      assert AsLines(lines) == [Line(text)] + AsLines(rest);
    }
  }

  /** The phrase typed on any number of lines and an empty one, from key bytes to the phrase returned. */
  lemma TypedLinesPhrase(ws: seq<Word>, min: nat, words: seq<Word>, lines: seq<seq<Byte>>, end: LineReader.End)
    requires AllListed(ws, words) && Distinct(words) && min <= |words| <= MAX_PHRASE_WORDS
    requires LinesSpell(lines, words) && Typeable(lines)
    ensures PlainLines(ws, min, [], LinesRead(Tokenize(KeyLines(lines) + [LF], false), end)) == Some(Join(words))
  {
    hide PlainLines, LinesRead, LinesSpell, Drain, Join;
    LinesFit(lines, words);
    TypedLinesAreRead(lines, [LF], end);
    FirstLineRead([], [], end);
    assert [] + [LF] + [] == [LF];
    var rest := LinesRead(Drain([], false).events, end);
    assert Drain([], false).held == [] by { NothingHeld(); }
    var d := Drain(KeyLines(lines) + [LF], false);
    assert Tokenize(KeyLines(lines) + [LF], false) == d.events;
    assert LinesRead(d.events, end) == AsLines(lines) + ([Line([])] + rest);
    assert [] + words == words;
    PlainPhrase(ws, min, [], words, lines, rest);
  }

  lemma NothingHeld()
    ensures Drain([], false).held == []
  {
  }

  // ----- all of them -----

  /** Typed, pasted, entered as lines or read from a file: the same words give the same phrase. */
  lemma AllEntryPathsAgree(
    ws: seq<Word>, words: seq<Word>, x: seq<Byte>, lines: seq<seq<Byte>>, end: LineReader.End)
    requires ValidList(ws) && AllListed(ws, words) && Distinct(words)
    requires PHRASE_WORDS <= |words| <= MAX_PHRASE_WORDS
    requires IsVariant(x, words) && |x| <= MAX_PHRASE_BYTES
    requires LinesSpell(lines, words)
    ensures var phrase := Some(Join(words));
            && Prompt(ws, PHRASE_WORDS, START, Tokenize(Keys(words) + [CR], false)) == phrase
            && Prompt(ws, PHRASE_WORDS, START, Tokenize(KeyProperties.Framed(x) + [CR], false)) == phrase
            && PlainLines(ws, PHRASE_WORDS, [], AsLines(lines) + [Line([])]) == phrase
            && (Typeable(lines) ==>
                  PlainLines(ws, PHRASE_WORDS, [], LinesRead(Tokenize(KeyLines(lines) + [LF], false), end)) == phrase)
            && Canonical(ws, x) == phrase
            && Canonical(ws, phrase.value) == phrase
  {
    hide Prompt, PlainLines, Canonical, Tokenize, Join, IsVariant, LinesSpell, ValidList, LinesRead, Typeable, KeyLines;
    TypedPhrase(ws, PHRASE_WORDS, words);
    PastedPhrase(ws, PHRASE_WORDS, words, x);
    assert [] + words == words;
    PlainPhrase(ws, PHRASE_WORDS, [], words, lines, []);
    assert [Line([])] + [] == [Line([])];
    if Typeable(lines) {
      TypedLinesPhrase(ws, PHRASE_WORDS, words, lines, end);
    }
    AcceptsExactlyVariants(ws, x, words);
    CanonicalOfJoin(ws, words);
  }
}
