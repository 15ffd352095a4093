/**
 The list-locked autocomplete machine. It answers every question about candidates through the
 binary-search index and the committed words; its contracts say what the plain scan would.
 */
module PromptMachine {
  import opened Bytes
  import opened WordLists
  import opened PhraseGrammar
  import opened Completion
  import opened KeyTokens
  import opened PromptSpec
  import Phrases

  /** What a renderer needs after an event; the phrase only once the prompt is done. */
  datatype Output = Output(
    committed: seq<Word>, buf: seq<Byte>, ghostText: seq<Byte>, bell: bool, done: bool, phrase: Option<seq<Byte>>)

  class Machine {
    const words: seq<Word>
    const minWords: nat
    var committed: seq<Word>
    var buf: seq<int>
    var done: bool

    function State(): PromptState
      reads this
    {
      PromptState(committed, buf, done)
    }

    ghost predicate Valid()
      reads this
    {
      ValidList(words) && Invariant(words, State())
    }

    constructor (list: seq<Word>, min: int)
      requires ValidList(list)
      ensures Valid() && State() == START && words == list
      ensures minWords == if min <= 0 then PHRASE_WORDS else min
    {
      words, minWords := list, if min <= 0 then PHRASE_WORDS else min;
      committed, buf, done := [], [], false;
    }

    method PhraseBytes() returns (out: seq<Byte>)
      ensures out == Join(committed)
    {
      out := Phrases.JoinWords(committed);
    }

    method CommittedWithPrefix(p: seq<Byte>) returns (n: nat)
      ensures n == |WithPrefix(committed, p)|
    {
      n := 0;
      for i := 0 to |committed|
        invariant n == |WithPrefix(committed[..i], p)|
      {
        assert committed[..i + 1][..i] == committed[..i];
        if p <= committed[i] {
          n := n + 1;
        }
      }
      assert committed[..|committed|] == committed;
    }

    method CandCount(p: seq<Byte>) returns (n: nat)
      requires Valid()
      ensures n == |Candidates(words, committed, p)|
    {
      var (lo, hi) := PrefixRange(words, p);
      var taken := CommittedWithPrefix(p);
      CountByIndex(words, committed, p);
      n := hi - lo - taken;
    }

    /** Up to k candidates in list order. */
    method FirstCandidates(p: seq<Byte>, k: nat) returns (out: seq<Word>)
      requires Valid()
      ensures var cs := Candidates(words, committed, p); out == if k < |cs| then cs[..k] else cs
    {
      hide Candidates, PrefixRange;
      var (lo, hi) := PrefixRange(words, p);
      out := [];
      var i := lo;
      assert out == Candidates(words[lo..i], committed, p) by { NoCandidates(words[lo..lo], committed, p); }
      while i < hi && |out| < k
        invariant lo <= i <= hi
        invariant |out| <= k
        invariant out == Candidates(words[lo..i], committed, p)
      {
        ScanStep(words, committed, p, lo, i);
        if words[i] !in committed {
          out := out + [words[i]];
        }
        i := i + 1;
      }
      ScanStopped(words, committed, p, i);
    }

    method LcpOfCandidates(p: seq<Byte>) returns (lcp: seq<Byte>)
      requires Valid()
      ensures lcp == LongestCommonPrefix(Candidates(words, committed, p), p)
    {
      hide Candidates, LongestCommonPrefix, CommonPrefix;
      var n := CandCount(p);
      var cs := FirstCandidates(p, n);
      LongestStart(cs, p);
      if |cs| == 0 {
        return p;
      }
      lcp := cs[0];
      for i := 1 to |cs|
        invariant lcp == LongestCommonPrefix(cs[..i], p)
      {
        var j := 0;
        while j < |lcp| && j < |cs[i]| && lcp[j] == cs[i][j]
          invariant 0 <= j <= |lcp| && j <= |cs[i]|
          invariant lcp[..j] == cs[i][..j]
        {
          j := j + 1;
        }
        CommonPrefixStops(lcp, cs[i], j);
        LongestStep(cs, p, i);
        lcp := lcp[..j];
      }
      assert cs[..|cs|] == cs;
    }

    /** What is left of the only candidate of a non-empty buffer. */
    method Ghost() returns (g: seq<Byte>)
      requires Valid()
      ensures g == GhostOf(words, State())
    {
      if |buf| == 0 {
        return [];
      }
      var p := Text(buf);
      var n := CandCount(p);
      if n != 1 {
        return [];
      }
      var c := FirstCandidates(p, 1);
      assert c[0] in Candidates(words, committed, p);
      g := c[0][|p|..];
    }

    method Commit(w: Word) returns (bell: bool)
      modifies this
      ensures (State(), bell) == CommitWord(old(State()), w)
    {
      if |committed| >= MAX_PHRASE_WORDS {
        return true;
      }
      committed, buf := committed + [w], [];
      return false;
    }

    method CommitOnlyCandidate() returns (bell: bool)
      requires Valid()
      modifies this
      ensures (State(), bell) == CommitUnique(words, old(State()))
    {
      var p := Text(buf);
      var n := CandCount(p);
      if n == 1 {
        var c := FirstCandidates(p, 1);
        bell := Commit(c[0]);
      } else {
        bell := true;
      }
    }

    method OnRune(r: int) returns (bell: bool)
      requires Valid()
      modifies this
      ensures (State(), bell) == TypeRune(words, old(State()), r)
    {
      if r < 0x20 || r == 0x7f {
        return false;
      }
      var c := r;
      if 0x41 <= c <= 0x5a {
        c := c + 32;
      }
      var n := CandCount(Text(buf) + EncodeRune(c));
      if n >= 1 {
        buf := buf + [c];
        return false;
      }
      return true;
    }

    method OnSpace() returns (bell: bool)
      requires Valid()
      modifies this
      ensures (State(), bell) == Next(words, minWords, old(State()), Space)
    {
      if |buf| == 0 {
        return false;
      }
      bell := CommitOnlyCandidate();
    }

    method OnTab() returns (bell: bool)
      requires Valid()
      modifies this
      ensures (State(), bell) == PressTab(words, old(State()))
    {
      if |buf| == 0 {
        return false;
      }
      var p := Text(buf);
      var n := CandCount(p);
      if n == 1 {
        var c := FirstCandidates(p, 1);
        bell := Commit(c[0]);
        return;
      }
      var lcp := LcpOfCandidates(p);
      buf := Runes(lcp);
      return false;
    }

    method OnEnter() returns (bell: bool)
      requires Valid()
      modifies this
      ensures (State(), bell) == PressEnter(words, minWords, old(State()))
    {
      if |buf| > 0 {
        bell := CommitOnlyCandidate();
        return;
      }
      if |committed| >= minWords {
        done := true;
      }
      return false;
    }

    method OnBackspace()
      modifies this
      ensures State() == PressBackspace(old(State()))
    {
      if |buf| > 0 {
        buf := buf[..|buf| - 1];
      } else if |committed| > 0 {
        var n := |committed|;
        var w := committed[n - 1];
        committed := committed[..n - 1];
        buf := Runes(w);
      }
    }

    /** All the words of the text or none; the partial word survives either way. */
    method OnPaste(text: seq<Byte>) returns (bell: bool)
      requires Valid()
      modifies this
      ensures (State(), bell) == PasteText(words, old(State()), text)
    {
      ParseAccepts(words, committed, Tokens(text));
      hide ParseTokens, Tokens, FoldAll, ValidList;
      var parsed := Phrases.ParseInteractiveWords(words, text, committed);
      if parsed.Rejected? {
        return true;
      }
      var tokens := parsed.words;
      if |tokens| == 0 {
        assert committed + [] == committed;
        return false;
      }
      var keep := buf;
      for i := 0 to |tokens|
        invariant committed == old(committed) + tokens[..i]
        invariant done == old(done)
      {
        var ignored := Commit(tokens[i]);
        assert !ignored;
        assert tokens[..i + 1] == tokens[..i] + [tokens[i]];
      }
      assert tokens[..|tokens|] == tokens;
      buf := keep;
      return false;
    }

    /** Applies one event: the step of the specification, and the surface that follows from it. */
    method Handle(e: Event) returns (out: Output)
      requires Valid()
      modifies this
      ensures Valid()
      ensures (State(), out.bell) == Next(words, minWords, old(State()), e)
      ensures out.committed == committed && out.buf == Text(buf) && out.done == done
      ensures out.phrase == if done then Some(Join(committed)) else None
      ensures out.ghostText == GhostOf(words, State())
    {
      var bell := Dispatch(e);
      var g := Ghost();
      var phrase := None;
      if done {
        var p := PhraseBytes();
        phrase := Some(p);
      }
      out := Output(committed, Text(buf), g, bell, done, phrase);
    }

    method Dispatch(e: Event) returns (bell: bool)
      requires Valid()
      modifies this
      ensures Valid()
      ensures (State(), bell) == Next(words, minWords, old(State()), e)
    {
      hide TypeRune, PressTab, PressEnter, PressBackspace, PasteText, CommitUnique, Invariant;
      NextKeepsInvariant(words, minWords, State(), e);
      bell := false;
      match e {
        case Rune(r) => bell := OnRune(r);
        case Space => bell := OnSpace();
        case Tab => bell := OnTab();
        case Enter => bell := OnEnter();
        case Backspace => OnBackspace();
        case CtrlW =>
          if |buf| > 0 {
            buf := [];
          } else if |committed| > 0 {
            committed := committed[..|committed| - 1];
          }
        case CtrlU => buf := [];
        case CtrlO => bell := true;
        case Paste(text) => bell := OnPaste(text);
        case InputTooLong => bell := true;
        case _ =>
      }
    }
  }

  lemma ScanStep(ws: seq<Word>, committed: seq<Word>, p: seq<Byte>, lo: nat, i: nat)
    requires Sorted(ws) && PrefixRange(ws, p).0 == lo <= i < PrefixRange(ws, p).1
    ensures Candidates(ws[lo..i + 1], committed, p)
         == Candidates(ws[lo..i], committed, p) + if ws[i] in committed then [] else [ws[i]]
  {
    hide PrefixRange;
    PrefixRangeExact(ws, p, i);
    assert ws[lo..i + 1] == ws[lo..i] + [ws[i]];
    CandidatesAppend(ws[lo..i], [ws[i]], committed, p);
  }

  lemma ScanStopped(ws: seq<Word>, committed: seq<Word>, p: seq<Byte>, i: nat)
    requires Sorted(ws) && PrefixRange(ws, p).0 <= i <= PrefixRange(ws, p).1
    ensures Candidates(ws[PrefixRange(ws, p).0..i], committed, p) <= Candidates(ws, committed, p)
    ensures i == PrefixRange(ws, p).1 ==>
              Candidates(ws[PrefixRange(ws, p).0..i], committed, p) == Candidates(ws, committed, p)
  {
    hide PrefixRange, Candidates;
    var (lo, hi) := PrefixRange(ws, p);
    CandidatesInRange(ws, committed, p);
    assert ws[lo..hi] == ws[lo..i] + ws[i..hi];
    CandidatesAppend(ws[lo..i], ws[i..hi], committed, p);
  }

  lemma LongestStart(cs: seq<Word>, p: seq<Byte>)
    ensures cs == [] ==> LongestCommonPrefix(cs, p) == p
    ensures cs != [] ==> LongestCommonPrefix(cs[..1], p) == cs[0]
  {
  }

  lemma LongestStep(cs: seq<Word>, p: seq<Byte>, i: nat)
    requires 0 < i < |cs|
    ensures LongestCommonPrefix(cs[..i + 1], p) == CommonPrefix(LongestCommonPrefix(cs[..i], p), cs[i])
  {
    assert cs[..i + 1][..i] == cs[..i];
  }

  /** The comparing loop stops at the end of the common prefix. */
  lemma CommonPrefixStops(a: seq<Byte>, b: seq<Byte>, j: nat)
    requires j <= |a| && j <= |b| && a[..j] == b[..j]
    requires j == |a| || j == |b| || a[j] != b[j]
    ensures CommonPrefix(a, b) == a[..j]
  {
    if j > 0 {
      assert a[0] == a[..j][0] && b[0] == b[..j][0];
      assert a[1..][..j - 1] == a[..j][1..] && b[1..][..j - 1] == b[..j][1..];
      CommonPrefixStops(a[1..], b[1..], j - 1);
    }
  }
}
