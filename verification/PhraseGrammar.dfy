/**
 The phrase language, said once: words are separated by ASCII whitespace, folded to lower case,
 found on the list, pairwise distinct, and written back with single spaces.
 */
module PhraseGrammar {
  import opened Bytes
  import opened WordLists
  import Utf8

  const PHRASE_WORDS := 7
  const MAX_PHRASE_WORDS := 64
  const MAX_PHRASE_BYTES := 1024

  predicate IsSpace(c: Byte) {
    c == SPACE || 0x09 <= c <= 0x0d
  }

  function Lower(c: Byte): Byte {
    if 0x41 <= c <= 0x5a then c + 32 else c
  }

  function Fold(token: seq<Byte>): (w: Word)
    ensures |w| == |token|
    ensures forall i :: 0 <= i < |token| ==> w[i] == Lower(token[i])
  {
    seq(|token|, i requires 0 <= i < |token| => Lower(token[i]))
  }

  function FoldAll(tokens: seq<seq<Byte>>): (words: seq<Word>)
    ensures |words| == |tokens|
    ensures forall i :: 0 <= i < |tokens| ==> words[i] == Fold(tokens[i])
  {
    seq(|tokens|, i requires 0 <= i < |tokens| => Fold(tokens[i]))
  }

  /** Length of the token at the head of s. */
  function WordEnd(s: seq<Byte>): (e: nat)
    ensures e <= |s|
    ensures forall i :: 0 <= i < e ==> !IsSpace(s[i])
    ensures e < |s| ==> IsSpace(s[e])
  {
    if s == [] || IsSpace(s[0]) then 0 else 1 + WordEnd(s[1..])
  }

  function Tokens(s: seq<Byte>): seq<seq<Byte>>
    decreases |s|
  {
    if s == [] then []
    else if IsSpace(s[0]) then Tokens(s[1..])
    else [s[..WordEnd(s)]] + Tokens(s[WordEnd(s)..])
  }

  /** The words with one space between neighbours. */
  function Join(words: seq<Word>): seq<Byte> {
    if words == [] then []
    else if |words| == 1 then words[0]
    else Join(words[..|words| - 1]) + [SPACE] + words[|words| - 1]
  }

  predicate AllListed(ws: seq<Word>, words: seq<Word>) {
    forall w :: w in words ==> w in ws
  }

  /** The one rule every entry path is measured against. */
  function Canonical(ws: seq<Word>, x: seq<Byte>): Option<seq<Byte>> {
    var words := FoldAll(Tokens(x));
    if |x| <= MAX_PHRASE_BYTES && PHRASE_WORDS <= |words| <= MAX_PHRASE_WORDS && AllListed(ws, words) && Distinct(words)
    then Some(Join(words))
    else None
  }

  datatype Issue = Invalid | Duplicate | TooMany | TooLong

  datatype Parsed = Words(words: seq<Word>) | Rejected(issue: Issue)

  /** Tokens are judged one by one; the first that fails decides the issue reported. */
  function ParseTokens(ws: seq<Word>, seen: seq<Word>, tokens: seq<seq<Byte>>): Parsed
    decreases |tokens|
  {
    if tokens == [] then Words([])
    else
      var w := Fold(tokens[0]);
      if |seen| >= MAX_PHRASE_WORDS then Rejected(TooMany)
      else if w !in ws then Rejected(Invalid)
      else if w in seen then Rejected(Duplicate)
      else
        match ParseTokens(ws, seen + [w], tokens[1..])
        case Words(rest) => Words([w] + rest)
        case Rejected(issue) => Rejected(issue)
  }

  function Parse(ws: seq<Word>, committed: seq<Word>, x: seq<Byte>): Parsed {
    if |x| > MAX_PHRASE_BYTES then Rejected(TooLong) else ParseTokens(ws, committed, Tokens(x))
  }

  // ----- when the token-by-token rule accepts -----

  predicate NoneIn(words: seq<Word>, seen: seq<Word>) {
    forall w :: w in words ==> w !in seen
  }

  predicate Acceptable(ws: seq<Word>, seen: seq<Word>, words: seq<Word>) {
    && (words == [] || |seen| + |words| <= MAX_PHRASE_WORDS)
    && AllListed(ws, words)
    && Distinct(words)
    && NoneIn(words, seen)
  }

  /** Judging tokens one by one accepts exactly when the whole list is acceptable. */
  lemma {:induction false} ParseAccepts(ws: seq<Word>, seen: seq<Word>, tokens: seq<seq<Byte>>)
    ensures ParseTokens(ws, seen, tokens).Words? <==> Acceptable(ws, seen, FoldAll(tokens))
    ensures ParseTokens(ws, seen, tokens).Words? ==> ParseTokens(ws, seen, tokens).words == FoldAll(tokens)
    decreases |tokens|
  {
    if tokens != [] {
      var w := Fold(tokens[0]);
      var rest := FoldAll(tokens[1..]);
      assert FoldAll(tokens) == [w] + rest;
      ParseAccepts(ws, seen + [w], tokens[1..]);
      AcceptableSplits(ws, seen, w, rest);
    }
  }

  lemma AcceptableSplits(ws: seq<Word>, seen: seq<Word>, w: Word, rest: seq<Word>)
    ensures Acceptable(ws, seen, [w] + rest)
       <==> |seen| < MAX_PHRASE_WORDS && w in ws && w !in seen && Acceptable(ws, seen + [w], rest)
  {
    var words := [w] + rest;
    if Acceptable(ws, seen, words) {
      assert words[0] == w && words[1..] == rest;
      forall x | x in rest ensures x in ws && x !in seen + [w] {
        var i :| 0 <= i < |rest| && rest[i] == x;
        assert words[i + 1] == x && words[0] != words[i + 1];
      }
      forall i, j | 0 <= i < j < |rest| ensures rest[i] != rest[j] {
        assert words[i + 1] != words[j + 1];
      }
    }
    if |seen| < MAX_PHRASE_WORDS && w in ws && w !in seen && Acceptable(ws, seen + [w], rest) {
      forall i, j | 0 <= i < j < |words| ensures words[i] != words[j] {
        assert words[j] == rest[j - 1] && rest[j - 1] in rest;
        if i > 0 {
          assert words[i] == rest[i - 1];
        } else {
          assert w in seen + [w];
        }
      }
    }
  }

  // ----- tokens and layout -----

  lemma {:induction false} WordEndOfToken(t: seq<Byte>, rest: seq<Byte>)
    requires forall i :: 0 <= i < |t| ==> !IsSpace(t[i])
    requires rest == [] || IsSpace(rest[0])
    ensures WordEnd(t + rest) == |t|
  {
    if t == [] {
      assert t + rest == rest;
    } else {
      WordEndOfToken(t[1..], rest);
      assert (t + rest)[1..] == t[1..] + rest && (t + rest)[0] == t[0];
    }
  }

  lemma WordEndBefore(a: seq<Byte>, b: seq<Byte>)
    requires b == [] || IsSpace(b[0])
    ensures WordEnd(a + b) == WordEnd(a)
  {
    var e := WordEnd(a);
    assert a + b == a[..e] + (a[e..] + b);
    WordEndOfToken(a[..e], a[e..] + b);
  }

  /** Cutting the text in front of whitespace cuts its token list. */
  lemma {:induction false} TokensConcat(a: seq<Byte>, b: seq<Byte>)
    requires b == [] || IsSpace(b[0])
    ensures Tokens(a + b) == Tokens(a) + Tokens(b)
    decreases |a|
  {
    if a == [] {
      assert a + b == b;
    } else if IsSpace(a[0]) {
      assert (a + b)[1..] == a[1..] + b;
      TokensConcat(a[1..], b);
    } else {
      var e := WordEnd(a);
      WordEndBefore(a, b);
      assert (a + b)[..e] == a[..e] && (a + b)[e..] == a[e..] + b;
      TokensConcat(a[e..], b);
    }
  }

  predicate IsToken(t: seq<Byte>) {
    t != [] && forall i :: 0 <= i < |t| ==> !IsSpace(t[i])
  }

  predicate IsGap(g: seq<Byte>) {
    forall i :: 0 <= i < |g| ==> IsSpace(g[i])
  }

  lemma TokensOfToken(t: seq<Byte>)
    requires IsToken(t)
    ensures Tokens(t) == [t]
  {
    assert t + [] == t;
    WordEndOfToken(t, []);
    assert t[..|t|] == t && t[|t|..] == [];
  }

  lemma TokensAfterGap(g: seq<Byte>, b: seq<Byte>)
    requires IsGap(g)
    ensures Tokens(g + b) == Tokens(b)
  {
    if g == [] {
      assert g + b == b;
    } else {
      assert (g + b)[1..] == g[1..] + b;
      TokensAfterGap(g[1..], b);
    }
  }

  /** The tokens laid out with a gap in front of each and one gap behind the last. */
  function Layout(gaps: seq<seq<Byte>>, tokens: seq<seq<Byte>>): seq<Byte>
    requires |gaps| == |tokens| + 1
  {
    if tokens == [] then gaps[0]
    else Layout(gaps[..|gaps| - 1], tokens[..|tokens| - 1]) + tokens[|tokens| - 1] + gaps[|gaps| - 1]
  }

  predicate GapsSeparate(gaps: seq<seq<Byte>>) {
    && (forall i :: 0 <= i < |gaps| ==> IsGap(gaps[i]))
    && (forall i :: 0 < i < |gaps| - 1 ==> gaps[i] != [])
  }

  predicate AllTokens(tokens: seq<seq<Byte>>) {
    forall i :: 0 <= i < |tokens| ==> IsToken(tokens[i])
  }

  lemma {:induction false} LayoutFront(gaps: seq<seq<Byte>>, tokens: seq<seq<Byte>>)
    requires |gaps| == |tokens| + 1 && tokens != []
    ensures Layout(gaps, tokens) == gaps[0] + tokens[0] + Layout(gaps[1..], tokens[1..])
  {
    var k := |tokens|;
    if k == 1 {
      assert Layout(gaps[..1], tokens[..0]) == gaps[0];
      assert Layout(gaps[1..], tokens[1..]) == gaps[1];
    } else {
      var inner := Layout(gaps[..k][1..], tokens[..k - 1][1..]);
      LayoutFront(gaps[..k], tokens[..k - 1]);
      assert gaps[..k][1..] == gaps[1..][..k - 1] && tokens[..k - 1][1..] == tokens[1..][..k - 2];
      assert Layout(gaps[1..], tokens[1..]) == inner + tokens[k - 1] + gaps[k];
      assert Layout(gaps, tokens) == gaps[0] + tokens[0] + inner + tokens[k - 1] + gaps[k];
    }
  }

  /** Any spacing of the tokens, with any whitespace, reads back as the same tokens. */
  lemma {:induction false} TokensOfLayout(gaps: seq<seq<Byte>>, tokens: seq<seq<Byte>>)
    requires |gaps| == |tokens| + 1 && GapsSeparate(gaps) && AllTokens(tokens)
    ensures Tokens(Layout(gaps, tokens)) == tokens
    decreases |tokens|
  {
    if tokens == [] {
      TokensAfterGap(gaps[0], []);
      assert gaps[0] + [] == gaps[0];
    } else {
      var rest := Layout(gaps[1..], tokens[1..]);
      LayoutFront(gaps, tokens);
      assert Layout(gaps, tokens) == gaps[0] + (tokens[0] + rest);
      TokensAfterGap(gaps[0], tokens[0] + rest);
      LayoutStartsWithGap(gaps[1..], tokens[1..]);
      TokensConcat(tokens[0], rest);
      TokensOfToken(tokens[0]);
      TokensOfLayout(gaps[1..], tokens[1..]);
    }
  }

  lemma LayoutStartsWithGap(gaps: seq<seq<Byte>>, tokens: seq<seq<Byte>>)
    requires |gaps| == |tokens| + 1
    requires IsGap(gaps[0]) && (tokens == [] || gaps[0] != [])
    ensures Layout(gaps, tokens) == [] || IsSpace(Layout(gaps, tokens)[0])
  {
    if tokens != [] {
      LayoutFront(gaps, tokens);
    }
  }

  lemma WidenFirstGap(c: Byte, inner: seq<seq<Byte>>, tokens: seq<seq<Byte>>) returns (gaps: seq<seq<Byte>>)
    requires IsSpace(c) && |inner| == |tokens| + 1 && GapsSeparate(inner)
    ensures |gaps| == |inner| && GapsSeparate(gaps)
    ensures Layout(gaps, tokens) == [c] + Layout(inner, tokens)
  {
    gaps := [[c] + inner[0]] + inner[1..];
    if tokens != [] {
      LayoutFront(inner, tokens);
      LayoutFront(gaps, tokens);
      assert gaps[1..] == inner[1..];
    }
  }

  /** Every text is a layout of its own tokens. */
  lemma {:induction false} TextIsLayout(x: seq<Byte>) returns (gaps: seq<seq<Byte>>)
    ensures AllTokens(Tokens(x)) && |gaps| == |Tokens(x)| + 1 && GapsSeparate(gaps)
    ensures Layout(gaps, Tokens(x)) == x
    decreases |x|
  {
    var tokens := Tokens(x);
    if x == [] {
      gaps := [[]];
    } else if IsSpace(x[0]) {
      var inner := TextIsLayout(x[1..]);
      gaps := WidenFirstGap(x[0], inner, tokens);
      assert x == [x[0]] + x[1..];
    } else {
      var e := WordEnd(x);
      var inner := TextIsLayout(x[e..]);
      gaps := [[]] + inner;
      assert tokens[1..] == Tokens(x[e..]) && gaps[1..] == inner;
      LayoutFront(gaps, tokens);
      assert x == x[..e] + x[e..];
      if tokens[1..] != [] {
        LayoutFront(inner, tokens[1..]);
      }
    }
  }

  lemma {:induction false} TokensOfJoin(words: seq<Word>)
    requires AllTokens(words)
    ensures Tokens(Join(words)) == words
    decreases |words|
  {
    if |words| == 1 {
      TokensOfToken(words[0]);
    } else if words != [] {
      var init, last := words[..|words| - 1], words[|words| - 1];
      TokensOfJoin(init);
      hide Tokens;
      TokenBehindSpace(Join(init), last);
      assert words == init + [last];
    }
  }

  lemma TokenBehindSpace(front: seq<Byte>, last: Word)
    requires IsToken(last)
    ensures Tokens(front + [SPACE] + last) == Tokens(front) + [last]
  {
    hide Tokens;
    TokensOfToken(last);
    TokensAfterGap([SPACE], last);
    TokensConcat(front, [SPACE] + last);
    assert front + [SPACE] + last == front + ([SPACE] + last);
  }

  // ----- list words -----

  lemma ListWordsAreTokens(ws: seq<Word>, words: seq<Word>)
    requires ValidList(ws) && AllListed(ws, words)
    ensures AllTokens(words) && FoldAll(words) == words
  {
    forall i | 0 <= i < |words| ensures IsToken(words[i]) && Fold(words[i]) == words[i] {
      assert words[i] in ws;
    }
  }

  lemma JoinLength(words: seq<Word>)
    requires forall i :: 0 <= i < |words| ==> |words[i]| <= 10
    ensures |Join(words)| <= 11 * |words|
  {
    if |words| > 1 {
      JoinLength(words[..|words| - 1]);
    }
  }

  predicate IsPhraseByte(c: Byte) {
    IsSpace(c) || IsListByte(Lower(c))
  }

  /** A text whose folded tokens are list words holds nothing but whitespace, letters and hyphens. */
  lemma {:induction false} PhraseBytes(ws: seq<Word>, x: seq<Byte>)
    requires ValidList(ws) && AllListed(ws, FoldAll(Tokens(x)))
    ensures forall i :: 0 <= i < |x| ==> IsPhraseByte(x[i])
    decreases |x|
  {
    if x != [] {
      var e := if IsSpace(x[0]) then 1 else WordEnd(x);
      var words, rest := FoldAll(Tokens(x)), FoldAll(Tokens(x[e..]));
      assert words == (if IsSpace(x[0]) then [] else [Fold(x[..e])]) + rest;
      forall w | w in rest ensures w in ws {
        assert w in words;
      }
      PhraseBytes(ws, x[e..]);
      if !IsSpace(x[0]) {
        assert words[0] == Fold(x[..e]) && words[0] in ws;
      }
      forall i | 0 <= i < |x| ensures IsPhraseByte(x[i]) {
        if i >= e {
          assert x[i] == x[e..][i - e];
        } else if !IsSpace(x[0]) {
          assert words[0][i] == Lower(x[i]) && IsListByte(words[0][i]);
        }
      }
    }
  }

  /** So the text is ASCII, and valid UTF-8 whether or not anyone checks. */
  lemma PhrasesAreAscii(ws: seq<Word>, x: seq<Byte>)
    requires ValidList(ws) && AllListed(ws, FoldAll(Tokens(x)))
    ensures Utf8.IsAscii(x) && Utf8.Valid(x)
  {
    PhraseBytes(ws, x);
    forall i | 0 <= i < |x| ensures x[i] < 0x80 {
      assert IsPhraseByte(x[i]);
    }
    Utf8.AsciiIsValid(x);
  }

  // ----- the language -----

  /** Two parsers, one language: the strict rule is the interactive one with at least seven words. */
  lemma OneLanguage(ws: seq<Word>, x: seq<Byte>, y: seq<Byte>)
    ensures Canonical(ws, x) == Some(y)
       <==> var p := Parse(ws, [], x); p.Words? && |p.words| >= PHRASE_WORDS && Join(p.words) == y
  {
    ParseAccepts(ws, [], Tokens(x));
  }

  /** A phrase of 7 to 64 distinct list words is its own canonical form. */
  lemma CanonicalOfJoin(ws: seq<Word>, words: seq<Word>)
    requires ValidList(ws) && AllListed(ws, words) && Distinct(words)
    requires PHRASE_WORDS <= |words| <= MAX_PHRASE_WORDS
    ensures Canonical(ws, Join(words)) == Some(Join(words))
  {
    ListWordsAreTokens(ws, words);
    TokensOfJoin(words);
    forall i | 0 <= i < |words| ensures |words[i]| <= 10 {
      assert words[i] in ws;
    }
    JoinLength(words);
  }

  /** Canonicalising twice changes nothing, and never changes a word or its place. */
  lemma CanonicalIsIdempotent(ws: seq<Word>, x: seq<Byte>)
    requires ValidList(ws) && Canonical(ws, x).Some?
    ensures Canonical(ws, Canonical(ws, x).value) == Canonical(ws, x)
    ensures Tokens(Canonical(ws, x).value) == FoldAll(Tokens(x))
  {
    var words := FoldAll(Tokens(x));
    CanonicalOfJoin(ws, words);
    ListWordsAreTokens(ws, words);
    TokensOfJoin(words);
  }

  /** x spells the words in some case, with some spacing. */
  ghost predicate IsVariant(x: seq<Byte>, words: seq<Word>) {
    exists gaps, tokens :: Spells(x, gaps, tokens, words)
  }

  ghost predicate Spells(x: seq<Byte>, gaps: seq<seq<Byte>>, tokens: seq<seq<Byte>>, words: seq<Word>) {
    && |gaps| == |tokens| + 1 && GapsSeparate(gaps) && AllTokens(tokens)
    && FoldAll(tokens) == words
    && x == Layout(gaps, tokens)
  }

  /** Reading tokens and folding them recovers exactly the words a text is a variant of. */
  lemma VariantReadsBack(x: seq<Byte>, words: seq<Word>)
    ensures IsVariant(x, words) <==> FoldAll(Tokens(x)) == words
  {
    if IsVariant(x, words) {
      var gaps, tokens :| Spells(x, gaps, tokens, words);
      TokensOfLayout(gaps, tokens);
    }
    if FoldAll(Tokens(x)) == words {
      var gaps := TextIsLayout(x);
      assert Spells(x, gaps, Tokens(x), words);
    }
  }

  /**
   What is accepted, and as what: exactly the variants, of at most 1024 bytes, of 7 to 64 distinct
   list words, and every variant of the same words as their one canonical phrase.
   */
  lemma AcceptsExactlyVariants(ws: seq<Word>, x: seq<Byte>, words: seq<Word>)
    requires ValidList(ws) && AllListed(ws, words) && Distinct(words)
    requires PHRASE_WORDS <= |words| <= MAX_PHRASE_WORDS && |x| <= MAX_PHRASE_BYTES
    ensures Canonical(ws, x) == Some(Join(words)) <==> IsVariant(x, words)
  {
    VariantReadsBack(x, words);
    if Canonical(ws, x) == Some(Join(words)) {
      ListWordsAreTokens(ws, words);
      TokensOfJoin(words);
      CanonicalIsIdempotent(ws, x);
    }
  }
}
