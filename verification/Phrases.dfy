/**
 The two readers of the phrase language, as loops over the input bytes: the strict one for files
 and descriptors, and the one the interactive prompts share.
 */
module Phrases {
  import opened Bytes
  import opened WordLists
  import opened PhraseGrammar
  import Utf8

  lemma SkipSpace(s: seq<Byte>, i: nat)
    requires i < |s| && IsSpace(s[i])
    ensures Tokens(s[i..]) == Tokens(s[i + 1..])
  {
    assert s[i..][1..] == s[i + 1..];
  }

  lemma TakeToken(s: seq<Byte>, start: nat, end: nat)
    requires start < end <= |s|
    requires forall k :: start <= k < end ==> !IsSpace(s[k])
    requires end < |s| ==> IsSpace(s[end])
    ensures Tokens(s[start..]) == [s[start..end]] + Tokens(s[end..])
  {
    assert s[start..] == s[start..end] + s[end..];
    WordEndOfToken(s[start..end], s[end..]);
    assert s[start..][end - start..] == s[end..];
  }

  lemma NoTokens()
    ensures Tokens([]) == []
  {
  }

  /** Advances over whitespace. */
  method SkipSpaces(s: seq<Byte>, offset: nat) returns (i: nat)
    requires offset <= |s|
    ensures offset <= i <= |s|
    ensures i < |s| ==> !IsSpace(s[i])
    ensures Tokens(s[offset..]) == Tokens(s[i..])
  {
    i := offset;
    while i < |s| && IsSpace(s[i])
      invariant offset <= i <= |s|
      invariant Tokens(s[offset..]) == Tokens(s[i..])
    {
      SkipSpace(s, i);
      i := i + 1;
    }
  }

  /** Advances over one token. */
  method SkipToken(s: seq<Byte>, start: nat) returns (i: nat)
    requires start < |s| && !IsSpace(s[start])
    ensures start < i <= |s|
    ensures Tokens(s[start..]) == [s[start..i]] + Tokens(s[i..])
  {
    i := start;
    while i < |s| && !IsSpace(s[i])
      invariant start <= i <= |s|
      invariant forall k :: start <= k < i ==> !IsSpace(s[k])
    {
      i := i + 1;
    }
    TakeToken(s, start, i);
  }

  /** The tokens of the input, or nothing as soon as there are more than the phrase may hold. */
  method SplitTokens(input: seq<Byte>) returns (r: Option<seq<seq<Byte>>>)
    ensures r == if |Tokens(input)| <= MAX_PHRASE_WORDS then Some(Tokens(input)) else None
  {
    hide Tokens;
    var tokens := [];
    var i := 0;
    assert input[0..] == input;
    while i < |input|
      invariant 0 <= i <= |input|
      invariant tokens + Tokens(input[i..]) == Tokens(input)
      invariant |tokens| <= MAX_PHRASE_WORDS
    {
      i := SkipSpaces(input, i);
      if i == |input| {
        break;
      }
      var start := i;
      i := SkipToken(input, i);
      assert tokens + ([input[start..i]] + Tokens(input[i..])) == tokens + [input[start..i]] + Tokens(input[i..]);
      tokens := tokens + [input[start..i]];
      if |tokens| > MAX_PHRASE_WORDS {
        return None;
      }
    }
    assert Tokens(input[i..]) == [] && tokens + [] == tokens by {
      NoTokens();
      assert input[i..] == [];
    }
    return Some(tokens);
  }

  method FoldToken(token: seq<Byte>) returns (lower: Word)
    ensures lower == Fold(token)
  {
    lower := [];
    for j := 0 to |token|
      invariant |lower| == j
      invariant forall k :: 0 <= k < j ==> lower[k] == Lower(token[k])
    {
      var c := token[j];
      if 0x41 <= c <= 0x5a {
        c := c + 32;
      }
      lower := lower + [c];
    }
  }

  /** Looks every folded token up by binary search and remembers the indices seen. */
  method ResolveTokens(ws: seq<Word>, tokens: seq<seq<Byte>>) returns (r: Option<seq<Word>>)
    requires ValidList(ws)
    ensures r == if AllListed(ws, FoldAll(tokens)) && Distinct(FoldAll(tokens)) then Some(FoldAll(tokens)) else None
  {
    ghost var words := FoldAll(tokens);
    var seen: set<nat> := {};
    var canonical: seq<Word> := [];
    for i := 0 to |tokens|
      invariant canonical == words[..i]
      invariant Distinct(canonical) && AllListed(ws, canonical)
      invariant forall idx :: idx in seen <==> 0 <= idx < |ws| && ws[idx] in canonical
    {
      var lower := FoldToken(tokens[i]);
      var idx := SearchStrings(ws, lower);
      SearchFindsWord(ws, lower);
      if idx == |ws| || ws[idx] != lower {
        assert words[i] !in ws;
        return None;
      }
      if idx in seen {
        var k :| 0 <= k < i && canonical[k] == ws[idx];
        assert words[k] == words[i];
        return None;
      }
      SortedIsDistinct(ws);
      seen := seen + {idx};
      canonical := canonical + [lower];
    }
    assert words[..|tokens|] == words;
    return Some(canonical);
  }

  method JoinWords(words: seq<Word>) returns (out: seq<Byte>)
    ensures out == Join(words)
  {
    out := [];
    for i := 0 to |words|
      invariant out == Join(words[..i])
    {
      if i != 0 {
        out := out + [SPACE];
      }
      out := out + words[i];
      assert words[..i + 1][..i] == words[..i];
      assert [] + words[i] == words[i];
    }
    assert words[..|words|] == words;
  }

  /** The strict reader: the canonical form, or nothing. Its UTF-8 check never decides alone. */
  method Canonicalize(ws: seq<Word>, input: seq<Byte>) returns (r: Option<seq<Byte>>)
    requires ValidList(ws)
    ensures r == Canonical(ws, input)
  {
    if AllListed(ws, FoldAll(Tokens(input))) {
      PhrasesAreAscii(ws, input);
    }
    if |input| == 0 || |input| > MAX_PHRASE_BYTES || !Utf8.Valid(input) {
      return None;
    }
    var split := SplitTokens(input);
    if split.None? || |split.value| < PHRASE_WORDS || |split.value| > MAX_PHRASE_WORDS {
      return None;
    }
    var canonical := ResolveTokens(ws, split.value);
    if canonical.None? {
      return None;
    }
    var out := JoinWords(canonical.value);
    return Some(out);
  }

  /** Linear scan for the list word a token spells. */
  method CanonicalInteractiveWord(ws: seq<Word>, token: seq<Byte>) returns (r: Option<Word>)
    requires ValidList(ws)
    ensures r == if Fold(token) in ws then Some(Fold(token)) else None
  {
    for k := 0 to |ws|
      invariant forall i :: 0 <= i < k ==> ws[i] != Fold(token)
    {
      var word := ws[k];
      if |word| == |token| {
        var match_ := true;
        var i := 0;
        while i < |token| && match_
          invariant 0 <= i <= |token|
          invariant match_ ==> forall j :: 0 <= j < i ==> word[j] == Lower(token[j])
          invariant !match_ ==> word != Fold(token)
        {
          var c := token[i];
          if 0x41 <= c <= 0x5a {
            c := c + 32;
          }
          if c >= 0x80 || c != word[i] {
            assert word in ws && IsListByte(word[i]);
            assert word[i] != Fold(token)[i];
            match_ := false;
          }
          i := i + 1;
        }
        if match_ {
          assert word == Fold(token);
          return Some(word);
        }
      }
    }
    return None;
  }

  /** The interactive reader: all tokens or none, judged against the words already committed. */
  method ParseInteractiveWords(ws: seq<Word>, input: seq<Byte>, committed: seq<Word>) returns (r: Parsed)
    requires ValidList(ws)
    ensures r == Parse(ws, committed, input)
  {
    if |input| > MAX_PHRASE_BYTES {
      return Rejected(TooLong);
    }
    hide ParseTokens, Tokens;
    var seen := set w | w in committed;
    var parsed: seq<Word> := [];
    var offset := 0;
    ghost var whole := ParseTokens(ws, committed, Tokens(input));
    StartVerdict(ws, committed, input);
    while offset < |input|
      invariant 0 <= offset <= |input|
      invariant forall w :: w in seen <==> w in committed + parsed
      invariant Continues(whole, parsed, ParseTokens(ws, committed + parsed, Tokens(input[offset..])))
    {
      offset := SkipSpaces(input, offset);
      if offset == |input| {
        break;
      }
      var start := offset;
      offset := SkipToken(input, offset);
      NextVerdict(whole, ws, committed, parsed, input[start..offset], Tokens(input[offset..]));
      if |committed| + |parsed| >= MAX_PHRASE_WORDS {
        return Rejected(TooMany);
      }
      var word := CanonicalInteractiveWord(ws, input[start..offset]);
      if word.None? {
        return Rejected(Invalid);
      }
      if word.value in seen {
        return Rejected(Duplicate);
      }
      seen := seen + {word.value};
      parsed := parsed + [word.value];
    }
    EndVerdict(whole, ws, committed, parsed, input[offset..]);
    return Words(parsed);
  }

  /** The whole verdict is the words parsed so far followed by the verdict on the rest. */
  ghost predicate Continues(whole: Parsed, parsed: seq<Word>, rest: Parsed) {
    whole == match rest
             case Words(words) => Words(parsed + words)
             case Rejected(issue) => Rejected(issue)
  }

  lemma StartVerdict(ws: seq<Word>, committed: seq<Word>, input: seq<Byte>)
    ensures Continues(ParseTokens(ws, committed, Tokens(input)), [],
                      ParseTokens(ws, committed + [], Tokens(input[0..])))
  {
    assert input[0..] == input && committed + [] == committed;
    var verdict := ParseTokens(ws, committed, Tokens(input));
    if verdict.Words? {
      assert [] + verdict.words == verdict.words;
    }
  }

  lemma NextVerdict(whole: Parsed, ws: seq<Word>, committed: seq<Word>, parsed: seq<Word>,
                    token: seq<Byte>, rest: seq<seq<Byte>>)
    requires Continues(whole, parsed, ParseTokens(ws, committed + parsed, [token] + rest))
    ensures var w := Fold(token);
            if |committed| + |parsed| >= MAX_PHRASE_WORDS then whole == Rejected(TooMany)
            else if w !in ws then whole == Rejected(Invalid)
            else if w in committed + parsed then whole == Rejected(Duplicate)
            else Continues(whole, parsed + [w], ParseTokens(ws, committed + (parsed + [w]), rest))
  {
    var w := Fold(token);
    assert ([token] + rest)[1..] == rest;
    assert committed + parsed + [w] == committed + (parsed + [w]);
    var verdict := ParseTokens(ws, committed + (parsed + [w]), rest);
    if verdict.Words? {
      assert parsed + ([w] + verdict.words) == parsed + [w] + verdict.words;
    }
  }

  lemma EndVerdict(whole: Parsed, ws: seq<Word>, committed: seq<Word>, parsed: seq<Word>, rest: seq<Byte>)
    requires rest == [] && Continues(whole, parsed, ParseTokens(ws, committed + parsed, Tokens(rest)))
    ensures whole == Words(parsed)
  {
    assert parsed + [] == parsed;
  }

  /** Both readers accept the same phrases and turn them into the same bytes. */
  method ReadBothWays(ws: seq<Word>, input: seq<Byte>) returns (strict: Option<seq<Byte>>, interactive: Parsed)
    requires ValidList(ws)
    ensures strict.Some? <==> interactive.Words? && |interactive.words| >= PHRASE_WORDS
    ensures strict.Some? ==> strict.value == Join(interactive.words)
  {
    strict := Canonicalize(ws, input);
    interactive := ParseInteractiveWords(ws, input, []);
    ParseAccepts(ws, [], Tokens(input));
  }
}
