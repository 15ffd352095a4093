/**
 The phrase rules in the bytes and numbers of the interface: what separates and folds words, which
 texts are phrases, the exact shape of a canonical one, and the complaint each refused text gets.
 */
module PhraseMeaning {
  import opened Bytes
  import opened WordLists
  import opened Completion
  import opened PhraseGrammar

  // ----- order of the list -----

  /** Bytewise: a proper prefix comes first, and otherwise the first difference decides. */
  ghost predicate ComesBefore(a: Word, b: Word) {
    || (|a| < |b| && a == b[..|a|])
    || exists k :: DiffersAt(a, b, k)
  }

  predicate DiffersAt(a: Word, b: Word, k: nat) {
    k < |a| && k < |b| && a[..k] == b[..k] && a[k] < b[k]
  }

  lemma {:induction false} OrderIsBytewise(a: Word, b: Word)
    ensures Lt(a, b) <==> ComesBefore(a, b)
    decreases |a|
  {
    if a != [] && b != [] {
      if a[0] == b[0] {
        var c, d := a[1..], b[1..];
        OrderIsBytewise(c, d);
        assert a == [a[0]] + c && b == [b[0]] + d;
        if |c| < |d| {
          assert c == d[..|c|] <==> a == b[..|a|] by { Behind(a, b, |c|); }
        }
        if k: nat :| DiffersAt(c, d, k) {
          Behind(a, b, k);
          assert DiffersAt(a, b, k + 1);
        }
        if k: nat :| DiffersAt(a, b, k) {
          assert k > 0;
          Behind(a, b, k - 1);
          assert DiffersAt(c, d, k - 1);
        }
      } else {
        assert DiffersAt(a, b, 0) <==> a[0] < b[0];
        assert forall k: nat :: k > 0 && k < |a| && k < |b| ==> a[..k][0] != b[..k][0];
        assert |a| < |b| ==> a[0] != b[..|a|][0];
      }
    }
  }

  lemma Behind(a: Word, b: Word, k: nat)
    requires a != [] && b != [] && a[0] == b[0] && k < |a| && k < |b|
    ensures a[..k + 1] == b[..k + 1] <==> a[1..][..k] == b[1..][..k]
  {
    assert a[..k + 1] == [a[0]] + a[1..][..k] && b[..k + 1] == [b[0]] + b[1..][..k];
  }

  /** The candidates stand in the order of the list. */
  lemma {:induction false} CandidatesAreInOrder(ws: seq<Word>, committed: seq<Word>, p: seq<Byte>)
    requires Sorted(ws)
    ensures Sorted(Candidates(ws, committed, p))
  {
    hide Lt;
    if ws != [] {
      CandidatesAreInOrder(ws[1..], committed, p);
      var rest := Candidates(ws[1..], committed, p);
      forall i | 0 <= i < |rest| ensures Lt(ws[0], rest[i]) {
        assert rest[i] in rest;
        var j :| 0 <= j < |ws[1..]| && ws[1..][j] == rest[i];
        assert ws[1 + j] == rest[i];
      }
    }
  }

  /** What is asked of the list, as its own test asks it. */
  lemma ListRules(ws: seq<Word>)
    ensures ValidList(ws)
       <==> && (forall w :: w in ws ==> IsLowerWord(w))
            && (forall i :: 0 < i < |ws| ==> ComesBefore(ws[i - 1], ws[i]) && !(ws[i - 1] <= ws[i]))
  {
    forall i | 0 < i < |ws| ensures Lt(ws[i - 1], ws[i]) <==> ComesBefore(ws[i - 1], ws[i]) {
      OrderIsBytewise(ws[i - 1], ws[i]);
    }
    hide Lt, ComesBefore;
    if (forall w :: w in ws ==> IsLowerWord(w))
       && forall i :: 0 < i < |ws| ==> ComesBefore(ws[i - 1], ws[i]) && !(ws[i - 1] <= ws[i]) {
      forall i | 0 <= i < |ws| ensures IsListWord(ws[i]) {
        assert ws[i] in ws;
      }
      NeighbourChecksSuffice(ws);
    }
  }

  predicate IsLowerWord(w: Word) {
    3 <= |w| <= 10 && forall i :: 0 <= i < |w| ==> 'a' as int <= w[i] <= 'z' as int || w[i] == '-' as int
  }

  // ----- bytes -----

  /** Tab, line feed, vertical tab, form feed, carriage return and space part words; nothing else does. */
  lemma WhatSeparates(c: Byte)
    ensures Tokens([c]) == if c in {0x09, 0x0a, 0x0b, 0x0c, 0x0d, 0x20} then [] else [[c]]
    ensures IsSpace(c) <==> c in {0x09, 0x0a, 0x0b, 0x0c, 0x0d, 0x20}
  {
    assert [c][1..] == [] && [c][..1] == [c];
  }

  /** ASCII capitals become small letters, byte by byte; every other byte stays. */
  lemma WhatIsFolded(token: seq<Byte>, i: nat)
    requires i < |token|
    ensures |Fold(token)| == |token|
    ensures Fold(token)[i] == if 0x41 <= token[i] <= 0x5a then token[i] + 0x20 else token[i]
  {
  }

  predicate FoldsTo(token: seq<Byte>, w: Word) {
    && |w| == |token|
    && forall i :: 0 <= i < |token| ==> w[i] == if 0x41 <= token[i] <= 0x5a then token[i] + 0x20 else token[i]
  }

  lemma FoldIsFold(token: seq<Byte>, w: Word)
    ensures FoldsTo(token, w) <==> w == Fold(token)
  {
    if FoldsTo(token, w) {
      assert forall i :: 0 <= i < |w| ==> w[i] == Fold(token)[i];
    }
  }

  // ----- which texts are phrases -----

  /** Words and tokens in step, each word the folded token, on the list, and unlike all before it. */
  predicate AreWords(ws: seq<Word>, tokens: seq<seq<Byte>>, words: seq<Word>) {
    && |words| == |tokens|
    && (forall i :: 0 <= i < |words| ==> FoldsTo(tokens[i], words[i]) && words[i] in ws)
    && forall i, j :: 0 <= i < j < |words| ==> words[i] != words[j]
  }

  lemma AreWordsMeans(ws: seq<Word>, tokens: seq<seq<Byte>>, words: seq<Word>)
    ensures AreWords(ws, tokens, words) <==> words == FoldAll(tokens) && AllListed(ws, words) && Distinct(words)
  {
    hide FoldsTo, Fold;
    forall i | 0 <= i < |words| && |words| == |tokens|
      ensures FoldsTo(tokens[i], words[i]) <==> words[i] == Fold(tokens[i])
    {
      FoldIsFold(tokens[i], words[i]);
    }
    if AreWords(ws, tokens, words) {
      assert forall i :: 0 <= i < |words| ==> words[i] == FoldAll(tokens)[i];
      forall w | w in words ensures w in ws {
        var i :| 0 <= i < |words| && words[i] == w;
      }
    }
  }

  /** Seven to sixty-four different words of the list in at most 1024 bytes, and nothing else. */
  lemma WhatIsAPhrase(ws: seq<Word>, x: seq<Byte>, y: seq<Byte>)
    ensures Canonical(ws, x) == Some(y)
       <==> exists words ::
              && AreWords(ws, Tokens(x), words)
              && |x| <= 1024 && 7 <= |words| <= 64
              && y == Join(words)
  {
    var words := FoldAll(Tokens(x));
    hide AreWords, FoldAll, Join, Tokens;
    forall w: seq<Word>
      ensures AreWords(ws, Tokens(x), w) <==> w == words && AllListed(ws, w) && Distinct(w)
    {
      AreWordsMeans(ws, Tokens(x), w);
    }
    assert Canonical(ws, x) == Some(y) ==> AreWords(ws, Tokens(x), words);
  }

  /** One 0x20 between neighbours, none at either end, and otherwise small letters and hyphens. */
  predicate IsSingleSpaced(y: seq<Byte>) {
    && (forall i :: 0 <= i < |y| ==> y[i] == 0x20 || 0x61 <= y[i] <= 0x7a || y[i] == 0x2d)
    && (y != [] ==> y[0] != 0x20 && y[|y| - 1] != 0x20)
    && forall i :: 0 < i < |y| ==> y[i - 1] != 0x20 || y[i] != 0x20
  }

  predicate Lowers(words: seq<Word>) {
    forall i :: 0 <= i < |words| ==> IsLowerWord(words[i])
  }

  lemma {:induction false} JoinIsSingleSpaced(words: seq<Word>)
    requires Lowers(words)
    ensures IsSingleSpaced(Join(words)) && (words != [] ==> Join(words) != [])
    decreases |words|
  {
    if |words| == 1 {
      assert IsLowerWord(words[0]);
    } else if words != [] {
      var init, last := words[..|words| - 1], words[|words| - 1];
      JoinIsSingleSpaced(init);
      assert IsLowerWord(last);
      SpacedOnce(Join(init), last);
    }
  }

  lemma SpacedOnce(y: seq<Byte>, w: Word)
    requires IsSingleSpaced(y) && y != [] && IsLowerWord(w)
    ensures IsSingleSpaced(y + [0x20] + w)
  {
    var z := y + [0x20] + w;
    forall i | 0 < i < |z| ensures z[i - 1] != 0x20 || z[i] != 0x20 {
      if i < |y| {
        assert z[i - 1] == y[i - 1] && z[i] == y[i];
      } else if i == |y| {
        assert z[i - 1] == y[|y| - 1];
      } else {
        assert z[i] == w[i - |y| - 1];
      }
    }
    forall i | 0 <= i < |z| ensures z[i] == 0x20 || 0x61 <= z[i] <= 0x7a || z[i] == 0x2d {
      if i < |y| {
        assert z[i] == y[i];
      } else if i > |y| {
        assert z[i] == w[i - |y| - 1];
      }
    }
    assert z[0] == y[0] && z[|z| - 1] == w[|w| - 1];
  }

  /**
   The canonical text is single-spaced lower case and its tokens are the folded tokens of the input,
   which no other text is.
   */
  lemma CanonicalShape(ws: seq<Word>, x: seq<Byte>)
    requires ValidList(ws) && Canonical(ws, x).Some?
    ensures var y := Canonical(ws, x).value;
            IsSingleSpaced(y) && AreWords(ws, Tokens(x), Tokens(y))
  {
    var words := FoldAll(Tokens(x));
    CanonicalIsIdempotent(ws, x);
    AreWordsMeans(ws, Tokens(x), words);
    forall i | 0 <= i < |words| ensures IsLowerWord(words[i]) {
      assert words[i] in words && words[i] in ws;
      var j :| 0 <= j < |ws| && ws[j] == words[i];
      assert IsListWord(ws[j]);
    }
    JoinIsSingleSpaced(words);
  }

  /** A single-spaced text is told by its tokens. */
  lemma {:induction false} ShapeIsUnique(y: seq<Byte>)
    requires IsSingleSpaced(y)
    ensures y == Join(Tokens(y))
    decreases |y|
  {
    if y != [] {
      var e := WordEnd(y);
      if e < |y| {
        var rest := BehindWord(y, e);
        ShapeIsUnique(rest);
        FirstWord(y, e, rest);
      } else {
        OneWord(y);
      }
    }
  }

  lemma OneWord(y: seq<Byte>)
    requires y != [] && WordEnd(y) == |y|
    ensures y == Join(Tokens(y))
  {
    hide Tokens;
    TokensOfToken(y);
  }

  lemma FirstWord(y: seq<Byte>, e: nat, rest: seq<Byte>)
    requires 0 < e == WordEnd(y) < |y| && y[e..] == [0x20] + rest
    requires rest != [] && !IsSpace(rest[0]) && rest == Join(Tokens(rest))
    ensures y == Join(Tokens(y))
  {
    hide Join, Tokens, WordEnd;
    TokensStart(rest);
    FirstToken(y, e, rest);
    JoinFront(y[..e], Tokens(rest));
    InParts(y, e, rest);
  }

  lemma InParts(y: seq<Byte>, e: nat, rest: seq<Byte>)
    requires e < |y| && y[e..] == [0x20] + rest
    ensures y == y[..e] + [0x20] + rest
  {
    assert y == y[..e] + y[e..];
  }

  lemma FirstToken(y: seq<Byte>, e: nat, rest: seq<Byte>)
    requires 0 < e == WordEnd(y) < |y| && y[e..] == [0x20] + rest
    ensures Tokens(y) == [y[..e]] + Tokens(rest)
  {
    assert Tokens(y) == [y[..e]] + Tokens(y[e..]);
    hide Tokens;
    TokensAfterGap([0x20], rest);
  }

  lemma BehindWord(y: seq<Byte>, e: nat) returns (rest: seq<Byte>)
    requires IsSingleSpaced(y) && e < |y| && IsSpace(y[e])
    ensures y[e..] == [0x20] + rest && IsSingleSpaced(rest) && rest != [] && !IsSpace(rest[0]) && |rest| < |y|
  {
    rest := y[e + 1..];
    assert forall i :: 0 <= i < |rest| ==> rest[i] == y[i + e + 1];
    assert y[e..] == [y[e]] + rest;
  }

  lemma TokensStart(rest: seq<Byte>)
    requires rest != [] && !IsSpace(rest[0])
    ensures Tokens(rest) != []
  {
  }

  lemma {:induction false} JoinFront(w: Word, words: seq<Word>)
    requires words != []
    ensures Join([w] + words) == w + [0x20] + Join(words)
    decreases |words|
  {
    var all := [w] + words;
    var n := |words| - 1;
    assert all[..|all| - 1] == [w] + words[..n];
    if n > 0 {
      JoinFront(w, words[..n]);
    } else {
      assert words[..n] == [] && [w] + words[..n] == [w];
    }
  }

  // ----- the complaint -----

  /** The first token at which the ones so far are no longer acceptable decides. */
  predicate FirstFault(ws: seq<Word>, seen: seq<Word>, tokens: seq<seq<Byte>>, k: nat) {
    && k < |tokens|
    && Fits(ws, seen, FoldAll(tokens[..k]))
    && !Fits(ws, seen, FoldAll(tokens[..k + 1]))
  }

  /** Up to 64 different list words with those already there. */
  predicate Fits(ws: seq<Word>, seen: seq<Word>, words: seq<Word>) {
    && (words == [] || |seen| + |words| <= 64)
    && (forall w :: w in words ==> w in ws && w !in seen)
    && forall i, j :: 0 <= i < j < |words| ==> words[i] != words[j]
  }

  function Complaint(ws: seq<Word>, before: nat, w: Word): Issue {
    if before >= 64 then TooMany else if w !in ws then Invalid else Duplicate
  }

  lemma {:induction false} FirstFaultIsReported(
    ws: seq<Word>, seen: seq<Word>, tokens: seq<seq<Byte>>, k: nat)
    requires FirstFault(ws, seen, tokens, k)
    ensures ParseTokens(ws, seen, tokens) == Rejected(Complaint(ws, |seen| + k, Fold(tokens[k])))
    decreases |tokens|
  {
    var w := Fold(tokens[0]);
    if k == 0 {
      assert FoldAll(tokens[..1]) == [w];
    } else {
      LaterFault(ws, seen, tokens, k);
      FirstFaultIsReported(ws, seen + [w], tokens[1..], k - 1);
    }
  }

  lemma LaterFault(ws: seq<Word>, seen: seq<Word>, tokens: seq<seq<Byte>>, k: nat)
    requires k > 0 && FirstFault(ws, seen, tokens, k)
    ensures var w := Fold(tokens[0]);
            |seen| < 64 && w in ws && w !in seen && FirstFault(ws, seen + [w], tokens[1..], k - 1)
  {
    var w, rest := Fold(tokens[0]), tokens[1..];
    assert FoldAll(tokens[..k]) == [w] + FoldAll(rest[..k - 1]);
    assert FoldAll(tokens[..k + 1]) == [w] + FoldAll(rest[..k]);
    hide FoldAll, Fold, Fits;
    FitsSplits(ws, seen, w, FoldAll(rest[..k - 1]));
    FitsSplits(ws, seen, w, FoldAll(rest[..k]));
  }

  lemma FitsSplits(ws: seq<Word>, seen: seq<Word>, w: Word, rest: seq<Word>)
    ensures Fits(ws, seen, [w] + rest) <==> |seen| < 64 && w in ws && w !in seen && Fits(ws, seen + [w], rest)
  {
    FitsIsAcceptable(ws, seen, [w] + rest);
    FitsIsAcceptable(ws, seen + [w], rest);
    hide Fits, Acceptable;
    AcceptableSplits(ws, seen, w, rest);
  }

  lemma FitsIsAcceptable(ws: seq<Word>, seen: seq<Word>, words: seq<Word>)
    ensures Fits(ws, seen, words) <==> Acceptable(ws, seen, words)
  {
  }

  /** Tokens that are not acceptable have such a fault. */
  lemma {:induction false} SomeFirstFault(ws: seq<Word>, seen: seq<Word>, tokens: seq<seq<Byte>>) returns (k: nat)
    requires !Fits(ws, seen, FoldAll(tokens))
    ensures FirstFault(ws, seen, tokens, k)
    decreases |tokens|
  {
    var n := |tokens| - 1;
    assert FoldAll([]) == [];
    assert tokens[..n + 1] == tokens && |tokens| > 0;
    if Fits(ws, seen, FoldAll(tokens[..n])) {
      k := n;
    } else {
      k := SomeFirstFault(ws, seen, tokens[..n]);
      assert tokens[..n][..k] == tokens[..k] && tokens[..n][..k + 1] == tokens[..k + 1];
    }
  }

  /** A text over 1024 bytes gets no closer look. */
  lemma WhatParsingReports(ws: seq<Word>, committed: seq<Word>, x: seq<Byte>, k: nat)
    ensures |x| > 1024 ==> Parse(ws, committed, x) == Rejected(TooLong)
    ensures |x| <= 1024 && FirstFault(ws, committed, Tokens(x), k) ==>
              Parse(ws, committed, x) == Rejected(Complaint(ws, |committed| + k, Fold(Tokens(x)[k])))
    ensures |x| <= 1024 && Fits(ws, committed, FoldAll(Tokens(x))) ==>
              Parse(ws, committed, x) == Words(FoldAll(Tokens(x)))
  {
    hide FoldAll, FirstFault;
    ParseAccepts(ws, committed, Tokens(x));
    if FirstFault(ws, committed, Tokens(x), k) {
      FirstFaultIsReported(ws, committed, Tokens(x), k);
    }
  }
}
