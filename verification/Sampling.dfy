/**
 Drawing a fresh phrase: 16-bit draws, rejection of the ones that would bias an index, redraws on
 collision. Randomness is an arbitrary stream of draws; a run that outlives its stream yields
 nothing. Beside what a run computes stands how many streams lead to each result.
 */
module Sampling {
  import opened Bytes
  import opened WordLists
  import PhraseGrammar

  const RANGE := 65536

  type Draw = d: int | 0 <= d < RANGE

  /** The largest multiple of the list's size that 16 bits can hold. */
  function Limit(count: int): int
    requires 1 <= count <= RANGE
  {
    RANGE / count * count
  }

  // ----- what a stream of draws means -----

  /** The distinct indices of the accepted draws, in order of first appearance. */
  function Found(count: int, draws: seq<Draw>): (r: seq<nat>)
    requires 1 <= count <= RANGE
    ensures forall i :: 0 <= i < |r| ==> r[i] < count
  {
    if draws == [] then []
    else
      var before := Found(count, draws[..|draws| - 1]);
      var d := draws[|draws| - 1];
      if d < Limit(count) && d % count !in before then before + [d % count] else before
  }

  function Outcome(count: int, n: nat, draws: seq<Draw>): Option<seq<nat>>
    requires 1 <= count <= RANGE
  {
    var found := Found(count, draws);
    if |found| < n then None else Some(found[..n])
  }

  lemma {:induction false} FoundGrows(count: int, draws: seq<Draw>, k: nat)
    requires 1 <= count <= RANGE && k <= |draws|
    ensures Found(count, draws[..k]) <= Found(count, draws)
  {
    if k < |draws| {
      var init := draws[..|draws| - 1];
      FoundGrows(count, init, k);
      assert init[..k] == draws[..k];
    } else {
      assert draws[..k] == draws;
    }
  }

  /** Nothing is found twice, nothing accepted is missed, nothing else is found. */
  lemma {:induction false} FoundMeaning(count: int, draws: seq<Draw>, v: nat)
    requires 1 <= count <= RANGE
    ensures Distinct(Found(count, draws))
    ensures v in Found(count, draws)
       <==> exists k :: 0 <= k < |draws| && draws[k] < Limit(count) && draws[k] % count == v
  {
    if draws != [] {
      var init := draws[..|draws| - 1];
      FoundMeaning(count, init, v);
      if k :| 0 <= k < |init| && init[k] < Limit(count) && init[k] % count == v {
        assert draws[k] == init[k];
      }
      if k :| 0 <= k < |draws| && draws[k] < Limit(count) && draws[k] % count == v {
        assert k < |init| ==> init[k] == draws[k];
      }
    }
  }

  lemma {:induction false} RejectedAddNothing(count: int, draws: seq<Draw>, from: nat, to: nat)
    requires 1 <= count <= RANGE && from <= to <= |draws|
    requires forall k :: from <= k < to ==> draws[k] >= Limit(count)
    ensures Found(count, draws[..to]) == Found(count, draws[..from])
  {
    if from < to {
      RejectedAddNothing(count, draws, from, to - 1);
      assert draws[..to][..to - 1] == draws[..to - 1];
    }
  }

  /** The accepted draw behind rejected ones is the next index, unless it is a repeat. */
  lemma AcceptedAddsOne(count: int, draws: seq<Draw>, from: nat, next: nat)
    requires 1 <= count <= RANGE && from < next <= |draws|
    requires forall k :: from <= k < next - 1 ==> draws[k] >= Limit(count)
    requires draws[next - 1] < Limit(count)
    ensures var v := draws[next - 1] % count; var before := Found(count, draws[..from]);
            Found(count, draws[..next]) == if v in before then before else before + [v]
    ensures Found(count, draws[..next - 1]) == Found(count, draws[..from])
  {
    RejectedAddNothing(count, draws, from, next - 1);
    assert draws[..next][..next - 1] == draws[..next - 1];
  }

  /** A draw is accepted exactly when the whole block of draws it stands in fits the range. */
  lemma AcceptedDraws(count: int, d: Draw)
    requires 1 <= count <= 65536
    ensures d < Limit(count) <==> d - d % count + count <= 65536
  {
    BlockBelow(count, d / count, RANGE / count);
    assert d == d / count * count + d % count && RANGE == RANGE / count * count + RANGE % count;
  }

  lemma BlockBelow(count: int, block: int, blocks: int)
    requires count > 0
    ensures block < blocks ==> block * count + count <= blocks * count
    ensures block >= blocks ==> block * count >= blocks * count
  {
    if block < blocks {
      assert (blocks - block - 1) * count >= 0;
    } else {
      assert (block - blocks) * count >= 0;
    }
  }

  // ----- the sampler -----

  /** Reads draws from position `at` until one is below the limit. */
  method Index(count: int, draws: seq<Draw>, at: nat) returns (v: Option<nat>, next: nat)
    requires 1 <= count <= RANGE && at <= |draws|
    ensures at <= next <= |draws|
    ensures v.None? ==> forall k :: at <= k < |draws| ==> draws[k] >= Limit(count)
    ensures v.Some? ==> at < next && draws[next - 1] < Limit(count) && v.value == draws[next - 1] % count
    ensures v.Some? ==> forall k :: at <= k < next - 1 ==> draws[k] >= Limit(count)
  {
    next := at;
    while next < |draws|
      invariant at <= next <= |draws|
      invariant forall k :: at <= k < next ==> draws[k] >= Limit(count)
    {
      var d := draws[next];
      next := next + 1;
      if d < Limit(count) {
        return Some(d % count), next;
      }
    }
    v := None;
  }

  function Picked(ws: seq<Word>, idx: seq<nat>): (r: seq<Word>)
    requires forall i :: 0 <= i < |idx| ==> idx[i] < |ws|
    ensures |r| == |idx| && forall i :: 0 <= i < |r| ==> r[i] == ws[idx[i]]
  {
    seq(|idx|, i requires 0 <= i < |idx| => ws[idx[i]])
  }

  lemma {:induction false} JoinGrows(words: seq<Word>, k: nat)
    requires k <= |words|
    ensures PhraseGrammar.Join(words[..k]) <= PhraseGrammar.Join(words)
  {
    if k < |words| {
      var init := words[..|words| - 1];
      JoinGrows(init, k);
      assert init[..k] == words[..k];
      assert PhraseGrammar.Join(init) <= PhraseGrammar.Join(words);
    } else {
      assert words[..k] == words;
    }
  }

  /** One more word costs its own bytes and, behind a first one, a space. */
  lemma JoinStep(words: seq<Word>, i: nat)
    requires i < |words|
    ensures PhraseGrammar.Join(words[..i + 1])
         == PhraseGrammar.Join(words[..i]) + (if i > 0 then [SPACE] else []) + words[i]
  {
    assert words[..i + 1][..i] == words[..i];
  }

  method CopyAt(out: array<Byte>, at: nat, word: Word)
    requires at + |word| <= out.Length
    modifies out
    ensures out[..at + |word|] == old(out[..at]) + word
  {
    for k := 0 to |word|
      invariant forall j :: 0 <= j < at ==> out[j] == old(out[j])
      invariant forall j :: 0 <= j < k ==> out[at + j] == word[j]
    {
      out[at + k] := word[k];
    }
  }

  /** The space needed, computed before anything is written. */
  method JoinedSize(words: seq<Word>) returns (size: nat)
    requires |words| > 0
    ensures size == |PhraseGrammar.Join(words)|
  {
    size := |words| - 1;
    for i := 0 to |words|
      invariant size == |words| - 1 - (if i == 0 then 0 else i - 1) + |PhraseGrammar.Join(words[..i])|
    {
      size := size + |words[i]|;
      JoinStep(words, i);
    }
    assert words[..|words|] == words;
  }

  /** The words in a buffer of exactly their joined size, which is never grown. */
  method SpellOut(words: seq<Word>) returns (out: array<Byte>)
    requires |words| > 0
    ensures fresh(out) && out[..] == PhraseGrammar.Join(words)
  {
    var size := JoinedSize(words);
    out := new Byte[size];
    var at: nat := 0;
    for i := 0 to |words|
      invariant at <= size && out[..at] == PhraseGrammar.Join(words[..i])
    {
      JoinStep(words, i);
      JoinGrows(words, i + 1);
      if i > 0 {
        CopyAt(out, at, [SPACE]);
        at := at + 1;
      }
      CopyAt(out, at, words[i]);
      at := at + |words[i]|;
    }
    assert words[..|words|] == words;
    assert out[..at] == out[..];
  }

  method ZeroIndices(idx: array<nat>)
    modifies idx
    ensures forall i :: 0 <= i < idx.Length ==> idx[i] == 0
  {
    for i := 0 to idx.Length
      invariant forall k :: 0 <= k < i ==> idx[k] == 0
    {
      idx[i] := 0;
    }
  }

  datatype Generated = Phrase(bytes: array<Byte>) | OutOfRange | NoRandomness

  /** The n words of the first n distinct accepted draws; reading stops at the draw that completes them. */
  method PhraseN(ws: seq<Word>, n: int, draws: seq<Draw>) returns (r: Generated, idx: array<nat>, used: nat)
    requires 1 <= |ws| <= RANGE
    ensures used <= |draws| && fresh(idx)
    ensures r.OutOfRange? <==> n < 1 || n > |ws|
    ensures 1 <= n <= |ws| ==> (r.Phrase? <==> Outcome(|ws|, n, draws).Some?)
    ensures r.Phrase? ==> fresh(r.bytes) && 1 <= n && Outcome(|ws|, n, draws).Some?
                          && r.bytes[..] == PhraseGrammar.Join(Picked(ws, Outcome(|ws|, n, draws).value))
    ensures r.Phrase? ==> used > 0 && |Found(|ws|, draws[..used])| == n && |Found(|ws|, draws[..used - 1])| == n - 1
    ensures 1 <= n <= |ws| ==> idx.Length == n
    ensures r.Phrase? ==> forall i :: 0 <= i < idx.Length ==> idx[i] == 0
  {
    used := 0;
    if n < 1 || n > |ws| {
      idx := new nat[0];
      return OutOfRange, idx, used;
    }
    var ok;
    idx, ok, used := DrawIndices(|ws|, n, draws);
    if !ok {
      return NoRandomness, idx, used;
    }
    FoundGrows(|ws|, draws, used);
    hide Found, PhraseGrammar.Join;
    assert idx[..] == Found(|ws|, draws)[..n];
    var out := SpellAndZero(ws, idx);
    r := Phrase(out);
  }

  /** The phrase the indices stand for; the indices themselves are zeroed. */
  method SpellAndZero(ws: seq<Word>, idx: array<nat>) returns (out: array<Byte>)
    requires idx.Length > 0 && forall i :: 0 <= i < idx.Length ==> idx[i] < |ws|
    modifies idx
    ensures fresh(out) && out[..] == PhraseGrammar.Join(Picked(ws, old(idx[..])))
    ensures forall i :: 0 <= i < idx.Length ==> idx[i] == 0
  {
    var words := PickWords(ws, idx);
    out := SpellOut(words);
    ZeroIndices(idx);
  }

  /** Draws until n distinct indices are held, drawing again on every collision. */
  method DrawIndices(count: int, n: nat, draws: seq<Draw>) returns (idx: array<nat>, ok: bool, used: nat)
    requires 1 <= n <= count <= RANGE
    ensures fresh(idx) && idx.Length == n && used <= |draws|
    ensures ok <==> |Found(count, draws)| >= n
    ensures ok ==> idx[..] == Found(count, draws[..used])
    ensures ok ==> used > 0 && |Found(count, draws[..used - 1])| == n - 1
  {
    assert Found(count, draws[..0]) == [];
    hide Limit, Found;
    idx := new nat[n](_ => 0);
    var len: nat := 0;
    used := 0;
    while len < n
      invariant len <= n && used <= |draws|
      invariant idx[..len] == Found(count, draws[..used])
      invariant len == n ==> used > 0 && |Found(count, draws[..used - 1])| == n - 1
      decreases |draws| - used
    {
      var v, next := Index(count, draws, used);
      if v.None? {
        RejectedAddNothing(count, draws, used, |draws|);
        assert draws[..|draws|] == draws;
        return idx, false, used;
      }
      AcceptedAddsOne(count, draws, used, next);
      used := next;
      var seen := Contains(idx, len, v.value);
      if !seen {
        idx[len] := v.value;
        len := len + 1;
      }
    }
    FoundGrows(count, draws, used);
    assert idx[..len] == idx[..];
    ok := true;
  }

  method Contains(idx: array<nat>, len: nat, v: nat) returns (seen: bool)
    requires len <= idx.Length
    ensures seen <==> v in idx[..len]
  {
    for i := 0 to len
      invariant v !in idx[..i]
    {
      if idx[i] == v {
        assert idx[..len][i] == v;
        return true;
      }
    }
    seen := false;
  }

  method PickWords(ws: seq<Word>, idx: array<nat>) returns (words: seq<Word>)
    requires forall i :: 0 <= i < idx.Length ==> idx[i] < |ws|
    ensures words == Picked(ws, idx[..])
  {
    words := [];
    for i := 0 to idx.Length
      invariant |words| == i && forall k :: 0 <= k < i ==> words[k] == ws[idx[k]]
    {
      words := words + [ws[idx[i]]];
    }
  }

  /** Every phrase the sampler makes, at any length a phrase may have, is accepted as it stands. */
  lemma GeneratedIsCanonical(ws: seq<Word>, n: nat, draws: seq<Draw>)
    requires ValidList(ws) && 1 <= |ws| <= RANGE
    requires PhraseGrammar.PHRASE_WORDS <= n <= PhraseGrammar.MAX_PHRASE_WORDS && Outcome(|ws|, n, draws).Some?
    ensures var phrase := PhraseGrammar.Join(Picked(ws, Outcome(|ws|, n, draws).value));
            PhraseGrammar.Canonical(ws, phrase) == Some(phrase)
  {
    hide PhraseGrammar.Join, PhraseGrammar.Canonical;
    var idx := Outcome(|ws|, n, draws).value;
    var words := Picked(ws, idx);
    FoundMeaning(|ws|, draws, 0);
    forall i, j | 0 <= i < j < |words| ensures words[i] != words[j] {
      assert idx[i] != idx[j];
      NoRepeats(ws, idx[i], idx[j]);
    }
    PhraseGrammar.CanonicalOfJoin(ws, words);
  }

  lemma NoRepeats(ws: seq<Word>, i: nat, j: nat)
    requires ValidList(ws) && i < |ws| && j < |ws| && i != j
    ensures ws[i] != ws[j]
  {
  }

  // ----- how many draws give one index -----

  lemma Divides(count: int, q: int, v: int)
    requires 1 <= count && 0 <= q && 0 <= v < count
    ensures (q * count + v) / count == q && (q * count + v) % count == v
  {
    var d := q * count + v;
    OneQuotient(count, d / count, q, d % count, v);
  }

  /** Division with remainder has one answer. */
  lemma OneQuotient(count: int, p: int, q: int, r: int, v: int)
    requires 0 <= r < count && 0 <= v < count && p * count + r == q * count + v
    ensures p == q && r == v
  {
    NextMultiple(count, p, q);
    NextMultiple(count, q, p);
  }

  lemma NextMultiple(count: int, p: int, q: int)
    requires 0 < count
    ensures p < q ==> p * count + count <= q * count
  {
    if p < q {
      var gap := q - p - 1;
      assert gap * count >= 0;
      assert q * count == (p + 1 + gap) * count == p * count + count + gap * count;
    }
  }

  /** The draws q * count + v with q < k. */
  ghost function DrawsBelow(count: int, v: int, k: nat): set<int> {
    if k == 0 then {} else DrawsBelow(count, v, k - 1) + {(k - 1) * count + v}
  }

  lemma {:induction false} DrawsBelowMeaning(count: int, v: int, k: nat, d: int)
    requires 1 <= count && 0 <= v < count
    ensures d in DrawsBelow(count, v, k) <==> 0 <= d < k * count && d % count == v
  {
    if k > 0 {
      var floor := (k - 1) * count;
      assert k * count == floor + count;
      assert floor >= 0;
      DrawsBelowMeaning(count, v, k - 1, d);
      if floor <= d < floor + count {
        Divides(count, k - 1, d - floor);
      }
    }
  }

  lemma {:induction false} DrawsBelowSize(count: int, v: int, k: nat)
    requires 1 <= count && 0 <= v < count
    ensures |DrawsBelow(count, v, k)| == k
  {
    if k > 0 {
      DrawsBelowSize(count, v, k - 1);
      DrawsBelowMeaning(count, v, k - 1, (k - 1) * count + v);
    }
  }

  ghost function DrawsFor(count: int, v: int): set<Draw>
    requires 1 <= count <= RANGE && 0 <= v < count
  {
    set d: Draw | 0 <= d < RANGE && d < Limit(count) && d % count == v
  }

  /** No index is favoured: each has the same number of accepted draws, the most that 16 bits allow. */
  lemma IndexIsUniform(count: int, v: int)
    requires 1 <= count <= RANGE && 0 <= v < count
    ensures |DrawsFor(count, v)| == RANGE / count
  {
    var k := RANGE / count;
    LimitFits(count);
    hide Limit;
    DrawsForAreBelow(count, v, k);
    DrawsBelowSize(count, v, k);
  }

  lemma LimitFits(count: int)
    requires 1 <= count <= RANGE
    ensures RANGE / count >= 0 && Limit(count) == RANGE / count * count <= RANGE
  {
  }

  lemma DrawsForAreBelow(count: int, v: int, k: nat)
    requires 1 <= count <= RANGE && 0 <= v < count && Limit(count) == k * count <= RANGE
    ensures DrawsFor(count, v) == DrawsBelow(count, v, k)
  {
    hide Limit;
    forall d: int ensures d in DrawsBelow(count, v, k) <==> 0 <= d < Limit(count) && d % count == v {
      DrawsBelowMeaning(count, v, k, d);
    }
    var draws: set<int> := DrawsFor(count, v);
    assert draws == DrawsBelow(count, v, k);
  }

  // ----- how many strings of draws give one tuple -----

  ghost function Product(strings: set<seq<Draw>>, draws: set<Draw>): set<seq<Draw>> {
    set s, d | s in strings && d in draws :: s + [d]
  }

  lemma ProductMember(strings: set<seq<Draw>>, draws: set<Draw>, s: seq<Draw>)
    ensures s in Product(strings, draws) <==> s != [] && s[..|s| - 1] in strings && s[|s| - 1] in draws
  {
    if s != [] {
      assert s == s[..|s| - 1] + [s[|s| - 1]];
    }
    if s in Product(strings, draws) {
      var t, d :| t in strings && d in draws && s == t + [d];
      assert s[..|s| - 1] == t;
    }
  }

  lemma {:induction false} ProductOfOne(t: seq<Draw>, draws: set<Draw>)
    ensures |Product({t}, draws)| == |draws|
    decreases draws
  {
    if draws == {} {
      assert Product({t}, draws) == {};
    } else {
      var d :| d in draws;
      ProductOfOne(t, draws - {d});
      forall s ensures s in Product({t}, draws) <==> s in Product({t}, draws - {d}) + {t + [d]} {
        ProductMember({t}, draws, s);
        ProductMember({t}, draws - {d}, s);
      }
      assert Product({t}, draws) == Product({t}, draws - {d}) + {t + [d]};
      ProductMember({t}, draws - {d}, t + [d]);
    }
  }

  lemma Distribute(m: nat, n: nat)
    ensures (m + 1) * n == m * n + n
  {
  }

  lemma ProductSplits(rest: set<seq<Draw>>, t: seq<Draw>, draws: set<Draw>)
    requires t !in rest
    ensures Product(rest + {t}, draws) == Product(rest, draws) + Product({t}, draws)
    ensures Product(rest, draws) !! Product({t}, draws)
  {
    forall s
      ensures s in Product(rest + {t}, draws) <==> s in Product(rest, draws) || s in Product({t}, draws)
      ensures !(s in Product(rest, draws) && s in Product({t}, draws))
    {
      ProductMember(rest + {t}, draws, s);
      ProductMember(rest, draws, s);
      ProductMember({t}, draws, s);
    }
    hide Product;
  }

  lemma {:induction false} ProductSize(strings: set<seq<Draw>>, draws: set<Draw>)
    ensures |Product(strings, draws)| == |strings| * |draws|
    decreases strings
  {
    if strings == {} {
      assert Product(strings, draws) == {};
    } else {
      var t :| t in strings;
      var rest := strings - {t};
      ProductSize(rest, draws);
      ProductOfOne(t, draws);
      ProductSplits(rest, t, draws);
      hide Product;
      assert strings == rest + {t};
      assert |strings| == |rest| + 1;
      Distribute(|rest|, |draws|);
    }
  }

  function Power(base: nat, exponent: nat): nat {
    if exponent == 0 then 1 else Power(base, exponent - 1) * base
  }

  /** The strings whose draws are accepted and spell the tuple, one draw an index. */
  ghost function StringsFor(count: int, tuple: seq<nat>): set<seq<Draw>>
    requires 1 <= count <= RANGE && forall i :: 0 <= i < |tuple| ==> tuple[i] < count
  {
    if tuple == [] then {[]}
    else Product(StringsFor(count, tuple[..|tuple| - 1]), DrawsFor(count, tuple[|tuple| - 1]))
  }

  /** With one draw an index, the last draw finds the last index behind the others. */
  lemma LastStep(count: int, s: seq<Draw>, tuple: seq<nat>)
    requires 1 <= count <= RANGE && Distinct(tuple)
    requires s != [] && tuple != [] && |Found(count, s[..|s| - 1])| < |s|
    ensures var d := s[|s| - 1];
            |s| == |tuple| && Found(count, s) == tuple <==>
              |s| == |tuple| && Found(count, s[..|s| - 1]) == tuple[..|tuple| - 1]
              && d < Limit(count) && d % count == tuple[|tuple| - 1]
  {
    hide Limit;
    var init := tuple[..|tuple| - 1];
    assert tuple == init + [tuple[|tuple| - 1]];
    if |s| == |tuple| && Found(count, s) == tuple {
      assert Found(count, s)[..|tuple| - 1] == init;
    }
    if Found(count, s[..|s| - 1]) == init {
      assert tuple[|tuple| - 1] !in init;
    }
  }

  /** They are the strings that make the sampler return a tuple of distinct indices without any redraw. */
  lemma {:induction false} StringsForMeaning(count: int, tuple: seq<nat>, s: seq<Draw>)
    requires 1 <= count <= RANGE && forall i :: 0 <= i < |tuple| ==> tuple[i] < count
    requires Distinct(tuple)
    ensures s in StringsFor(count, tuple) <==> |s| == |tuple| && Found(count, s) == tuple
  {
    if tuple != [] {
      var init := tuple[..|tuple| - 1];
      var last := tuple[|tuple| - 1];
      ProductMember(StringsFor(count, init), DrawsFor(count, last), s);
      hide Product, Limit;
      if s != [] {
        var before := s[..|s| - 1];
        StringsForMeaning(count, init, before);
        FoundIsShort(count, before);
        LastStep(count, s, tuple);
      }
    }
  }

  lemma {:induction false} FoundIsShort(count: int, draws: seq<Draw>)
    requires 1 <= count <= RANGE
    ensures |Found(count, draws)| <= |draws|
  {
    if draws != [] {
      FoundIsShort(count, draws[..|draws| - 1]);
    }
  }

  /** No tuple is favoured among the strings without redraws. */
  lemma {:induction false} TupleIsUniform(count: int, tuple: seq<nat>)
    requires 1 <= count <= RANGE && forall i :: 0 <= i < |tuple| ==> tuple[i] < count
    ensures |StringsFor(count, tuple)| == Power(RANGE / count, |tuple|)
  {
    if tuple != [] {
      var init := tuple[..|tuple| - 1];
      var last := tuple[|tuple| - 1];
      TupleIsUniform(count, init);
      IndexIsUniform(count, last);
      ProductSize(StringsFor(count, init), DrawsFor(count, last));
    }
  }

  // ----- how many streams of any length give one tuple, rejections and redraws included -----

  /** With a single index to choose, every draw is accepted for it. */
  ghost function AllDraws(): (r: set<Draw>)
    ensures |r| == RANGE && forall d: Draw :: d in r
  {
    IndexIsUniform(1, 0);
    DrawsFor(1, 0)
  }

  ghost function AllStrings(length: nat): set<seq<Draw>> {
    if length == 0 then {[]} else Product(AllStrings(length - 1), AllDraws())
  }

  lemma {:induction false} AllStringsMeaning(length: nat, s: seq<Draw>)
    ensures s in AllStrings(length) <==> |s| == length
  {
    if length > 0 {
      ProductMember(AllStrings(length - 1), AllDraws(), s);
      if s != [] {
        AllStringsMeaning(length - 1, s[..|s| - 1]);
      }
    }
  }

  lemma {:induction false} AllStringsSize(length: nat)
    ensures |AllStrings(length)| == Power(RANGE, length)
  {
    if length > 0 {
      AllStringsSize(length - 1);
      ProductSize(AllStrings(length - 1), AllDraws());
    }
  }

  ghost function Streams(count: int, length: nat, tuple: seq<nat>): set<seq<Draw>>
    requires 1 <= count <= RANGE
  {
    set s | s in AllStrings(length) && Outcome(count, |tuple|, s) == Some(tuple)
  }

  function Swap(a: nat, b: nat, v: nat): nat {
    if v == a then b else if v == b then a else v
  }

  function SwapAll(a: nat, b: nat, s: seq<nat>): (r: seq<nat>)
    ensures |r| == |s| && forall i :: 0 <= i < |s| ==> r[i] == Swap(a, b, s[i])
  {
    seq(|s|, i requires 0 <= i < |s| => Swap(a, b, s[i]))
  }

  /** An accepted draw for one of two indices becomes the same draw for the other. */
  function SwapDraw(count: int, a: nat, b: nat, d: Draw): (r: Draw)
    requires 1 <= count <= RANGE && a < count && b < count
    ensures r < Limit(count) <==> d < Limit(count)
    ensures d < Limit(count) ==> r % count == Swap(a, b, d % count) && r / count == d / count
  {
    if d >= Limit(count) then d
    else
      SwappedFits(count, d, Swap(a, b, d % count));
      d / count * count + Swap(a, b, d % count)
  }

  lemma SwappedFits(count: int, d: Draw, v: nat)
    requires 1 <= count <= RANGE && d < Limit(count) && v < count
    ensures var r := d / count * count + v; 0 <= r < Limit(count) <= RANGE && r % count == v && r / count == d / count
  {
    QuotientFits(count, RANGE / count, d, v);
    Divides(count, d / count, v);
  }

  lemma QuotientFits(count: int, k: nat, d: nat, v: nat)
    requires 1 <= count && v < count && d < k * count
    ensures 0 <= d / count * count + v < k * count
  {
    var q := d / count;
    assert d == q * count + d % count;
    NextMultiple(count, k, q);
    NextMultiple(count, q, k);
    assert q * count >= 0;
  }

  function SwapDraws(count: int, a: nat, b: nat, draws: seq<Draw>): (r: seq<Draw>)
    requires 1 <= count <= RANGE && a < count && b < count
    ensures |r| == |draws| && forall i :: 0 <= i < |r| ==> r[i] == SwapDraw(count, a, b, draws[i])
  {
    seq(|draws|, i requires 0 <= i < |draws| => SwapDraw(count, a, b, draws[i]))
  }

  lemma SwapDrawTwice(count: int, a: nat, b: nat, d: Draw)
    requires 1 <= count <= RANGE && a < count && b < count
    ensures SwapDraw(count, a, b, SwapDraw(count, a, b, d)) == d
  {
    if d < Limit(count) {
      var e := SwapDraw(count, a, b, d);
      var f := SwapDraw(count, a, b, e);
      assert f / count == d / count && f % count == d % count;
      assert f == f / count * count + f % count;
      assert d == d / count * count + d % count;
    }
  }

  lemma SwapDrawsTwice(count: int, a: nat, b: nat, draws: seq<Draw>)
    requires 1 <= count <= RANGE && a < count && b < count
    ensures SwapDraws(count, a, b, SwapDraws(count, a, b, draws)) == draws
  {
    hide SwapDraw;
    forall i | 0 <= i < |draws| ensures SwapDraws(count, a, b, SwapDraws(count, a, b, draws))[i] == draws[i] {
      SwapDrawTwice(count, a, b, draws[i]);
    }
  }

  /** Swapping two indices in every draw swaps them in what is found. */
  lemma {:induction false} FoundSwaps(count: int, a: nat, b: nat, draws: seq<Draw>)
    requires 1 <= count <= RANGE && a < count && b < count
    ensures Found(count, SwapDraws(count, a, b, draws)) == SwapAll(a, b, Found(count, draws))
  {
    hide SwapDraw, Limit;
    if draws != [] {
      var init := draws[..|draws| - 1];
      var d := draws[|draws| - 1];
      FoundSwaps(count, a, b, init);
      assert SwapDraws(count, a, b, draws)[..|draws| - 1] == SwapDraws(count, a, b, init);
      var before := Found(count, init);
      SwapMembership(a, b, before, d % count);
      assert SwapAll(a, b, before + [d % count]) == SwapAll(a, b, before) + [Swap(a, b, d % count)];
    }
  }

  lemma SwapMembership(a: nat, b: nat, s: seq<nat>, v: nat)
    ensures Swap(a, b, v) in SwapAll(a, b, s) <==> v in s
  {
    if v in s {
      var i :| 0 <= i < |s| && s[i] == v;
      assert SwapAll(a, b, s)[i] == Swap(a, b, v);
    }
  }

  lemma StreamsSwap(count: int, length: nat, a: nat, b: nat, tuple: seq<nat>, s: seq<Draw>)
    requires 1 <= count <= RANGE && a < count && b < count
    requires s in Streams(count, length, tuple)
    ensures SwapDraws(count, a, b, s) in Streams(count, length, SwapAll(a, b, tuple))
  {
    hide SwapDraws, Found, AllStrings;
    AllStringsMeaning(length, s);
    AllStringsMeaning(length, SwapDraws(count, a, b, s));
    FoundSwaps(count, a, b, s);
    var found := Found(count, s);
    assert SwapAll(a, b, found)[..|tuple|] == SwapAll(a, b, found[..|tuple|]);
  }

  /** Sets that one involution maps into each other have one size. */
  lemma {:induction false} SameSize<T>(xs: set<T>, ys: set<T>, f: T -> T)
    requires forall x :: x in xs ==> f(x) in ys && f(f(x)) == x
    requires forall y :: y in ys ==> f(y) in xs && f(f(y)) == y
    ensures |xs| == |ys|
    decreases xs
  {
    if xs == {} {
      assert ys == {};
    } else {
      var x :| x in xs;
      var rest, others := xs - {x}, ys - {f(x)};
      forall z | z in rest ensures f(z) in others {
        assert f(f(z)) == z && f(f(x)) == x;
      }
      forall y | y in others ensures f(y) in rest {
        assert f(f(y)) == y;
      }
      SameSize(rest, others, f);
    }
  }

  lemma SwapKeepsSize(count: int, length: nat, a: nat, b: nat, tuple: seq<nat>)
    requires 1 <= count <= RANGE && a < count && b < count
    ensures |Streams(count, length, tuple)| == |Streams(count, length, SwapAll(a, b, tuple))|
  {
    hide Streams, SwapDraws;
    var swapped := SwapAll(a, b, tuple);
    assert SwapAll(a, b, swapped) == tuple;
    var f := (s: seq<Draw>) => SwapDraws(count, a, b, s);
    forall s | s in Streams(count, length, tuple) ensures f(s) in Streams(count, length, swapped) && f(f(s)) == s {
      StreamsSwap(count, length, a, b, tuple, s);
      SwapDrawsTwice(count, a, b, s);
    }
    forall s | s in Streams(count, length, swapped) ensures f(s) in Streams(count, length, tuple) && f(f(s)) == s {
      StreamsSwap(count, length, a, b, swapped, s);
      SwapDrawsTwice(count, a, b, s);
    }
    SameSize(Streams(count, length, tuple), Streams(count, length, swapped), f);
  }

  ghost predicate IsTuple(count: int, tuple: seq<nat>) {
    Distinct(tuple) && forall i :: 0 <= i < |tuple| ==> tuple[i] < count
  }

  /**
   The sampler is exactly uniform over whole runs: among the streams of any one length, rejected
   draws and redraws included, every tuple of distinct indices is the result of equally many.
   */
  lemma RunsAreUniform(count: int, length: nat, t: seq<nat>, u: seq<nat>)
    requires 1 <= count <= RANGE && IsTuple(count, t) && IsTuple(count, u) && |t| == |u|
    ensures |Streams(count, length, t)| == |Streams(count, length, u)|
  {
    AgreeFrom(count, length, t, u, 0);
  }

  lemma {:induction false} AgreeFrom(count: int, length: nat, t: seq<nat>, u: seq<nat>, k: nat)
    requires 1 <= count <= RANGE && IsTuple(count, t) && IsTuple(count, u) && |t| == |u|
    requires k <= |t| && t[..k] == u[..k]
    ensures |Streams(count, length, t)| == |Streams(count, length, u)|
    decreases |t| - k
  {
    hide Streams;
    if k == |t| {
      assert t == t[..k] && u == u[..k];
    } else {
      var next := SwapAll(t[k], u[k], t);
      forall i | 0 <= i < k ensures next[i] == u[i] {
        assert t[..k][i] == t[i] && u[..k][i] == u[i];
      }
      assert next[k] == u[k];
      assert next[..k + 1] == u[..k + 1];
      SwapKeepsSize(count, length, t[k], u[k], t);
      AgreeFrom(count, length, next, u, k + 1);
    }
  }
}
