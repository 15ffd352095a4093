/**
 The candidates of a prefix by a plain scan of the list, their longest common prefix, and the
 count the binary-search index must agree with.
 */
module Completion {
  import opened Bytes
  import opened WordLists

  /** The uncommitted list words with prefix p, in list order. */
  function Candidates(ws: seq<Word>, committed: seq<Word>, p: seq<Byte>): (cs: seq<Word>)
    ensures forall w :: w in cs <==> w in ws && p <= w && w !in committed
  {
    if ws == [] then []
    else (if p <= ws[0] && ws[0] !in committed then [ws[0]] else []) + Candidates(ws[1..], committed, p)
  }

  lemma CandidatesDistinct(ws: seq<Word>, committed: seq<Word>, p: seq<Byte>)
    requires Distinct(ws)
    ensures Distinct(Candidates(ws, committed, p))
  {
    if ws != [] {
      CandidatesDistinct(ws[1..], committed, p);
      assert ws[0] !in ws[1..];
    }
  }

  lemma CandidatesAppend(a: seq<Word>, b: seq<Word>, committed: seq<Word>, p: seq<Byte>)
    ensures Candidates(a + b, committed, p) == Candidates(a, committed, p) + Candidates(b, committed, p)
  {
    if a == [] {
      assert a + b == b;
    } else {
      assert (a + b)[1..] == a[1..] + b;
      CandidatesAppend(a[1..], b, committed, p);
    }
  }

  lemma NoCandidates(ws: seq<Word>, committed: seq<Word>, p: seq<Byte>)
    requires forall i :: 0 <= i < |ws| ==> !(p <= ws[i])
    ensures Candidates(ws, committed, p) == []
  {
  }

  lemma NoPrefixOutside(ws: seq<Word>, p: seq<Byte>, part: seq<Word>, offset: nat)
    requires Sorted(ws) && offset + |part| <= |ws| && part == ws[offset..offset + |part|]
    requires offset + |part| <= PrefixRange(ws, p).0 || PrefixRange(ws, p).1 <= offset
    ensures forall i :: 0 <= i < |part| ==> !(p <= part[i])
  {
    forall i | 0 <= i < |part| ensures !(p <= part[i]) {
      PrefixRangeExact(ws, p, offset + i);
    }
  }

  /** Scanning the index range alone finds every candidate. */
  lemma CandidatesInRange(ws: seq<Word>, committed: seq<Word>, p: seq<Byte>)
    requires Sorted(ws)
    ensures Candidates(ws, committed, p)
         == Candidates(ws[PrefixRange(ws, p).0..PrefixRange(ws, p).1], committed, p)
  {
    hide PrefixRange, Candidates;
    var (lo, hi) := PrefixRange(ws, p);
    var below, inside, above := ws[..lo], ws[lo..hi], ws[hi..];
    assert ws == below + inside + above;
    CandidatesAppend(below + inside, above, committed, p);
    CandidatesAppend(below, inside, committed, p);
    NoPrefixOutside(ws, p, below, 0);
    NoPrefixOutside(ws, p, above, hi);
    NoCandidates(below, committed, p);
    NoCandidates(above, committed, p);
    assert [] + Candidates(inside, committed, p) + [] == Candidates(inside, committed, p);
  }

  function WithPrefix(committed: seq<Word>, p: seq<Byte>): (r: seq<Word>)
    ensures forall w :: w in r <==> w in committed && p <= w
  {
    if committed == [] then []
    else
      var n := |committed| - 1;
      WithPrefix(committed[..n], p) + if p <= committed[n] then [committed[n]] else []
  }

  lemma WithPrefixDistinct(committed: seq<Word>, p: seq<Byte>)
    requires Distinct(committed)
    ensures Distinct(WithPrefix(committed, p))
  {
    if committed != [] {
      WithPrefixDistinct(committed[..|committed| - 1], p);
      assert committed[|committed| - 1] !in committed[..|committed| - 1];
    }
  }

  /** The index's count: range length minus the committed words in it is the number of candidates. */
  lemma CountByIndex(ws: seq<Word>, committed: seq<Word>, p: seq<Byte>)
    requires Sorted(ws) && Distinct(committed) && forall w :: w in committed ==> w in ws
    ensures var r := PrefixRange(ws, p);
            |Candidates(ws, committed, p)| == r.1 - r.0 - |WithPrefix(committed, p)|
  {
    var (lo, hi) := PrefixRange(ws, p);
    var all, taken, free := ws[lo..hi], WithPrefix(committed, p), Candidates(ws, committed, p);
    SortedIsDistinct(ws);
    WithPrefixDistinct(committed, p);
    CandidatesDistinct(ws, committed, p);
    DistinctCardinality(all);
    DistinctCardinality(taken);
    DistinctCardinality(free);
    forall w ensures w in ToSet(all) <==> w in ws && p <= w {
      RangeMembers(ws, p, w);
    }
    assert ToSet(free) == ToSet(all) - ToSet(taken);
    assert ToSet(taken) <= ToSet(all);
  }

  lemma RangeMembers(ws: seq<Word>, p: seq<Byte>, w: Word)
    requires Sorted(ws)
    ensures w in ws[PrefixRange(ws, p).0..PrefixRange(ws, p).1] <==> w in ws && p <= w
  {
    hide PrefixRange, Sorted;
    var (lo, hi) := PrefixRange(ws, p);
    if w in ws && p <= w {
      var i :| 0 <= i < |ws| && ws[i] == w;
      PrefixRangeExact(ws, p, i);
      assert ws[lo..hi][i - lo] == w;
    }
    if w in ws[lo..hi] {
      var k :| 0 <= k < hi - lo && ws[lo..hi][k] == w;
      PrefixRangeExact(ws, p, lo + k);
      assert ws[lo + k] == w;
    }
  }

  /** On a prefix-free list a whole word has itself as its only candidate. */
  lemma WholeWordIsUnique(ws: seq<Word>, committed: seq<Word>, w: Word)
    requires ValidList(ws) && w in ws
    ensures Candidates(ws, committed, w) == if w in committed then [] else [w]
  {
    var cs := Candidates(ws, committed, w);
    SortedIsDistinct(ws);
    CandidatesDistinct(ws, committed, w);
    DistinctCardinality(cs);
    forall x | x in cs ensures x == w {
      var i :| 0 <= i < |ws| && ws[i] == w;
      var j :| 0 <= j < |ws| && ws[j] == x;
      assert ws[i] <= ws[j];
    }
    if cs != [] {
      assert cs[0] in cs;
      assert ToSet(cs) == {w};
    }
  }

  // ----- longest common prefix -----

  function CommonPrefix(a: seq<Byte>, b: seq<Byte>): (c: seq<Byte>)
    ensures c <= a && c <= b
  {
    if a == [] || b == [] || a[0] != b[0] then [] else [a[0]] + CommonPrefix(a[1..], b[1..])
  }

  lemma CommonPrefixIsLongest(a: seq<Byte>, b: seq<Byte>, q: seq<Byte>)
    requires q <= a && q <= b
    ensures q <= CommonPrefix(a, b)
  {
    if q != [] {
      CommonPrefixIsLongest(a[1..], b[1..], q[1..]);
      assert q == [q[0]] + q[1..];
    }
  }

  ghost predicate PrefixOfAll(q: seq<Byte>, cs: seq<Word>) {
    forall i :: 0 <= i < |cs| ==> q <= cs[i]
  }

  /** Longest common prefix of the candidates; an empty set leaves the prefix alone. */
  function LongestCommonPrefix(cs: seq<Word>, p: seq<Byte>): (l: seq<Byte>)
    ensures PrefixOfAll(l, cs)
  {
    if cs == [] then p
    else if |cs| == 1 then cs[0]
    else CommonPrefix(LongestCommonPrefix(cs[..|cs| - 1], p), cs[|cs| - 1])
  }

  lemma {:induction false} LongestIsLongest(cs: seq<Word>, p: seq<Byte>, q: seq<Byte>)
    requires cs != [] && PrefixOfAll(q, cs)
    ensures q <= LongestCommonPrefix(cs, p)
  {
    if |cs| > 1 {
      LongestIsLongest(cs[..|cs| - 1], p, q);
      CommonPrefixIsLongest(LongestCommonPrefix(cs[..|cs| - 1], p), cs[|cs| - 1], q);
    }
  }

  /** Completing to the common prefix keeps the candidate set, and doing it again changes nothing. */
  lemma CommonPrefixKeepsCandidates(ws: seq<Word>, committed: seq<Word>, p: seq<Byte>)
    ensures var cs := Candidates(ws, committed, p);
            var l := LongestCommonPrefix(cs, p);
            && p <= l
            && Candidates(ws, committed, l) == cs
            && LongestCommonPrefix(Candidates(ws, committed, l), l) == l
  {
    var cs := Candidates(ws, committed, p);
    var l := LongestCommonPrefix(cs, p);
    forall i | 0 <= i < |cs| ensures p <= cs[i] {
      assert cs[i] in cs;
    }
    if cs != [] {
      LongestIsLongest(cs, p, p);
      LongestIgnoresDefault(cs, p, l);
    }
    SameCandidates(ws, committed, p, l);
  }

  lemma {:induction false} SameCandidates(ws: seq<Word>, committed: seq<Word>, p: seq<Byte>, l: seq<Byte>)
    requires p <= l && PrefixOfAll(l, Candidates(ws, committed, p))
    ensures Candidates(ws, committed, l) == Candidates(ws, committed, p)
  {
    if ws != [] {
      var cs, rest := Candidates(ws, committed, p), Candidates(ws[1..], committed, p);
      var kept := p <= ws[0] && ws[0] !in committed;
      assert cs == (if kept then [ws[0]] else []) + rest;
      forall i | 0 <= i < |rest| ensures l <= rest[i] {
        assert rest[i] == cs[if kept then i + 1 else i];
      }
      assert kept ==> cs[0] == ws[0];
      SameCandidates(ws[1..], committed, p, l);
      assert l <= ws[0] ==> p <= ws[0];
    }
  }

  lemma LongestIgnoresDefault(cs: seq<Word>, p: seq<Byte>, q: seq<Byte>)
    requires cs != []
    ensures LongestCommonPrefix(cs, p) == LongestCommonPrefix(cs, q)
  {
    if |cs| > 1 {
      LongestIgnoresDefault(cs[..|cs| - 1], p, q);
    }
  }
}
