/**
 The frozen word list as a parameter: bytewise order, the assumptions its own test pins, and the
 binary-search index of the words that share a prefix.
 */
module WordLists {
  import opened Bytes

  type Word = seq<Byte>

  // ----- bytewise order of strings -----

  predicate Le(a: Word, b: Word) {
    a == [] || (b != [] && (a[0] < b[0] || (a[0] == b[0] && Le(a[1..], b[1..]))))
  }

  predicate Lt(a: Word, b: Word) {
    Le(a, b) && a != b
  }

  lemma LeTotal(a: Word, b: Word)
    ensures Le(a, b) || Le(b, a)
    ensures Le(a, b) && Le(b, a) ==> a == b
  {
    if a != [] && b != [] && a[0] == b[0] {
      LeTotal(a[1..], b[1..]);
      assert a == [a[0]] + a[1..] && b == [b[0]] + b[1..];
    }
  }

  lemma {:induction false} LeTransitive(a: Word, b: Word, c: Word)
    requires Le(a, b) && Le(b, c)
    ensures Le(a, c)
  {
    if a != [] && a[0] == b[0] && b[0] == c[0] {
      LeTransitive(a[1..], b[1..], c[1..]);
    }
  }

  lemma PrefixIsLe(p: Word, w: Word)
    requires p <= w
    ensures Le(p, w)
  {
    if p != [] {
      assert p[1..] <= w[1..];
      PrefixIsLe(p[1..], w[1..]);
    }
  }

  /** Words with prefix p are contiguous in bytewise order. */
  lemma {:induction false} PrefixIsConvex(p: Word, a: Word, b: Word)
    requires Le(p, a) && Le(a, b) && p <= b
    ensures p <= a
  {
    if p != [] {
      assert p[0] == b[0] && p[1..] <= b[1..];
      PrefixIsConvex(p[1..], a[1..], b[1..]);
      assert a == [a[0]] + a[1..] && p == [p[0]] + p[1..];
    }
  }

  // ----- what the list is assumed to satisfy -----

  predicate IsListByte(c: Byte) {
    0x61 <= c <= 0x7a || c == 0x2d
  }

  predicate IsListWord(w: Word) {
    3 <= |w| <= 10 && forall i :: 0 <= i < |w| ==> IsListByte(w[i])
  }

  ghost predicate Sorted(ws: seq<Word>) {
    forall i, j :: 0 <= i < j < |ws| ==> Lt(ws[i], ws[j])
  }

  ghost predicate PrefixFree(ws: seq<Word>) {
    forall i, j :: 0 <= i < |ws| && 0 <= j < |ws| && ws[i] <= ws[j] ==> i == j
  }

  ghost predicate ValidList(ws: seq<Word>) {
    Sorted(ws) && PrefixFree(ws) && forall i :: 0 <= i < |ws| ==> IsListWord(ws[i])
  }

  /** The checks of the list's own test, which compare neighbours only. */
  ghost predicate NeighbourChecks(ws: seq<Word>) {
    && (forall i :: 0 <= i < |ws| ==> IsListWord(ws[i]))
    && (forall i :: 0 < i < |ws| ==> Lt(ws[i - 1], ws[i]))
    && (forall i :: 0 < i < |ws| ==> !(ws[i - 1] <= ws[i]))
  }

  lemma NeighboursSort(ws: seq<Word>, i: nat, j: nat)
    requires forall k :: 0 < k < |ws| ==> Lt(ws[k - 1], ws[k])
    requires i < j < |ws|
    ensures Lt(ws[i], ws[j])
    decreases j
  {
    if i < j - 1 {
      NeighboursSort(ws, i, j - 1);
      assert Lt(ws[j - 1], ws[j]);
      LeTransitive(ws[i], ws[j - 1], ws[j]);
      LeTotal(ws[i], ws[j - 1]);
    }
  }

  /** Sortedness makes comparing neighbours enough for the whole list. */
  lemma NeighbourChecksSuffice(ws: seq<Word>)
    requires NeighbourChecks(ws)
    ensures ValidList(ws)
  {
    forall i, j | 0 <= i < j < |ws| ensures Lt(ws[i], ws[j]) {
      NeighboursSort(ws, i, j);
    }
    forall i, j | 0 <= i < |ws| && 0 <= j < |ws| && ws[i] <= ws[j] ensures i == j {
      PrefixIsLe(ws[i], ws[j]);
      if j < i {
        LeTotal(ws[i], ws[j]);
      } else if i < j {
        if i + 1 < j {
          assert Lt(ws[i + 1], ws[j]);
        }
        PrefixIsConvex(ws[i], ws[i + 1], ws[j]);
      }
    }
  }

  lemma SortedIsDistinct(ws: seq<Word>)
    requires Sorted(ws)
    ensures Distinct(ws)
  {
  }

  // ----- binary search -----

  /** Go's sort.Search on [i, j): the first index at which a monotone test holds. */
  function Search(i: nat, j: nat, f: nat -> bool): (r: nat)
    requires i <= j
    ensures i <= r <= j
    decreases j - i
  {
    if i == j then i
    else
      var h := (i + j) / 2;
      if !f(h) then Search(h + 1, j, f) else Search(i, h, f)
  }

  ghost predicate Monotone(i: nat, j: nat, f: nat -> bool) {
    forall x, y :: i <= x <= y < j && f(x) ==> f(y)
  }

  lemma {:induction false} SearchFindsBoundary(i: nat, j: nat, f: nat -> bool)
    requires i <= j && Monotone(i, j, f)
    ensures forall x :: i <= x < j ==> (f(x) <==> Search(i, j, f) <= x)
    decreases j - i
  {
    if i < j {
      var h := (i + j) / 2;
      if !f(h) {
        SearchFindsBoundary(h + 1, j, f);
      } else {
        SearchFindsBoundary(i, h, f);
      }
    }
  }

  /** The test of the first search: the word at index i is not below x. */
  function NotBelow(ws: seq<Word>, x: Word): (f: nat -> bool)
    ensures forall i: nat :: i < |ws| ==> f(i) == Le(x, ws[i])
  {
    (i: nat) => i < |ws| ==> Le(x, ws[i])
  }

  /** The test of the second search: the word i places behind lo lacks the prefix. */
  function LacksPrefix(ws: seq<Word>, lo: nat, p: Word): (f: nat -> bool)
    ensures forall i: nat :: lo + i < |ws| ==> f(i) == !(p <= ws[lo + i])
  {
    (i: nat) => lo + i < |ws| ==> !(p <= ws[lo + i])
  }

  /** The first list index whose word is not below x. */
  function SearchStrings(ws: seq<Word>, x: Word): (r: nat)
    ensures r <= |ws|
  {
    Search(0, |ws|, NotBelow(ws, x))
  }

  lemma SearchStringsExact(ws: seq<Word>, x: Word)
    requires Sorted(ws)
    ensures forall i :: 0 <= i < |ws| ==> (Le(x, ws[i]) <==> SearchStrings(ws, x) <= i)
  {
    var f := NotBelow(ws, x);
    forall i, j | 0 <= i <= j < |ws| && f(i) ensures f(j) {
      if i < j {
        LeTransitive(x, ws[i], ws[j]);
      }
    }
    SearchFindsBoundary(0, |ws|, f);
    forall i | 0 <= i < |ws| ensures Le(x, ws[i]) <==> SearchStrings(ws, x) <= i {
      assert f(i) == Le(x, ws[i]);
    }
  }

  /** Searching for a list word finds its index; any other string is not at the index found. */
  lemma SearchFindsWord(ws: seq<Word>, x: Word)
    requires Sorted(ws)
    ensures x in ws <==> SearchStrings(ws, x) < |ws| && ws[SearchStrings(ws, x)] == x
  {
    SearchStringsExact(ws, x);
    LeTotal(x, x);
    if x in ws {
      var i :| 0 <= i < |ws| && ws[i] == x;
      var r := SearchStrings(ws, x);
      if r < i {
        LeTotal(ws[r], x);
      }
    }
  }

  /** The half-open index range of the words with prefix p, by two binary searches. */
  function PrefixRange(ws: seq<Word>, p: Word): (r: (nat, nat))
    ensures r.0 <= r.1 <= |ws|
  {
    var lo := SearchStrings(ws, p);
    (lo, lo + Search(0, |ws| - lo, LacksPrefix(ws, lo, p)))
  }

  lemma LacksPrefixMonotone(ws: seq<Word>, lo: nat, p: Word)
    requires Sorted(ws) && lo <= |ws|
    requires forall i :: lo <= i < |ws| ==> Le(p, ws[i])
    ensures Monotone(0, |ws| - lo, LacksPrefix(ws, lo, p))
  {
    var f := LacksPrefix(ws, lo, p);
    forall x: nat, y: nat | x <= y < |ws| - lo && f(x) ensures f(y) {
      var a, b := lo + x, lo + y;
      if a < b && p <= ws[b] {
        assert Lt(ws[a], ws[b]);
        PrefixIsConvex(p, ws[a], ws[b]);
      }
    }
  }

  /** The index agrees with the scan: inside the range are exactly the words with the prefix. */
  lemma PrefixRangeExact(ws: seq<Word>, p: Word, i: nat)
    requires Sorted(ws) && i < |ws|
    ensures p <= ws[i] <==> PrefixRange(ws, p).0 <= i < PrefixRange(ws, p).1
  {
    var lo := SearchStrings(ws, p);
    SearchStringsExact(ws, p);
    if lo <= i {
      var f := LacksPrefix(ws, lo, p);
      LacksPrefixMonotone(ws, lo, p);
      SearchFindsBoundary(0, |ws| - lo, f);
      assert f(i - lo) == !(p <= ws[lo + (i - lo)]);
    } else if p <= ws[i] {
      PrefixIsLe(p, ws[i]);
    }
  }
}
