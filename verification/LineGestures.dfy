/**
 What each key does to a line that is being typed, in the bytes of the line, and how a line ends.
 The editing rule itself is not mentioned before the end.
 */
module LineGestures {
  import opened Bytes
  import opened KeyTokens
  import opened LineReader
  import Utf8

  predicate NoneEnds(keys: seq<Event>) {
    forall i :: 0 <= i < |keys| ==> !keys[i].Enter? && !keys[i].CtrlC? && !keys[i].CtrlD?
  }

  /** What is left of a line when the keys, none of which ends it, have been typed. */
  function Edited(limit: nat, e: Editing, keys: seq<Event>): Editing
    requires NoneEnds(keys)
    decreases |keys|
  {
    if keys == [] then e else Edited(limit, Edit(limit, e, keys[0]), keys[1..])
  }

  lemma {:induction false} ReadsOn(limit: nat, e: Editing, keys: seq<Event>, more: seq<Event>, end: End)
    requires NoneEnds(keys)
    ensures Read(limit, e, keys + more, end) == Read(limit, Edited(limit, e, keys), more, end)
    decreases |keys|
  {
    if keys == [] {
      assert keys + more == more;
    } else {
      hide Edit;
      assert (keys + more)[0] == keys[0] && (keys + more)[1..] == keys[1..] + more;
      ReadsOn(limit, Edit(limit, e, keys[0]), keys[1..], more, end);
    }
  }

  /** Whatever was typed before, Ctrl+C and Ctrl+D give the line up, and nothing behind them counts. */
  lemma InterruptGivesUp(limit: nat, e: Editing, keys: seq<Event>, key: Event, more: seq<Event>, end: End)
    requires NoneEnds(keys)
    requires key == CtrlC || key == CtrlD
    ensures Read(limit, e, keys + ([key] + more), end) == Interrupted
  {
    hide Edit, Edited;
    ReadsOn(limit, e, keys, [key] + more, end);
  }

  /** Enter takes the line as it then is, or refuses it, the same whatever comes behind. */
  lemma EnterTakesTheLine(limit: nat, e: Editing, keys: seq<Event>, more: seq<Event>, end: End)
    requires NoneEnds(keys)
    ensures var left := Edited(limit, e, keys);
            Read(limit, e, keys + ([Enter] + more), end) == if left.overflow then TooLong else Line(left.line)
  {
    hide Edit, Edited;
    ReadsOn(limit, e, keys, [Enter] + more, end);
  }

  /** The end of the input takes a line that is not empty; otherwise cancellation is told from the rest. */
  lemma EndTakesTheLine(limit: nat, e: Editing, keys: seq<Event>, cancelled: bool)
    requires NoneEnds(keys)
    ensures var left := Edited(limit, e, keys);
            && (left.overflow ==> Read(limit, e, keys, End(true, cancelled)) == TooLong)
            && (!left.overflow && left.line != [] ==> Read(limit, e, keys, End(true, cancelled)) == Line(left.line))
            && (!left.overflow && left.line == [] ==>
                  Read(limit, e, keys, End(true, cancelled)) == if cancelled then Cancelled else Interrupted)
            && Read(limit, e, keys, End(false, cancelled)) == if cancelled then Cancelled else Interrupted
  {
    hide Edit, Edited;
    assert keys + [] == keys;
    ReadsOn(limit, e, keys, [], End(true, cancelled));
    ReadsOn(limit, e, keys, [], End(false, cancelled));
  }

  // ----- the keys one by one -----

  /** A key that adds its bytes: all of them within the limit, or the whole line is given up. */
  ghost predicate Adds(limit: nat, line: seq<Byte>, ev: Event, bytes: seq<Byte>) {
    !ev.Enter? && !ev.CtrlC? && !ev.CtrlD?
    && Edited(limit, Editing(line, false), [ev])
         == if |line| + |bytes| <= limit then Editing(line + bytes, false) else Editing([], true)
  }

  lemma KeysThatAdd(limit: nat, line: seq<Byte>, r: int, text: seq<Byte>)
    ensures Adds(limit, line, Space, [0x20]) && Adds(limit, line, Tab, [0x09])
    ensures Adds(limit, line, Paste(text), text)
    ensures 0 <= r < 0x80 ==> Adds(limit, line, Rune(r), [r])
    ensures 0 <= r < 0xd800 || 0xe000 <= r < 0x110000 ==> Adds(limit, line, Rune(r), Utf8.Encode(r))
    ensures !(0 <= r < 0xd800 || 0xe000 <= r < 0x110000) ==>
              Edited(limit, Editing(line, false), [Rune(r)]) == Editing([], true)
  {
  }

  lemma KeysThatClear(limit: nat, line: seq<Byte>)
    ensures Edited(limit, Editing(line, false), [CtrlU]) == Editing([], false)
    ensures Edited(limit, Editing(line, false), [InputTooLong]) == Editing([], true)
  {
  }

  lemma KeysThatDoNothing(limit: nat, e: Editing, ev: Event)
    ensures ev in {CtrlO, Resize, Ignored} ==> Edited(limit, e, [ev]) == e
    ensures e.overflow && NoneEnds([ev]) ==> Edited(limit, e, [ev]) == e
  {
  }

  ghost predicate EndsIn(line: seq<Byte>, r: int, n: nat) {
    Utf8.IsScalar(r) && n <= |line| && line[n..] == Utf8.Encode(r)
  }

  ghost predicate EndsInCharacter(line: seq<Byte>) {
    exists r, n :: EndsIn(line, r, n)
  }

  /** Backspace takes the character the line ends in, or one byte where none does. */
  lemma BackspaceTakesOne(limit: nat, line: seq<Byte>, r: int, n: nat)
    ensures Edited(limit, Editing([], false), [Backspace]) == Editing([], false)
    ensures EndsIn(line, r, n) ==> Edited(limit, Editing(line, false), [Backspace]) == Editing(line[..n], false)
    ensures line != [] && !EndsInCharacter(line) ==>
              Edited(limit, Editing(line, false), [Backspace]) == Editing(line[..|line| - 1], false)
  {
    assert TrimLastRune([]) == [];
    hide Utf8.Encode;
    if EndsIn(line, r, n) {
      hide TrimLastRune;
      BackspaceUndoesRune(line[..n], r);
      assert line == line[..n] + Utf8.Encode(r);
    } else if line != [] && !EndsInCharacter(line) {
      ByteIsNoCharacter(line);
    }
  }

  lemma ByteIsNoCharacter(line: seq<Byte>)
    requires line != []
    ensures LastRuneSize(line) == 1 || EndsInCharacter(line)
  {
    hide StartDown;
    var n := |line| - LastRuneSize(line);
    var rune := line[n..];
    if |rune| > 1 {
      assert Utf8.RuneSize(rune) == |rune|;
      hide LastRuneSize, Utf8.RuneSize, Utf8.Encode;
      Utf8.DecodeThenEncode(rune);
      assert rune[..|rune|] == rune;
      assert EndsIn(line, Utf8.RuneValue(rune), n);
    }
  }

  predicate OnlyBlanks(s: seq<Byte>) {
    forall i :: 0 <= i < |s| ==> s[i] == 0x20 || s[i] == 0x09
  }

  predicate NoBlanks(s: seq<Byte>) {
    forall i :: 0 <= i < |s| ==> s[i] != 0x20 && s[i] != 0x09
  }

  /** What Ctrl+W leaves: the line up to the last word, which goes with the blanks behind it. */
  predicate LeftOfLastWord(line: seq<Byte>, n: nat, m: nat) {
    && n <= m <= |line|
    && NoBlanks(line[n..m]) && OnlyBlanks(line[m..])
    && (n > 0 ==> n < m && OnlyBlanks([line[n - 1]]))
  }

  lemma CtrlWTakesTheLastWord(limit: nat, line: seq<Byte>, n: nat, m: nat)
    requires LeftOfLastWord(line, n, m)
    ensures Edited(limit, Editing(line, false), [CtrlW]) == Editing(line[..n], false)
  {
    hide Without;
    var before, word, blanks := line[..n], line[n..m], line[m..];
    assert before + word + blanks == line;
    if n < m {
      assert n > 0 ==> [line[n - 1]][0] == line[n - 1] == before[n - 1];
      WordErased(before, word, blanks);
    } else {
      NothingButBlanks(line);
    }
  }

  lemma NothingButBlanks(line: seq<Byte>)
    requires OnlyBlanks(line)
    ensures WithoutLastWord(line) == []
  {
    WithoutSuffix(line, 0, true);
  }

  /** Every line has such a place, so Ctrl+W is settled for all of them. */
  lemma EveryLineHasALastWord(line: seq<Byte>) returns (n: nat, m: nat)
    ensures LeftOfLastWord(line, n, m)
  {
    var word := Without(line, true);
    n, m := |Without(word, false)|, |word|;
    assert word == line[..m];
    if n > 0 {
      assert Without(word, false)[n - 1] == line[n - 1];
    }
  }
}
