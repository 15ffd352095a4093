/**
 Reading one line from key events: what the editing keys do to the bytes so far, what becomes of a
 line over its limit (4096 bytes for a share URL, 256 for a token; here a parameter), and what a
 whole line typed at the terminal comes back as.
 */
module LineReader {
  import opened Bytes
  import opened KeyTokens
  import Utf8

  // ----- the last rune of a line -----

  /** The next rune start from i down, but not below lim; lim - 1 when there is none. */
  function StartDown(s: seq<Byte>, i: int, lim: nat): (start: int)
    requires lim - 1 <= i < |s|
    ensures lim - 1 <= start <= i
    ensures forall k :: start < k <= i ==> Utf8.IsContinuation(s[k])
    ensures start >= lim ==> !Utf8.IsContinuation(s[start])
    decreases i + 1 - lim
  {
    if i < lim || !Utf8.IsContinuation(s[i]) then i else StartDown(s, i - 1, lim)
  }

  /** How many bytes the library takes for the last rune: one where no rune ends. */
  function LastRuneSize(s: seq<Byte>): (n: nat)
    requires s != []
    ensures 1 <= n <= 4 && n <= |s|
  {
    if s[|s| - 1] < 0x80 then 1
    else
      var lim := if |s| < 4 then 0 else |s| - 4;
      var start := StartDown(s, |s| - 2, lim);
      var from := if start < 0 then 0 else start;
      if Utf8.RuneSize(s[from..]) == |s| - from then |s| - from else 1
  }

  function TrimLastRune(s: seq<Byte>): seq<Byte> {
    if s == [] then [] else s[..|s| - LastRuneSize(s)]
  }

  /** The bytes of a rune that has several: a lead byte and continuations, none of them ASCII. */
  lemma RuneBytes(rune: seq<Byte>)
    requires rune != [] && Utf8.RuneSize(rune) == |rune|
    ensures forall k :: 0 < k < |rune| ==> Utf8.IsContinuation(rune[k])
    ensures |rune| > 1 ==> rune[0] >= 0xC0
  {
  }

  /** Whatever comes before it, a rune at the end of a line is what the library finds there. */
  lemma LastRuneFound(before: seq<Byte>, rune: seq<Byte>)
    requires rune != [] && Utf8.RuneSize(rune) == |rune|
    ensures LastRuneSize(before + rune) == |rune|
  {
    var s := before + rune;
    var n := |rune|;
    assert s[|s| - n..] == rune;
    if n > 1 {
      RuneBytes(rune);
      assert n <= 4;
      hide Utf8.RuneSize, StartDown;
      assert s[|s| - n] == rune[0] && s[|s| - 1] == rune[n - 1];
      forall i | |s| - n < i < |s| ensures Utf8.IsContinuation(s[i]) {
        assert s[i] == rune[i - (|s| - n)];
      }
      var lim := if |s| < 4 then 0 else |s| - 4;
      var start := StartDown(s, |s| - 2, lim);
      assert !Utf8.IsContinuation(s[|s| - n]);
      assert start == |s| - n;
    } else {
      assert s[|s| - 1] == rune[0];
      hide StartDown;
    }
  }

  lemma BackspaceUndoesRune(line: seq<Byte>, r: int)
    requires Utf8.IsScalar(r)
    ensures TrimLastRune(line + Utf8.Encode(r)) == line
  {
    Utf8.EncodeThenDecode(r, []);
    assert Utf8.Encode(r) + [] == Utf8.Encode(r);
    LastRuneFound(line, Utf8.Encode(r));
  }

  // ----- the last word of a line -----

  predicate IsBlank(c: Byte) {
    c == SPACE || c == 0x09
  }

  /** s without its longest suffix of blanks, or of other bytes. */
  function Without(s: seq<Byte>, blanks: bool): (r: seq<Byte>)
    ensures r <= s
    ensures forall k :: |r| <= k < |s| ==> IsBlank(s[k]) == blanks
    ensures r != [] ==> IsBlank(r[|r| - 1]) != blanks
  {
    if s == [] || IsBlank(s[|s| - 1]) != blanks then s else Without(s[..|s| - 1], blanks)
  }

  lemma {:induction false} WithoutSuffix(s: seq<Byte>, k: nat, blanks: bool)
    requires k <= |s| && forall i :: k <= i < |s| ==> IsBlank(s[i]) == blanks
    ensures Without(s, blanks) == Without(s[..k], blanks)
    decreases |s|
  {
    if k < |s| {
      WithoutSuffix(s[..|s| - 1], k, blanks);
      assert s[..|s| - 1][..k] == s[..k];
    } else {
      assert s[..k] == s;
    }
  }

  lemma LastRuneBytes(s: seq<Byte>)
    requires s != [] && LastRuneSize(s) > 1
    ensures forall i :: |s| - LastRuneSize(s) <= i < |s| ==> s[i] >= 0x80
  {
    hide StartDown;
    var n := LastRuneSize(s);
    var rune := s[|s| - n..];
    assert Utf8.RuneSize(rune) == n;
    hide LastRuneSize, Utf8.RuneSize;
    RuneBytes(rune);
    forall i | |s| - n <= i < |s| ensures s[i] >= 0x80 {
      assert s[i] == rune[i - (|s| - n)];
    }
  }

  /** A rune of several bytes holds no blank, so trimming whole runes stops where trimming bytes would. */
  lemma RuneIsAllOrNothing(s: seq<Byte>)
    requires s != []
    ensures Without(s, IsBlank(s[|s| - 1])) == Without(TrimLastRune(s), IsBlank(s[|s| - 1]))
  {
    LastRuneIsUniform(s);
    hide LastRuneSize, Without, IsBlank;
    WithoutSuffix(s, |s| - LastRuneSize(s), IsBlank(s[|s| - 1]));
  }

  lemma LastRuneIsUniform(s: seq<Byte>)
    requires s != []
    ensures forall i :: |s| - LastRuneSize(s) <= i < |s| ==> IsBlank(s[i]) == IsBlank(s[|s| - 1])
  {
    hide LastRuneSize;
    if LastRuneSize(s) > 1 {
      LastRuneBytes(s);
    }
  }

  function WithoutLastWord(s: seq<Byte>): seq<Byte> {
    Without(Without(s, true), false)
  }

  /** Rune by rune, but what goes is exactly the last word and the blanks behind it. */
  method TrimLastWord(b: seq<Byte>) returns (r: seq<Byte>)
    ensures r == WithoutLastWord(b)
  {
    hide Without;
    r := b;
    while r != [] && IsBlank(r[|r| - 1])
      invariant Without(r, true) == Without(b, true)
      decreases |r|
    {
      RuneIsAllOrNothing(r);
      r := TrimLastRune(r);
    }
    assert r == Without(b, true);
    while r != [] && !IsBlank(r[|r| - 1])
      invariant Without(r, false) == WithoutLastWord(b)
      decreases |r|
    {
      RuneIsAllOrNothing(r);
      r := TrimLastRune(r);
    }
  }

  /** Deleting a word leaves what came before it, and nothing less. */
  lemma WordErased(line: seq<Byte>, word: seq<Byte>, blanks: seq<Byte>)
    requires line == [] || IsBlank(line[|line| - 1])
    requires word != [] && forall i :: 0 <= i < |word| ==> !IsBlank(word[i])
    requires forall i :: 0 <= i < |blanks| ==> IsBlank(blanks[i])
    ensures WithoutLastWord(line + word + blanks) == line
  {
    var s := line + word + blanks;
    WithoutSuffix(s, |line + word|, true);
    assert s[..|line + word|] == line + word;
    WithoutSuffix(line + word, |line|, false);
    assert (line + word)[..|line|] == line;
  }

  // ----- editing -----

  /** The line so far, or the fact that it once was too long. */
  datatype Editing = Editing(line: seq<Byte>, overflow: bool)

  const REJECTED := Editing([], true)

  function Append(limit: nat, e: Editing, bytes: seq<Byte>): Editing {
    if |bytes| > limit - |e.line| then REJECTED else Editing(e.line + bytes, false)
  }

  function Edit(limit: nat, e: Editing, ev: Event): (r: Editing)
    requires !ev.Enter? && !ev.CtrlC? && !ev.CtrlD?
    ensures e.overflow ==> r == e
  {
    if e.overflow then e
    else
      match ev
      case Rune(r) => if Utf8.IsScalar(r) then Append(limit, e, Utf8.Encode(r)) else REJECTED
      case Space => Append(limit, e, [SPACE])
      case Tab => Append(limit, e, [0x09])
      case Backspace => Editing(TrimLastRune(e.line), false)
      case CtrlU => Editing([], false)
      case CtrlW => Editing(WithoutLastWord(e.line), false)
      case Paste(text) => Append(limit, e, text)
      case InputTooLong => REJECTED
      case _ => e
  }

  datatype Reading = Line(bytes: seq<Byte>) | TooLong | Interrupted | Cancelled

  /** How the supply of events ends, and whether the context is cancelled by then. */
  datatype End = End(eof: bool, cancelled: bool)

  function AtEnd(e: Editing, end: End): Reading {
    if end.eof && e.overflow then TooLong
    else if end.eof && e.line != [] then Line(e.line)
    else if end.cancelled then Cancelled
    else Interrupted
  }

  /** What reading the events, and then their end, comes to. */
  function Read(limit: nat, e: Editing, events: seq<Event>, end: End): Reading
    decreases |events|
  {
    if events == [] then AtEnd(e, end)
    else
      match events[0]
      case Enter => if e.overflow then TooLong else Line(e.line)
      case CtrlC => Interrupted
      case CtrlD => Interrupted
      case ev => Read(limit, Edit(limit, e, ev), events[1..], end)
  }

  method ReadLineContext(limit: nat, events: seq<Event>, end: End) returns (r: Reading)
    ensures r == Read(limit, Editing([], false), events, end)
  {
    var line: seq<Byte> := [];
    var overflow := false;
    assert events[0..] == events;
    for i := 0 to |events|
      invariant Read(limit, Editing(line, overflow), events[i..], end) == Read(limit, Editing([], false), events, end)
      invariant |line| <= limit && (overflow ==> line == [])
    {
      assert events[i..][0] == events[i] && events[i..][1..] == events[i + 1..];
      hide WithoutLastWord, TrimLastRune;
      match events[i] {
        case Rune(r) =>
          if !overflow {
            if !Utf8.IsScalar(r) || |Utf8.Encode(r)| > limit - |line| {
              line, overflow := [], true;
            } else {
              line := line + Utf8.Encode(r);
            }
          }
        case Space =>
          if !overflow {
            line, overflow := AppendBlank(limit, line, SPACE);
          }
        case Tab =>
          if !overflow {
            line, overflow := AppendBlank(limit, line, 0x09);
          }
        case Enter =>
          if overflow {
            return TooLong;
          }
          return Line(line);
        case Backspace =>
          if !overflow {
            line := TrimLastRune(line);
          }
        case CtrlU =>
          if !overflow {
            line := [];
          }
        case CtrlW =>
          if !overflow {
            line := TrimLastWord(line);
          }
        case CtrlC => return Interrupted;
        case CtrlD => return Interrupted;
        case Paste(text) =>
          if !overflow {
            if |text| > limit - |line| {
              line, overflow := [], true;
            } else {
              line := line + text;
            }
          }
        case InputTooLong =>
          if !overflow {
            line, overflow := [], true;
          }
        case _ =>
      }
    }
    assert events[|events|..] == [];
    if end.eof {
      if overflow {
        return TooLong;
      }
      if |line| > 0 {
        return Line(line);
      }
    }
    r := if end.cancelled then Cancelled else Interrupted;
  }

  /** A blank is refused only at the limit itself: a full line is never exceeded. */
  method AppendBlank(limit: nat, line: seq<Byte>, blank: Byte) returns (after: seq<Byte>, overflow: bool)
    requires |line| <= limit
    ensures |after| <= limit && (overflow ==> after == [])
    ensures Editing(after, overflow) == Append(limit, Editing(line, false), [blank])
  {
    if |line| == limit {
      return [], true;
    }
    return line + [blank], false;
  }

  // ----- what every reading promises -----

  /** No line over its limit is ever returned, and no edit makes up for having been over it. */
  lemma {:induction false} ReturnedLineFits(limit: nat, e: Editing, events: seq<Event>, end: End)
    requires |e.line| <= limit
    ensures var r := Read(limit, e, events, end); r.Line? ==> |r.bytes| <= limit && !e.overflow
    decreases |events|
  {
    if events != [] && !events[0].Enter? && !events[0].CtrlC? && !events[0].CtrlD? {
      ReturnedLineFits(limit, Edit(limit, e, events[0]), events[1..], end);
    }
  }

  lemma {:induction false} ValidConcat(a: seq<Byte>, b: seq<Byte>)
    requires Utf8.Valid(a) && Utf8.Valid(b)
    ensures Utf8.Valid(a + b)
    decreases |a|
  {
    if a == [] {
      assert a + b == b;
    } else {
      var n := Utf8.RuneSize(a);
      assert (a + b)[..|a|] == a;
      Utf8.RuneIsLocal(a + b, |a|);
      hide Utf8.RuneSize;
      assert Utf8.RuneSize(a + b) == n;
      assert (a + b)[n..] == a[n..] + b;
      ValidConcat(a[n..], b);
    }
  }

  /** A valid text ends in a rune, which the library finds, and is valid without it. */
  lemma TrimKeepsValid(s: seq<Byte>)
    requires Utf8.Valid(s) && s != []
    ensures Utf8.Valid(TrimLastRune(s))
  {
    var before, rune := SplitLastRune(s);
    hide LastRuneSize, Utf8.RuneSize, Utf8.Valid;
    LastRuneFound(before, rune);
    assert TrimLastRune(s) == before;
  }

  lemma {:induction false} SplitLastRune(s: seq<Byte>) returns (before: seq<Byte>, rune: seq<Byte>)
    requires Utf8.Valid(s) && s != []
    ensures s == before + rune && Utf8.Valid(before) && rune != [] && Utf8.RuneSize(rune) == |rune|
    decreases |s|
  {
    FirstRune(s);
    assert Utf8.Valid([]);
    hide Utf8.RuneSize, Utf8.Valid;
    var n := Utf8.RuneSize(s);
    if n == |s| {
      before, rune := [], s;
    } else {
      var rest;
      rest, rune := SplitLastRune(s[n..]);
      before := s[..n] + rest;
      ValidConcat(s[..n], rest);
      assert s == s[..n] + s[n..];
    }
  }

  lemma FirstRune(s: seq<Byte>)
    requires Utf8.Valid(s) && s != []
    ensures var n := Utf8.RuneSize(s); n > 0 && Utf8.Valid(s[..n]) && Utf8.Valid(s[n..])
  {
    var n := Utf8.RuneSize(s);
    Utf8.RuneIsLocal(s, n);
    hide Utf8.RuneSize;
    assert s[..n][n..] == [];
  }

  lemma {:induction false} WithoutKeepsValid(s: seq<Byte>, blanks: bool)
    requires Utf8.Valid(s)
    ensures Utf8.Valid(Without(s, blanks))
    decreases |s|
  {
    if s != [] && IsBlank(s[|s| - 1]) == blanks {
      RuneIsAllOrNothing(s);
      TrimKeepsValid(s);
      WithoutKeepsValid(TrimLastRune(s), blanks);
    }
  }

  ghost predicate ValidPastes(events: seq<Event>) {
    forall i :: 0 <= i < |events| && events[i].Paste? ==> Utf8.Valid(events[i].text)
  }

  lemma EditKeepsValid(limit: nat, e: Editing, ev: Event)
    requires !ev.Enter? && !ev.CtrlC? && !ev.CtrlD?
    requires Utf8.Valid(e.line) && (ev.Paste? ==> Utf8.Valid(ev.text))
    ensures Utf8.Valid(Edit(limit, e, ev).line)
  {
    match ev {
      case Rune(r) =>
        if Utf8.IsScalar(r) {
          RuneIsValid(r);
          ValidConcat(e.line, Utf8.Encode(r));
        }
      case Space => ValidConcat(e.line, [SPACE]);
      case Tab => ValidConcat(e.line, [0x09]);
      case Backspace =>
        if e.line != [] {
          TrimKeepsValid(e.line);
        }
      case CtrlW =>
        WithoutKeepsValid(e.line, true);
        WithoutKeepsValid(Without(e.line, true), false);
      case Paste(text) => ValidConcat(e.line, text);
      case _ =>
    }
  }

  lemma RuneIsValid(r: int)
    requires Utf8.IsScalar(r)
    ensures Utf8.Valid(Utf8.Encode(r))
  {
    Utf8.EncodeThenDecode(r, []);
    assert Utf8.Encode(r) + [] == Utf8.Encode(r);
  }

  /** Editing never tears a character: only an invalid paste can make the line invalid UTF-8. */
  lemma {:induction false} ReturnedLineIsText(limit: nat, e: Editing, events: seq<Event>, end: End)
    requires Utf8.Valid(e.line) && ValidPastes(events)
    ensures var r := Read(limit, e, events, end); r.Line? ==> Utf8.Valid(r.bytes)
    decreases |events|
  {
    if events != [] && !events[0].Enter? && !events[0].CtrlC? && !events[0].CtrlD? {
      EditKeepsValid(limit, e, events[0]);
      ReturnedLineIsText(limit, Edit(limit, e, events[0]), events[1..], end);
    }
  }

  // ----- a whole line from the terminal -----

  /** Text without control bytes other than tabs: what a cooked terminal line is made of. */
  predicate IsLineText(text: seq<Byte>) {
    Utf8.Valid(text) && forall i :: 0 <= i < |text| ==> text[i] == 0x09 || (text[i] >= 0x20 && text[i] != 0x7f)
  }

  /** One rune of a line is one lexeme, and its event appends exactly its bytes. */
  lemma RuneOfLine(text: seq<Byte>, rest: seq<Byte>, limit: nat, e: Editing) returns (ev: Event)
    requires IsLineText(text) && text != []
    ensures var n := Utf8.RuneSize(text);
            && n > 0
            && FirstLexeme(text[..n] + rest, false) == Lexeme(n, [ev])
            && !ev.Enter? && !ev.CtrlC? && !ev.CtrlD?
            && Edit(limit, e, ev) == if e.overflow then e else Append(limit, e, text[..n])
  {
    var n := Utf8.RuneSize(text);
    var s := text[..n] + rest;
    assert s[..n] == text[..n];
    Utf8.RuneIsLocal(text, n);
    Utf8.RuneIsLocal(s, n);
    if n == 1 {
      ev := ControlEvent(text[0]);
      assert text[..1] == [text[0]];
    } else {
      ev := Rune(Utf8.RuneValue(s));
      Utf8.DecodeThenEncode(s);
      assert text[..n] == s[..n];
      AllContinuations(s, 1, n);
    }
  }

  lemma {:induction false} AllContinuations(s: seq<Byte>, i: nat, n: nat)
    requires i <= n <= |s| && forall k :: i <= k < n ==> Utf8.IsContinuation(s[k])
    ensures ContinuationsEnd(s, i, n) == n
    decreases n - i
  {
    if i < n {
      AllContinuations(s, i + 1, n);
    }
  }

  lemma LineTail(text: seq<Byte>)
    requires IsLineText(text) && text != []
    ensures Utf8.RuneSize(text) > 0 && IsLineText(text[Utf8.RuneSize(text)..])
  {
  }

  /** Decoded and read, a line that fits comes back byte for byte, and a longer one is refused whole. */
  lemma {:induction false} LineComesBack(text: seq<Byte>, limit: nat, e: Editing, more: seq<Byte>, end: End)
    requires IsLineText(text) && |e.line| <= limit
    ensures Read(limit, e, Drain(text + [LF] + more, false).events, end)
         == if e.overflow || |e.line| + |text| > limit then TooLong else Line(e.line + text)
    decreases |text|
  {
    hide FirstLexeme, Edit, Drain, Read, Utf8.RuneSize, Utf8.Valid;
    if text == [] {
      LineEnds(limit, e, more, end);
      assert text + [LF] + more == [LF] + more && e.line + text == e.line;
    } else {
      LineTail(text);
      var n := Utf8.RuneSize(text);
      var rest := text[n..] + [LF] + more;
      var ev := LineStep(text, rest, limit, e, end);
      LineComesBack(text[n..], limit, Edit(limit, e, ev), more, end);
      Regroup(text, n, [LF] + more);
      assert text[n..] + [LF] + more == text[n..] + ([LF] + more);
      assert text + [LF] + more == text + ([LF] + more);
      if !e.overflow && |e.line| + n <= limit {
        Regroup(text, n, []);
        assert e.line + text[..n] + text[n..] == e.line + (text[..n] + text[n..]);
      }
    }
  }

  lemma Regroup(text: seq<Byte>, n: nat, more: seq<Byte>)
    requires n <= |text|
    ensures text[..n] + (text[n..] + more) == text + more
    ensures text[..n] + text[n..] == text
  {
  }

  lemma LineEnds(limit: nat, e: Editing, more: seq<Byte>, end: End)
    ensures Read(limit, e, Drain([LF] + more, false).events, end) == if e.overflow then TooLong else Line(e.line)
  {
    var s := [LF] + more;
    assert FirstLexeme(s, false) == Lexeme(1, [Enter]);
    hide FirstLexeme;
    DrainLexeme(s, false);
  }

  /** Reading past the first rune of a line. */
  lemma LineStep(text: seq<Byte>, rest: seq<Byte>, limit: nat, e: Editing, end: End) returns (ev: Event)
    requires IsLineText(text) && text != []
    ensures var n := Utf8.RuneSize(text);
            && !ev.Enter? && !ev.CtrlC? && !ev.CtrlD?
            && Edit(limit, e, ev) == (if e.overflow then e else Append(limit, e, text[..n]))
            && Read(limit, e, Drain(text[..n] + rest, false).events, end)
            == Read(limit, Edit(limit, e, ev), Drain(rest, false).events, end)
  {
    var n := Utf8.RuneSize(text);
    var s := text[..n] + rest;
    ev := RuneOfLine(text, rest, limit, e);
    hide Edit, Utf8.Valid, FirstLexeme;
    DrainLexeme(s, false);
    assert s[n..] == rest && s[0] == text[0] != CR;
    var events := Drain(rest, false).events;
    assert ([ev] + events)[1..] == events;
  }

  /** The events left when a line has been read. */
  function AfterLine(events: seq<Event>): (rest: seq<Event>)
    ensures events != [] ==> |rest| < |events|
  {
    if events == [] then []
    else if events[0].Enter? || events[0].CtrlC? || events[0].CtrlD? then events[1..]
    else AfterLine(events[1..])
  }

  /** Reading a line takes exactly the events of its bytes. */
  lemma {:induction false} LineIsTaken(text: seq<Byte>, more: seq<Byte>)
    requires IsLineText(text)
    ensures var (whole, rest) := (Drain(text + [LF] + more, false), Drain(more, false));
            AfterLine(whole.events) == rest.events && whole.held == rest.held
    decreases |text|
  {
    var s := text + [LF] + more;
    if text == [] {
      assert FirstLexeme(s, false) == Lexeme(1, [Enter]);
      hide FirstLexeme;
      DrainLexeme(s, false);
      assert s[1..] == more && s[0] == LF;
    } else {
      hide FirstLexeme, Edit, Utf8.RuneSize;
      LineTail(text);
      var n := Utf8.RuneSize(text);
      var rest := text[n..] + [LF] + more;
      var ev := RuneOfLine(text, rest, 0, REJECTED);
      assert s == text[..n] + rest by {
        Regroup(text, n, [LF] + more);
        assert text[n..] + [LF] + more == text[n..] + ([LF] + more);
        assert text + [LF] + more == text + ([LF] + more);
      }
      DrainLexeme(s, false);
      assert s[n..] == rest && s[0] == text[0] != CR;
      var events := Drain(rest, false).events;
      assert ([ev] + events)[1..] == events;
      LineIsTaken(text[n..], more);
    }
  }
}
