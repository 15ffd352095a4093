/**
 What the viewer puts on the terminal, in the terminal's own cells: no token takes more than it counts,
 escapes spell what they stand for, lines wrap only where they must, and the frame holds for any
 terminal that shows printable ASCII in one cell and any rune in at most two.
 */
module ViewerCells {
  import opened Bytes
  import opened KeyTokens
  import opened ViewerTokens
  import opened ViewerPages
  import opened ViewerNavigation
  import Utf8

  // ----- cells -----

  /** How a terminal may show runes. */
  ghost predicate IsCellWidth(width: int -> nat) {
    && (forall r :: 0x20 <= r <= 0x7e ==> width(r) <= 1)
    && (forall r :: width(r) <= 2)
  }

  /** The cells that bytes take, a byte of no rune taking one. */
  function Cells(width: int -> nat, s: seq<Byte>): nat
    decreases |s|
  {
    if s == [] then 0
    else if Utf8.RuneSize(s) == 0 then 1 + Cells(width, s[1..])
    else width(Utf8.RuneValue(s)) + Cells(width, s[Utf8.RuneSize(s)..])
  }

  lemma PrintableCells(width: int -> nat, s: seq<Byte>)
    requires IsCellWidth(width) && forall i :: 0 <= i < |s| ==> 0x20 <= s[i] <= 0x7e
    ensures Cells(width, s) <= |s|
  {
    if s != [] {
      PrintableCells(width, s[1..]);
    }
  }

  lemma OneRuneCells(width: int -> nat, s: seq<Byte>)
    requires s != [] && Utf8.RuneSize(s) == |s|
    ensures Cells(width, s) == width(Utf8.RuneValue(s))
  {
    assert s[|s|..] == [];
    assert Cells(width, []) == 0;
  }

  /** No token takes more cells than the columns it counts, which are fixed for each kind of token. */
  lemma TokenTakesWhatItCounts(width: int -> nat, graphic: int -> bool, b: seq<Byte>)
    requires b != [] && IsCellWidth(width) && ControlsNotGraphic(graphic)
    ensures var t := NextToken(graphic, b);
            var size := Utf8.RuneSize(b);
            && Cells(width, t.rendered) <= t.columns
            && (t.newline <==> b[0] == 0x0a || (b[0] == 0x0d && |b| > 1 && b[1] == 0x0a))
            && (t.newline ==> t.columns == 0 && t.rendered == [] && t.sourceBytes == if b[0] == 0x0a then 1 else 2)
            && (!t.newline ==> t.sourceBytes == if size == 0 then 1 else size)
            && (!t.newline && size > 0 && graphic(Utf8.RuneValue(b)) ==>
                  t.rendered == b[..size] && t.columns == if Utf8.RuneValue(b) >= 0x80 then 2 else 1)
            && (!t.newline && (size == 0 || !graphic(Utf8.RuneValue(b))) ==> t.columns == |t.rendered|)
  {
    var t := NextToken(graphic, b);
    var size := Utf8.RuneSize(b);
    if t.newline {
    } else if size > 0 && graphic(Utf8.RuneValue(b)) {
      GraphicTokenCells(width, graphic, b);
    } else {
      EscapedIsPrintable(graphic, b);
      PrintableCells(width, t.rendered);
    }
  }

  lemma GraphicTokenCells(width: int -> nat, graphic: int -> bool, b: seq<Byte>)
    requires b != [] && IsCellWidth(width) && ControlsNotGraphic(graphic)
    requires !NextToken(graphic, b).newline && Utf8.RuneSize(b) > 0 && graphic(Utf8.RuneValue(b))
    ensures Cells(width, NextToken(graphic, b).rendered) <= NextToken(graphic, b).columns
  {
    var size := Utf8.RuneSize(b);
    Utf8.RuneIsLocal(b, size);
    Utf8.DecodeThenEncode(b);
    OneRuneCells(width, b[..size]);
  }

  lemma EscapedIsPrintable(graphic: int -> bool, b: seq<Byte>)
    requires b != [] && !NextToken(graphic, b).newline
    requires Utf8.RuneSize(b) == 0 || !graphic(Utf8.RuneValue(b))
    ensures var t := NextToken(graphic, b);
            |t.rendered| == t.columns && forall i :: 0 <= i < |t.rendered| ==> 0x20 <= t.rendered[i] <= 0x7e
  {
  }

  // ----- escapes, read back -----

  /** What a rendering stands for: a rune, or a byte that belongs to none. */
  datatype Source = OfRune(r: int) | OfByte(b: Byte)

  function HexValue(c: Byte): Option<nat> {
    if '0' as int <= c <= '9' as int then Some(c - '0' as int)
    else if 'a' as int <= c <= 'f' as int then Some(c - 'a' as int + 10)
    else None
  }

  function HexNumber(s: seq<Byte>): Option<nat> {
    if s == [] then Some(0)
    else
      var high, low := HexNumber(s[..|s| - 1]), HexValue(s[|s| - 1]);
      if high.Some? && low.Some? then Some(high.value * 16 + low.value) else None
  }

  /** Go's one-letter escapes. */
  function Letter(c: Byte): Option<int> {
    if c == 'a' as int then Some(7)
    else if c == 'b' as int then Some(8)
    else if c == 't' as int then Some(9)
    else if c == 'n' as int then Some(10)
    else if c == 'v' as int then Some(11)
    else if c == 'f' as int then Some(12)
    else if c == 'r' as int then Some(13)
    else if c == '\'' as int || c == '\\' as int then Some(c)
    else None
  }

  /** Go's escape syntax: a letter, \x and two digits, \u and four, \U and eight. */
  function Unescape(s: seq<Byte>): Option<Source> {
    if |s| < 2 || s[0] != '\\' as int then None
    else if |s| == 2 then (var r := Letter(s[1]); if r.Some? then Some(OfRune(r.value)) else None)
    else
      var v := HexNumber(s[2..]);
      if v.None? then None
      else if |s| == 4 && s[1] == 'x' as int && v.value < 256 then
        Some(if v.value < 0x80 then OfRune(v.value) else OfByte(v.value))
      else if (|s| == 6 && s[1] == 'u' as int) || (|s| == 10 && s[1] == 'U' as int) then Some(OfRune(v.value))
      else None
  }

  function Power16(n: nat): nat {
    if n == 0 then 1 else Power16(n - 1) * 16
  }

  lemma {:induction false} HexIsReadBack(v: nat, n: nat)
    requires v < Power16(n)
    ensures HexNumber(Hex(v, n)) == Some(v)
  {
    if n > 0 {
      HexIsReadBack(v / 16, n - 1);
      var s := Hex(v, n);
      assert s[..n - 1] == Hex(v / 16, n - 1);
      assert HexValue(s[n - 1]) == Some(v % 16);
    }
  }

  lemma EscapeIsReadBack(r: int)
    requires Utf8.IsScalar(r)
    ensures Unescape(Escape(r)) == Some(OfRune(r))
  {
    var s := Escape(r);
    if |s| == 4 {
      HexFormIsReadBack('x' as int, r, 2);
    } else if |s| == 6 {
      HexFormIsReadBack('u' as int, r, 4);
    } else if |s| == 10 {
      HexFormIsReadBack('U' as int, r, 8);
    }
    hide Hex, Unescape;
  }

  /** Which escape it is: a letter where Go has one, \x below 0x80, \u to 0xffff, \U above. */
  lemma EscapeForms(r: int)
    requires Utf8.IsScalar(r)
    ensures |Escape(r)| ==
              if 0x07 <= r <= 0x0d || r == '\'' as int || r == '\\' as int then 2
              else if r < 0x20 || r == 0x7f then 4
              else if r <= 0xffff then 6
              else 10
  {
  }

  lemma HexFormIsReadBack(form: Byte, v: nat, n: nat)
    requires || (form == 'x' as int && n == 2 && v < 0x80)
             || (form == 'u' as int && n == 4 && v < 0x10000)
             || (form == 'U' as int && n == 8 && v < 0x1_0000_0000)
    ensures Unescape([BACKSLASH, form] + Hex(v, n)) == Some(OfRune(v))
  {
    Powers();
    hide Power16, Hex, HexNumber;
    HexIsReadBack(v, n);
    assert ([BACKSLASH, form] + Hex(v, n))[2..] == Hex(v, n);
  }

  lemma Powers()
    ensures Power16(2) == 0x100 && Power16(4) == 0x10000 && Power16(8) == 0x1_0000_0000
  {
    assert Power16(1) == 16 && Power16(3) == 0x1000 && Power16(5) == 0x100000;
    assert Power16(6) == 0x1000000 && Power16(7) == 0x10000000;
  }

  /** What the rendering of a token shows. */
  function ReadBack(s: seq<Byte>): Option<Source> {
    if s != [] && Utf8.RuneSize(s) == |s| then Some(OfRune(Utf8.RuneValue(s))) else Unescape(s)
  }

  /**
   Every token can be read back: its rendering shows the very rune, or stray byte, that it stands for. So
   no two runes or bytes look the same.
   */
  lemma TokenIsReadBack(graphic: int -> bool, b: seq<Byte>)
    requires b != [] && !NextToken(graphic, b).newline
    ensures ReadBack(NextToken(graphic, b).rendered) ==
              Some(if Utf8.RuneSize(b) > 0 then OfRune(Utf8.RuneValue(b)) else OfByte(b[0]))
  {
    var s := NextToken(graphic, b).rendered;
    var size := Utf8.RuneSize(b);
    if size == 0 {
      assert s == [BACKSLASH, 0x78] + Hex(b[0], 2) && s[2..] == Hex(b[0], 2);
      Powers();
      HexIsReadBack(b[0], 2);
      assert Utf8.RuneSize(s) == 1;
    } else if graphic(Utf8.RuneValue(b)) {
      Utf8.RuneIsLocal(b, size);
    } else {
      Utf8.DecodeThenEncode(b);
      EscapeIsReadBack(Utf8.RuneValue(b));
      EscapeStarts(Utf8.RuneValue(b));
    }
  }

  lemma EscapeStarts(r: int)
    requires Utf8.IsScalar(r)
    ensures Escape(r)[0] == 0x5c && Utf8.RuneSize(Escape(r)) == 1
  {
  }

  // ----- wrapping -----

  /** The drawing keeps to the rows; a wrapped line counts from what stands on it. */
  predicate InRows(ops: seq<Op>, rows: int, row: nat) {
    ops == []
    || match ops[0]
       case Text(_, _) => row < rows && InRows(ops[1..], rows, row)
       case HardBreak => row < rows && InRows(ops[1..], rows, row + 1)
       case SoftBreak => InRows(ops[1..], rows, row + 1)
  }

  /** What fits, for the search of the page end, is what is drawn on the rows. */
  lemma {:induction false} FitsWhatIsDrawnInRows(tokens: seq<Token>, columns: int, rows: int, cur: Cursor)
    ensures Fits(tokens, columns, rows, cur) <==> InRows(Drawn(tokens, cur.column, columns), rows, cur.row)
  {
    if tokens != [] {
      var t, rest := tokens[0], tokens[1..];
      var after := After(cur, t, columns);
      FitsWhatIsDrawnInRows(rest, columns, rows, after);
      var tail := Drawn(rest, after.column, columns);
      var text := Text(t.rendered, t.columns);
      assert ([HardBreak] + tail)[1..] == tail && ([text] + tail)[1..] == tail;
      assert ([SoftBreak, text] + tail)[1..] == [text] + tail;
    }
  }

  /** A page ends at the last token boundary up to which its own drawing keeps to the rows. */
  lemma PageIsLongestDrawing(graphic: int -> bool, s: seq<Byte>, start: nat, e: nat, columns: int, rows: int)
    requires start <= |s| && IsBoundary(graphic, s, start, e)
    ensures start <= e <= |s|
    ensures InRows(Drawn(TokensOf(graphic, s[start..e]), 0, columns), rows, 0)
       <==> e <= PageEnd(graphic, s, start, columns, rows)
  {
    PageIsLongestFit(graphic, s, start, e, columns, rows, TOP);
    FitsWhatIsDrawnInRows(TokensOf(graphic, s[start..e]), columns, rows, TOP);
  }

  /**
   Lines are broken only in front of a text that would not fit behind what stands on the line, and
   wherever it would not.
   */
  predicate WrapsWhereNeeded(ops: seq<Op>, columns: int, column: nat) {
    ops == []
    || match ops[0]
       case Text(_, width) =>
         && (column == 0 || column + width <= columns)
         && WrapsWhereNeeded(ops[1..], columns, column + width)
       case HardBreak => WrapsWhereNeeded(ops[1..], columns, 0)
       case SoftBreak =>
         && |ops| > 1 && ops[1].Text? && column > 0 && column + ops[1].columns > columns
         && WrapsWhereNeeded(ops[1..], columns, 0)
  }

  lemma {:induction false} DrawingWrapsWhereNeeded(tokens: seq<Token>, columns: int, column: nat)
    ensures WrapsWhereNeeded(Drawn(tokens, column, columns), columns, column)
  {
    if tokens != [] {
      var t, rest := tokens[0], tokens[1..];
      var next := if t.newline then 0 else if Wraps(column, t, columns) then t.columns else column + t.columns;
      DrawingWrapsWhereNeeded(rest, columns, next);
      var tail := Drawn(rest, next, columns);
      var text := Text(t.rendered, t.columns);
      assert ([HardBreak] + tail)[1..] == tail && ([text] + tail)[1..] == tail;
      assert ([SoftBreak, text] + tail)[1..] == [text] + tail;
    }
  }

  // ----- the frame, in cells -----

  /** Every text is drawn inside the frame, counting the cells the terminal gives it. */
  predicate CellsInFrame(width: int -> nat, ops: seq<Op>, columns: int, rows: int, row: nat, column: nat) {
    ops == []
    || match ops[0]
       case Text(bytes, _) =>
         && row < rows && column + Cells(width, bytes) <= columns
         && CellsInFrame(width, ops[1..], columns, rows, row, column + Cells(width, bytes))
       case HardBreak => row < rows && CellsInFrame(width, ops[1..], columns, rows, row + 1, 0)
       case SoftBreak => row + 1 < rows && CellsInFrame(width, ops[1..], columns, rows, row + 1, 0)
  }

  predicate Honest(width: int -> nat, ops: seq<Op>) {
    forall i :: 0 <= i < |ops| && ops[i].Text? ==> Cells(width, ops[i].bytes) <= ops[i].columns
  }

  lemma {:induction false} FrameHoldsInCells(
    width: int -> nat, ops: seq<Op>, columns: int, rows: int, row: nat, counted: nat, column: nat)
    requires Honest(width, ops) && InFrame(ops, columns, rows, row, counted) && column <= counted
    ensures CellsInFrame(width, ops, columns, rows, row, column)
  {
    if ops != [] {
      var rest := ops[1..];
      assert Honest(width, rest) by {
        forall i | 0 <= i < |rest| && rest[i].Text? ensures Cells(width, rest[i].bytes) <= rest[i].columns {
          assert rest[i] == ops[i + 1];
        }
      }
      match ops[0] {
        case Text(bytes, columns0) =>
          FrameHoldsInCells(width, rest, columns, rows, row, counted + columns0, column + Cells(width, bytes));
        case _ => FrameHoldsInCells(width, rest, columns, rows, row + 1, 0, 0);
      }
    }
  }

  lemma {:induction false} DrawingIsHonest(
    width: int -> nat, graphic: int -> bool, s: seq<Byte>, column: nat, columns: int)
    requires IsCellWidth(width) && ControlsNotGraphic(graphic)
    ensures Honest(width, Drawn(TokensOf(graphic, s), column, columns))
    decreases |s|
  {
    hide NextToken, Cells;
    if s != [] {
      var t := NextToken(graphic, s);
      TokenTakesWhatItCounts(width, graphic, s);
      var rest := s[t.sourceBytes..];
      var next := if t.newline then 0 else if Wraps(column, t, columns) then t.columns else column + t.columns;
      DrawingIsHonest(width, graphic, rest, next, columns);
      assert TokensOf(graphic, s)[1..] == TokensOf(graphic, rest);
    }
  }

  /** No row of a page takes more cells than it has columns, and no cell lands below the last row. */
  lemma PageStaysInFrameInCells(
    width: int -> nat, graphic: int -> bool, s: seq<Byte>, start: nat, columns: int, rows: int)
    requires IsCellWidth(width) && ControlsNotGraphic(graphic)
    requires start <= |s| && rows >= 1 && columns >= 10
    ensures var page := s[start..PageEnd(graphic, s, start, columns, rows)];
            CellsInFrame(width, Drawn(TokensOf(graphic, page), 0, columns), columns, rows, 0, 0)
  {
    var page := s[start..PageEnd(graphic, s, start, columns, rows)];
    PageStaysInFrame(graphic, s, start, columns, rows);
    DrawingIsHonest(width, graphic, page, 0, columns);
    FrameHoldsInCells(width, Drawn(TokensOf(graphic, page), 0, columns), columns, rows, 0, 0, 0);
  }

  /** The same of every page shown, on a screen of the given size, with the last line left to the footer. */
  lemma BodyStaysAboveFooterInCells(width: int -> nat, d: Document, v: View)
    requires IsCellWidth(width) && ControlsNotGraphic(d.graphic) && ValidView(d, v)
    ensures var ops := Drawn(TokensOf(d.graphic, d.text[Top(v)..Bottom(d, v)]), 0, v.width - 1);
            CellsInFrame(width, ops, v.width - 1, v.height - 4, 0, 0) && 2 + Breaks(ops) < v.height - 1
  {
    BodyStaysAboveFooter(d, v);
    PageStaysInFrameInCells(width, d.graphic, d.text, Top(v), v.width - 1, v.height - 4);
  }

  // ----- the frame and the keys, by the numbers -----

  /** There is a frame exactly with more than four lines, and room for the header and the longest footer. */
  lemma FrameNeeds(width: int, height: int, headerLength: nat)
    ensures FrameFits(width, height, headerLength) <==> height > 4 && width - 1 >= 2 + headerLength && width - 1 >= 45
  {
    assert |LONGEST_FOOTER| == 43;
  }

  predicate IsKey(ev: Event, lower: char, upper: char) {
    ev == Rune(lower as int) || ev == Rune(upper as int)
  }

  /** Which keys do what: q and Ctrl+C leave at any size; any other gesture at a new size only redraws. */
  lemma ViewerKeys(d: Document, v: View, g: Gesture)
    requires ValidView(d, v)
    ensures var moved := g.width != v.width || g.height != v.height;
            var closes := IsKey(g.ev, 'q', 'Q');
            && (closes ==> Respond(d, v, g) == Closes)
            && (g.ev == CtrlC ==> Respond(d, v, g) == Interrupts)
            && (!closes && g.ev != CtrlC && moved ==>
                  if g.height > 4 && g.width - 1 >= 2 + d.headerLength && g.width - 1 >= 45 then Respond(d, v, g).Shows?
                  else Respond(d, v, g) == FallsBack)
            && (!closes && g.ev != CtrlC && !moved && (g.ev == Space || g.ev == Enter) ==>
                  if Bottom(d, v) == |d.text| then Respond(d, v, g) == Ignores
                  else Respond(d, v, g).Shows? && Respond(d, v, g).view.page == v.page + 1)
            && (!moved && IsKey(g.ev, 'b', 'B') ==>
                  Respond(d, v, g) == if v.page == 0 then Ignores else Shows(v.(page := v.page - 1)))
            && (!moved && !g.ev.Space? && !g.ev.Enter? && !g.ev.CtrlC? && !closes && !IsKey(g.ev, 'b', 'B') ==>
                  Respond(d, v, g) == Ignores)
  {
    hide PageEnd, ChainTo;
    FrameNeeds(g.width, g.height, d.headerLength);
  }
}
