/**
 Pages of the viewer. A page is the longest run of tokens that starts no token below the last
 row; the function that finds its end and the renderer that draws it wrap in the same places.
 */
module ViewerPages {
  import opened Bytes
  import opened ViewerTokens

  datatype Cursor = Cursor(row: nat, column: nat)

  const TOP := Cursor(0, 0)

  predicate Wraps(column: nat, t: Token, columns: int) {
    !t.newline && column > 0 && column + t.columns > columns
  }

  /** Where a token is put. */
  function Placed(cur: Cursor, t: Token, columns: int): Cursor {
    if Wraps(cur.column, t, columns) then Cursor(cur.row + 1, 0) else cur
  }

  function After(cur: Cursor, t: Token, columns: int): Cursor {
    var at := Placed(cur, t, columns);
    if t.newline then Cursor(at.row + 1, 0) else Cursor(at.row, at.column + t.columns)
  }

  /** Every token is put on one of the rows. */
  predicate Fits(tokens: seq<Token>, columns: int, rows: int, cur: Cursor) {
    tokens == []
    || (Placed(cur, tokens[0], columns).row < rows && Fits(tokens[1..], columns, rows, After(cur, tokens[0], columns)))
  }

  // ----- the end of a page -----

  function PageFrom(graphic: int -> bool, s: seq<Byte>, offset: nat, columns: int, rows: int, cur: Cursor): (end: nat)
    requires offset <= |s|
    ensures offset <= end <= |s|
    decreases |s| - offset
  {
    if offset == |s| then offset
    else
      var t := NextToken(graphic, s[offset..]);
      if Placed(cur, t, columns).row >= rows then offset
      else PageFrom(graphic, s, offset + t.sourceBytes, columns, rows, After(cur, t, columns))
  }

  function PageEnd(graphic: int -> bool, s: seq<Byte>, start: nat, columns: int, rows: int): (end: nat)
    requires start <= |s|
    ensures start <= end <= |s|
  {
    PageFrom(graphic, s, start, columns, rows, TOP)
  }

  /** The loop that finds where the page starting at `start` ends. */
  method ViewerPageEnd(graphic: int -> bool, s: seq<Byte>, start: nat, columns: int, rows: int) returns (end: nat)
    requires start <= |s| && rows >= 1
    ensures end == PageEnd(graphic, s, start, columns, rows)
  {
    hide NextToken;
    var row: nat, column: nat := 0, 0;
    var offset := start;
    while offset < |s|
      invariant start <= offset <= |s|
      invariant row < rows
      invariant PageEnd(graphic, s, start, columns, rows) ==
          PageFrom(graphic, s, offset, columns, rows, Cursor(row, column))
    {
      var token := NextToken(graphic, s[offset..]);
      if token.newline {
        offset := offset + token.sourceBytes;
        row := row + 1;
        column := 0;
        if row >= rows {
          NothingBelow(graphic, s, offset, columns, rows, Cursor(row, 0));
          return offset;
        }
      } else {
        if column > 0 && column + token.columns > columns {
          row := row + 1;
          column := 0;
          if row >= rows {
            return offset;
          }
        }
        offset := offset + token.sourceBytes;
        column := column + token.columns;
        if offset == |s| {
          return offset;
        }
      }
    }
    return |s|;
  }

  lemma NothingBelow(graphic: int -> bool, s: seq<Byte>, offset: nat, columns: int, rows: int, cur: Cursor)
    requires offset <= |s| && cur.row >= rows
    ensures PageFrom(graphic, s, offset, columns, rows, cur) == offset
  {
  }

  lemma PageFromIsBoundary(graphic: int -> bool, s: seq<Byte>, offset: nat, columns: int, rows: int, cur: Cursor)
    requires offset <= |s|
    ensures IsBoundary(graphic, s, offset, PageFrom(graphic, s, offset, columns, rows, cur))
    decreases |s| - offset
  {
    hide NextToken;
    if offset < |s| {
      var t := NextToken(graphic, s[offset..]);
      if Placed(cur, t, columns).row < rows {
        PageFromIsBoundary(graphic, s, offset + t.sourceBytes, columns, rows, After(cur, t, columns));
      }
    }
  }

  /** With at least one row every page takes something, so paging always reaches the end. */
  lemma PageAdvances(graphic: int -> bool, s: seq<Byte>, start: nat, columns: int, rows: int)
    requires start < |s| && rows >= 1
    ensures start < PageEnd(graphic, s, start, columns, rows)
  {
    hide NextToken;
    var t := NextToken(graphic, s[start..]);
    assert Placed(TOP, t, columns) == TOP;
  }

  lemma FirstTokenOfSlice(graphic: int -> bool, s: seq<Byte>, a: nat, e: nat)
    requires a < e && IsBoundary(graphic, s, a, e) && a < |s|
    ensures var t := NextToken(graphic, s[a..]);
            && a + t.sourceBytes <= e <= |s|
            && TokensOf(graphic, s[a..e]) == [t] + TokensOf(graphic, s[a + t.sourceBytes..e])
  {
    hide NextToken;
    var t := NextToken(graphic, s[a..]);
    BoundaryInRange(graphic, s, a + t.sourceBytes, e);
    assert s[a..][..e - a] == s[a..e];
    TokenIsLocal(graphic, s[a..], e - a);
    assert s[a..e][t.sourceBytes..] == s[a + t.sourceBytes..e];
  }

  /** The end of a page is the last token boundary up to which everything fits on the rows. */
  lemma {:induction false} PageIsLongestFit(
    graphic: int -> bool, s: seq<Byte>, a: nat, e: nat, columns: int, rows: int, cur: Cursor)
    requires a <= |s| && IsBoundary(graphic, s, a, e)
    ensures a <= e <= |s|
    ensures Fits(TokensOf(graphic, s[a..e]), columns, rows, cur)
       <==> e <= PageFrom(graphic, s, a, columns, rows, cur)
    decreases |s| - a
  {
    hide NextToken;
    BoundaryInRange(graphic, s, a, e);
    if a == e {
      assert s[a..e] == [];
    } else {
      var t := NextToken(graphic, s[a..]);
      FirstTokenOfSlice(graphic, s, a, e);
      PageIsLongestFit(graphic, s, a + t.sourceBytes, e, columns, rows, After(cur, t, columns));
      assert TokensOf(graphic, s[a..e])[1..] == TokensOf(graphic, s[a + t.sourceBytes..e]);
    }
  }

  // ----- all the pages of a text -----

  function Pages(graphic: int -> bool, s: seq<Byte>, start: nat, columns: int, rows: int): seq<seq<Byte>>
    requires start <= |s| && rows >= 1
    decreases |s| - start
  {
    if start == |s| then []
    else
      PageAdvances(graphic, s, start, columns, rows);
      var end := PageEnd(graphic, s, start, columns, rows);
      [s[start..end]] + Pages(graphic, s, end, columns, rows)
  }

  function AllTokens(graphic: int -> bool, pages: seq<seq<Byte>>): seq<Token> {
    if pages == [] then [] else TokensOf(graphic, pages[0]) + AllTokens(graphic, pages[1..])
  }

  /** Nothing lost, nothing split: the pages are the text, and their tokens are the text's tokens. */
  lemma {:induction false} PagesTileTheText(graphic: int -> bool, s: seq<Byte>, start: nat, columns: int, rows: int)
    requires start <= |s| && rows >= 1
    ensures var pages := Pages(graphic, s, start, columns, rows);
            && Flatten(pages) == s[start..]
            && AllTokens(graphic, pages) == TokensOf(graphic, s[start..])
            && forall i :: 0 <= i < |pages| ==> pages[i] != []
    decreases |s| - start
  {
    hide NextToken, PageEnd;
    if start < |s| {
      var end := PageEnd(graphic, s, start, columns, rows);
      PageAdvances(graphic, s, start, columns, rows);
      PageEndIsBoundary(graphic, s, start, columns, rows);
      TokensSplit(graphic, s, start, end);
      PagesTileTheText(graphic, s, end, columns, rows);
      assert s[start..] == s[start..end] + s[end..];
    }
  }

  lemma PageEndIsBoundary(graphic: int -> bool, s: seq<Byte>, start: nat, columns: int, rows: int)
    requires start <= |s|
    ensures IsBoundary(graphic, s, start, PageEnd(graphic, s, start, columns, rows))
  {
    PageFromIsBoundary(graphic, s, start, columns, rows, TOP);
  }

  // ----- drawing a page -----

  /** What the renderer writes: text, the text's own line breaks, and breaks it puts in itself. */
  datatype Op = Text(bytes: seq<Byte>, columns: nat) | HardBreak | SoftBreak

  const LINE_BREAK: seq<Byte> := [CR, LF]

  function Drawn(tokens: seq<Token>, column: nat, columns: int): seq<Op> {
    if tokens == [] then []
    else
      var t, rest := tokens[0], tokens[1..];
      if t.newline then [HardBreak] + Drawn(rest, 0, columns)
      else if Wraps(column, t, columns) then
        [SoftBreak, Text(t.rendered, t.columns)] + Drawn(rest, t.columns, columns)
      else [Text(t.rendered, t.columns)] + Drawn(rest, column + t.columns, columns)
  }

  function Written(op: Op): seq<Byte> {
    if op.Text? then op.bytes else LINE_BREAK
  }

  function Output(ops: seq<Op>): seq<Byte> {
    if ops == [] then [] else Written(ops[0]) + Output(ops[1..])
  }

  function WithoutSoftBreaks(ops: seq<Op>): seq<Op> {
    if ops == [] then []
    else (if ops[0].SoftBreak? then [] else [ops[0]]) + WithoutSoftBreaks(ops[1..])
  }

  lemma OutputConcat(a: seq<Op>, b: seq<Op>)
    ensures Output(a + b) == Output(a) + Output(b)
  {
    if a == [] {
      assert a + b == b;
    } else {
      assert (a + b)[1..] == a[1..] + b;
      OutputConcat(a[1..], b);
    }
  }

  lemma DrawnStep(graphic: int -> bool, rest: seq<Byte>, column: nat, columns: int)
    requires rest != []
    ensures var t := NextToken(graphic, rest);
            var more := TokensOf(graphic, rest[t.sourceBytes..]);
            Output(Drawn(TokensOf(graphic, rest), column, columns)) ==
              if t.newline then LINE_BREAK + Output(Drawn(more, 0, columns))
              else if Wraps(column, t, columns) then LINE_BREAK + t.rendered + Output(Drawn(more, t.columns, columns))
              else t.rendered + Output(Drawn(more, column + t.columns, columns))
  {
    hide NextToken;
    var t := NextToken(graphic, rest);
    var more := TokensOf(graphic, rest[t.sourceBytes..]);
    assert TokensOf(graphic, rest) == [t] + more;
    assert ([t] + more)[1..] == more;
    var text := Text(t.rendered, t.columns);
    var tail := Drawn(more, t.columns, columns);
    assert ([SoftBreak, text] + tail)[1..] == [text] + tail && ([text] + tail)[1..] == tail;
    assert Output([SoftBreak, text] + tail) == LINE_BREAK + (t.rendered + Output(tail));
    assert LINE_BREAK + (t.rendered + Output(tail)) == LINE_BREAK + t.rendered + Output(tail);
  }

  /** The renderer: bytes out, wrapping by the same rule as the page-end search. */
  method WriteViewerPage(graphic: int -> bool, page: seq<Byte>, columns: int) returns (out: seq<Byte>)
    ensures out == Output(Drawn(TokensOf(graphic, page), 0, columns))
  {
    hide NextToken, TokensOf, Drawn, Output;
    out := [];
    var column: nat := 0;
    var rest := page;
    while |rest| > 0
      invariant out + Output(Drawn(TokensOf(graphic, rest), column, columns)) ==
          Output(Drawn(TokensOf(graphic, page), 0, columns))
      decreases |rest|
    {
      var token := NextToken(graphic, rest);
      DrawnStep(graphic, rest, column, columns);
      if token.newline {
        out := out + LINE_BREAK;
        column := 0;
      } else {
        if column > 0 && column + token.columns > columns {
          out := out + LINE_BREAK;
          column := 0;
        }
        out := out + token.rendered;
        column := column + token.columns;
      }
      rest := rest[token.sourceBytes..];
    }
    assert Output(Drawn(TokensOf(graphic, rest), column, columns)) == [] by {
      NothingDrawn(graphic, rest, column, columns);
    }
  }

  lemma NothingDrawn(graphic: int -> bool, rest: seq<Byte>, column: nat, columns: int)
    requires rest == []
    ensures Output(Drawn(TokensOf(graphic, rest), column, columns)) == []
  {
  }

  // ----- what the pages show together -----

  /** Soft breaks erased, a page shows its tokens exactly as the scrollback rendition does. */
  lemma {:induction false} ErasedPageIsBody(tokens: seq<Token>, column: nat, columns: int)
    ensures Output(WithoutSoftBreaks(Drawn(tokens, column, columns))) == Body(tokens, LINE_BREAK)
  {
    if tokens != [] {
      var t, rest := tokens[0], tokens[1..];
      var next := if t.newline then 0 else if Wraps(column, t, columns) then t.columns else column + t.columns;
      ErasedPageIsBody(rest, next, columns);
      var op := if t.newline then HardBreak else Text(t.rendered, t.columns);
      var tail := Drawn(rest, next, columns);
      assert Drawn(tokens, column, columns) ==
             if Wraps(column, t, columns) then [SoftBreak, op] + tail else [op] + tail;
      EraseFront(op, tail);
      hide Drawn, WithoutSoftBreaks;
      assert ([op] + WithoutSoftBreaks(tail))[1..] == WithoutSoftBreaks(tail);
    }
  }

  lemma EraseFront(op: Op, tail: seq<Op>)
    requires !op.SoftBreak?
    ensures WithoutSoftBreaks([op] + tail) == [op] + WithoutSoftBreaks(tail)
    ensures WithoutSoftBreaks([SoftBreak, op] + tail) == [op] + WithoutSoftBreaks(tail)
  {
    assert ([op] + tail)[1..] == tail && ([SoftBreak, op] + tail)[1..] == [op] + tail;
  }

  /** The renderings of the pages, one after the other, soft breaks erased. */
  function ErasedPages(graphic: int -> bool, pages: seq<seq<Byte>>, columns: int): seq<Byte> {
    if pages == [] then []
    else
      Output(WithoutSoftBreaks(Drawn(TokensOf(graphic, pages[0]), 0, columns)))
      + ErasedPages(graphic, pages[1..], columns)
  }

  lemma BodyConcat(a: seq<Token>, b: seq<Token>, newline: seq<Byte>)
    ensures Body(a + b, newline) == Body(a, newline) + Body(b, newline)
  {
    if a == [] {
      assert a + b == b;
    } else {
      assert (a + b)[1..] == a[1..] + b;
      BodyConcat(a[1..], b, newline);
    }
  }

  lemma {:induction false} ErasedPagesAreBody(graphic: int -> bool, pages: seq<seq<Byte>>, columns: int)
    ensures ErasedPages(graphic, pages, columns) == Body(AllTokens(graphic, pages), LINE_BREAK)
  {
    if pages != [] {
      ErasedPagesAreBody(graphic, pages[1..], columns);
      ErasedPageIsBody(TokensOf(graphic, pages[0]), 0, columns);
      BodyConcat(TokensOf(graphic, pages[0]), AllTokens(graphic, pages[1..]), LINE_BREAK);
    }
  }

  /** For arbitrary bytes: all pages together show the whole text, and nothing else. */
  lemma PagesShowTheText(graphic: int -> bool, s: seq<Byte>, columns: int, rows: int)
    requires rows >= 1
    ensures ErasedPages(graphic, Pages(graphic, s, 0, columns, rows), columns) == Body(TokensOf(graphic, s), LINE_BREAK)
  {
    hide Pages;
    PagesTileTheText(graphic, s, 0, columns, rows);
    ErasedPagesAreBody(graphic, Pages(graphic, s, 0, columns, rows), columns);
    assert s[0..] == s;
  }

  // ----- a page stays in its frame -----

  /** Every text is drawn inside the frame; a break may leave the last row only by ending the page. */
  predicate InFrame(ops: seq<Op>, columns: int, rows: int, row: nat, column: nat) {
    ops == []
    || match ops[0]
       case Text(_, width) =>
         row < rows && column + width <= columns && InFrame(ops[1..], columns, rows, row, column + width)
       case HardBreak => row < rows && InFrame(ops[1..], columns, rows, row + 1, 0)
       case SoftBreak => row + 1 < rows && InFrame(ops[1..], columns, rows, row + 1, 0)
  }

  predicate NarrowTokens(tokens: seq<Token>, columns: int) {
    forall i :: 0 <= i < |tokens| ==> tokens[i].columns <= columns
  }

  lemma {:induction false} FittingTokensInFrame(tokens: seq<Token>, columns: int, rows: int, row: nat, column: nat)
    requires Fits(tokens, columns, rows, Cursor(row, column)) && NarrowTokens(tokens, columns)
    ensures InFrame(Drawn(tokens, column, columns), columns, rows, row, column)
  {
    if tokens != [] {
      var t, rest := tokens[0], tokens[1..];
      var after := After(Cursor(row, column), t, columns);
      FittingTokensInFrame(rest, columns, rows, after.row, after.column);
      var tail := Drawn(rest, after.column, columns);
      var text := Text(t.rendered, t.columns);
      assert ([HardBreak] + tail)[1..] == tail && ([text] + tail)[1..] == tail;
      assert ([SoftBreak, text] + tail)[1..] == [text] + tail;
    }
  }

  lemma TokensAreNarrow(graphic: int -> bool, s: seq<Byte>, columns: int)
    requires columns >= 10
    ensures NarrowTokens(TokensOf(graphic, s), columns)
    decreases |s|
  {
    hide NextToken;
    if s != [] {
      TokensAreNarrow(graphic, s[NextToken(graphic, s).sourceBytes..], columns);
    }
  }

  function Breaks(ops: seq<Op>): nat {
    if ops == [] then 0 else (if ops[0].Text? then 0 else 1) + Breaks(ops[1..])
  }

  lemma {:induction false} FrameBoundsBreaks(ops: seq<Op>, columns: int, rows: int, row: nat, column: nat)
    requires InFrame(ops, columns, rows, row, column) && row <= rows
    ensures row + Breaks(ops) <= rows
    ensures ops != [] && row + Breaks(ops) == rows ==> ops[|ops| - 1] == HardBreak
  {
    if ops != [] {
      var next := if ops[0].Text? then row else row + 1;
      FrameBoundsBreaks(ops[1..], columns, rows, next, if ops[0].Text? then column + ops[0].columns else 0);
      if |ops| > 1 {
        assert ops[|ops| - 1] == ops[1..][|ops| - 2];
      } else {
        assert ops[1..] == [];
      }
    }
  }

  /**
   A page drawn in a frame of at least ten columns: no text beyond the last column or below the
   last row, at most `rows` breaks, and that many only when the page ends in its own line break.
   */
  lemma PageStaysInFrame(graphic: int -> bool, s: seq<Byte>, start: nat, columns: int, rows: int)
    requires start <= |s| && rows >= 1 && columns >= 10
    ensures var ops := Drawn(TokensOf(graphic, s[start..PageEnd(graphic, s, start, columns, rows)]), 0, columns);
            && InFrame(ops, columns, rows, 0, 0)
            && Breaks(ops) <= rows
            && (ops != [] && Breaks(ops) == rows ==> ops[|ops| - 1] == HardBreak)
  {
    var end := PageEnd(graphic, s, start, columns, rows);
    var tokens := TokensOf(graphic, s[start..end]);
    PageEndIsBoundary(graphic, s, start, columns, rows);
    PageIsLongestFit(graphic, s, start, end, columns, rows, TOP);
    TokensAreNarrow(graphic, s[start..end], columns);
    FittingTokensInFrame(tokens, columns, rows, 0, 0);
    FrameBoundsBreaks(Drawn(tokens, 0, columns), columns, rows, 0, 0);
  }
}
