/** The viewer's loop: turning pages, going back, and reflowing when the terminal changes size. */
module ViewerNavigation {
  import opened Bytes
  import opened ViewerTokens
  import opened ViewerPages
  import opened KeyTokens

  const FRAME_ROWS := 4 // a labelled line above and below the body, and a blank one next to each
  const LONGEST_FOOTER := "more | Space/Enter next | b back | q closes"

  /** The frame of the given geometry has room for header, footer and at least one body row. */
  predicate FrameFits(width: int, height: int, headerLength: nat) {
    var columns := width - 1;
    height > FRAME_ROWS && columns >= 2 + headerLength && columns >= 2 + |LONGEST_FOOTER|
  }

  /** The text under the viewer, which runes of it are graphic, and the length of the header. */
  datatype Document = Document(graphic: int -> bool, text: seq<Byte>, headerLength: nat)

  /** Geometry, the page starts found so far, and the page on screen. */
  datatype View = View(width: int, height: int, starts: seq<nat>, page: nat) {
    function Columns(): int { width - 1 }
    function Rows(): int { height - FRAME_ROWS }
  }

  function EndFrom(d: Document, start: nat, columns: int, rows: int): (end: nat)
    requires start <= |d.text|
    ensures start <= end <= |d.text|
  {
    PageEnd(d.graphic, d.text, start, columns, rows)
  }

  lemma EndAdvances(d: Document, start: nat, columns: int, rows: int)
    requires start < |d.text| && rows >= 1
    ensures start < EndFrom(d, start, columns, rows)
  {
    PageAdvances(d.graphic, d.text, start, columns, rows);
  }

  /** `starts` is the iterated page-end chain from 0 for a geometry. */
  predicate IsChain(d: Document, starts: seq<nat>, columns: int, rows: int) {
    && starts != [] && starts[0] == 0
    && (forall i :: 0 <= i < |starts| ==> starts[i] <= |d.text|)
    && (forall i :: 0 < i < |starts| ==> starts[i] == EndFrom(d, starts[i - 1], columns, rows) && starts[i] < |d.text|)
  }

  predicate ValidView(d: Document, v: View) {
    && FrameFits(v.width, v.height, d.headerLength)
    && IsChain(d, v.starts, v.Columns(), v.Rows())
    && v.page < |v.starts|
  }

  function Top(v: View): nat
    requires v.page < |v.starts|
  {
    v.starts[v.page]
  }

  function Bottom(d: Document, v: View): nat
    requires ValidView(d, v)
  {
    EndFrom(d, Top(v), v.Columns(), v.Rows())
  }

  // ----- reflow -----

  /** The chain from 0 to the page that contains `target`, as a recursion on the last start found. */
  function ChainTo(d: Document, target: nat, columns: int, rows: int, starts: seq<nat>): (chain: seq<nat>)
    requires starts != [] && starts[|starts| - 1] <= |d.text| && rows >= 1
    ensures starts <= chain
    decreases |d.text| - starts[|starts| - 1]
  {
    var last := starts[|starts| - 1];
    var end := EndFrom(d, last, columns, rows);
    if end >= |d.text| || end > target then starts
    else
      PageAdvances(d.graphic, d.text, last, columns, rows);
      ChainTo(d, target, columns, rows, starts + [end])
  }

  /** The reflowed page starts at or before the old top, and ends behind it or at the end of the text. */
  lemma {:induction false} ChainContains(d: Document, target: nat, columns: int, rows: int, starts: seq<nat>)
    requires rows >= 1 && IsChain(d, starts, columns, rows) && starts[|starts| - 1] <= target
    ensures var chain := ChainTo(d, target, columns, rows, starts);
            var last := chain[|chain| - 1];
            && IsChain(d, chain, columns, rows)
            && last <= target
            && (EndFrom(d, last, columns, rows) > target || EndFrom(d, last, columns, rows) == |d.text|)
    decreases |d.text| - starts[|starts| - 1]
  {
    hide EndFrom;
    var last := starts[|starts| - 1];
    var end := EndFrom(d, last, columns, rows);
    if end < |d.text| && end <= target {
      EndAdvances(d, last, columns, rows);
      assert IsChain(d, starts + [end], columns, rows);
      ChainContains(d, target, columns, rows, starts + [end]);
    }
  }

  method ViewerPageStartsAt(d: Document, target: nat, columns: int, rows: int) returns (starts: seq<nat>, page: nat)
    requires rows >= 1
    ensures starts == ChainTo(d, target, columns, rows, [0]) && starts != [] && page == |starts| - 1
  {
    hide PageEnd;
    starts := [0];
    while true
      invariant starts != [] && starts[|starts| - 1] <= |d.text|
      invariant ChainTo(d, target, columns, rows, [0]) == ChainTo(d, target, columns, rows, starts)
      decreases |d.text| - starts[|starts| - 1]
    {
      page := |starts| - 1;
      var end := ViewerPageEnd(d.graphic, d.text, starts[page], columns, rows);
      if end >= |d.text| || end > target {
        return;
      }
      PageAdvances(d.graphic, d.text, starts[page], columns, rows);
      starts := starts + [end];
    }
  }

  // ----- one gesture -----

  /** A key event together with the terminal size found when it is handled. */
  datatype Gesture = Gesture(ev: Event, width: int, height: int)

  datatype Step = Shows(view: View) | Ignores | Closes | Interrupts | FallsBack

  predicate IsLetter(e: Event, lower: int) {
    e == Rune(lower) || e == Rune(lower - 32)
  }

  const KEY_Q := 0x71
  const KEY_B := 0x62

  /** A changed size consumes the gesture and redraws the page that contains the old top. */
  function Respond(d: Document, v: View, g: Gesture): Step
    requires ValidView(d, v)
  {
    var closing := g.ev.CtrlC? || IsLetter(g.ev, KEY_Q);
    if !closing && (g.width != v.width || g.height != v.height) then
      if !FrameFits(g.width, g.height, d.headerLength) then FallsBack
      else
        var starts := ChainTo(d, Top(v), g.width - 1, g.height - FRAME_ROWS, [0]);
        Shows(View(g.width, g.height, starts, |starts| - 1))
    else if IsLetter(g.ev, KEY_Q) then Closes
    else if g.ev.CtrlC? then Interrupts
    else if g.ev.Space? || g.ev.Enter? then
      var end := Bottom(d, v);
      if end < |d.text| then
        Shows(v.(page := v.page + 1, starts := if v.page + 1 == |v.starts| then v.starts + [end] else v.starts))
      else Ignores
    else if IsLetter(g.ev, KEY_B) && v.page > 0 then Shows(v.(page := v.page - 1))
    else Ignores
  }

  /** What a reflow around `target` puts on screen. */
  lemma ReflowedView(d: Document, target: nat, width: int, height: int)
    requires FrameFits(width, height, d.headerLength)
    ensures var starts := ChainTo(d, target, width - 1, height - FRAME_ROWS, [0]);
            var v := View(width, height, starts, |starts| - 1);
            && ValidView(d, v)
            && Top(v) <= target && (target < Bottom(d, v) || Bottom(d, v) == |d.text|)
  {
    hide EndFrom, ChainTo;
    ChainContains(d, target, width - 1, height - FRAME_ROWS, [0]);
  }

  /** Every gesture keeps the page starts on the page-end chain of the current geometry. */
  lemma RespondKeepsChain(d: Document, v: View, g: Gesture)
    requires ValidView(d, v) && Respond(d, v, g).Shows?
    ensures ValidView(d, Respond(d, v, g).view)
  {
    hide PageEnd, ChainTo;
    if FrameFits(g.width, g.height, d.headerLength) {
      ReflowedView(d, Top(v), g.width, g.height);
    }
  }

  /** Forward never skips a byte: the next page starts where the page on screen ends. */
  lemma ForwardSkipsNothing(d: Document, v: View, g: Gesture)
    requires ValidView(d, v) && (g.ev.Space? || g.ev.Enter?) && g.width == v.width && g.height == v.height
    ensures if Bottom(d, v) < |d.text|
            then Respond(d, v, g).Shows? && ValidView(d, Respond(d, v, g).view)
                 && Top(Respond(d, v, g).view) == Bottom(d, v)
            else Respond(d, v, g).Ignores?
  {
    hide PageEnd;
    if Respond(d, v, g).Shows? {
      RespondKeepsChain(d, v, g);
    }
  }

  /** Back returns to the page whose end is the top of the page on screen. */
  lemma BackIsPreviousPage(d: Document, v: View, g: Gesture)
    requires ValidView(d, v) && IsLetter(g.ev, KEY_B) && g.width == v.width && g.height == v.height
    ensures if v.page > 0
            then Respond(d, v, g).Shows? && ValidView(d, Respond(d, v, g).view)
                 && Bottom(d, Respond(d, v, g).view) == Top(v)
            else Respond(d, v, g).Ignores?
  {
    hide PageEnd;
    if Respond(d, v, g).Shows? {
      RespondKeepsChain(d, v, g);
    }
  }

  lemma Reflowed(d: Document, v: View, g: Gesture)
    requires ValidView(d, v) && !g.ev.CtrlC? && !IsLetter(g.ev, KEY_Q)
    requires (g.width != v.width || g.height != v.height) && FrameFits(g.width, g.height, d.headerLength)
    ensures var starts := ChainTo(d, Top(v), g.width - 1, g.height - FRAME_ROWS, [0]);
            Respond(d, v, g) == Shows(View(g.width, g.height, starts, |starts| - 1))
  {
    hide ChainTo, PageEnd;
  }

  /** After a reflow the page on screen still contains the byte that was on top. */
  lemma ReflowKeepsPlace(d: Document, v: View, g: Gesture)
    requires ValidView(d, v) && !g.ev.CtrlC? && !IsLetter(g.ev, KEY_Q)
    requires (g.width != v.width || g.height != v.height) && FrameFits(g.width, g.height, d.headerLength)
    ensures Respond(d, v, g).Shows?
    ensures var w := Respond(d, v, g).view;
            && ValidView(d, w) && w.width == g.width && w.height == g.height
            && Top(w) <= Top(v)
            && (Top(v) < Bottom(d, w) || Bottom(d, w) == |d.text|)
  {
    Reflowed(d, v, g);
    hide Respond, IsChain, Bottom, ChainTo, FrameFits;
    ReflowedView(d, Top(v), g.width, g.height);
  }

  /** Forward and back again is the page one came from. */
  lemma ForwardThenBack(d: Document, v: View, forward: Gesture, back: Gesture)
    requires ValidView(d, v) && (forward.ev.Space? || forward.ev.Enter?) && IsLetter(back.ev, KEY_B)
    requires forward.width == v.width == back.width && forward.height == v.height == back.height
    requires Bottom(d, v) < |d.text|
    ensures Respond(d, v, forward).Shows? && ValidView(d, Respond(d, v, forward).view)
    ensures var there := Respond(d, v, forward).view;
            && Respond(d, there, back).Shows?
            && var again := Respond(d, there, back).view;
               again.page == v.page && v.starts <= again.starts && Top(again) == Top(v)
  {
    hide PageEnd;
    ForwardSkipsNothing(d, v, forward);
  }

  // ----- the loop -----

  datatype Outcome = Closed | Interrupted | Fallback

  /** The views drawn, in order, and how the loop ends; the end of the events closes it. */
  function Session(d: Document, v: View, gestures: seq<Gesture>): (seq<View>, Outcome)
    requires ValidView(d, v)
    decreases |gestures|
  {
    if gestures == [] then ([], Closed)
    else
      match Respond(d, v, gestures[0])
      case Shows(w) =>
        RespondKeepsChain(d, v, gestures[0]);
        var (shown, outcome) := Session(d, w, gestures[1..]);
        ([w] + shown, outcome)
      case Ignores => Session(d, v, gestures[1..])
      case Closes => ([], Closed)
      case Interrupts => ([], Interrupted)
      case FallsBack => ([], Fallback)
  }

  /** Over every run, every view drawn has its page starts on the chain of its own geometry. */
  lemma {:induction false} SessionShowsValidViews(d: Document, v: View, gestures: seq<Gesture>)
    requires ValidView(d, v)
    ensures forall i :: 0 <= i < |Session(d, v, gestures).0| ==> ValidView(d, Session(d, v, gestures).0[i])
    decreases |gestures|
  {
    hide Respond, ValidView;
    if gestures != [] {
      match Respond(d, v, gestures[0]) {
        case Shows(w) =>
          RespondKeepsChain(d, v, gestures[0]);
          SessionShowsValidViews(d, w, gestures[1..]);
        case Ignores => SessionShowsValidViews(d, v, gestures[1..]);
        case _ =>
      }
    }
  }

  method ShowViewer(d: Document, width: int, height: int, gestures: seq<Gesture>)
    returns (shown: seq<View>, outcome: Outcome)
    requires FrameFits(width, height, d.headerLength)
    ensures var first := View(width, height, [0], 0);
            ValidView(d, first) && (shown, outcome) ==
                ([first] + Session(d, first, gestures).0, Session(d, first, gestures).1)
  {
    hide PageEnd, ChainTo, FrameFits, Respond;
    var v := View(width, height, [0], 0);
    ghost var first, whole := v, Session(d, v, gestures);
    var more: seq<View> := [];
    assert gestures[0..] == gestures && more + whole.0 == whole.0;
    for k := 0 to |gestures|
      invariant ValidView(d, v)
      invariant whole == Onward(more, Session(d, v, gestures[k..]))
    {
      var g := gestures[k];
      assert gestures[k..][0] == g && gestures[k..][1..] == gestures[k + 1..];
      assert more + [] == more;
      var w, step := HandleGesture(d, v, g);
      match step {
        case Closes => return [View(width, height, [0], 0)] + more, Closed;
        case Interrupts => return [View(width, height, [0], 0)] + more, Interrupted;
        case FallsBack => return [View(width, height, [0], 0)] + more, Fallback;
        case Ignores =>
        case Shows(_) =>
          RespondKeepsChain(d, v, g);
          OnwardAgain(more, w, Session(d, w, gestures[k + 1..]));
          v := w;
          more := more + [w];
      }
    }
    assert more + [] == more;
    return [View(width, height, [0], 0)] + more, Closed;
  }

  function Onward(shown: seq<View>, rest: (seq<View>, Outcome)): (seq<View>, Outcome) {
    (shown + rest.0, rest.1)
  }

  lemma OnwardAgain(shown: seq<View>, w: View, rest: (seq<View>, Outcome))
    ensures Onward(shown, ([w] + rest.0, rest.1)) == Onward(shown + [w], rest)
  {
    assert shown + ([w] + rest.0) == shown + [w] + rest.0;
  }

  /** The body of the loop: rechecks the geometry first, then acts on the key. */
  method HandleGesture(d: Document, v: View, g: Gesture) returns (w: View, step: Step)
    requires ValidView(d, v)
    ensures step == Respond(d, v, g) && (step.Shows? ==> w == step.view)
  {
    hide PageEnd;
    w := v;
    if !g.ev.CtrlC? && !IsLetter(g.ev, KEY_Q) {
      if g.width != v.width || g.height != v.height {
        if !FrameFits(g.width, g.height, d.headerLength) {
          return w, FallsBack;
        }
        var currentStart := v.starts[v.page];
        var starts, page := ViewerPageStartsAt(d, currentStart, g.width - 1, g.height - FRAME_ROWS);
        w := View(g.width, g.height, starts, page);
        return w, Shows(w);
      }
    }
    if IsLetter(g.ev, KEY_Q) {
      step := Closes;
    } else if g.ev.Space? || g.ev.Enter? {
      var end := ViewerPageEnd(d.graphic, d.text, v.starts[v.page], v.Columns(), v.Rows());
      if end < |d.text| {
        w := v.(page := v.page + 1);
        if w.page == |v.starts| {
          w := w.(starts := v.starts + [end]);
        }
        step := Shows(w);
      } else {
        step := Ignores;
      }
    } else if IsLetter(g.ev, KEY_B) {
      if v.page > 0 {
        w := v.(page := v.page - 1);
        step := Shows(w);
      } else {
        step := Ignores;
      }
    } else if g.ev.CtrlC? {
      step := Interrupts;
    } else {
      step := Ignores;
    }
  }

  /** The rendition without an alternate screen: the whole text, ending its last line (behind a fixed note). */
  function Scrollback(d: Document): seq<Byte> {
    Body(TokensOf(d.graphic, d.text), [LF]) + if d.text != [] && d.text[|d.text| - 1] != LF then [LF] else []
  }

  method WriteScrollback(d: Document) returns (out: seq<Byte>)
    ensures out == Scrollback(d)
  {
    out := WriteViewerBody(d.graphic, d.text, [LF]);
    if |d.text| > 0 && d.text[|d.text| - 1] != LF {
      out := out + [LF];
    }
  }

  /**
   The viewer from the outside: pages where a frame and raw mode are to be had, scrollback where
   they are not, and scrollback after all when a resize takes the frame away.
   */
  method ViewText(d: Document, noAlt: bool, rawMode: bool, width: int, height: int, gestures: seq<Gesture>)
    returns (shown: seq<View>, outcome: Outcome, scrollback: seq<Byte>)
    ensures forall i :: 0 <= i < |shown| ==> ValidView(d, shown[i])
    ensures shown == [] <==> noAlt || !rawMode || !FrameFits(width, height, d.headerLength)
    ensures shown == [] ==> outcome == Fallback
    ensures shown != [] ==> (shown, outcome) == var first := View(width, height, [0], 0);
                            ([first] + Session(d, first, gestures).0, Session(d, first, gestures).1)
    ensures scrollback == if outcome == Fallback then Scrollback(d) else []
  {
    hide Scrollback, FrameFits, Session;
    if noAlt || !FrameFits(width, height, d.headerLength) || !rawMode {
      scrollback := WriteScrollback(d);
      return [], Fallback, scrollback;
    }
    shown, outcome := ShowViewer(d, width, height, gestures);
    SessionShowsValidViews(d, View(width, height, [0], 0), gestures);
    scrollback := [];
    if outcome == Fallback {
      scrollback := WriteScrollback(d);
    }
  }

  /** Whatever is on screen stays above the footer: the body starts two lines down. */
  lemma BodyStaysAboveFooter(d: Document, v: View)
    requires ValidView(d, v)
    ensures var ops := Drawn(TokensOf(d.graphic, d.text[Top(v)..Bottom(d, v)]), 0, v.Columns());
            && InFrame(ops, v.Columns(), v.Rows(), 0, 0)
            && 2 + Breaks(ops) < v.height - 1
  {
    PageStaysInFrame(d.graphic, d.text, Top(v), v.Columns(), v.Rows());
  }
}
