/** The scrollback refines a terminal that never forgets a line, and every run of the console keeps
    its invariants. */
module ConsoleHistory {
  import opened ConsoleState
  import opened ConsoleInvariants

  /** A terminal with all the lines ever written since the last clear. */
  datatype Terminal = Terminal(lines: seq<Line>, column: nat, colour: nat, attribute: Byte)

  predicate Formed(h: Terminal) {
    |h.lines| > 0 && (forall k :: 0 <= k < |h.lines| ==> |h.lines[k]| == SCROLLBACK_COLS) && h.column <= COLS
  }

  function HistoryNewline(h: Terminal): Terminal {
    h.(lines := h.lines + [BlankLine()], column := 0)
  }

  function HistoryPut(h: Terminal, value: Byte): Terminal
    requires Formed(h)
  {
    var t := if h.column >= COLS then HistoryNewline(h) else h;
    var last := |t.lines| - 1;
    var line: Line := t.lines[last][t.column := Cell(value, t.colour, t.attribute)];
    t.(lines := t.lines[last := line], column := t.column + 1)
  }

  function HistorySpaces(h: Terminal, n: nat): (r: Terminal)
    requires Formed(h)
    ensures Formed(r)
    decreases n
  {
    if n == 0 then h else HistorySpaces(HistoryPut(h, SPACE), n - 1)
  }

  function HistoryWrite(h: Terminal, value: Byte): (r: Terminal)
    requires Formed(h)
    ensures Formed(r)
  {
    if value == RETURN then h.(column := 0)
    else if value == NEWLINE then HistoryNewline(h)
    else if value == TAB then HistorySpaces(h, 4)
    else HistoryPut(h, value)
  }

  predicate LineKept(s: Console, h: Terminal, k: nat)
    requires Shape(s) && k < s.totalLines <= SCROLLBACK_ROWS && s.totalLines <= |h.lines|
  {
    s.cells[k] == h.lines[|h.lines| - s.totalLines + k]
  }

  /** The store holds the last 512 lines of the history, or all of them. */
  predicate Holds(s: Console, h: Terminal)
    requires Shape(s)
  {
    && Formed(h)
    && s.totalLines == (if |h.lines| < SCROLLBACK_ROWS then |h.lines| else SCROLLBACK_ROWS)
    && (forall k: nat {:trigger LineKept(s, h, k)} :: k < s.totalLines ==> LineKept(s, h, k))
    && s.currentColumn == h.column && s.colour == h.colour && s.attribute == h.attribute
  }

  // ----- What a character does to the history -----

  lemma NewlineStore(s: Console)
    requires Inv(s)
    ensures var t := AppendNewLine(s); var a := AdvanceLine(s);
            t.cells == a.cells && t.totalLines == a.totalLines && t.currentColumn == a.currentColumn
            && t.colour == a.colour && t.attribute == a.attribute
  {
  }

  lemma NewlineHolds(s: Console, h: Terminal)
    requires Inv(s) && Holds(s, h)
    ensures Holds(AppendNewLine(s), HistoryNewline(h))
  {
    hide Synced, AppendNewLine;
    var t := AppendNewLine(s);
    var g := HistoryNewline(h);
    AdvancePlaces(s);
    NewlineStore(s);
    forall k: nat | k < t.totalLines ensures LineKept(t, g, k) {
      if s.currentLine + 1 < SCROLLBACK_ROWS {
        if k < s.totalLines {
          assert LineKept(s, h, k);
        }
      } else if k + 1 < SCROLLBACK_ROWS {
        assert LineKept(s, h, k + 1);
      }
    }
  }

  lemma PutStore(s: Console, value: Byte)
    requires Inv(s) && s.currentColumn < COLS
    ensures var t := PutCell(s, value); var a := StoreCell(s, value);
            t.cells == a.cells && t.totalLines == s.totalLines && t.currentColumn == s.currentColumn + 1
            && t.colour == s.colour && t.attribute == s.attribute
  {
    hide Synced;
  }

  lemma PutHolds(s: Console, h: Terminal, value: Byte)
    requires Inv(s) && Holds(s, h) && s.currentColumn < COLS
    ensures Holds(PutCell(s, value), HistoryPut(h, value))
  {
    hide Synced, PutCell;
    var t := PutCell(s, value);
    var g := HistoryPut(h, value);
    PutStore(s, value);
    forall k: nat | k < t.totalLines ensures LineKept(t, g, k) {
      assert LineKept(s, h, k);
    }
  }

  lemma StoreHolds(s: Console, h: Terminal, value: Byte)
    requires Inv(s) && Holds(s, h)
    ensures Holds(StorePrintable(s, value), HistoryPut(h, value))
  {
    hide Synced, PutCell, AppendNewLine;
    if s.currentColumn >= COLS {
      NewlinePlaces(s);
      NewlineColumn(s);
      NewlineHolds(s, h);
      PutHolds(AppendNewLine(s), HistoryNewline(h), value);
    } else {
      PutHolds(s, h, value);
    }
  }

  lemma {:induction false} SpacesHold(s: Console, h: Terminal, n: nat)
    requires Inv(s) && Fresh(s) && Holds(s, h)
    ensures Holds(WriteSpaces(s, n), HistorySpaces(h, n))
    decreases n
  {
    hide Placed, Synced, Fresh, Consistent, StorePrintable, HistoryPut;
    if n > 0 {
      StoreKeeps(s, SPACE);
      StoreHolds(s, h, SPACE);
      SpacesHold(StorePrintable(s, SPACE), HistoryPut(h, SPACE), n - 1);
    }
  }

  lemma WriteHolds(s: Console, h: Terminal, value: Byte)
    requires Inv(s) && Fresh(s) && Holds(s, h)
    ensures Holds(WriteChar(s, value), HistoryWrite(h, value))
  {
    hide Placed, Synced, Fresh, Consistent, StorePrintable, AppendNewLine, HistoryPut, WriteSpaces, HistorySpaces;
    if value == RETURN {
      var t := s.(currentColumn := 0);
      forall k: nat | k < t.totalLines ensures LineKept(t, h.(column := 0), k) {
        assert LineKept(s, h, k);
      }
    } else if value == NEWLINE {
      NewlineHolds(s, h);
    } else if value == TAB {
      SpacesHold(s, h, 4);
    } else {
      StoreHolds(s, h, value);
    }
  }

  // ----- Runs -----

  datatype Op =
    | Write(value: Byte)
    | Up(lines: nat)
    | Down(lines: nat)
    | Bottom
    | Clear
    | Colour(colour: nat, attribute: Byte)

  function Step(s: Console, op: Op): (t: Console)
    requires Shape(s)
    ensures Shape(t)
  {
    match op
    case Write(value) => WriteChar(s, value)
    case Up(lines) => ScrollUp(s, lines).0
    case Down(lines) => ScrollDown(s, lines).0
    case Bottom => ScrollToBottom(s)
    case Clear => ClearScreen(s)
    case Colour(colour, attribute) => SetColour(s, colour, attribute)
  }

  function HistoryStep(h: Terminal, op: Op): (r: Terminal)
    requires Formed(h)
    ensures Formed(r)
  {
    match op
    case Write(value) => HistoryWrite(h, value)
    case Clear => h.(lines := [BlankLine()], column := 0)
    case Colour(colour, attribute) => h.(colour := colour, attribute := attribute)
    case _ => h
  }

  /** A stored line is dropped under a pinned view, and that can be seen. */
  predicate StepSpoils(s: Console, op: Op)
    requires Shape(s)
  {
    op.Write? && WriteDrops(s, op.value) && !TopLooksUniform(s)
  }

  /** The view moves, and everything is drawn again: the store and the cursor stay. */
  lemma ViewMoved(s: Console, h: Terminal, t: Console, top: nat)
    requires Inv(s) && Holds(s, h) && top <= MaximumViewTop(s)
    requires t == RenderVisible(s.(viewTop := top, followsTail := top == MaximumViewTop(s)))
    ensures Inv(t) && Consistent(t) && Holds(t, h)
  {
    hide Synced, Consistent;
    RenderVisibleFull(s.(viewTop := top, followsTail := top == MaximumViewTop(s)));
    forall k: nat | k < t.totalLines ensures LineKept(t, h, k) {
      assert LineKept(s, h, k);
    }
  }

  lemma ClearKeeps(s: Console, h: Terminal)
    requires Shape(s) && Holds(s, h)
    ensures var t := ClearScreen(s); Inv(t) && Consistent(t) && Holds(t, h.(lines := [BlankLine()], column := 0))
  {
    hide Synced, Consistent;
    var t := ClearScreen(s);
    RenderVisibleFull(ResetDirty(ClearScrollback(s)));
    var g := h.(lines := [BlankLine()], column := 0);
    forall k: nat | k < t.totalLines ensures LineKept(t, g, k) {
    }
  }

  lemma ColourKeeps(s: Console, h: Terminal, colour: nat, attribute: Byte)
    requires Inv(s) && Fresh(s) && Holds(s, h)
    ensures var t := SetColour(s, colour, attribute);
            Inv(t) && Fresh(t) && Holds(t, h.(colour := colour, attribute := attribute)) && (Consistent(s) ==> Consistent(t))
  {
    hide Synced, RenderRow;
    var t := SetColour(s, colour, attribute);
    SyncedSame(s, t);
    RenderSame(s, t);
    var g := h.(colour := colour, attribute := attribute);
    forall k: nat | k < t.totalLines ensures LineKept(t, g, k) {
      assert LineKept(s, h, k);
    }
  }

  lemma ScrollKeeps(s: Console, h: Terminal, op: Op)
    requires Inv(s) && Fresh(s) && Holds(s, h) && (op.Up? || op.Down? || op.Bottom?)
    ensures var t := Step(s, op); Inv(t) && Fresh(t) && Holds(t, h) && (Consistent(s) ==> Consistent(t))
  {
    hide Synced, Render, RenderRow, RenderVisible;
    var t := Step(s, op);
    if op.Down? && MaximumViewTop(s) <= s.viewTop {
      assert t == s;
    } else if t != s {
      var top: nat :=
        if op.Up? then (if op.lines > s.viewTop then 0 else s.viewTop - op.lines)
        else if op.Down? && op.lines <= MaximumViewTop(s) - s.viewTop then s.viewTop + op.lines
        else MaximumViewTop(s);
      assert t == RenderVisible(s.(viewTop := top, followsTail := top == MaximumViewTop(s)));
      ViewMoved(s, h, t, top);
    }
  }

  /** One operation keeps every invariant and the refinement, and the shadow stays a full redraw
      exactly when it does not visibly drop a line under a pinned view. */
  lemma StepKeeps(s: Console, h: Terminal, op: Op)
    requires Inv(s) && Fresh(s) && Holds(s, h)
    ensures var t := Step(s, op);
            && Inv(t) && Fresh(t) && Holds(t, HistoryStep(h, op))
            && (Consistent(s) ==> (Consistent(t) <==> !StepSpoils(s, op)))
  {
    hide Placed, Synced, Consistent, Fresh, Holds, WriteChar, HistoryWrite, ScrollUp, ScrollDown, ScrollToBottom,
         ClearScreen, SetColour, WriteDrops, TopLooksUniform;
    match op
    case Write(value) => WriteKeeps(s, value); WriteHolds(s, h, value);
    case Clear => ClearKeeps(s, h); ConsistentIsFresh(ClearScreen(s));
    case Colour(colour, attribute) => ColourKeeps(s, h, colour, attribute);
    case _ => ScrollKeeps(s, h, op);
  }

  lemma ConsistentIsFresh(s: Console)
    requires Shape(s)
    ensures Consistent(s) ==> Fresh(s)
  {
  }

  function Run(s: Console, ops: seq<Op>): (t: Console)
    requires Shape(s)
    ensures Shape(t)
    decreases |ops|
  {
    if ops == [] then s else Run(Step(s, ops[0]), ops[1..])
  }

  function HistoryRun(h: Terminal, ops: seq<Op>): (r: Terminal)
    requires Formed(h)
    ensures Formed(r)
    decreases |ops|
  {
    if ops == [] then h else HistoryRun(HistoryStep(h, ops[0]), ops[1..])
  }

  predicate RunSpoils(s: Console, ops: seq<Op>)
    requires Shape(s)
    decreases |ops|
  {
    ops != [] && (StepSpoils(s, ops[0]) || RunSpoils(Step(s, ops[0]), ops[1..]))
  }

  /** The shadow is a full redraw before the run and after every step of it. */
  predicate AlwaysConsistent(s: Console, ops: seq<Op>)
    requires Shape(s)
    decreases |ops|
  {
    Consistent(s) && (ops != [] ==> AlwaysConsistent(Step(s, ops[0]), ops[1..]))
  }

  lemma {:induction false} RunKeeps(s: Console, h: Terminal, ops: seq<Op>)
    requires Inv(s) && Fresh(s) && Holds(s, h)
    ensures var t := Run(s, ops);
            && Inv(t) && Fresh(t) && Holds(t, HistoryRun(h, ops))
            && (Consistent(s) ==> (AlwaysConsistent(s, ops) <==> !RunSpoils(s, ops)))
            && (AlwaysConsistent(s, ops) ==> Consistent(t))
    decreases |ops|
  {
    hide Placed, Synced, Consistent, Fresh, Step, HistoryStep, StepSpoils;
    if ops != [] {
      StepKeeps(s, h, ops[0]);
      RunKeeps(Step(s, ops[0]), HistoryStep(h, ops[0]), ops[1..]);
    }
  }

  /** Power on in VGA mode: whatever the buffers held, everything is cleared and drawn. */
  function Init(shadow: seq<Row>, screen: seq<Row>): (t: Console)
    requires |shadow| == ROWS && |screen| == ROWS
    requires forall r :: 0 <= r < ROWS ==> |shadow[r]| == COLS && |screen[r]| == COLS
    ensures Shape(t)
  {
    RenderVisible(ClearScrollback(
      Console(seq(SCROLLBACK_ROWS, _ => BlankLine()), 0, 0, 0, 0, true, DEFAULT_COLOUR, DEFAULT_ATTRIBUTE,
              false, 0, 0, 0, shadow, screen)))
  }

  const OPENING: Terminal := Terminal([BlankLine()], 0, DEFAULT_COLOUR, DEFAULT_ATTRIBUTE)

  lemma InitHolds(shadow: seq<Row>, screen: seq<Row>)
    requires |shadow| == ROWS && |screen| == ROWS
    requires forall r :: 0 <= r < ROWS ==> |shadow[r]| == COLS && |screen[r]| == COLS
    ensures var s := Init(shadow, screen); Inv(s) && Consistent(s) && Holds(s, OPENING)
  {
    hide Synced, Consistent;
    var s := Init(shadow, screen);
    RenderVisibleFull(ClearScrollback(
      Console(seq(SCROLLBACK_ROWS, _ => BlankLine()), 0, 0, 0, 0, true, DEFAULT_COLOUR, DEFAULT_ATTRIBUTE,
              false, 0, 0, 0, shadow, screen)));
    forall k: nat | k < s.totalLines ensures LineKept(s, OPENING, k) {
    }
  }

  /** In every run the store is the end of the history; the view follows the tail exactly at its
      end; the screen lags only inside the dirty span; the shadow is a full redraw of the view after
      every step exactly when no step visibly drops a line under a pinned view; and in any run it is
      one whenever the view is not at line 0 of a full scrollback. */
  lemma EveryConsoleRun(shadow: seq<Row>, screen: seq<Row>, ops: seq<Op>)
    requires |shadow| == ROWS && |screen| == ROWS
    requires forall r :: 0 <= r < ROWS ==> |shadow[r]| == COLS && |screen[r]| == COLS
    ensures var s := Init(shadow, screen); var t := Run(s, ops);
            && Inv(t) && Holds(t, HistoryRun(OPENING, ops))
            && (AlwaysConsistent(s, ops) <==> !RunSpoils(s, ops))
            && (!RunSpoils(s, ops) || !Pinned(t) ==> Consistent(t))
  {
    hide Placed, Synced, Consistent, Holds, Run, RunSpoils, AlwaysConsistent, Init;
    InitHolds(shadow, screen);
    var s := Init(shadow, screen);
    ConsistentIsFresh(s);
    RunKeeps(s, OPENING, ops);
  }

  /** What the history's last 25 lines have at a screen position. */
  function TailCell(h: Terminal, row: nat, col: nat): Cell
    requires Formed(h) && row < 25 && col < 80
  {
    var top := if |h.lines| <= 25 then 0 else |h.lines| - 25;
    if top + row < |h.lines| then h.lines[top + row][col] else Cell(32, 0x00FFFFFF, 0x0F)
  }

  /** After every new line while following the tail, the screen shows the end of the unbounded history: the
      low byte of each word is the character, the high byte its attribute. */
  lemma NewlineShowsTail(s: Console, h: Terminal, row: nat, col: nat)
    requires Inv(s) && Fresh(s) && Holds(s, h) && s.followsTail && row < 25 && col < 80
    ensures var word := AppendNewLine(s).screen[row][col]; var cell := TailCell(HistoryNewline(h), row, col);
            word % 256 == cell.value && word / 256 == cell.attribute
  {
    hide Synced, AppendNewLine, Render;
    var t := AppendNewLine(s);
    NewlinePlaces(s);
    FollowingNewlineConsistent(s);
    NewlineHolds(s, h);
    NewlineFollows(s);
    var g := HistoryNewline(h);
    RenderShows(t, row, col);
    if t.viewTop + row < t.totalLines {
      assert LineKept(t, g, t.viewTop + row);
    }
  }

  lemma NewlineFollows(s: Console)
    requires Shape(s)
    ensures AppendNewLine(s).followsTail == s.followsTail
  {
  }

  // ----- A run that goes stale -----

  function Repeat(op: Op, n: nat): (r: seq<Op>)
    ensures |r| == n
  {
    seq(n, _ => op)
  }

  const STALE_RUN: seq<Op> :=
    [Write(65)] + Repeat(Write(NEWLINE), 511) + [Up(487), Write(NEWLINE)]

  lemma {:induction false} RunAppend(s: Console, a: seq<Op>, b: seq<Op>)
    requires Shape(s)
    ensures Run(s, a + b) == Run(Run(s, a), b)
    decreases |a|
  {
    hide Step;
    if a == [] {
      assert a + b == b;
    } else {
      assert (a + b)[1..] == a[1..] + b;
      RunAppend(Step(s, a[0]), a[1..], b);
    }
  }

  /** New lines below the first line leave it as it is. */
  lemma {:induction false} NewlinesKeepTop(s: Console, n: nat)
    requires Inv(s) && s.followsTail && s.currentLine + n < SCROLLBACK_ROWS
    ensures var t := Run(s, Repeat(Write(NEWLINE), n));
            Inv(t) && t.followsTail && t.currentLine == s.currentLine + n
            && (forall k :: 0 <= k <= s.currentLine ==> t.cells[k] == s.cells[k])
            && (n > 0 ==> t.cells[s.currentLine + 1] == BlankLine())
    decreases n
  {
    hide Synced, AppendNewLine;
    if n > 0 {
      var a := AppendNewLine(s);
      NewlinePlaces(s);
      NewlineStore(s);
      NewlineFollows(s);
      AdvancePlaces(s);
      assert Repeat(Write(NEWLINE), n)[1..] == Repeat(Write(NEWLINE), n - 1);
      NewlinesKeepTop(a, n - 1);
    }
  }

  lemma FirstCharacter(shadow: seq<Row>, screen: seq<Row>)
    requires |shadow| == ROWS && |screen| == ROWS
    requires forall r :: 0 <= r < ROWS ==> |shadow[r]| == COLS && |screen[r]| == COLS
    ensures var t := Run(Init(shadow, screen), [Write(65)]);
            Inv(t) && t.followsTail && t.currentLine == 0 && t.cells[0][0] == Cell(65, DEFAULT_COLOUR, DEFAULT_ATTRIBUTE)
  {
    hide Synced, Consistent;
    var s := Init(shadow, screen);
    InitHolds(shadow, screen);
    PutCellPlaces(s, 65);
    PutStore(s, 65);
    assert Run(s, [Write(65)]) == PutCell(s, 65);
  }

  /** Going stale does happen: 'A', 511 new lines, back to the top, and one more new line. */
  lemma StaleRunGoesStale(shadow: seq<Row>, screen: seq<Row>)
    requires |shadow| == ROWS && |screen| == ROWS
    requires forall r :: 0 <= r < ROWS ==> |shadow[r]| == COLS && |screen[r]| == COLS
    ensures !Consistent(Run(Init(shadow, screen), STALE_RUN))
  {
    hide Synced, AppendNewLine, Run, Init, Render, RenderRow, Repeat;
    var s := Init(shadow, screen);
    var lines := Repeat(Write(NEWLINE), 511);
    FirstCharacter(shadow, screen);
    RunAppend(s, [Write(65)] + lines, [Up(487), Write(NEWLINE)]);
    RunAppend(s, [Write(65)], lines);
    var a := Run(s, [Write(65)]);
    NewlinesKeepTop(a, 511);
    PinnedAtTop(Run(a, lines));
  }

  lemma RunTwo(s: Console, a: Op, b: Op)
    requires Shape(s)
    ensures Run(s, [a, b]) == Step(Step(s, a), b)
  {
    hide Step;
    assert [a, b][1..] == [b];
    assert Run(Step(s, a), [b]) == Run(Step(Step(s, a), b), [b][1..]);
  }

  lemma PinnedAtTop(s: Console)
    requires Inv(s) && s.followsTail && s.currentLine == 511
    requires s.cells[0][0] == Cell(65, DEFAULT_COLOUR, DEFAULT_ATTRIBUTE) && s.cells[1] == BlankLine()
    ensures !Consistent(Run(s, [Up(487), Write(NEWLINE)]))
  {
    hide Synced, AppendNewLine, Render, RenderRow;
    var u := Step(s, Up(487));
    var v := s.(viewTop := 0, followsTail := false);
    RenderVisibleFull(v);
    assert u == RenderVisible(v);
    assert Code(Look(u, 1, 0)) != Code(Look(u, 0, 0));
    NewlineConsistent(u);
    RunTwo(s, Up(487), Write(NEWLINE));
  }

  // ----- In numbers -----

  /** At power-on the whole screen is spaces in white on black, and the cursor is at the start of line 0. */
  lemma PowerOnScreen(shadow: seq<Row>, screen: seq<Row>, row: nat, col: nat)
    requires |shadow| == ROWS && |screen| == ROWS && row < 25 && col < 80
    requires forall r :: 0 <= r < ROWS ==> |shadow[r]| == COLS && |screen[r]| == COLS
    ensures var s := Init(shadow, screen);
            && s.screen[row][col] == 0x0F20
            && s.currentLine == 0 && s.currentColumn == 0 && s.totalLines == 1 && s.viewTop == 0 && s.followsTail
            && s.colour == 0x00FFFFFF && s.attribute == 0x0F
  {
    var s := Init(shadow, screen);
    hide Synced, Render;
    InitHolds(shadow, screen);
    RenderShows(s, row, col);
    assert LineKept(s, OPENING, 0);
    CodeIs(BLANK);
  }

  /** A character takes the cursor one column on, after column 80 first to a new line; a new line takes it to
      the next of 512 lines, and a return to column 0. */
  lemma CursorMoves(s: Console, value: Byte)
    requires Inv(s)
    ensures value == 10 ==> WriteChar(s, value).currentColumn == 0
                            && WriteChar(s, value).currentLine == (if s.currentLine < 511 then s.currentLine + 1 else 511)
    ensures value == 13 ==> WriteChar(s, value) == s.(currentColumn := 0)
    ensures value !in {9, 10, 13} ==>
              && WriteChar(s, value).currentColumn == (if s.currentColumn >= 80 then 1 else s.currentColumn + 1)
              && WriteChar(s, value).currentLine
                 == (if s.currentColumn < 80 then s.currentLine else if s.currentLine < 511 then s.currentLine + 1 else 511)
  {
    hide Synced, Render, RenderRow;
    AdvancePlaces(s);
    var t := if s.currentColumn >= COLS then AppendNewLine(s) else s;
    if s.currentColumn >= COLS {
      NewlinePlaces(s);
      NewlineColumn(s);
    }
    PutCellCursor(t, value);
    StoreCellShadow(t, value);
    StoreCellKeeps(t, value);
    ShowCellLine(StoreCell(t, value));
  }

  lemma ShowCellLine(s: Console)
    requires Shape(s)
    ensures ShowCell(s).currentLine == s.currentLine
  {
  }
}
