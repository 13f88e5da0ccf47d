/** The console as it is kept in memory: one grid of cells, a flat shadow buffer and the display
    memory, changed in place by nested loops. */
module TextConsole {
  import opened ConsoleState
  import opened ConsoleInvariants
  import opened ConsoleHistory

  /** The lines of a cell grid. */
  function Lines(a: array2<Cell>): (s: seq<Line>)
    requires a.Length0 == SCROLLBACK_ROWS && a.Length1 == SCROLLBACK_COLS
    reads a
    ensures |s| == SCROLLBACK_ROWS && forall r :: 0 <= r < SCROLLBACK_ROWS ==> |s[r]| == SCROLLBACK_COLS
    ensures forall r, c :: 0 <= r < SCROLLBACK_ROWS && 0 <= c < SCROLLBACK_COLS ==> s[r][c] == a[r, c]
  {
    seq(SCROLLBACK_ROWS, r requires 0 <= r < SCROLLBACK_ROWS reads a =>
      seq(SCROLLBACK_COLS, c requires 0 <= c < SCROLLBACK_COLS reads a => a[r, c]))
  }

  /** The rows of a flat buffer. */
  function Rows(a: seq<Word>): (s: seq<Row>)
    requires |a| == ROWS * COLS
    ensures |s| == ROWS && forall r :: 0 <= r < ROWS ==> |s[r]| == COLS
    ensures forall r, c :: 0 <= r < ROWS && 0 <= c < COLS ==> s[r][c] == a[r * COLS + c]
  {
    seq(ROWS, r requires 0 <= r < ROWS => a[r * COLS..r * COLS + COLS])
  }

  lemma GridEqual(a: seq<Line>, b: seq<Line>)
    requires |a| == |b| == SCROLLBACK_ROWS
    requires forall r :: 0 <= r < SCROLLBACK_ROWS ==> |a[r]| == |b[r]| == SCROLLBACK_COLS
    requires forall r, c :: 0 <= r < SCROLLBACK_ROWS && 0 <= c < SCROLLBACK_COLS ==> a[r][c] == b[r][c]
    ensures a == b
  {
    forall r | 0 <= r < SCROLLBACK_ROWS ensures a[r] == b[r] {
      assert forall c :: 0 <= c < SCROLLBACK_COLS ==> a[r][c] == b[r][c];
    }
  }

  lemma ScreensEqual(a: seq<Row>, b: seq<Row>)
    requires |a| == |b| == ROWS
    requires forall r :: 0 <= r < ROWS ==> |a[r]| == |b[r]| == COLS
    requires forall r, c :: 0 <= r < ROWS && 0 <= c < COLS ==> a[r][c] == b[r][c]
    ensures a == b
  {
    forall r: nat | r < ROWS ensures a[r] == b[r] {
      RowsEqual(a[r], b[r]);
    }
  }

  /** Writing one place of the flat buffer changes that place of its row, and nothing else. */
  lemma RowsUpdate(a: seq<Word>, row: nat, col: nat, v: Word)
    requires |a| == ROWS * COLS && row < ROWS && col < COLS
    ensures var line: Row := Rows(a)[row][col := v]; Rows(a[row * COLS + col := v]) == Rows(a)[row := line]
  {
    var line: Row := Rows(a)[row][col := v];
    var want: seq<Row> := Rows(a)[row := line];
    forall r, c | 0 <= r < ROWS && 0 <= c < COLS ensures Rows(a[row * COLS + col := v])[r][c] == want[r][c] {
      assert r * COLS + c == row * COLS + col <==> r == row && c == col;
    }
    ScreensEqual(Rows(a[row * COLS + col := v]), want);
  }

  class Console {
    const Cells: array2<Cell>
    const Shadow: array<Word>
    const Screen: array<Word>
    var CurrentLine: nat
    var CurrentColumn: nat
    var TotalLines: nat
    var ViewTopLine: nat
    var ViewFollowsTail: bool
    var ForegroundColour: nat
    var VgaAttribute: Byte
    var DirtyLineActive: bool
    var DirtyScreenRow: nat
    var DirtyMinColumn: nat
    var DirtyMaxColumn: nat

    predicate Valid()
      reads this
    {
      && Cells.Length0 == SCROLLBACK_ROWS && Cells.Length1 == SCROLLBACK_COLS
      && Shadow.Length == ROWS * COLS && Screen.Length == ROWS * COLS && Shadow != Screen
    }

    function State(): (s: ConsoleState.Console)
      requires Valid()
      reads this, Cells, Shadow, Screen
      ensures Shape(s)
    {
      ConsoleState.Console(Lines(Cells), CurrentLine, CurrentColumn, TotalLines, ViewTopLine, ViewFollowsTail,
                           ForegroundColour, VgaAttribute,
                           DirtyLineActive, DirtyScreenRow, DirtyMinColumn, DirtyMaxColumn,
                           Rows(Shadow[..]), Rows(Screen[..]))
    }

    /** Power on in VGA mode: the store is cleared and the empty view is drawn on the display. */
    constructor (display: array<Word>)
      requires display.Length == ROWS * COLS
      modifies display
      ensures Valid() && Screen == display && fresh(Cells) && fresh(Shadow)
      ensures Inv(State()) && Consistent(State()) && Holds(State(), OPENING) && State().screen == State().shadow
    {
      Cells := new Cell[SCROLLBACK_ROWS, SCROLLBACK_COLS]((_, _) => BLANK);
      Shadow := new Word[ROWS * COLS](_ => 0);
      Screen := display;
      CurrentLine, CurrentColumn, TotalLines, ViewTopLine, ViewFollowsTail := 0, 0, 0, 0, true;
      ForegroundColour, VgaAttribute := DEFAULT_COLOUR, DEFAULT_ATTRIBUTE;
      DirtyLineActive, DirtyScreenRow, DirtyMinColumn, DirtyMaxColumn := false, 0, 0, 0;
      new;
      ghost var shadow, screen := State().shadow, State().screen;
      ClearScrollback();
      RenderVisible();
      InitHolds(shadow, screen);
      assert State() == Init(shadow, screen);
    }

    // ----- Drawing -----

    method RenderCell(row: nat, col: nat)
      requires Valid()
      modifies Shadow
      ensures State() == ConsoleState.RenderCell(old(State()), row, col)
    {
      hide Shape;
      if row >= ROWS || col >= COLS {
        return;
      }
      var line := ViewTopLine + row;
      var cell := BLANK;
      if line < TotalLines && line < SCROLLBACK_ROWS && col < SCROLLBACK_COLS {
        cell := Cells[line, col];
      }
      RowsUpdate(Shadow[..], row, col, Code(cell));
      ghost var was := Shadow[..];
      Shadow[row * COLS + col] := Code(cell);
      assert Shadow[..] == was[row * COLS + col := Code(cell)];
    }

    method RenderScreenRow(row: nat)
      requires Valid() && row < ROWS
      modifies Shadow
      ensures State() == old(State()).(shadow := old(State()).shadow[row := RenderRow(old(State()), row)])
    {
      hide Shape;
      ghost var s := State();
      var col := 0;
      while col < COLS
        invariant col <= COLS
        invariant State() == s.(shadow := State().shadow)
        invariant forall r :: 0 <= r < ROWS && r != row ==> State().shadow[r] == s.shadow[r]
        invariant forall c :: 0 <= c < col ==> State().shadow[row][c] == Code(CellAt(s, row, c))
      {
        RenderCell(row, col);
        col := col + 1;
      }
      RowsEqual(State().shadow[row], RenderRow(s, row));
    }

    method PresentVga()
      requires Valid()
      modifies Screen
      ensures State() == PresentAll(old(State()))
    {
      var row := 0;
      while row < ROWS
        invariant row <= ROWS
        invariant forall i :: 0 <= i < row * COLS ==> Screen[i] == Shadow[i]
      {
        var col := 0;
        while col < COLS
          invariant col <= COLS
          invariant forall i :: 0 <= i < row * COLS + col ==> Screen[i] == Shadow[i]
        {
          Screen[row * COLS + col] := Shadow[row * COLS + col];
          col := col + 1;
        }
        row := row + 1;
      }
      assert Screen[..] == Shadow[..];
    }

    method PresentVgaRow(row: nat)
      requires Valid()
      modifies Screen
      ensures State() == PresentRow(old(State()), row)
    {
      if row >= ROWS {
        return;
      }
      ghost var s := State();
      ghost var was := Screen[..];
      var col := 0;
      while col < COLS
        invariant col <= COLS
        invariant forall i :: 0 <= i < ROWS * COLS ==>
          Screen[i] == if row * COLS <= i < row * COLS + col then Shadow[i] else was[i]
      {
        Screen[row * COLS + col] := Shadow[row * COLS + col];
        col := col + 1;
      }
      forall r, c | 0 <= r < ROWS && 0 <= c < COLS
        ensures State().screen[r][c] == s.screen[row := s.shadow[row]][r][c]
      {
      }
      ScreensEqual(State().screen, s.screen[row := s.shadow[row]]);
    }

    method ResetDirtyLine()
      requires Valid()
      modifies this
      ensures Valid() && State() == ResetDirty(old(State()))
    {
      DirtyLineActive, DirtyScreenRow, DirtyMinColumn, DirtyMaxColumn := false, 0, 0, 0;
    }

    method PresentDirtyLine()
      requires Valid()
      modifies this, Screen
      ensures Valid() && State() == ConsoleState.PresentDirtyLine(old(State()))
    {
      hide Shape, Lines, Rows;
      if !DirtyLineActive {
        return;
      }
      if DirtyMinColumn <= DirtyMaxColumn {
        PresentVgaRow(DirtyScreenRow);
      }
      ResetDirtyLine();
    }

    method MarkDirtyCell(row: nat, col: nat)
      requires Valid()
      modifies this, Screen
      ensures Valid() && State() == ConsoleState.MarkDirtyCell(old(State()), row, col)
    {
      hide Shape, Lines, Rows;
      if row >= ROWS || col >= COLS {
        return;
      }
      if DirtyLineActive && DirtyScreenRow != row {
        PresentDirtyLine();
      }
      if !DirtyLineActive {
        DirtyLineActive, DirtyScreenRow, DirtyMinColumn, DirtyMaxColumn := true, row, col, col;
        return;
      }
      if col < DirtyMinColumn {
        DirtyMinColumn := col;
      }
      if col > DirtyMaxColumn {
        DirtyMaxColumn := col;
      }
    }

    static function BlankRow(): (r: Row)
      ensures |r| == COLS && forall col :: 0 <= col < COLS ==> r[col] == Code(BLANK)
    {
      seq(COLS, _ => Code(BLANK))
    }

    method VgaClearPixels()
      requires Valid()
      modifies Shadow
      ensures State() == old(State()).(shadow := seq(ROWS, _ => BlankRow()))
    {
      var i := 0;
      while i < ROWS * COLS
        invariant i <= ROWS * COLS
        invariant forall k :: 0 <= k < i ==> Shadow[k] == Code(BLANK)
      {
        Shadow[i] := Code(BLANK);
        i := i + 1;
      }
      forall r: nat | r < ROWS ensures Rows(Shadow[..])[r] == BlankRow() {
        RowsEqual(Rows(Shadow[..])[r], BlankRow());
      }
      assert Rows(Shadow[..]) == seq(ROWS, _ => BlankRow());
    }

    method RenderVisible()
      requires Valid()
      modifies this, Shadow, Screen
      ensures Valid() && State() == ConsoleState.RenderVisible(old(State()))
    {
      hide Shape, Lines, Rows, RenderRow;
      ghost var s := State();
      VgaClearPixels();
      var row := 0;
      while row < ROWS
        invariant row <= ROWS
        invariant Valid() && State() == s.(shadow := State().shadow)
        invariant forall r :: 0 <= r < row ==> State().shadow[r] == RenderRow(s, r)
      {
        ghost var t := State();
        RenderRowSame(s, t, row);
        RenderScreenRow(row);
        row := row + 1;
      }
      assert State().shadow == Render(s);
      PresentVga();
      ResetDirtyLine();
    }

    /** The shadow moves up one row and its bottom row goes blank. */
    method VgaMoveShadowUpOneLine()
      requires Valid()
      modifies Shadow
      ensures State() == old(State()).(shadow := old(State()).shadow[1..] + [BlankRow()])
    {
      ghost var was := Shadow[..];
      var row := 1;
      while row < ROWS
        invariant 1 <= row <= ROWS
        invariant forall i :: 0 <= i < (row - 1) * COLS ==> Shadow[i] == was[i + COLS]
        invariant forall i :: (row - 1) * COLS <= i < ROWS * COLS ==> Shadow[i] == was[i]
      {
        var col := 0;
        while col < COLS
          invariant col <= COLS
          invariant forall i :: 0 <= i < (row - 1) * COLS + col ==> Shadow[i] == was[i + COLS]
          invariant forall i :: (row - 1) * COLS + col <= i < ROWS * COLS ==> Shadow[i] == was[i]
        {
          Shadow[(row - 1) * COLS + col] := Shadow[row * COLS + col];
          col := col + 1;
        }
        row := row + 1;
      }
      var col := 0;
      while col < COLS
        invariant col <= COLS
        invariant forall i :: 0 <= i < (ROWS - 1) * COLS ==> Shadow[i] == was[i + COLS]
        invariant forall i :: (ROWS - 1) * COLS <= i < (ROWS - 1) * COLS + col ==> Shadow[i] == Code(BLANK)
      {
        Shadow[(ROWS - 1) * COLS + col] := Code(BLANK);
        col := col + 1;
      }
      MovedUp(was, Shadow[..]);
    }

    static lemma MovedUp(was: seq<Word>, now: seq<Word>)
      requires |was| == ROWS * COLS == |now|
      requires forall i :: 0 <= i < (ROWS - 1) * COLS ==> now[i] == was[i + COLS]
      requires forall i :: (ROWS - 1) * COLS <= i < ROWS * COLS ==> now[i] == Code(BLANK)
      ensures Rows(now) == Rows(was)[1..] + [BlankRow()]
    {
      forall r: nat | r < ROWS - 1 ensures Rows(now)[r] == Rows(was)[r + 1] {
        forall c: nat | c < COLS ensures Rows(now)[r][c] == Rows(was)[r + 1][c] {
          assert (r + 1) * COLS + c == r * COLS + c + COLS;
        }
        RowsEqual(Rows(now)[r], Rows(was)[r + 1]);
      }
      RowsEqual(Rows(now)[ROWS - 1], BlankRow());
    }

    method FastTailScrollPresent()
      requires Valid()
      modifies this, Shadow, Screen
      ensures Valid() && State() == FastTailScroll(old(State()))
    {
      hide Shape, Lines, Rows, RenderRow;
      ghost var s := State();
      VgaMoveShadowUpOneLine();
      RenderRowSame(s, State(), ROWS - 1);
      RenderScreenRow(ROWS - 1);
      assert State().shadow == s.shadow[1..] + [RenderRow(s, ROWS - 1)];
      PresentVga();
      ResetDirtyLine();
    }

    // ----- The store -----

    method ClearLogicalLine(line: nat)
      requires Valid()
      modifies Cells
      ensures State() == ClearLine(old(State()), line)
    {
      if line >= SCROLLBACK_ROWS {
        return;
      }
      ghost var s := State();
      var col := 0;
      while col < SCROLLBACK_COLS
        invariant col <= SCROLLBACK_COLS
        invariant forall r, c :: 0 <= r < SCROLLBACK_ROWS && 0 <= c < SCROLLBACK_COLS ==>
          Cells[r, c] == if r == line && c < col then BLANK else s.cells[r][c]
      {
        Cells[line, col] := BLANK;
        col := col + 1;
      }
      GridEqual(State().cells, s.cells[line := BlankLine()]);
    }

    method ShiftScrollbackUp()
      requires Valid()
      modifies this, Cells
      ensures Valid() && State() == ConsoleState.ShiftScrollbackUp(old(State()))
    {
      ghost var s := State();
      var row := 1;
      while row < SCROLLBACK_ROWS
        invariant 1 <= row <= SCROLLBACK_ROWS && Valid()
        invariant State() == s.(cells := State().cells)
        invariant forall r, c :: 0 <= r < SCROLLBACK_ROWS && 0 <= c < SCROLLBACK_COLS ==>
          Cells[r, c] == if r < row - 1 then s.cells[r + 1][c] else s.cells[r][c]
      {
        var col := 0;
        while col < SCROLLBACK_COLS
          invariant col <= SCROLLBACK_COLS && Valid()
          invariant State() == s.(cells := State().cells)
          invariant forall r, c :: 0 <= r < SCROLLBACK_ROWS && 0 <= c < SCROLLBACK_COLS ==>
            Cells[r, c] == if r < row - 1 || (r == row - 1 && c < col) then s.cells[r + 1][c] else s.cells[r][c]
        {
          Cells[row - 1, col] := Cells[row, col];
          col := col + 1;
        }
        row := row + 1;
      }
      ClearLogicalLine(SCROLLBACK_ROWS - 1);
      GridEqual(State().cells, s.cells[1..] + [BlankLine()]);
      if !ViewFollowsTail && ViewTopLine > 0 {
        ViewTopLine := ViewTopLine - 1;
      }
    }

    method MaximumViewTop() returns (top: nat)
      requires Valid()
      ensures top == ConsoleState.MaximumViewTop(State())
    {
      if TotalLines <= ROWS {
        return 0;
      }
      return TotalLines - ROWS;
    }

    /** The cursor goes to a fresh line, dropping the oldest when the store is full. */
    method AdvanceToNextLine() returns (shifted: bool)
      requires Valid()
      modifies this, Cells
      ensures Valid() && State() == AdvanceLine(old(State())) && shifted == (old(CurrentLine) + 1 >= SCROLLBACK_ROWS)
    {
      hide Shape, Lines, Rows;
      shifted := false;
      CurrentColumn := 0;
      if CurrentLine + 1 < SCROLLBACK_ROWS {
        CurrentLine := CurrentLine + 1;
        if CurrentLine >= TotalLines {
          TotalLines := CurrentLine + 1;
        }
      } else {
        ShiftScrollbackUp();
        TotalLines := SCROLLBACK_ROWS;
        shifted := true;
      }
      ClearLogicalLine(CurrentLine);
    }

    method AppendNewLine()
      requires Valid()
      modifies this, Cells, Shadow, Screen
      ensures Valid() && State() == ConsoleState.AppendNewLine(old(State()))
    {
      hide Shape, Lines, Rows, AdvanceLine, ConsoleState.RenderVisible, FastTailScroll, ConsoleState.PresentDirtyLine;
      var oldViewTop := ViewTopLine;
      var oldTotalLines := TotalLines;
      AdvanceFollows(State());
      var shifted := AdvanceToNextLine();
      if ViewFollowsTail {
        var newViewTop := MaximumViewTop();
        ViewTopLine := newViewTop;
        if shifted || (newViewTop == oldViewTop + 1 && oldTotalLines >= ROWS) {
          FastTailScrollPresent();
        } else if newViewTop != oldViewTop {
          RenderVisible();
        } else {
          PresentDirtyLine();
        }
      }
    }

    static lemma AdvanceFollows(s: ConsoleState.Console)
      requires Shape(s)
      ensures AdvanceLine(s).followsTail == s.followsTail
    {
    }

    method StorePrintable(value: Byte)
      requires Valid()
      modifies this, Cells, Shadow, Screen
      ensures Valid() && State() == ConsoleState.StorePrintable(old(State()), value)
    {
      hide Shape, Lines, ConsoleState.RenderCell, ConsoleState.MarkDirtyCell, ConsoleState.AppendNewLine, Rows;
      if CurrentColumn >= COLS {
        AppendNewLine();
      }
      if CurrentLine >= SCROLLBACK_ROWS || CurrentColumn >= SCROLLBACK_COLS {
        return;
      }
      ghost var s := State();
      Cells[CurrentLine, CurrentColumn] := Cell(value, ForegroundColour, VgaAttribute);
      GridEqual(State().cells, StoreCell(s, value).cells);
      assert State() == StoreCell(s, value);
      if ViewTopLine <= CurrentLine < ViewTopLine + ROWS {
        var row := CurrentLine - ViewTopLine;
        RenderCellShadowOnly(State(), row, CurrentColumn);
        RenderCell(row, CurrentColumn);
        MarkChangesSpanOnly(State(), row, CurrentColumn);
        MarkDirtyCell(row, CurrentColumn);
      }
      assert State() == ShowCell(StoreCell(s, value));
      CurrentColumn := CurrentColumn + 1;
    }

    method WriteChar(value: Byte)
      requires Valid()
      modifies this, Cells, Shadow, Screen
      ensures Valid() && State() == ConsoleState.WriteChar(old(State()), value)
    {
      hide Shape, Lines, Rows, ConsoleState.AppendNewLine, ConsoleState.StorePrintable;
      if value == RETURN {
        CurrentColumn := 0;
        return;
      }
      if value == NEWLINE {
        AppendNewLine();
        return;
      }
      if value == TAB {
        ghost var s := State();
        var index := 0;
        while index < 4
          invariant index <= 4 && Valid()
          invariant WriteSpaces(State(), 4 - index) == WriteSpaces(s, 4)
        {
          StorePrintable(SPACE);
          index := index + 1;
        }
        return;
      }
      StorePrintable(value);
    }

    // ----- The view -----

    method ScrollUpLines(lines: nat) returns (moved: bool)
      requires Valid()
      modifies this, Shadow, Screen
      ensures Valid() && (State(), moved) == ScrollUp(old(State()), lines)
    {
      hide Shape, Lines, Rows, ConsoleState.RenderVisible;
      if lines == 0 || ViewTopLine == 0 {
        return false;
      }
      if lines > ViewTopLine {
        ViewTopLine := 0;
      } else {
        ViewTopLine := ViewTopLine - lines;
      }
      ViewFollowsTail := false;
      RenderVisible();
      return true;
    }

    method ScrollDownLines(lines: nat) returns (moved: bool)
      requires Valid()
      modifies this, Shadow, Screen
      ensures Valid() && (State(), moved) == ScrollDown(old(State()), lines)
    {
      hide Shape, Lines, Rows, ConsoleState.RenderVisible;
      var top := MaximumViewTop();
      if lines == 0 || ViewTopLine >= top {
        if ViewTopLine >= top {
          ViewFollowsTail := true;
        }
        return false;
      }
      if lines > top - ViewTopLine {
        ViewTopLine := top;
      } else {
        ViewTopLine := ViewTopLine + lines;
      }
      ViewFollowsTail := ViewTopLine >= top;
      RenderVisible();
      return true;
    }

    method ScrollToBottom()
      requires Valid()
      modifies this, Shadow, Screen
      ensures Valid() && State() == ConsoleState.ScrollToBottom(old(State()))
    {
      hide Shape, Lines, Rows, ConsoleState.RenderVisible;
      ViewTopLine := MaximumViewTop();
      ViewFollowsTail := true;
      RenderVisible();
    }

    method ClearScrollback()
      requires Valid()
      modifies this, Cells
      ensures Valid() && State() == ConsoleState.ClearScrollback(old(State()))
    {
      hide Shape, Rows;
      ghost var s := State();
      var row := 0;
      while row < SCROLLBACK_ROWS
        invariant row <= SCROLLBACK_ROWS && Valid()
        invariant State() == s.(cells := State().cells)
        invariant forall r :: 0 <= r < row ==> State().cells[r] == BlankLine()
      {
        ClearLogicalLine(row);
        row := row + 1;
      }
      assert State().cells == seq(SCROLLBACK_ROWS, _ => BlankLine());
      CurrentLine, CurrentColumn, TotalLines, ViewTopLine, ViewFollowsTail := 0, 0, 1, 0, true;
    }

    method ClearScreen()
      requires Valid()
      modifies this, Cells, Shadow, Screen
      ensures Valid() && State() == ConsoleState.ClearScreen(old(State()))
    {
      hide Shape, Lines, Rows, ConsoleState.RenderVisible;
      ClearScrollback();
      ResetDirtyLine();
      RenderVisible();
    }
  }
}
