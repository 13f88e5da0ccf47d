/** The text console in VGA mode: a scrollback store of 512 lines, a view of 25 rows onto it, a
    shadow buffer of what the view shows, and the screen the shadow is copied to. */
module ConsoleState {

  const SCROLLBACK_ROWS: nat := 512
  const SCROLLBACK_COLS: nat := 160
  const ROWS: nat := 25
  const COLS: nat := 80
  const DEFAULT_ATTRIBUTE: Byte := 0x0F
  const DEFAULT_COLOUR: nat := 0x00FFFFFF

  const NEWLINE: Byte := 10
  const RETURN: Byte := 13
  const TAB: Byte := 9
  const SPACE: Byte := 32

  type Byte = x: int | 0 <= x < 256
  type Word = x: int | 0 <= x < 0x1_0000

  datatype Cell = Cell(value: Byte, colour: nat, attribute: Byte)

  type Line = seq<Cell>
  type Row = seq<Word>

  const BLANK: Cell := Cell(SPACE, DEFAULT_COLOUR, DEFAULT_ATTRIBUTE)

  function BlankLine(): Line {
    seq(SCROLLBACK_COLS, _ => BLANK)
  }

  /** The two bytes the display shows for a cell. */
  function Code(c: Cell): Word {
    c.attribute * 256 + c.value
  }

  datatype Console = Console(
    cells: seq<Line>,
    currentLine: nat,
    currentColumn: nat,
    totalLines: nat,
    viewTop: nat,
    followsTail: bool,
    colour: nat,
    attribute: Byte,
    dirty: bool,
    dirtyRow: nat,
    dirtyMin: nat,
    dirtyMax: nat,
    shadow: seq<Row>,
    screen: seq<Row>)

  /** Sizes that never change. */
  predicate Shape(s: Console) {
    && |s.cells| == SCROLLBACK_ROWS
    && (forall r :: 0 <= r < SCROLLBACK_ROWS ==> |s.cells[r]| == SCROLLBACK_COLS)
    && |s.shadow| == ROWS && |s.screen| == ROWS
    && (forall r :: 0 <= r < ROWS ==> |s.shadow[r]| == COLS && |s.screen[r]| == COLS)
  }

  // ----- Rendering -----

  /** What a stored line shows in a column: blank beyond the lines there are. */
  function Look(s: Console, line: nat, col: nat): Cell
    requires Shape(s) && col < COLS
  {
    if line < s.totalLines && line < SCROLLBACK_ROWS then s.cells[line][col] else BLANK
  }

  /** The cell shown at a screen position. */
  function CellAt(s: Console, row: nat, col: nat): Cell
    requires Shape(s) && col < COLS
  {
    Look(s, s.viewTop + row, col)
  }

  function RenderRow(s: Console, row: nat): (r: Row)
    requires Shape(s)
    ensures |r| == COLS
    ensures forall col :: 0 <= col < COLS ==> r[col] == Code(CellAt(s, row, col))
  {
    seq(COLS, col requires 0 <= col < COLS => Code(CellAt(s, row, col)))
  }

  /** What a full redraw of the current view puts into the shadow buffer. */
  function Render(s: Console): (r: seq<Row>)
    requires Shape(s)
    ensures |r| == ROWS
    ensures forall row :: 0 <= row < ROWS ==> r[row] == RenderRow(s, row)
  {
    seq(ROWS, row requires 0 <= row < ROWS => RenderRow(s, row))
  }

  function MaximumViewTop(s: Console): nat {
    if s.totalLines <= ROWS then 0 else s.totalLines - ROWS
  }

  // ----- Presenting -----

  function ResetDirty(s: Console): Console {
    s.(dirty := false, dirtyRow := 0, dirtyMin := 0, dirtyMax := 0)
  }

  function PresentAll(s: Console): Console {
    s.(screen := s.shadow)
  }

  function PresentRow(s: Console, row: nat): (t: Console)
    requires Shape(s)
    ensures Shape(t)
  {
    if row >= ROWS then s else s.(screen := s.screen[row := s.shadow[row]])
  }

  /** Copies the whole dirty row, whatever its span, and forgets it. */
  function PresentDirtyLine(s: Console): (t: Console)
    requires Shape(s)
    ensures Shape(t)
  {
    if !s.dirty then s
    else ResetDirty(if s.dirtyMin > s.dirtyMax then s else PresentRow(s, s.dirtyRow))
  }

  function MarkDirtyCell(s: Console, row: nat, col: nat): (t: Console)
    requires Shape(s)
    ensures Shape(t)
  {
    if row >= ROWS || col >= COLS then s
    else
      var t := if s.dirty && s.dirtyRow != row then PresentDirtyLine(s) else s;
      if !t.dirty then t.(dirty := true, dirtyRow := row, dirtyMin := col, dirtyMax := col)
      else t.(dirtyMin := if col < t.dirtyMin then col else t.dirtyMin,
              dirtyMax := if col > t.dirtyMax then col else t.dirtyMax)
  }

  function RenderVisible(s: Console): (t: Console)
    requires Shape(s)
    ensures Shape(t)
  {
    ResetDirty(PresentAll(s.(shadow := Render(s))))
  }

  /** The fast path: the shadow moves up one row and only the bottom row is drawn. */
  function FastTailScroll(s: Console): (t: Console)
    requires Shape(s)
    ensures Shape(t)
  {
    ResetDirty(PresentAll(s.(shadow := s.shadow[1..] + [RenderRow(s, ROWS - 1)])))
  }

  // ----- The store -----

  function ClearLine(s: Console, line: nat): Console
    requires Shape(s)
  {
    if line >= SCROLLBACK_ROWS then s else s.(cells := s.cells[line := BlankLine()])
  }

  /** The oldest line is dropped; a view that does not follow the tail moves with its lines,
      unless it is already at the top. */
  function ShiftScrollbackUp(s: Console): Console
    requires Shape(s)
  {
    s.(cells := s.cells[1..] + [BlankLine()],
    viewTop := if !s.followsTail && s.viewTop > 0 then s.viewTop - 1 else s.viewTop)
  }

  /** The line the next character goes to, before anything is redrawn. */
  function AdvanceLine(s: Console): (t: Console)
    requires Shape(s)
    ensures Shape(t)
  {
    var t := s.(currentColumn := 0);
    var u := if s.currentLine + 1 < SCROLLBACK_ROWS then
               t.(currentLine := s.currentLine + 1,
               totalLines := if s.currentLine + 1 >= s.totalLines then s.currentLine + 2 else s.totalLines)
             else ShiftScrollbackUp(t).(totalLines := SCROLLBACK_ROWS);
    ClearLine(u, u.currentLine)
  }

  function AppendNewLine(s: Console): (r: Console)
    requires Shape(s)
    ensures Shape(r)
  {
    var shifted := s.currentLine + 1 >= SCROLLBACK_ROWS;
    var t := AdvanceLine(s);
    if !s.followsTail then t
    else
      var top := MaximumViewTop(t);
      var u := t.(viewTop := top);
      if shifted || (top == s.viewTop + 1 && s.totalLines >= ROWS) then FastTailScroll(u)
      else if top != s.viewTop then RenderVisible(u)
      else PresentDirtyLine(u)
  }

  function RenderCell(s: Console, row: nat, col: nat): (t: Console)
    requires Shape(s)
    ensures Shape(t)
  {
    if row >= ROWS || col >= COLS then s
    else
      var line: Row := s.shadow[row][col := Code(CellAt(s, row, col))];
      s.(shadow := s.shadow[row := line])
  }

  predicate CurrentLineIsVisible(s: Console) {
    s.viewTop <= s.currentLine < s.viewTop + ROWS
  }

  /** The cell under the cursor takes the character. */
  function StoreCell(s: Console, value: Byte): (t: Console)
    requires Shape(s) && s.currentLine < SCROLLBACK_ROWS && s.currentColumn < SCROLLBACK_COLS
    ensures Shape(t)
  {
    var line: Line := s.cells[s.currentLine][s.currentColumn := Cell(value, s.colour, s.attribute)];
    s.(cells := s.cells[s.currentLine := line])
  }

  /** The cell under the cursor is drawn and marked, if it is in view. */
  function ShowCell(s: Console): (t: Console)
    requires Shape(s)
    ensures Shape(t)
  {
    if !CurrentLineIsVisible(s) then s
    else
      var row := s.currentLine - s.viewTop;
      MarkDirtyCell(RenderCell(s, row, s.currentColumn), row, s.currentColumn)
  }

  function PutCell(s: Console, value: Byte): (t: Console)
    requires Shape(s)
    ensures Shape(t)
  {
    if s.currentLine >= SCROLLBACK_ROWS || s.currentColumn >= SCROLLBACK_COLS then s
    else ShowCell(StoreCell(s, value)).(currentColumn := s.currentColumn + 1)
  }

  function StorePrintable(s: Console, value: Byte): (t: Console)
    requires Shape(s)
    ensures Shape(t)
  {
    PutCell(if s.currentColumn >= COLS then AppendNewLine(s) else s, value)
  }

  function WriteSpaces(s: Console, n: nat): (t: Console)
    requires Shape(s)
    ensures Shape(t)
    decreases n
  {
    if n == 0 then s else WriteSpaces(StorePrintable(s, SPACE), n - 1)
  }

  function WriteChar(s: Console, value: Byte): (t: Console)
    requires Shape(s)
    ensures Shape(t)
  {
    if value == RETURN then s.(currentColumn := 0)
    else if value == NEWLINE then AppendNewLine(s)
    else if value == TAB then WriteSpaces(s, 4)
    else StorePrintable(s, value)
  }

  // ----- The view -----

  function ScrollUp(s: Console, lines: nat): (Console, bool)
    requires Shape(s)
  {
    if lines == 0 || s.viewTop == 0 then (s, false)
    else
      (RenderVisible(s.(viewTop := if lines > s.viewTop then 0 else s.viewTop - lines, followsTail := false)), true)
  }

  function ScrollDown(s: Console, lines: nat): (Console, bool)
    requires Shape(s)
  {
    var top := MaximumViewTop(s);
    if lines == 0 || s.viewTop >= top then (if s.viewTop >= top then s.(followsTail := true) else s, false)
    else
      var view := if lines > top - s.viewTop then top else s.viewTop + lines;
      (RenderVisible(s.(viewTop := view, followsTail := view >= top)), true)
  }

  function ScrollToBottom(s: Console): (t: Console)
    requires Shape(s)
    ensures Shape(t)
  {
    RenderVisible(s.(viewTop := MaximumViewTop(s), followsTail := true))
  }

  function ClearScrollback(s: Console): Console {
    s.(cells := seq(SCROLLBACK_ROWS, _ => BlankLine()),
    currentLine := 0, currentColumn := 0, totalLines := 1, viewTop := 0, followsTail := true)
  }

  function ClearScreen(s: Console): (t: Console)
    requires Shape(s)
    ensures Shape(t)
  {
    RenderVisible(ResetDirty(ClearScrollback(s)))
  }

  function SetColour(s: Console, colour: nat, attribute: Byte): Console {
    s.(colour := colour, attribute := attribute)
  }
}
