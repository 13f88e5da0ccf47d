/** What every console operation keeps: where the cursor and the view are, that the shadow buffer
    is a full redraw of the view, and that the screen lags behind it only inside the dirty span. */
module ConsoleInvariants {
  import opened ConsoleState

  predicate Placed(s: Console) {
    && s.currentLine < SCROLLBACK_ROWS
    && s.totalLines == s.currentLine + 1
    && s.currentColumn <= COLS
    && s.viewTop <= MaximumViewTop(s)
    && (s.followsTail <==> s.viewTop == MaximumViewTop(s))
  }

  predicate Agrees(s: Console, row: nat, col: nat)
    requires Shape(s) && row < ROWS && col < COLS
  {
    s.screen[row][col] != s.shadow[row][col] ==>
      s.dirty && row == s.dirtyRow && s.dirtyMin <= col <= s.dirtyMax
  }

  /** The screen differs from the shadow only inside the active dirty span. */
  predicate Synced(s: Console)
    requires Shape(s)
  {
    && (s.dirty ==> s.dirtyRow < ROWS && s.dirtyMin <= s.dirtyMax < COLS)
    && (!s.dirty ==> s.dirtyRow == 0 && s.dirtyMin == 0 && s.dirtyMax == 0)
    && forall row: nat, col: nat {:trigger Agrees(s, row, col)} :: row < ROWS && col < COLS ==> Agrees(s, row, col)
  }

  /** The shadow is what a full redraw of the view would make it. */
  predicate Consistent(s: Console)
    requires Shape(s)
  {
    s.shadow == Render(s)
  }

  predicate Inv(s: Console) {
    Shape(s) && Placed(s) && Synced(s)
  }

  /** A line is about to be dropped from full scrollback while the view stands at line 0. */
  predicate Pinned(s: Console) {
    s.currentLine + 1 >= SCROLLBACK_ROWS && !s.followsTail && s.viewTop == 0
  }

  // ----- Rows and the screen -----

  lemma RowsEqual(a: Row, b: Row)
    requires |a| == COLS && |b| == COLS
    requires forall col: nat :: col < COLS ==> a[col] == b[col]
    ensures a == b
  {
  }

  lemma ScreenIsShadow(s: Console)
    requires Shape(s) && Synced(s) && !s.dirty
    ensures s.screen == s.shadow
  {
    forall row: nat | row < ROWS ensures s.screen[row] == s.shadow[row] {
      forall col: nat | col < COLS ensures s.screen[row][col] == s.shadow[row][col] {
        assert Agrees(s, row, col);
      }
      RowsEqual(s.screen[row], s.shadow[row]);
    }
  }

  lemma EqualIsSynced(s: Console)
    requires Shape(s) && s.screen == s.shadow && ResetDirty(s) == s
    ensures Synced(s)
  {
  }

  /** Presenting the dirty line brings the whole screen up to date. */
  lemma PresentDirtyLineSyncs(s: Console)
    requires Shape(s) && Synced(s)
    ensures var t := PresentDirtyLine(s);
            t == ResetDirty(PresentAll(s)) && Synced(t)
  {
    var t := PresentDirtyLine(s);
    assert Shape(t);
    forall row: nat, col: nat | row < ROWS && col < COLS ensures Agrees(t, row, col) {
      assert Agrees(s, row, col);
    }
    ScreenIsShadow(t);
  }

  /** Drawing a cell and marking it keeps the screen behind only inside the span. */
  lemma DrawAndMarkSyncs(s: Console, row: nat, col: nat)
    requires Shape(s) && Synced(s) && row < ROWS && col < COLS
    ensures var u := RenderCell(s, row, col);
            var t := MarkDirtyCell(u, row, col);
            t.shadow == u.shadow && Synced(t)
  {
    var u := RenderCell(s, row, col);
    var t := MarkDirtyCell(u, row, col);
    forall r: nat, c: nat | r < ROWS && c < COLS ensures Agrees(t, r, c) {
      assert Agrees(s, r, c);
    }
  }

  // ----- Rendering -----

  lemma RenderSame(s: Console, t: Console)
    requires Shape(s) && Shape(t)
    requires forall row: nat, col: nat :: row < ROWS && col < COLS ==> Code(CellAt(t, row, col)) == Code(CellAt(s, row, col))
    ensures Render(t) == Render(s)
  {
    forall row: nat | row < ROWS ensures RenderRow(t, row) == RenderRow(s, row) {
      RowsEqual(RenderRow(t, row), RenderRow(s, row));
    }
  }

  /** What a row shows does not depend on the shadow buffer. */
  lemma RenderRowSame(s: Console, t: Console, row: nat)
    requires Shape(s) && Shape(t) && row < ROWS && t == s.(shadow := t.shadow)
    ensures RenderRow(t, row) == RenderRow(s, row)
  {
    RowsEqual(RenderRow(t, row), RenderRow(s, row));
  }

  lemma RenderMovedUp(s: Console, t: Console)
    requires Shape(s) && Shape(t)
    requires forall row: nat, col: nat :: row < ROWS - 1 && col < COLS ==> Code(CellAt(t, row, col)) == Code(CellAt(s, row + 1, col))
    ensures Render(t) == Render(s)[1..] + [RenderRow(t, ROWS - 1)]
  {
    forall row: nat | row < ROWS - 1 ensures RenderRow(t, row) == RenderRow(s, row + 1) {
      RowsEqual(RenderRow(t, row), RenderRow(s, row + 1));
    }
  }

  lemma AdvanceLooks(s: Console, line: nat, col: nat)
    requires Shape(s) && Placed(s) && col < COLS
    ensures s.currentLine + 1 < SCROLLBACK_ROWS ==> Look(AdvanceLine(s), line, col) == Look(s, line, col)
    ensures s.currentLine + 1 >= SCROLLBACK_ROWS ==> Look(AdvanceLine(s), line, col) == Look(s, line + 1, col)
  {
  }

  lemma AdvancePlaces(s: Console)
    requires Shape(s) && Placed(s)
    ensures var t := AdvanceLine(s);
            t.currentLine < SCROLLBACK_ROWS && t.totalLines == t.currentLine + 1 && t.currentColumn == 0
            && t.followsTail == s.followsTail && t.shadow == s.shadow && t.screen == s.screen
            && t.dirty == s.dirty && t.dirtyRow == s.dirtyRow && t.dirtyMin == s.dirtyMin && t.dirtyMax == s.dirtyMax
            && t.colour == s.colour && t.attribute == s.attribute
            && t.currentLine == (if s.currentLine + 1 < SCROLLBACK_ROWS then s.currentLine + 1 else s.currentLine)
            && t.viewTop == (if s.currentLine + 1 >= SCROLLBACK_ROWS && !s.followsTail && s.viewTop > 0 then s.viewTop - 1 else s.viewTop)
  {
  }

  lemma RenderVisibleFull(s: Console)
    requires Shape(s)
    ensures var t := RenderVisible(s); Shape(t) && Consistent(t) && Synced(t) && t.screen == t.shadow && !t.dirty
  {
    var t := RenderVisible(s);
    RenderSame(s, t);
    EqualIsSynced(t);
  }

  /** Only the screen, the shadow and the dirty span matter. */
  lemma SyncedSame(s: Console, t: Console)
    requires Shape(s) && Shape(t) && Synced(s)
    requires t.shadow == s.shadow && t.screen == s.screen && t.dirty == s.dirty
    requires t.dirtyRow == s.dirtyRow && t.dirtyMin == s.dirtyMin && t.dirtyMax == s.dirtyMax
    ensures Synced(t)
  {
    forall r: nat, c: nat | r < ROWS && c < COLS ensures Agrees(t, r, c) {
      assert Agrees(s, r, c);
    }
  }

  // ----- A new line -----

  /** Following the tail, a new line ends exactly as a full redraw of the new view would, whether
      the fast path ran, or only the dirty line was presented. */
  lemma NewlineIsFullRedraw(s: Console)
    requires Inv(s) && Consistent(s) && s.followsTail
    ensures var t := AdvanceLine(s);
            AppendNewLine(s) == RenderVisible(t.(viewTop := MaximumViewTop(t)))
  {
    hide Render, RenderRow, Synced;
    var t := AdvanceLine(s);
    var u := t.(viewTop := MaximumViewTop(t));
    AdvancePlaces(s);
    forall line: nat, col: nat | col < COLS
      ensures s.currentLine + 1 < SCROLLBACK_ROWS ==> Look(t, line, col) == Look(s, line, col)
      ensures s.currentLine + 1 >= SCROLLBACK_ROWS ==> Look(t, line, col) == Look(s, line + 1, col)
    {
      AdvanceLooks(s, line, col);
    }
    if s.currentLine + 1 >= SCROLLBACK_ROWS || s.totalLines >= ROWS {
      RenderMovedUp(s, u);
    } else {
      RenderSame(s, u);
      SyncedSame(s, u);
      PresentDirtyLineSyncs(u);
    }
  }

  /** The branch of a new line that redraws everything is never reached: following the tail, either the
      fast path runs, or the view stays where it is. */
  lemma FullRedrawUnreachable(s: Console)
    requires Inv(s) && s.followsTail
    ensures var top := MaximumViewTop(AdvanceLine(s));
            || s.currentLine + 1 >= SCROLLBACK_ROWS
            || (top == s.viewTop + 1 && s.totalLines >= ROWS)
            || top == s.viewTop
  {
    hide Synced;
    AdvancePlaces(s);
  }

  /** The first 26 stored lines show the same 80 columns, so dropping one moves nothing visible. */
  predicate TopLooksUniform(s: Console)
    requires Shape(s)
  {
    forall row: nat, col: nat :: row < ROWS && col < COLS ==> Code(Look(s, row + 1, col)) == Code(Look(s, row, col))
  }

  lemma NewlinePlaces(s: Console)
    requires Inv(s)
    ensures Inv(AppendNewLine(s))
  {
    hide Render, RenderRow, Synced;
    var t := AdvanceLine(s);
    AdvancePlaces(s);
    SyncedSame(s, t);
    var u := t.(viewTop := MaximumViewTop(t));
    SyncedSame(s, u);
    PresentDirtyLineSyncs(u);
    RenderVisibleFull(u);
    EqualIsSynced(FastTailScroll(u));
  }

  lemma FollowingNewlineConsistent(s: Console)
    requires Inv(s) && Consistent(s) && s.followsTail
    ensures var t := AppendNewLine(s); Consistent(t) && t.screen == t.shadow
  {
    NewlineIsFullRedraw(s);
    var t := AdvanceLine(s);
    RenderVisibleFull(t.(viewTop := MaximumViewTop(t)));
  }

  lemma LooksDiffer(s: Console, t: Console, row: nat, col: nat)
    requires Shape(s) && Shape(t) && row < ROWS && col < COLS
    requires Code(CellAt(t, row, col)) != Code(CellAt(s, row, col))
    ensures Render(t) != Render(s)
  {
    assert Render(t)[row][col] != Render(s)[row][col];
  }

  /** A new line keeps the shadow a full redraw exactly when it does not drop a line under a view
      pinned at line 0, or the drop moves nothing that can be seen. */
  lemma NewlineConsistent(s: Console)
    requires Inv(s) && Consistent(s)
    ensures Consistent(AppendNewLine(s)) <==> !Pinned(s) || TopLooksUniform(s)
  {
    hide Render, RenderRow, Synced;
    if s.followsTail {
      FollowingNewlineConsistent(s);
    } else {
      var t := AdvanceLine(s);
      AdvancePlaces(s);
      forall line: nat, col: nat | col < COLS
        ensures s.currentLine + 1 < SCROLLBACK_ROWS ==> Look(t, line, col) == Look(s, line, col)
        ensures s.currentLine + 1 >= SCROLLBACK_ROWS ==> Look(t, line, col) == Look(s, line + 1, col)
      {
        AdvanceLooks(s, line, col);
      }
      if !Pinned(s) || TopLooksUniform(s) {
        forall row: nat, col: nat | row < ROWS && col < COLS
          ensures Code(CellAt(t, row, col)) == Code(CellAt(s, row, col))
        {
          AdvanceLooks(s, t.viewTop + row, col);
          if Pinned(s) {
            assert Code(Look(s, row + 1, col)) == Code(Look(s, row, col));
          }
        }
        RenderSame(s, t);
      } else {
        var row: nat, col: nat :| row < ROWS && col < COLS && Code(Look(s, row + 1, col)) != Code(Look(s, row, col));
        LooksDiffer(s, t, row, col);
      }
    }
  }

  // ----- Characters -----

  lemma StoreCellKeeps(s: Console, value: Byte)
    requires Inv(s) && s.currentColumn < COLS
    ensures Inv(StoreCell(s, value))
  {
    hide Synced;
    SyncedSame(s, StoreCell(s, value));
  }

  lemma ShowCellKeeps(s: Console)
    requires Inv(s) && s.currentColumn < COLS
    ensures Inv(ShowCell(s)) && ShowCell(s).currentColumn == s.currentColumn
  {
    hide Synced;
    if CurrentLineIsVisible(s) {
      var row := s.currentLine - s.viewTop;
      DrawAndMarkSyncs(s, row, s.currentColumn);
      MarkChangesSpanOnly(RenderCell(s, row, s.currentColumn), row, s.currentColumn);
    }
  }

  lemma MarkChangesSpanOnly(s: Console, row: nat, col: nat)
    requires Shape(s)
    ensures var t := MarkDirtyCell(s, row, col);
            t == s.(screen := t.screen, dirty := t.dirty, dirtyRow := t.dirtyRow, dirtyMin := t.dirtyMin, dirtyMax := t.dirtyMax)
  {
  }

  lemma PutCellPlaces(s: Console, value: Byte)
    requires Inv(s) && s.currentColumn < COLS
    ensures Inv(PutCell(s, value))
  {
    hide Synced, StoreCell, ShowCell;
    StoreCellKeeps(s, value);
    StoreCellCursor(s, value);
    ShowCellKeeps(StoreCell(s, value));
    SyncedSame(ShowCell(StoreCell(s, value)), PutCell(s, value));
  }

  lemma StoreCellCursor(s: Console, value: Byte)
    requires Inv(s) && s.currentColumn < COLS
    ensures StoreCell(s, value).currentColumn == s.currentColumn
  {
  }

  /** Storing changes what one place of the view shows, or nothing in view. */
  lemma StoreCellLooks(s: Console, value: Byte, row: nat, col: nat)
    requires Inv(s) && s.currentColumn < COLS && row < ROWS && col < COLS
    requires s.viewTop + row != s.currentLine || col != s.currentColumn
    ensures CellAt(StoreCell(s, value), row, col) == CellAt(s, row, col)
  {
    hide Synced;
  }

  lemma StoreCellShadow(s: Console, value: Byte)
    requires Inv(s) && s.currentColumn < COLS
    ensures var t := StoreCell(s, value); t.shadow == s.shadow && t.viewTop == s.viewTop && t.currentLine == s.currentLine
  {
  }

  lemma RenderCellAt(s: Console, row: nat, col: nat, r: nat, c: nat)
    requires Shape(s) && row < ROWS && col < COLS && r < ROWS && c < COLS
    ensures RenderCell(s, row, col).shadow[r][c]
         == if r == row && c == col then Code(CellAt(s, row, col)) else s.shadow[r][c]
  {
  }

  lemma PutCellConsistent(s: Console, value: Byte)
    requires Inv(s) && s.currentColumn < COLS && Consistent(s)
    ensures Consistent(PutCell(s, value))
  {
    hide Synced, StoreCell, ShowCell, RenderCell, MarkDirtyCell;
    var t := StoreCell(s, value);
    StoreCellKeeps(s, value);
    StoreCellCursor(s, value);
    StoreCellShadow(s, value);
    forall row: nat, col: nat | row < ROWS && col < COLS && !(row + t.viewTop == t.currentLine && col == t.currentColumn)
      ensures Code(CellAt(t, row, col)) == Code(CellAt(s, row, col))
    {
      StoreCellLooks(s, value, row, col);
    }
    ShowConsistent(s, t);
    var u := PutCell(s, value);
    RenderSame(ShowCell(t), u);
  }

  lemma ShowConsistent(s: Console, t: Console)
    requires Inv(s) && Inv(t) && Consistent(s) && t.shadow == s.shadow && t.currentColumn < COLS
    requires forall row: nat, col: nat :: row < ROWS && col < COLS && !(row + t.viewTop == t.currentLine && col == t.currentColumn) ==>
               Code(CellAt(t, row, col)) == Code(CellAt(s, row, col))
    ensures Consistent(ShowCell(t))
  {
    hide Synced, RenderCell, MarkDirtyCell;
    if CurrentLineIsVisible(t) {
      var at := t.currentLine - t.viewTop;
      var d := RenderCell(t, at, t.currentColumn);
      forall row: nat | row < ROWS ensures d.shadow[row] == RenderRow(t, row) {
        forall col: nat | col < COLS ensures d.shadow[row][col] == Code(CellAt(t, row, col)) {
          assert s.shadow[row] == RenderRow(s, row);
          RenderCellAt(t, at, t.currentColumn, row, col);
        }
        RowsEqual(d.shadow[row], RenderRow(t, row));
      }
      DrawAndMarkSyncs(t, at, t.currentColumn);
      MarkChangesSpanOnly(d, at, t.currentColumn);
      RenderCellShadowOnly(t, at, t.currentColumn);
      RenderSame(t, ShowCell(t));
    } else {
      RenderSame(s, t);
    }
  }

  lemma RenderCellShadowOnly(s: Console, row: nat, col: nat)
    requires Shape(s)
    ensures RenderCell(s, row, col) == s.(shadow := RenderCell(s, row, col).shadow)
  {
  }

  /** A character causes a new line that drops a stored line under a pinned view. */
  predicate StoreDrops(s: Console) {
    s.currentColumn >= COLS && Pinned(s)
  }

  predicate SpacesDrop(s: Console, n: nat)
    requires Shape(s)
    decreases n
  {
    n > 0 && (StoreDrops(s) || SpacesDrop(StorePrintable(s, SPACE), n - 1))
  }

  predicate WriteDrops(s: Console, value: Byte)
    requires Shape(s)
  {
    if value == RETURN then false
    else if value == NEWLINE then Pinned(s)
    else if value == TAB then SpacesDrop(s, 4)
    else StoreDrops(s)
  }

  /** Only a view at line 0 of a full scrollback can be stale. */
  predicate Fresh(s: Console)
    requires Shape(s)
  {
    Consistent(s) || Pinned(s)
  }

  lemma NewlineFresh(s: Console)
    requires Inv(s) && Fresh(s)
    ensures Fresh(AppendNewLine(s))
  {
    hide Render, RenderRow, Synced;
    AdvancePlaces(s);
    if !Pinned(s) {
      NewlineConsistent(s);
    }
  }

  lemma PutCellFresh(s: Console, value: Byte)
    requires Inv(s) && s.currentColumn < COLS && Fresh(s)
    ensures Fresh(PutCell(s, value))
  {
    hide Render, RenderRow, Synced;
    if Consistent(s) {
      PutCellConsistent(s, value);
    }
  }

  /** Under a pinned view the cursor stands below what can be seen: a character there changes neither
      the picture nor the top of the store. */
  lemma PutCellBelow(s: Console, value: Byte)
    requires Inv(s) && s.currentColumn < COLS && Pinned(s)
    ensures var t := PutCell(s, value);
            Pinned(t) && (Consistent(t) <==> Consistent(s)) && (TopLooksUniform(t) <==> TopLooksUniform(s))
  {
    hide Synced, Render, RenderRow;
    var t := PutCell(s, value);
    forall line: nat, col: nat | line <= ROWS && col < COLS ensures Look(t, line, col) == Look(s, line, col) {
    }
    RenderSame(s, t);
  }

  lemma StoreBelow(s: Console, value: Byte)
    requires Inv(s) && s.currentColumn < COLS && Pinned(s)
    ensures TopLooksUniform(StorePrintable(s, value)) <==> TopLooksUniform(s)
  {
    hide PutCell, TopLooksUniform, Synced;
    PutCellBelow(s, value);
  }

  lemma NewlinePinned(s: Console)
    requires Inv(s) && Pinned(s)
    ensures Pinned(AppendNewLine(s))
  {
    AdvancePlaces(s);
  }

  lemma StoreKeeps(s: Console, value: Byte)
    requires Inv(s) && Fresh(s)
    ensures var t := StorePrintable(s, value);
            Inv(t) && Fresh(t) && (Consistent(s) ==> (Consistent(t) <==> !StoreDrops(s) || TopLooksUniform(s)))
  {
    hide Render, RenderRow, Synced, PutCell, AppendNewLine, Consistent, TopLooksUniform;
    var t := if s.currentColumn >= COLS then AppendNewLine(s) else s;
    if s.currentColumn >= COLS {
      NewlinePlaces(s);
      NewlineColumn(s);
      NewlineFresh(s);
      if Consistent(s) {
        NewlineConsistent(s);
      }
    }
    PutCellPlaces(t, value);
    PutCellFresh(t, value);
    if Consistent(t) {
      PutCellConsistent(t, value);
    } else if StoreDrops(s) {
      NewlinePinned(s);
      PutCellBelow(t, value);
    }
  }

  /** Spaces short of the last column only fill cells below a pinned view. */
  lemma {:induction false} SpacesBelow(s: Console, n: nat)
    requires Inv(s) && Pinned(s) && s.currentColumn + n <= COLS
    ensures !SpacesDrop(s, n) && (Consistent(WriteSpaces(s, n)) <==> Consistent(s))
    decreases n
  {
    hide Synced, Consistent, PutCell, TopLooksUniform;
    if n > 0 {
      PutCellPlaces(s, SPACE);
      PutCellBelow(s, SPACE);
      PutCellCursor(s, SPACE);
      SpacesBelow(PutCell(s, SPACE), n - 1);
    }
  }

  lemma PutCellCursor(s: Console, value: Byte)
    requires Inv(s) && s.currentColumn < COLS
    ensures PutCell(s, value).currentColumn == s.currentColumn + 1
    ensures Pinned(PutCell(s, value)) <==> Pinned(s)
  {
    hide Synced;
    StoreCellKeeps(s, value);
    ShowCellKeeps(StoreCell(s, value));
  }

  lemma NewlineColumn(s: Console)
    requires Shape(s)
    ensures AppendNewLine(s).currentColumn == 0
  {
  }

  lemma {:induction false} SpacesKeep(s: Console, n: nat)
    requires Inv(s) && Fresh(s)
    ensures var t := WriteSpaces(s, n); Inv(t) && Fresh(t)
    decreases n
  {
    hide Placed, Synced, Fresh, Consistent, StorePrintable;
    if n > 0 {
      StoreKeeps(s, SPACE);
      SpacesKeep(StorePrintable(s, SPACE), n - 1);
    }
  }

  lemma StorePlaces(s: Console, value: Byte)
    requires Inv(s)
    ensures var t := StorePrintable(s, value);
            && Inv(t) && t.currentColumn == (if s.currentColumn >= COLS then 1 else s.currentColumn + 1)
            && (s.currentColumn < COLS ==> (Pinned(t) <==> Pinned(s)))
  {
    hide Synced, Render, RenderRow;
    var t := if s.currentColumn >= COLS then AppendNewLine(s) else s;
    if s.currentColumn >= COLS {
      NewlinePlaces(s);
      NewlineColumn(s);
    }
    PutCellPlaces(t, value);
    PutCellCursor(t, value);
  }

  /** Of fewer spaces than a line holds at most one wraps, and it wraps at the end of the line. */
  lemma {:induction false} SpacesDropIs(s: Console, n: nat)
    requires Inv(s) && n <= COLS
    ensures SpacesDrop(s, n) <==> Pinned(s) && s.currentColumn + n > COLS
    decreases n
  {
    hide Synced, StorePrintable;
    if n > 0 {
      StorePlaces(s, SPACE);
      SpacesDropIs(StorePrintable(s, SPACE), n - 1);
    }
  }

  lemma {:induction false} SpacesConsistent(s: Console, n: nat)
    requires Inv(s) && Fresh(s) && Consistent(s) && n <= COLS
    ensures Consistent(WriteSpaces(s, n)) <==> !SpacesDrop(s, n) || TopLooksUniform(s)
    decreases n
  {
    hide Synced, Fresh, Consistent, StorePrintable, TopLooksUniform;
    if n > 0 {
      var t := StorePrintable(s, SPACE);
      StoreKeeps(s, SPACE);
      StorePlaces(s, SPACE);
      SpacesDropIs(s, n);
      if StoreDrops(s) {
        StorePinned(s, SPACE);
        SpacesBelow(t, n - 1);
      } else {
        SpacesDropIs(t, n - 1);
        SpacesConsistent(t, n - 1);
        if Pinned(s) {
          StoreBelow(s, SPACE);
        }
      }
    }
  }

  lemma StorePinned(s: Console, value: Byte)
    requires Inv(s) && StoreDrops(s)
    ensures Pinned(StorePrintable(s, value))
  {
    hide Synced, Render, RenderRow, PutCell, AppendNewLine;
    NewlinePlaces(s);
    NewlineColumn(s);
    NewlinePinned(s);
    PutCellBelow(AppendNewLine(s), value);
  }

  lemma ReturnKeeps(s: Console)
    requires Inv(s) && Fresh(s)
    ensures var t := s.(currentColumn := 0); Inv(t) && Fresh(t) && (Consistent(s) ==> Consistent(t))
  {
    hide RenderRow;
    var t := s.(currentColumn := 0);
    SyncedSame(s, t);
    RenderSame(s, t);
  }

  /** A character keeps the shadow a full redraw exactly when the new line it may cause, if any, drops
      nothing under a pinned view, or drops nothing that can be seen. */
  lemma WriteKeeps(s: Console, value: Byte)
    requires Inv(s) && Fresh(s)
    ensures var t := WriteChar(s, value);
            Inv(t) && Fresh(t) && (Consistent(s) ==> (Consistent(t) <==> !WriteDrops(s, value) || TopLooksUniform(s)))
  {
    hide Placed, Synced, Fresh, Consistent, StorePrintable, AppendNewLine, WriteSpaces, SpacesDrop, TopLooksUniform;
    if value == RETURN {
      ReturnKeeps(s);
    } else if value == NEWLINE {
      NewlineKeeps(s);
    } else if value == TAB {
      SpacesKeep(s, 4);
      if Consistent(s) {
        SpacesConsistent(s, 4);
      }
    } else {
      StoreKeeps(s, value);
    }
  }

  lemma NewlineKeeps(s: Console)
    requires Inv(s) && Fresh(s)
    ensures var t := AppendNewLine(s);
            Inv(t) && Fresh(t) && (Consistent(s) ==> (Consistent(t) <==> !Pinned(s) || TopLooksUniform(s)))
  {
    hide Placed, Synced, Render, RenderRow, AppendNewLine, TopLooksUniform;
    NewlinePlaces(s);
    NewlineFresh(s);
    if Consistent(s) {
      NewlineConsistent(s);
    }
  }

  // ----- What is shown, in numbers -----

  /** A display word: the character in the low byte, its attribute in the high byte. */
  lemma CodeIs(c: Cell)
    ensures Code(c) % 256 == c.value && Code(c) / 256 == c.attribute
  {
  }

  /** A full redraw shows, at each of 25 by 80 places, the stored cell of that column on the line that many
      below the top of the view; beyond the lines there are, a space in white on black. */
  lemma RenderShows(s: Console, row: nat, col: nat)
    requires Shape(s) && s.totalLines <= 512 && row < 25 && col < 80
    ensures var word := Render(s)[row][col];
            if s.viewTop + row < s.totalLines then
              word % 256 == s.cells[s.viewTop + row][col].value && word / 256 == s.cells[s.viewTop + row][col].attribute
            else
              word == 0x0F20
  {
    CodeIs(CellAt(s, row, col));
    assert Render(s)[row] == RenderRow(s, row);
  }

  /** The view can be scrolled exactly when it is not where it would go: it moves up by as many lines, or to
      the top, stops following the tail, and everything is drawn and presented. */
  lemma ScrollUpIs(s: Console, lines: nat)
    requires Inv(s)
    ensures var (t, moved) := ScrollUp(s, lines);
            && (moved <==> lines > 0 && s.viewTop > 0)
            && (!moved ==> t == s)
            && (moved ==>
                  && t.viewTop == (if lines > s.viewTop then 0 else s.viewTop - lines) && !t.followsTail
                  && t.screen == t.shadow == Render(t) && !t.dirty
                  && t == s.(viewTop := t.viewTop, followsTail := false, shadow := t.shadow, screen := t.screen,
                         dirty := false, dirtyRow := 0, dirtyMin := 0, dirtyMax := 0))
  {
    if lines > 0 && s.viewTop > 0 {
      var v := s.(viewTop := if lines > s.viewTop then 0 else s.viewTop - lines, followsTail := false);
      RenderVisibleFull(v);
    }
  }

  /** Down in the same way, at most until the last line is at the bottom; there the view follows the tail
      again, also when it was there already. */
  lemma ScrollDownIs(s: Console, lines: nat)
    requires Inv(s)
    ensures var (t, moved) := ScrollDown(s, lines);
            var bottom := if s.totalLines <= 25 then 0 else s.totalLines - 25;
            && (moved <==> lines > 0 && s.viewTop < bottom)
            && (!moved ==> t == s)
            && (moved ==>
                  && t.viewTop == (if s.viewTop + lines > bottom then bottom else s.viewTop + lines)
                  && (t.followsTail <==> t.viewTop == bottom)
                  && t.screen == t.shadow == Render(t) && !t.dirty
                  && t == s.(viewTop := t.viewTop, followsTail := t.followsTail, shadow := t.shadow, screen := t.screen,
                         dirty := false, dirtyRow := 0, dirtyMin := 0, dirtyMax := 0))
  {
    var bottom := MaximumViewTop(s);
    if lines > 0 && s.viewTop < bottom {
      var view := if lines > bottom - s.viewTop then bottom else s.viewTop + lines;
      RenderVisibleFull(s.(viewTop := view, followsTail := view >= bottom));
    }
  }

  lemma ScrollToBottomIs(s: Console)
    requires Inv(s)
    ensures var t := ScrollToBottom(s);
            && t.viewTop == (if s.totalLines <= 25 then 0 else s.totalLines - 25) && t.followsTail
            && t.screen == t.shadow == Render(t) && !t.dirty
            && t == s.(viewTop := t.viewTop, followsTail := true, shadow := t.shadow, screen := t.screen,
                   dirty := false, dirtyRow := 0, dirtyMin := 0, dirtyMax := 0)
  {
    RenderVisibleFull(s.(viewTop := MaximumViewTop(s), followsTail := true));
  }

  /** Scrolling up and down again by as much comes back to the same view. */
  lemma ScrollUpThenDown(s: Console, lines: nat)
    requires Inv(s) && 0 < lines <= s.viewTop
    ensures var t := ScrollDown(ScrollUp(s, lines).0, lines).0;
            t.viewTop == s.viewTop && t.followsTail == s.followsTail && t.cells == s.cells
  {
    hide Render, Synced;
    var v := s.(viewTop := s.viewTop - lines, followsTail := false);
    RenderVisibleFull(v);
    ScrollUpIs(s, lines);
    assert ScrollUp(s, lines).0 == RenderVisible(v);
    ScrollDownIs(RenderVisible(v), lines);
  }

  /** Marking a cell makes the dirty span reach it and no further than before: a span on another row is
      presented first. */
  lemma MarkDirtyIs(s: Console, row: nat, col: nat)
    requires Shape(s) && row < 25 && col < 80
    ensures var t := MarkDirtyCell(s, row, col);
            && t.dirty && t.dirtyRow == row
            && (if s.dirty && s.dirtyRow == row then
                  && t.dirtyMin == (if col < s.dirtyMin then col else s.dirtyMin)
                  && t.dirtyMax == (if col > s.dirtyMax then col else s.dirtyMax)
                  && t.screen == s.screen
                else t.dirtyMin == col == t.dirtyMax && t.screen == PresentDirtyLine(s).screen)
  {
  }
}
