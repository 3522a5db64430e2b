/** The grid as an object whose fields are updated in place. Its abstract value is a
    `Grids.Grid`, and every method is proved against the function of the same name. */
module GridObject {
  import opened Common
  import opened Styles
  import opened Cells
  import opened Grids
  import opened ScrollbackBuffers
  import S = Scrollback
  import R = Reflow
  import ReflowLoops

  class GridBuffer {
    var visible: seq<Row>
    var cols: nat
    var rows: nat
    var cursor: Cursor
    var savedCursor: Option<Cursor>
    var regionTop: nat
    var regionBottom: nat
    var modes: set<Mode>
    var alternate: Option<Stash>
    var tabs: seq<bool>
    const scrollback: ScrollbackBuffer

    ghost function State(): Grid
      reads this, scrollback
    {
      Grid(visible, cols, rows, cursor, savedCursor, regionTop, regionBottom, modes, alternate, tabs,
        scrollback.State())
    }

    ghost predicate Sized()
      reads this, scrollback
    {
      State().Sized()
    }

    ghost predicate Valid()
      reads this, scrollback
    {
      State().Valid()
    }

    constructor (cols: nat, rows: nat)
      requires cols > 0 && rows > 0
      ensures Valid() && State() == Grids.New(cols, rows)
      ensures fresh(scrollback)
    {
      this.visible := BlankRows(rows, cols);
      this.cols, this.rows := cols, rows;
      this.cursor := HOME;
      this.savedCursor := None;
      this.regionTop, this.regionBottom := 0, rows - 1;
      this.modes := DEFAULT_MODES;
      this.alternate := None;
      this.tabs := DefaultTabs(cols);
      var sb := new ScrollbackBuffer(S.DEFAULT_MAX_LINES);
      this.scrollback := sb;
    }

    // -----------------------------------------------------------------------
    // Cells
    // -----------------------------------------------------------------------

    /** Overwrite one cell. */
    method PutCell(row: nat, col: nat, cell: Cell)
      requires Sized() && row < rows && col < cols
      modifies this`visible
      ensures Sized() && State() == SetRow(old(State()), row, old(visible)[row].cells[col := cell])
    {
      visible := visible[row := visible[row].(cells := visible[row].cells[col := cell])];
    }

    method SetSoftWrapped(row: nat)
      requires Sized() && row < rows
      modifies this`visible
      ensures Sized() && State() == MarkSoftWrapped(old(State()), row)
    {
      visible := visible[row := visible[row].(softWrapped := true)];
    }

    // -----------------------------------------------------------------------
    // The cursor
    // -----------------------------------------------------------------------

    method SetCursor(col: nat, row: nat)
      requires Sized()
      modifies this`cursor
      ensures Sized() && State() == Grids.SetCursor(old(State()), col, row)
    {
      cursor := cursor.(col := Min(col, cols - 1));
      cursor := cursor.(row := Min(row, rows - 1));
      cursor := cursor.(wrapPending := false);
    }

    method SetModes(newModes: set<Mode>)
      requires Sized()
      modifies this`modes, this`cursor
      ensures Sized() && State() == Grids.SetModes(old(State()), newModes)
    {
      modes := newModes;
      cursor := cursor.(visible := CursorVisible in newModes);
    }

    method SetCursorCup(col: nat, row: nat)
      requires Sized()
      modifies this`cursor
      ensures Sized() && State() == Grids.SetCursorCup(old(State()), col, row)
    {
      if Origin in modes {
        var absRow := Min(regionTop + row, regionBottom);
        var absCol := Min(col, cols - 1);
        cursor := cursor.(col := absCol, row := absRow, wrapPending := false);
      } else {
        SetCursor(col, row);
      }
    }

    method SaveCursor()
      requires Sized()
      modifies this`savedCursor
      ensures Sized() && State() == Grids.SaveCursor(old(State()))
    {
      savedCursor := Some(cursor);
    }

    method RestoreCursor()
      requires Valid()
      modifies this`savedCursor, this`cursor
      ensures Valid() && State() == Grids.RestoreCursor(old(State()))
    {
      if savedCursor.Some? {
        cursor := savedCursor.value;
        savedCursor := None;
      }
    }

    method SetStyle(style: Style)
      requires Sized()
      modifies this`cursor
      ensures Sized() && State() == Grids.SetStyle(old(State()), style)
    {
      cursor := cursor.(style := style);
    }

    method SetTab(col: nat, stop: bool)
      requires Sized()
      modifies this`tabs
      ensures Sized() && State() == Grids.SetTab(old(State()), col, stop)
    {
      if col < cols {
        tabs := tabs[col := stop];
      }
    }

    method ClearTabs()
      requires Sized()
      modifies this`tabs
      ensures Sized() && State() == Grids.ClearTabs(old(State()))
    {
      for c := 0 to |tabs|
        invariant |tabs| == cols && forall i :: 0 <= i < c ==> !tabs[i]
      {
        tabs := tabs[c := false];
      }
      assert tabs == Repeat(false, cols);
    }

    // -----------------------------------------------------------------------
    // Scrolling
    // -----------------------------------------------------------------------

    method SetScrollRegion(top: nat, bottom: nat)
      requires Sized() && top <= bottom < rows
      modifies this`regionTop, this`regionBottom
      ensures Sized() && State() == Grids.SetScrollRegion(old(State()), top, bottom)
    {
      regionTop, regionBottom := top, bottom;
    }

    /** Send rows to the history, the first one first. */
    method PushRows(screen: seq<Row>)
      modifies scrollback
      ensures scrollback.State() == S.PushAll(old(scrollback.State()), screen)
    {
      ghost var h := scrollback.State();
      for i := 0 to |screen|
        invariant scrollback.State() == S.PushAll(h, screen[..i])
      {
        PushAllSnoc(h, screen[..i], screen[i]);
        assert screen[..i + 1] == screen[..i] + [screen[i]];
        scrollback.Push(screen[i]);
      }
      assert screen[..|screen|] == screen;
    }

    /** Rows that scroll off the top of the whole primary screen go to the history. */
    method CaptureRows(top: nat, bottom: nat, k: nat)
      requires top + k <= |visible|
      modifies scrollback
      ensures State() == old(State()).(history := old(Captured(State(), top, bottom, k)))
    {
      hide S.PushAll;
      var capture := alternate.None? && top == 0 && bottom == rows - 1;
      if capture {
        PushRows(visible[top..top + k]);
      }
    }

    method ScrollUpInRegion(count: nat, top: nat, bottom: nat)
      requires Sized() && top <= bottom < rows
      modifies this`visible, scrollback
      ensures Sized() && State() == ScrollUpIn(old(State()), count, top, bottom)
    {
      hide ScrollUpIn, Captured, Drained, Inserted, HasWidth, BlankRows, S.PushAll;
      ScrollUpSteps(State(), count, top, bottom);
      var regionHeight := bottom - top + 1;
      var k := Min(count, regionHeight);
      CaptureRows(top, bottom, k);
      DrainRows(top, bottom, k);
    }

    /** Drop `k` rows at the top of the region and put blank ones at its bottom. */
    method DrainRows(top: nat, bottom: nat, k: nat)
      requires top <= bottom < |visible| && k <= bottom - top + 1
      modifies this`visible
      ensures visible == Inserted(Drained(old(visible), top, k), bottom + 1 - k, k, cols)
    {
      visible := InsertBlankRows(Drained(visible, top, k), bottom + 1 - k, k);
    }

    /** Insert `k` blank rows, one at a time, before index `at`. */
    method InsertBlankRows(screen: seq<Row>, at: nat, k: nat) returns (r: seq<Row>)
      requires at <= |screen|
      ensures r == Inserted(screen, at, k, cols)
    {
      r := screen;
      for i := 0 to k
        invariant r == screen[..at] + BlankRows(i, cols) + screen[at..]
      {
        r := r[..at] + [BlankRow(cols)] + r[at..];
      }
    }

    method ScrollDownInRegion(count: nat, top: nat, bottom: nat)
      requires Sized() && top <= bottom < rows
      modifies this`visible
      ensures Sized() && State() == ScrollDownIn(old(State()), count, top, bottom)
    {
      hide ScrolledDown, HasWidth, BlankRows;
      var regionHeight := bottom - top + 1;
      var k := Min(count, regionHeight);
      ghost var g := State();
      var drained := visible[..bottom + 1 - k] + visible[bottom + 1..];
      visible := InsertBlankRows(drained, top, k);
      DrainAndInsertAbove(g.visible, cols, k, top, bottom);
    }

    method LineFeed()
      requires Sized()
      modifies this`visible, this`cursor, scrollback
      ensures Sized() && State() == Grids.LineFeed(old(State()))
    {
      var col, row := cursor.col, cursor.row;
      if row == regionBottom {
        ScrollUpInRegion(1, regionTop, regionBottom);
        SetCursor(col, row);
      } else if row + 1 < rows {
        SetCursor(col, row + 1);
      }
    }

    method ReverseIndex()
      requires Sized()
      modifies this`visible, this`cursor
      ensures Sized() && State() == Grids.ReverseIndex(old(State()))
    {
      var col, row := cursor.col, cursor.row;
      if row == regionTop {
        ScrollDownInRegion(1, regionTop, regionBottom);
        SetCursor(col, row);
      } else if row > 0 {
        SetCursor(col, row - 1);
      }
    }

    // -----------------------------------------------------------------------
    // Writing
    // -----------------------------------------------------------------------

    method ClearWideAt(col: nat, row: nat)
      requires Sized() && row < rows && col < cols
      modifies this`visible
      ensures Sized() && State() == SetRow(old(State()), row, Grids.ClearWideAt(old(visible)[row].cells, col))
    {
      var cell := visible[row].cells[col];
      if cell.wide {
        var contCol := col + 1;
        if contCol < cols {
          PutCell(row, contCol, BLANK);
        }
        PutCell(row, col, visible[row].cells[col].(wide := false));
      } else if cell.continuation {
        if col > 0 {
          PutCell(row, col - 1, BLANK);
        }
        PutCell(row, col, visible[row].cells[col].(continuation := false));
      } else {
        assert visible == visible[row := visible[row].(cells := visible[row].cells)];
      }
    }

    method AdvanceCursorRowForWrap()
      requires Sized()
      modifies this`visible, this`cursor, scrollback
      ensures Sized() && State() == AdvanceRowForWrap(old(State()))
    {
      if cursor.row == regionBottom {
        ScrollUpInRegion(1, regionTop, regionBottom);
      } else if cursor.row + 1 < rows {
        cursor := cursor.(row := cursor.row + 1);
      }
    }

    method ResolvePendingWrap()
      requires Sized()
      modifies this`visible, this`cursor, scrollback
      ensures Sized()
      ensures State() == if old(cursor).wrapPending
                         then var g := SoftWrap(old(State())); g.(cursor := g.cursor.(wrapPending := false))
                         else old(State())
    {
      if !cursor.wrapPending {
        return;
      }
      SetSoftWrapped(cursor.row);
      AdvanceCursorRowForWrap();
      cursor := cursor.(col := 0);
      cursor := cursor.(wrapPending := false);
    }

    method CombineWithPrevious(c: char)
      requires Sized()
      modifies this`visible
      ensures Sized() && State() == Grids.CombineWithPrevious(old(State()), c)
    {
      var prevCol, prevRow;
      if cursor.col > 0 {
        prevCol, prevRow := cursor.col - 1, cursor.row;
      } else if cursor.row > 0 {
        prevCol, prevRow := cols - 1, cursor.row - 1;
      } else {
        return;
      }
      var cell := visible[prevRow].cells[prevCol];
      PutCell(prevRow, prevCol, cell.(grapheme := cell.grapheme + [c]));
    }

    /** Clean up what the character covers, and write it. */
    method PlaceHere(c: char, width: nat)
      requires Sized()
      modifies this`visible
      ensures Sized()
      ensures State() == SetRow(old(State()), cursor.row,
                                PlaceChar(old(visible)[cursor.row].cells, cursor.col, c, cursor.style, width))
    {
      hide SetRow, Grids.ClearWideAt, HasWidth;
      ghost var g := State();
      var targetCol, targetRow := cursor.col, cursor.row;
      SetRowFacts(g, targetRow);
      ClearWideAt(targetCol, targetRow);
      if width == 2 {
        var nextCol := targetCol + 1;
        if nextCol < cols {
          ClearWideAt(nextCol, targetRow);
        }
      }
      PutCell(targetRow, targetCol, Cell([c], cursor.style, width == 2, false));
      if width == 2 {
        var contCol := targetCol + 1;
        if contCol < cols {
          PutCell(targetRow, contCol, Cell(" ", cursor.style, false, true));
        }
      }
    }

    /** The last part of writing a character: write, and advance. */
    method WriteHere(c: char, width: nat)
      requires Sized()
      modifies this`visible, this`cursor
      ensures Sized() && State() == WriteAtCursor(old(State()), c, width)
    {
      hide PlaceChar, HasWidth;
      PlaceHere(c, width);
      var newCol := cursor.col + width;
      if newCol >= cols {
        cursor := cursor.(col := cols - 1, wrapPending := true);
      } else {
        cursor := cursor.(col := newCol);
      }
    }

    method WriteChar(c: char, width: nat)
      requires Sized()
      modifies this`visible, this`cursor, scrollback
      ensures Sized() && State() == Grids.WriteChar(old(State()), c, width)
    {
      hide SetRow, MarkSoftWrapped, AdvanceRowForWrap, WriteAtCursor, PlaceChar, ScrollUpIn, S.PushAll, HasWidth;
      if width == 0 {
        CombineWithPrevious(c);
        return;
      }
      if cursor.wrapPending {
        if AutoWrap in modes {
          ResolvePendingWrap();
        } else {
          cursor := cursor.(wrapPending := false);
          cursor := cursor.(col := cols - 1);
        }
      }
      if width == 2 && cursor.col + 1 >= cols {
        var fillCol, fillRow := cursor.col, cursor.row;
        PutCell(fillRow, fillCol, BLANK);
        if cols == 1 {
          return;
        }
        if AutoWrap in modes {
          SetSoftWrapped(fillRow);
          AdvanceCursorRowForWrap();
          cursor := cursor.(col := 0);
        } else {
          return;
        }
      }
      WriteHere(c, width);
    }

    // -----------------------------------------------------------------------
    // Erasing
    // -----------------------------------------------------------------------

    method BlankCells(row: nat, lo: nat, hi: nat)
      requires Sized() && row < rows && lo <= hi < cols
      modifies this`visible
      ensures Sized() && State() == SetRow(old(State()), row, Blanked(old(visible)[row].cells, lo, hi))
    {
      ghost var g := State();
      ghost var cells := visible[row].cells;
      SetRowFacts(g, row);
      SetRowSame(g, row);
      hide SetRow, HasWidth, BlankedUpTo, Blanked;
      NothingBlanked(cells, lo);
      for col := lo to hi + 1
        invariant Sized() && cols == g.cols && rows == g.rows
        invariant visible[row].cells == BlankedUpTo(cells, lo, col)
        invariant State() == SetRow(g, row, visible[row].cells)
      {
        NextBlanked(cells, lo, col);
        PutCell(row, col, BLANK);
      }
      AllBlanked(cells, lo, hi);
    }

    method EraseRange(row: nat, colStart: nat, colEnd: nat)
      requires Sized() && row < rows && colEnd < cols
      modifies this`visible
      ensures Sized() && State() == Grids.EraseRange(old(State()), row, colStart, colEnd)
    {
      if colStart > colEnd {
        return;
      }
      ghost var g := State();
      ghost var cells := visible[row].cells;
      SetRowFacts(g, row);
      SetRowSame(g, row);
      hide SetRow, HasWidth;
      if colStart > 0 && visible[row].cells[colStart].continuation {
        PutCell(row, colStart - 1, BLANK);
      }
      if colEnd + 1 < cols && visible[row].cells[colEnd].wide {
        PutCell(row, colEnd + 1, BLANK);
      }
      BlankCells(row, colStart, colEnd);
      assert visible[row].cells == EraseCells(cells, colStart, colEnd);
    }

    /** Blank whole rows, one after the other. */
    method EraseRowRange(lo: nat, hi: nat)
      requires Sized() && lo <= hi <= rows
      modifies this`visible
      ensures Sized() && State() == EraseRows(old(State()), lo, hi)
    {
      ghost var g := State();
      assert visible == EraseRows(g, lo, lo).visible;
      for row := lo to hi
        invariant Sized() && State() == EraseRows(g, lo, row)
      {
        EraseRange(row, 0, cols - 1);
        EraseRowsNext(g, lo, row);
      }
    }

    method EraseBelow()
      requires Sized()
      modifies this`visible
      ensures Sized() && State() == Grids.EraseBelow(old(State()))
    {
      EraseRange(cursor.row, cursor.col, cols - 1);
      EraseRowRange(cursor.row + 1, rows);
    }

    method EraseAbove()
      requires Sized()
      modifies this`visible
      ensures Sized() && State() == Grids.EraseAbove(old(State()))
    {
      EraseRowRange(0, cursor.row);
      if cursor.col > 0 {
        EraseRange(cursor.row, 0, cursor.col);
      } else {
        EraseRange(cursor.row, 0, 0);
      }
    }

    method EraseAll()
      requires Sized()
      modifies this`visible
      ensures Sized() && State() == Grids.EraseAll(old(State()))
    {
      EraseRowRange(0, rows);
    }

    method EraseChars(count: nat)
      requires Sized()
      modifies this`visible
      ensures Sized() && State() == Grids.EraseChars(old(State()), count)
    {
      if count == 0 {
        return;
      }
      EraseRange(cursor.row, cursor.col, Min(cursor.col + count - 1, cols - 1));
    }

    // -----------------------------------------------------------------------
    // The alternate screen
    // -----------------------------------------------------------------------

    method EnterAlternateScreen()
      requires Sized()
      modifies this
      ensures Sized() && State() == EnterAlternate(old(State()))
    {
      if alternate.Some? {
        return;
      }
      alternate := Some(Stash(visible, cursor, regionTop, regionBottom));
      visible := BlankRows(rows, cols);
      regionTop, regionBottom := 0, rows - 1;
      cursor := HOME;
    }

    method ExitAlternateScreen()
      requires Sized()
      modifies this
      ensures Sized() && State() == ExitAlternate(old(State()))
    {
      if alternate.None? {
        return;
      }
      var stash := alternate.value;
      alternate := None;
      visible := stash.visible;
      cursor := stash.cursor;
      regionTop, regionBottom := stash.top, stash.bottom;
    }

    // -----------------------------------------------------------------------
    // Resizing
    // -----------------------------------------------------------------------

    method Resize(newCols: nat, newRows: nat)
      requires State().Sized() && newCols > 0 && newRows > 0
      modifies this, scrollback
      ensures State() == Grids.Resize(old(State()), newCols, newRows)
    {
      hide R.ReflowScreen, S.PushAll, ResizeTabs, HasWidth, Reverse, Grids.BasicResize;
      if alternate.Some? {
        BasicResize(newCols, newRows);
        return;
      }
      if newCols == cols {
        BasicResize(newCols, newRows);
        return;
      }
      var newHistory, newVisible, newRow, newCol :=
        ReflowLoops.ReflowRows(scrollback.rows, visible, cursor.row, cursor.col, newCols, newRows);
      scrollback.Clear();
      PushRows(newHistory);
      visible := newVisible;
      tabs := ResizeTabs(tabs, newCols);
      cols, rows := newCols, newRows;
      cursor := cursor.(col := Min(newCol, cols - 1), row := Min(newRow, rows - 1), wrapPending := false);
      regionTop, regionBottom := 0, rows - 1;
    }

    method BasicResize(newCols: nat, newRows: nat)
      requires State().Sized() && newCols > 0 && newRows > 0
      modifies this
      ensures State() == Grids.BasicResize(old(State()), newCols, newRows)
    {
      visible := ResizeRows(visible, newCols, newRows);
      tabs := ResizeTabs(tabs, newCols);
      cols, rows := newCols, newRows;
      cursor := cursor.(col := Min(cursor.col, cols - 1), row := Min(cursor.row, rows - 1));
      regionTop, regionBottom := 0, rows - 1;
      if alternate.Some? {
        var stash := alternate.value;
        var screen := ResizeRows(stash.visible, cols, rows);
        alternate := Some(Stash(screen,
                                stash.cursor.(col := Min(stash.cursor.col, cols - 1),
                                              row := Min(stash.cursor.row, rows - 1)),
                                Min(stash.top, rows - 1), Min(stash.bottom, rows - 1)));
      }
    }

    static method ResizeRows(screen: seq<Row>, newCols: nat, newRows: nat) returns (r: seq<Row>)
      ensures r == ResizeScreen(screen, newCols, newRows)
    {
      r := [];
      for i := 0 to |screen|
        invariant |r| == i && forall k :: 0 <= k < i ==> r[k] == ResizeRow(screen[k], newCols)
      {
        r := r + [ResizeRow(screen[i], newCols)];
      }
      if newRows > |screen| {
        for i := |screen| to newRows
          invariant |r| == i
          invariant forall k :: 0 <= k < i ==>
                      r[k] == if k < |screen| then ResizeRow(screen[k], newCols) else BlankRow(newCols)
        {
          r := r + [BlankRow(newCols)];
        }
      } else {
        r := r[..newRows];
      }
    }
  }

  /** The rows without the `k` from index `from` on. */
  function Drained(rows: seq<Row>, from: nat, k: nat): (r: seq<Row>)
    requires from + k <= |rows|
    ensures |r| == |rows| - k
  {
    rows[..from] + rows[from + k..]
  }

  /** The rows with `k` blank ones before index `at`. */
  function Inserted(rows: seq<Row>, at: nat, k: nat, cols: nat): (r: seq<Row>)
    requires at <= |rows|
    ensures |r| == |rows| + k
  {
    rows[..at] + BlankRows(k, cols) + rows[at..]
  }

  lemma DrainAndInsert(rows: seq<Row>, cols: nat, k: nat, top: nat, bottom: nat)
    requires top <= bottom < |rows| && k <= bottom - top + 1 && HasWidth(rows, cols)
    ensures var drained := rows[..top] + rows[top + k..];
            var at := bottom + 1 - k;
            ScrolledUp(rows, cols, k, top, bottom) == drained[..at] + BlankRows(k, cols) + drained[at..]
  {
    var drained := rows[..top] + rows[top + k..];
    var at := bottom + 1 - k;
    assert drained[..at] == rows[..top] + rows[top + k..bottom + 1];
    assert drained[at..] == rows[bottom + 1..];
  }

  function Captured(g: Grid, top: nat, bottom: nat, k: nat): S.History
    requires top + k <= |g.visible|
  {
    if Captures(g, top, bottom) then S.PushAll(g.history, g.visible[top..top + k]) else g.history
  }

  lemma ScrollUpSteps(g: Grid, count: nat, top: nat, bottom: nat)
    requires g.Sized() && top <= bottom < g.rows
    ensures |g.visible| == g.rows
    ensures var k := Min(count, bottom - top + 1);
            ScrollUpIn(g, count, top, bottom)
            == g.(visible := Inserted(Drained(g.visible, top, k), bottom + 1 - k, k, g.cols),
                  history := Captured(g, top, bottom, k))
  {
    hide HasWidth, ScrolledUp, S.PushAll, BlankRows;
    DrainAndInsert(g.visible, g.cols, Min(count, bottom - top + 1), top, bottom);
  }

  lemma DrainAndInsertAbove(rows: seq<Row>, cols: nat, k: nat, top: nat, bottom: nat)
    requires top <= bottom < |rows| && k <= bottom - top + 1 && HasWidth(rows, cols)
    ensures var drained := rows[..bottom + 1 - k] + rows[bottom + 1..];
            ScrolledDown(rows, cols, k, top, bottom) == drained[..top] + BlankRows(k, cols) + drained[top..]
  {
    var drained := rows[..bottom + 1 - k] + rows[bottom + 1..];
    assert drained[..top] == rows[..top];
    assert drained[top..] == rows[top..bottom + 1 - k] + rows[bottom + 1..];
  }

  /** The cells with those from `lo` to `hi` blank. */
  function Blanked(cells: seq<Cell>, lo: nat, hi: nat): (r: seq<Cell>)
    requires lo <= hi < |cells|
    ensures |r| == |cells|
  {
    seq(|cells|, i requires 0 <= i < |cells| => if lo <= i <= hi then BLANK else cells[i])
  }

  /** The cells with those from `lo` up to but not including `col` blank. */
  function BlankedUpTo(cells: seq<Cell>, lo: nat, col: nat): (r: seq<Cell>)
    requires lo <= col <= |cells|
    ensures |r| == |cells|
  {
    cells[..lo] + Repeat(BLANK, col - lo) + cells[col..]
  }

  lemma NothingBlanked(cells: seq<Cell>, lo: nat)
    requires lo <= |cells|
    ensures BlankedUpTo(cells, lo, lo) == cells
  {
  }

  lemma NextBlanked(cells: seq<Cell>, lo: nat, col: nat)
    requires lo <= col < |cells|
    ensures BlankedUpTo(cells, lo, col)[col := BLANK] == BlankedUpTo(cells, lo, col + 1)
  {
  }

  lemma AllBlanked(cells: seq<Cell>, lo: nat, hi: nat)
    requires lo <= hi < |cells|
    ensures BlankedUpTo(cells, lo, hi + 1) == Blanked(cells, lo, hi)
  {
  }

  /** Writing a row twice is writing it once. */
  lemma SetRowFacts(g: Grid, row: nat)
    requires g.Sized() && row < g.rows
    ensures |g.visible[row].cells| == g.cols
    ensures forall cells: seq<Cell> {:trigger SetRow(g, row, cells)} | |cells| == g.cols ::
              var r := SetRow(g, row, cells);
              r == g.(visible := r.visible) && r.visible[row].cells == cells
              && forall cells': seq<Cell> {:trigger SetRow(r, row, cells')} | |cells'| == g.cols ::
                   SetRow(r, row, cells') == SetRow(g, row, cells')
  {
  }

  lemma SetRowSame(g: Grid, row: nat)
    requires g.Sized() && row < g.rows
    ensures SetRow(g, row, g.visible[row].cells) == g
  {
    assert g.visible[row := g.visible[row]] == g.visible;
  }

  lemma {:induction false} PushAllSnoc(h: S.History, rows: seq<Row>, row: Row)
    ensures S.PushAll(h, rows + [row]) == S.Push(S.PushAll(h, rows), row)
    decreases rows
  {
    hide S.Push;
    if rows == [] {
      assert [row][1..] == [];
      assert rows + [row] == [row];
    } else {
      assert (rows + [row])[1..] == rows[1..] + [row];
      PushAllSnoc(S.Push(h, rows[0]), rows[1..], row);
    }
  }

  lemma EraseRowsNext(g: Grid, lo: nat, row: nat)
    requires g.Sized() && lo <= row < g.rows
    ensures Grids.EraseRange(EraseRows(g, lo, row), row, 0, g.cols - 1) == EraseRows(g, lo, row + 1)
  {
    var before := EraseRows(g, lo, row);
    assert EraseCells(before.visible[row].cells, 0, g.cols - 1) == Repeat(BLANK, g.cols);
    assert Grids.EraseRange(before, row, 0, g.cols - 1).visible == EraseRows(g, lo, row + 1).visible;
  }
}
