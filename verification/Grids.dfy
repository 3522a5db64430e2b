/** The screen on values: every operation of the grid as a function from the state before
    to the state after. Each keeps the grid's dimensions, bounds and capacities. */
module Grids {
  import opened Common
  import opened Styles
  import opened Cells
  import S = Scrollback
  import R = Reflow

  datatype Cursor = Cursor(col: nat, row: nat, style: Style, visible: bool, wrapPending: bool)

  const HOME: Cursor := Cursor(0, 0, PLAIN, true, false)

  datatype Mode =
    | CursorKeysApplication
    | Origin
    | AutoWrap
    | CursorVisible
    | MouseReportClick
    | MouseReportButton
    | MouseReportAll
    | MouseSgrFormat
    | BracketedPaste
    | FocusEvents
    | AlternateScreen
    | SynchronizedOutput

  const DEFAULT_MODES: set<Mode> := {AutoWrap, CursorVisible}

  /** The primary screen while the alternate one is shown. */
  datatype Stash = Stash(visible: seq<Row>, cursor: Cursor, top: nat, bottom: nat)

  datatype Grid = Grid(
    visible: seq<Row>,
    cols: nat,
    rows: nat,
    cursor: Cursor,
    saved: Option<Cursor>,
    top: nat,
    bottom: nat,
    modes: set<Mode>,
    alternate: Option<Stash>,
    tabs: seq<bool>,
    history: S.History)
  {
    predicate InBounds(c: Cursor) {
      c.col < cols && c.row < rows
    }

    predicate Fits(screen: seq<Row>) {
      |screen| == rows && HasWidth(screen, cols)
    }

    /** Every index the grid's operations use is in range, a saved cursor apart. */
    predicate Sized() {
      && cols > 0 && rows > 0
      && Fits(visible)
      && InBounds(cursor)
      && top <= bottom < rows
      && (alternate.Some? ==>
            var a := alternate.value;
            Fits(a.visible) && InBounds(a.cursor) && a.top <= a.bottom < rows)
      && |tabs| == cols
      && history.Valid()
    }

    predicate Valid() {
      Sized() && (saved.Some? ==> InBounds(saved.value))
    }
  }

  function DefaultTabs(cols: nat): (tabs: seq<bool>)
    ensures |tabs| == cols
  {
    seq(cols, c => c % 8 == 0)
  }

  function New(cols: nat, rows: nat): (g: Grid)
    requires cols > 0 && rows > 0
    ensures g.Valid()
  {
    Grid(BlankRows(rows, cols), cols, rows, HOME, None, 0, rows - 1, DEFAULT_MODES, None, DefaultTabs(cols),
         S.History([], S.DEFAULT_MAX_LINES))
  }

  // -------------------------------------------------------------------------
  // The cursor
  // -------------------------------------------------------------------------

  function MoveTo(c: Cursor, col: nat, row: nat): Cursor {
    c.(col := col, row := row, wrapPending := false)
  }

  function SetCursor(g: Grid, col: nat, row: nat): (r: Grid)
    requires g.Sized()
    ensures r.Sized() && (g.Valid() ==> r.Valid())
  {
    g.(cursor := MoveTo(g.cursor, Min(col, g.cols - 1), Min(row, g.rows - 1)))
  }

  function SetModes(g: Grid, modes: set<Mode>): (r: Grid)
    requires g.Sized()
    ensures r.Sized() && (g.Valid() ==> r.Valid())
  {
    g.(modes := modes, cursor := g.cursor.(visible := CursorVisible in modes))
  }

  /** Cursor position, relative to the scroll region when origin mode is set. */
  function SetCursorCup(g: Grid, col: nat, row: nat): (r: Grid)
    requires g.Sized()
    ensures r.Sized() && (g.Valid() ==> r.Valid())
  {
    if Origin in g.modes then
      g.(cursor := MoveTo(g.cursor, Min(col, g.cols - 1), Min(g.top + row, g.bottom)))
    else
      SetCursor(g, col, row)
  }

  function SaveCursor(g: Grid): (r: Grid)
    requires g.Sized()
    ensures r.Valid()
  {
    g.(saved := Some(g.cursor))
  }

  function RestoreCursor(g: Grid): (r: Grid)
    requires g.Valid()
    ensures r.Valid()
  {
    if g.saved.Some? then g.(cursor := g.saved.value, saved := None) else g
  }

  function SetStyle(g: Grid, style: Style): (r: Grid)
    requires g.Sized()
    ensures r.Sized() && (g.Valid() ==> r.Valid())
  {
    g.(cursor := g.cursor.(style := style))
  }

  // -------------------------------------------------------------------------
  // Tab stops
  // -------------------------------------------------------------------------

  /** The first stop after `col`, or the last column. */
  function NextStop(tabs: seq<bool>, col: nat): (c: nat)
    requires tabs != []
    ensures c < |tabs|
    decreases |tabs| - col
  {
    if col + 1 >= |tabs| then |tabs| - 1
    else if tabs[col + 1] then col + 1
    else NextStop(tabs, col + 1)
  }

  /** The last stop before `col`, or column 0. */
  function PrevStop(tabs: seq<bool>, col: nat): (c: nat)
    requires col < |tabs|
    ensures c < |tabs| && c <= col
  {
    if col == 0 then 0
    else if tabs[col - 1] then col - 1
    else PrevStop(tabs, col - 1)
  }

  function SetTab(g: Grid, col: nat, stop: bool): (r: Grid)
    requires g.Sized()
    ensures r.Sized() && (g.Valid() ==> r.Valid())
  {
    if col < g.cols then g.(tabs := g.tabs[col := stop]) else g
  }

  function ClearTabs(g: Grid): (r: Grid)
    requires g.Sized()
    ensures r.Sized() && (g.Valid() ==> r.Valid())
  {
    g.(tabs := Repeat(false, g.cols))
  }

  function ResizeTabs(tabs: seq<bool>, cols: nat): (r: seq<bool>)
    ensures |r| == cols
  {
    if cols > |tabs| then tabs + DefaultTabs(cols)[|tabs|..] else tabs[..cols]
  }

  // -------------------------------------------------------------------------
  // Scrolling
  // -------------------------------------------------------------------------

  function SetScrollRegion(g: Grid, top: nat, bottom: nat): (r: Grid)
    requires g.Sized() && top <= bottom < g.rows
    ensures r.Sized() && (g.Valid() ==> r.Valid())
  {
    g.(top := top, bottom := bottom)
  }

  /** Whether rows leaving the region at the top go to the history. */
  predicate Captures(g: Grid, top: nat, bottom: nat) {
    g.alternate.None? && top == 0 && bottom == g.rows - 1
  }

  function ScrolledUp(rows: seq<Row>, cols: nat, k: nat, top: nat, bottom: nat): (r: seq<Row>)
    requires top <= bottom < |rows| && k <= bottom - top + 1 && HasWidth(rows, cols)
    ensures |r| == |rows| && HasWidth(r, cols)
  {
    rows[..top] + rows[top + k..bottom + 1] + BlankRows(k, cols) + rows[bottom + 1..]
  }

  function ScrolledDown(rows: seq<Row>, cols: nat, k: nat, top: nat, bottom: nat): (r: seq<Row>)
    requires top <= bottom < |rows| && k <= bottom - top + 1 && HasWidth(rows, cols)
    ensures |r| == |rows| && HasWidth(r, cols)
  {
    rows[..top] + BlankRows(k, cols) + rows[top..bottom + 1 - k] + rows[bottom + 1..]
  }

  function ScrollUpIn(g: Grid, count: nat, top: nat, bottom: nat): (r: Grid)
    requires g.Sized() && top <= bottom < g.rows
    ensures r.Sized() && (g.Valid() ==> r.Valid())
  {
    var k := Min(count, bottom - top + 1);
    g.(visible := ScrolledUp(g.visible, g.cols, k, top, bottom),
       history := if Captures(g, top, bottom) then S.PushAll(g.history, g.visible[top..top + k]) else g.history)
  }

  function ScrollDownIn(g: Grid, count: nat, top: nat, bottom: nat): (r: Grid)
    requires g.Sized() && top <= bottom < g.rows
    ensures r.Sized() && (g.Valid() ==> r.Valid())
  {
    g.(visible := ScrolledDown(g.visible, g.cols, Min(count, bottom - top + 1), top, bottom))
  }

  /** Line feed and index: down one row, scrolling at the bottom of the region. */
  function LineFeed(g: Grid): (r: Grid)
    requires g.Sized()
    ensures r.Sized() && (g.Valid() ==> r.Valid())
  {
    var (col, row) := (g.cursor.col, g.cursor.row);
    if row == g.bottom then SetCursor(ScrollUpIn(g, 1, g.top, g.bottom), col, row)
    else if row + 1 < g.rows then SetCursor(g, col, row + 1)
    else g
  }

  /** Reverse index: up one row, scrolling at the top of the region. */
  function ReverseIndex(g: Grid): (r: Grid)
    requires g.Sized()
    ensures r.Sized() && (g.Valid() ==> r.Valid())
  {
    var (col, row) := (g.cursor.col, g.cursor.row);
    if row == g.top then SetCursor(ScrollDownIn(g, 1, g.top, g.bottom), col, row)
    else if row > 0 then SetCursor(g, col, row - 1)
    else g
  }

  // -------------------------------------------------------------------------
  // Writing
  // -------------------------------------------------------------------------

  function SetRow(g: Grid, row: nat, cells: seq<Cell>): (r: Grid)
    requires g.Sized() && row < g.rows && |cells| == g.cols
    ensures r.Sized() && (g.Valid() ==> r.Valid())
  {
    g.(visible := g.visible[row := g.visible[row].(cells := cells)])
  }

  function MarkSoftWrapped(g: Grid, row: nat): (r: Grid)
    requires g.Sized() && row < g.rows
    ensures r.Sized() && (g.Valid() ==> r.Valid())
  {
    g.(visible := g.visible[row := g.visible[row].(softWrapped := true)])
  }

  /** Detach the cell at `col` from the wide character it belongs to. */
  function ClearWideAt(cells: seq<Cell>, col: nat): (r: seq<Cell>)
    requires col < |cells|
    ensures |r| == |cells|
  {
    if cells[col].wide then
      var cells' := if col + 1 < |cells| then cells[col + 1 := BLANK] else cells;
      cells'[col := cells[col].(wide := false)]
    else if cells[col].continuation then
      var cells' := if col > 0 then cells[col - 1 := BLANK] else cells;
      cells'[col := cells[col].(continuation := false)]
    else cells
  }

  /** Write a character of width 1 or 2 at `col`. */
  function PlaceChar(cells: seq<Cell>, col: nat, c: char, style: Style, width: nat): (r: seq<Cell>)
    requires col < |cells|
    ensures |r| == |cells|
  {
    var cleared := ClearWideAt(cells, col);
    var both := if width == 2 && col + 1 < |cells| then ClearWideAt(cleared, col + 1) else cleared;
    var led := both[col := Cell([c], style, width == 2, false)];
    if width == 2 && col + 1 < |cells| then led[col + 1 := Cell(" ", style, false, true)] else led
  }

  function AdvanceRowForWrap(g: Grid): (r: Grid)
    requires g.Sized()
    ensures r.Sized() && (g.Valid() ==> r.Valid())
  {
    if g.cursor.row == g.bottom then ScrollUpIn(g, 1, g.top, g.bottom)
    else if g.cursor.row + 1 < g.rows then g.(cursor := g.cursor.(row := g.cursor.row + 1))
    else g
  }

  /** Mark the cursor's row as continued and go to the start of the next one. */
  function SoftWrap(g: Grid): (r: Grid)
    requires g.Sized()
    ensures r.Sized() && (g.Valid() ==> r.Valid())
  {
    var g' := AdvanceRowForWrap(MarkSoftWrapped(g, g.cursor.row));
    g'.(cursor := g'.cursor.(col := 0))
  }

  /** Resolve a pending wrap before a character of nonzero width. */
  function BeforeWrite(g: Grid): (r: Grid)
    requires g.Sized()
    ensures r.Sized() && (g.Valid() ==> r.Valid())
  {
    if !g.cursor.wrapPending then g
    else if AutoWrap in g.modes then
      var g' := SoftWrap(g);
      g'.(cursor := g'.cursor.(wrapPending := false))
    else
      g.(cursor := g.cursor.(wrapPending := false, col := g.cols - 1))
  }

  /** Write at the cursor and advance; past the last column the cursor parks there with a
      wrap pending. */
  function WriteAtCursor(g: Grid, c: char, width: nat): (r: Grid)
    requires g.Sized()
    ensures r.Sized() && (g.Valid() ==> r.Valid())
  {
    var (col, row) := (g.cursor.col, g.cursor.row);
    var g' := SetRow(g, row, PlaceChar(g.visible[row].cells, col, c, g.cursor.style, width));
    if col + width >= g.cols then g'.(cursor := g'.cursor.(col := g.cols - 1, wrapPending := true))
    else g'.(cursor := g'.cursor.(col := col + width))
  }

  /** A zero-width character joins the cell before the cursor. */
  function CombineWithPrevious(g: Grid, c: char): (r: Grid)
    requires g.Sized()
    ensures r.Sized() && (g.Valid() ==> r.Valid())
  {
    var (col, row) := (g.cursor.col, g.cursor.row);
    if col == 0 && row == 0 then g
    else
      var (col', row') := if col > 0 then (col - 1, row) else (g.cols - 1, row - 1);
      var cells := g.visible[row'].cells;
      SetRow(g, row', cells[col' := cells[col'].(grapheme := cells[col'].grapheme + [c])])
  }

  /** The wide-character case at the end of a line: the cell is filled with a blank. */
  function FillLastCell(g: Grid): (r: Grid)
    requires g.Sized()
    ensures r.Sized() && (g.Valid() ==> r.Valid())
  {
    SetRow(g, g.cursor.row, g.visible[g.cursor.row].cells[g.cursor.col := BLANK])
  }

  function WriteChar(g: Grid, c: char, width: nat): (r: Grid)
    requires g.Sized()
    ensures r.Sized() && (g.Valid() ==> r.Valid())
  {
    if width == 0 then CombineWithPrevious(g, c)
    else
      var g1 := BeforeWrite(g);
      if width == 2 && g1.cursor.col + 1 >= g1.cols then
        var g2 := FillLastCell(g1);
        if g2.cols == 1 || AutoWrap !in g2.modes then g2
        else WriteAtCursor(SoftWrap(g2), c, width)
      else
        WriteAtCursor(g1, c, width)
  }

  // -------------------------------------------------------------------------
  // Erasing
  // -------------------------------------------------------------------------

  /** Blank the cells from `lo` to `hi`, and the halves of wide characters that stick out
      on either side. */
  function EraseCells(cells: seq<Cell>, lo: nat, hi: nat): (r: seq<Cell>)
    requires lo <= hi < |cells|
    ensures |r| == |cells|
  {
    seq(|cells|, i requires 0 <= i < |cells| =>
      if lo <= i <= hi || (i + 1 == lo && cells[lo].continuation) || (i == hi + 1 && cells[hi].wide) then BLANK
      else cells[i])
  }

  function EraseRange(g: Grid, row: nat, lo: nat, hi: nat): (r: Grid)
    requires g.Sized() && row < g.rows && hi < g.cols
    ensures r.Sized() && (g.Valid() ==> r.Valid())
  {
    if lo > hi then g else SetRow(g, row, EraseCells(g.visible[row].cells, lo, hi))
  }

  /** Blank every cell of the rows from `lo` up to but not including `hi`, keeping their
      soft-wrap flags. */
  function EraseRows(g: Grid, lo: nat, hi: nat): (r: Grid)
    requires g.Sized() && lo <= hi <= g.rows
    ensures r.Sized() && (g.Valid() ==> r.Valid())
  {
    g.(visible := seq(g.rows, i requires 0 <= i < g.rows =>
         if lo <= i < hi then g.visible[i].(cells := Repeat(BLANK, g.cols)) else g.visible[i]))
  }

  function EraseBelow(g: Grid): (r: Grid)
    requires g.Sized()
    ensures r.Sized() && (g.Valid() ==> r.Valid())
  {
    EraseRows(EraseRange(g, g.cursor.row, g.cursor.col, g.cols - 1), g.cursor.row + 1, g.rows)
  }

  function EraseAbove(g: Grid): (r: Grid)
    requires g.Sized()
    ensures r.Sized() && (g.Valid() ==> r.Valid())
  {
    EraseRange(EraseRows(g, 0, g.cursor.row), g.cursor.row, 0, g.cursor.col)
  }

  function EraseAll(g: Grid): (r: Grid)
    requires g.Sized()
    ensures r.Sized() && (g.Valid() ==> r.Valid())
  {
    EraseRows(g, 0, g.rows)
  }

  function EraseLineRight(g: Grid): (r: Grid)
    requires g.Sized()
    ensures r.Sized() && (g.Valid() ==> r.Valid())
  {
    EraseRange(g, g.cursor.row, g.cursor.col, g.cols - 1)
  }

  function EraseLineLeft(g: Grid): (r: Grid)
    requires g.Sized()
    ensures r.Sized() && (g.Valid() ==> r.Valid())
  {
    EraseRange(g, g.cursor.row, 0, g.cursor.col)
  }

  function EraseLineAll(g: Grid): (r: Grid)
    requires g.Sized()
    ensures r.Sized() && (g.Valid() ==> r.Valid())
  {
    EraseRange(g, g.cursor.row, 0, g.cols - 1)
  }

  function EraseChars(g: Grid, count: nat): (r: Grid)
    requires g.Sized()
    ensures r.Sized() && (g.Valid() ==> r.Valid())
  {
    if count == 0 then g
    else EraseRange(g, g.cursor.row, g.cursor.col, Min(g.cursor.col + count - 1, g.cols - 1))
  }

  // -------------------------------------------------------------------------
  // The alternate screen
  // -------------------------------------------------------------------------

  function EnterAlternate(g: Grid): (r: Grid)
    requires g.Sized()
    ensures r.Sized() && (g.Valid() ==> r.Valid())
  {
    if g.alternate.Some? then g
    else g.(alternate := Some(Stash(g.visible, g.cursor, g.top, g.bottom)),
            visible := BlankRows(g.rows, g.cols),
            top := 0,
            bottom := g.rows - 1,
            cursor := HOME)
  }

  function ExitAlternate(g: Grid): (r: Grid)
    requires g.Sized()
    ensures r.Sized() && (g.Valid() ==> r.Valid())
  {
    if g.alternate.None? then g
    else
      var a := g.alternate.value;
      g.(visible := a.visible, cursor := a.cursor, top := a.top, bottom := a.bottom, alternate := None)
  }

  // -------------------------------------------------------------------------
  // Resizing
  // -------------------------------------------------------------------------

  function ClampCursor(c: Cursor, cols: nat, rows: nat): Cursor
    requires cols > 0 && rows > 0
  {
    c.(col := Min(c.col, cols - 1), row := Min(c.row, rows - 1))
  }

  /** Truncate or pad every row, then the list of rows. */
  function ResizeScreen(screen: seq<Row>, cols: nat, rows: nat): (r: seq<Row>)
    ensures |r| == rows && HasWidth(r, cols)
  {
    seq(rows, i requires 0 <= i < rows => if i < |screen| then ResizeRow(screen[i], cols) else BlankRow(cols))
  }

  function BasicResize(g: Grid, cols: nat, rows: nat): (r: Grid)
    requires g.Sized() && cols > 0 && rows > 0
    ensures r.Sized()
  {
    g.(visible := ResizeScreen(g.visible, cols, rows),
       cols := cols,
       rows := rows,
       cursor := ClampCursor(g.cursor, cols, rows),
       top := 0,
       bottom := rows - 1,
       tabs := ResizeTabs(g.tabs, cols),
       alternate :=
         if g.alternate.None? then None
         else
           var a := g.alternate.value;
           Some(Stash(ResizeScreen(a.visible, cols, rows), ClampCursor(a.cursor, cols, rows),
                      Min(a.top, rows - 1), Min(a.bottom, rows - 1))))
  }

  /** The rows of the primary screen and its history, oldest first. */
  function Tape(g: Grid): seq<Row> {
    S.Tape(g.history) + g.visible
  }

  function ReflowResize(g: Grid, cols: nat, rows: nat): (r: Grid)
    requires g.Sized() && cols > 0 && rows > 0 && g.alternate.None?
    ensures r.Sized()
  {
    var s := R.ReflowScreen(Tape(g), |g.history.rows| + g.cursor.row, g.cursor.col, cols, rows);
    g.(history := S.PushAll(S.Clear(g.history), s.history),
       visible := s.visible,
       cols := cols,
       rows := rows,
       cursor := MoveTo(g.cursor, s.cursorCol, s.cursorRow),
       top := 0,
       bottom := rows - 1,
       tabs := ResizeTabs(g.tabs, cols))
  }

  function Resize(g: Grid, cols: nat, rows: nat): (r: Grid)
    requires g.Sized() && cols > 0 && rows > 0
    ensures r.Sized() && r.cols == cols && r.rows == rows
  {
    if g.alternate.Some? || cols == g.cols then BasicResize(g, cols, rows) else ReflowResize(g, cols, rows)
  }

  /** A resize leaves a saved cursor where it is, so the grid stays valid exactly when that
      cursor is still on the screen. */
  lemma ResizeValid(g: Grid, cols: nat, rows: nat)
    requires g.Sized() && cols > 0 && rows > 0
    ensures Resize(g, cols, rows).Valid() <==>
            (g.saved.Some? ==> g.saved.value.col < cols && g.saved.value.row < rows)
  {
  }
}
