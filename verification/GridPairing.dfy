/** The geometry of wide characters survives every operation of the grid. */
module GridPairing {
  import opened Common
  import opened Styles
  import opened Cells
  import opened Grids
  import S = Scrollback
  import R = Reflow
  import ReflowProperties

  /** Every row of the screen, of the stashed screen and of the history is paired. */
  ghost predicate PairedGrid(g: Grid) {
    && AllPaired(g.visible)
    && AllPaired(g.history.rows)
    && (g.alternate.Some? ==> AllPaired(g.alternate.value.visible))
  }

  // -------------------------------------------------------------------------
  // One row
  // -------------------------------------------------------------------------

  /** After detaching a cell, the row is paired and that cell is not part of a pair. */
  lemma ClearWidePaired(cells: seq<Cell>, col: nat)
    requires Paired(cells) && col < |cells|
    ensures var r := ClearWideAt(cells, col);
            Paired(r) && Narrow(r[col]) && (col + 1 < |r| ==> !r[col + 1].continuation)
            && (forall i :: 0 <= i < col ==> r[i].wide ==> cells[i].wide)
            && (!cells[col].continuation ==> forall i :: 0 <= i < col ==> r[i] == cells[i])
  {
    var r := ClearWideAt(cells, col);
    assert PairedAt(cells, col);
    if col > 0 { assert PairedAt(cells, col - 1); }
    if col + 1 < |cells| { assert PairedAt(cells, col + 1); }
    if col + 2 < |cells| { assert PairedAt(cells, col + 2); }
    forall i | 0 <= i < |r| ensures PairedAt(r, i) {
      assert PairedAt(cells, i);
    }
  }

  /** A narrow cell over a detached cell. */
  lemma PutNarrowPaired(cells: seq<Cell>, col: nat, cell: Cell)
    requires Paired(cells) && col < |cells| && Narrow(cells[col]) && Narrow(cell)
    ensures Paired(cells[col := cell])
  {
    var r := cells[col := cell];
    forall i | 0 <= i < |r| ensures PairedAt(r, i) {
      assert PairedAt(cells, i);
    }
  }

  /** A wide cell and its continuation over two detached cells. */
  lemma PutWidePaired(cells: seq<Cell>, col: nat, lead: Cell, tail: Cell)
    requires Paired(cells) && col + 1 < |cells| && Narrow(cells[col]) && Narrow(cells[col + 1])
    requires col + 2 < |cells| ==> !cells[col + 2].continuation
    requires lead.wide && !lead.continuation && tail.continuation && !tail.wide
    ensures Paired(cells[col := lead][col + 1 := tail])
  {
    var r := cells[col := lead][col + 1 := tail];
    assert PairedAt(cells, col);
    if col > 0 { assert PairedAt(cells, col - 1); }
    forall i | 0 <= i < |r| ensures PairedAt(r, i) {
      assert PairedAt(cells, i);
      if i + 1 < |cells| { assert PairedAt(cells, i + 1); }
    }
  }

  lemma PlaceCharPaired(cells: seq<Cell>, col: nat, c: char, style: Style, width: nat)
    requires Paired(cells) && col < |cells| && 1 <= width <= 2 && (width == 2 ==> col + 1 < |cells|)
    ensures Paired(PlaceChar(cells, col, c, style, width))
  {
    hide Paired, ClearWideAt;
    ClearWidePaired(cells, col);
    var cleared := ClearWideAt(cells, col);
    if width == 1 {
      PutNarrowPaired(cleared, col, Cell([c], style, false, false));
    } else {
      ClearWidePaired(cleared, col + 1);
      PutWidePaired(ClearWideAt(cleared, col + 1), col, Cell([c], style, true, false), Cell(" ", style, false, true));
    }
  }

  lemma EraseCellsPaired(cells: seq<Cell>, lo: nat, hi: nat)
    requires Paired(cells) && lo <= hi < |cells|
    ensures Paired(EraseCells(cells, lo, hi))
  {
    var r := EraseCells(cells, lo, hi);
    assert PairedAt(cells, lo) && PairedAt(cells, hi);
    if hi + 1 < |cells| { assert PairedAt(cells, hi + 1); }
    if hi + 2 < |cells| { assert PairedAt(cells, hi + 2); }
    if lo > 0 { assert PairedAt(cells, lo - 1); }
    forall i | 0 <= i < |r| ensures PairedAt(r, i) {
      assert PairedAt(cells, i);
    }
  }

  lemma FillLastPaired(cells: seq<Cell>)
    requires Paired(cells) && cells != []
    ensures Paired(cells[|cells| - 1 := BLANK])
  {
    var r := cells[|cells| - 1 := BLANK];
    assert PairedAt(cells, |cells| - 1);
    forall i | 0 <= i < |r| ensures PairedAt(r, i) {
      assert PairedAt(cells, i);
    }
  }

  lemma GraphemePaired(cells: seq<Cell>, col: nat, grapheme: string)
    requires Paired(cells) && col < |cells|
    ensures Paired(cells[col := cells[col].(grapheme := grapheme)])
  {
    var r := cells[col := cells[col].(grapheme := grapheme)];
    forall i | 0 <= i < |r| ensures PairedAt(r, i) {
      assert PairedAt(cells, i);
    }
  }

  lemma BlankRowsPaired(n: nat, cols: nat)
    ensures AllPaired(BlankRows(n, cols))
  {
  }

  // -------------------------------------------------------------------------
  // The grid
  // -------------------------------------------------------------------------

  lemma SetRowPaired(g: Grid, row: nat, cells: seq<Cell>)
    requires g.Sized() && PairedGrid(g) && row < g.rows && |cells| == g.cols && Paired(cells)
    ensures PairedGrid(SetRow(g, row, cells))
  {
    hide Paired;
  }

  lemma {:induction false} PushAllPaired(h: S.History, rows: seq<Row>)
    requires AllPaired(h.rows) && AllPaired(rows)
    ensures AllPaired(S.PushAll(h, rows).rows)
    decreases rows
  {
    hide Paired;
    if rows != [] {
      PushAllPaired(S.Push(h, rows[0]), rows[1..]);
    }
  }

  lemma ScrollUpPaired(g: Grid, count: nat, top: nat, bottom: nat)
    requires g.Sized() && PairedGrid(g) && top <= bottom < g.rows
    ensures PairedGrid(ScrollUpIn(g, count, top, bottom))
  {
    hide Paired, S.PushAll;
    var k := Min(count, bottom - top + 1);
    BlankRowsPaired(k, g.cols);
    PushAllPaired(g.history, g.visible[top..top + k]);
  }

  lemma ScrollDownPaired(g: Grid, count: nat, top: nat, bottom: nat)
    requires g.Sized() && PairedGrid(g) && top <= bottom < g.rows
    ensures PairedGrid(ScrollDownIn(g, count, top, bottom))
  {
    hide Paired;
    BlankRowsPaired(Min(count, bottom - top + 1), g.cols);
  }

  lemma LineFeedPaired(g: Grid)
    requires g.Sized() && PairedGrid(g)
    ensures PairedGrid(LineFeed(g)) && PairedGrid(ReverseIndex(g))
  {
    hide PairedGrid, ScrollUpIn, ScrollDownIn;
    ScrollUpPaired(g, 1, g.top, g.bottom);
    ScrollDownPaired(g, 1, g.top, g.bottom);
    CursorKeepsPairing(g, SetCursor(g, g.cursor.col, g.cursor.row + 1));
    CursorKeepsPairing(g, SetCursor(g, g.cursor.col, SaturatingSub(g.cursor.row, 1)));
    var up, down := ScrollUpIn(g, 1, g.top, g.bottom), ScrollDownIn(g, 1, g.top, g.bottom);
    CursorKeepsPairing(up, SetCursor(up, g.cursor.col, g.cursor.row));
    CursorKeepsPairing(down, SetCursor(down, g.cursor.col, g.cursor.row));
  }

  /** Operations that leave all cells alone. */
  lemma CursorKeepsPairing(g: Grid, r: Grid)
    requires PairedGrid(g)
    requires r.visible == g.visible && r.history == g.history && r.alternate == g.alternate
    ensures PairedGrid(r)
  {
  }

  lemma SoftWrapPaired(g: Grid)
    requires g.Sized() && PairedGrid(g)
    ensures PairedGrid(SoftWrap(g))
  {
    hide Paired, ScrollUpIn;
    var marked := MarkSoftWrapped(g, g.cursor.row);
    assert PairedGrid(marked);
    ScrollUpPaired(marked, 1, marked.top, marked.bottom);
  }

  lemma BeforeWritePaired(g: Grid)
    requires g.Sized() && PairedGrid(g)
    ensures PairedGrid(BeforeWrite(g))
  {
    hide Paired, SoftWrap;
    SoftWrapPaired(g);
  }

  lemma WriteAtCursorPaired(g: Grid, c: char, width: nat)
    requires g.Sized() && PairedGrid(g) && 1 <= width <= 2 && (width == 2 ==> g.cursor.col + 1 < g.cols)
    ensures PairedGrid(WriteAtCursor(g, c, width))
  {
    hide Paired, PlaceChar;
    var row := g.cursor.row;
    PlaceCharPaired(g.visible[row].cells, g.cursor.col, c, g.cursor.style, width);
    SetRowPaired(g, row, PlaceChar(g.visible[row].cells, g.cursor.col, c, g.cursor.style, width));
  }

  lemma CombinePaired(g: Grid, c: char)
    requires g.Sized() && PairedGrid(g)
    ensures PairedGrid(CombineWithPrevious(g, c))
  {
    hide Paired;
    var (col, row) := (g.cursor.col, g.cursor.row);
    if !(col == 0 && row == 0) {
      var (col', row') := if col > 0 then (col - 1, row) else (g.cols - 1, row - 1);
      var cells := g.visible[row'].cells;
      GraphemePaired(cells, col', cells[col'].grapheme + [c]);
    }
  }

  lemma WriteCharPaired(g: Grid, c: char, width: nat)
    requires g.Sized() && PairedGrid(g) && width <= 2
    ensures PairedGrid(WriteChar(g, c, width))
  {
    hide PairedGrid, BeforeWrite, WriteAtCursor, CombineWithPrevious;
    if width == 0 {
      CombinePaired(g, c);
    } else {
      BeforeWritePaired(g);
      var g1 := BeforeWrite(g);
      assert g1.cols == g.cols by { BeforeWriteKeepsSize(g); }
      if width == 2 && g1.cursor.col + 1 >= g1.cols {
        FillLastCellPaired(g1);
        var g2 := FillLastCell(g1);
        SoftWrapPaired(g2);
        if g2.cols > 1 {
          WriteAtCursorPaired(SoftWrap(g2), c, width);
        }
      } else {
        WriteAtCursorPaired(g1, c, width);
      }
    }
  }

  lemma BeforeWriteKeepsSize(g: Grid)
    requires g.Sized()
    ensures BeforeWrite(g).cols == g.cols
  {
  }

  lemma FillLastCellPaired(g: Grid)
    requires g.Sized() && PairedGrid(g) && g.cursor.col + 1 >= g.cols
    ensures PairedGrid(FillLastCell(g))
  {
    hide Paired;
    FillLastPaired(g.visible[g.cursor.row].cells);
  }

  lemma EraseRangePaired(g: Grid, row: nat, lo: nat, hi: nat)
    requires g.Sized() && PairedGrid(g) && row < g.rows && hi < g.cols
    ensures PairedGrid(EraseRange(g, row, lo, hi))
  {
    hide Paired, EraseCells;
    if lo <= hi {
      EraseCellsPaired(g.visible[row].cells, lo, hi);
    }
  }

  lemma EraseRowsPaired(g: Grid, lo: nat, hi: nat)
    requires g.Sized() && PairedGrid(g) && lo <= hi <= g.rows
    ensures PairedGrid(EraseRows(g, lo, hi))
  {
    hide Paired;
    assert Paired(Repeat(BLANK, g.cols)) by {
      BlankRowsPaired(1, g.cols);
      assert Paired(BlankRows(1, g.cols)[0].cells);
    }
  }

  lemma ErasesPaired(g: Grid, count: nat)
    requires g.Sized() && PairedGrid(g)
    ensures PairedGrid(EraseBelow(g)) && PairedGrid(EraseAbove(g)) && PairedGrid(EraseAll(g))
    ensures PairedGrid(EraseLineRight(g)) && PairedGrid(EraseLineLeft(g)) && PairedGrid(EraseLineAll(g))
    ensures PairedGrid(EraseChars(g, count))
  {
    hide PairedGrid, EraseRows, EraseRange;
    var (col, row) := (g.cursor.col, g.cursor.row);
    EraseRangePaired(g, row, col, g.cols - 1);
    EraseRangePaired(g, row, 0, col);
    EraseRangePaired(g, row, 0, g.cols - 1);
    EraseRowsPaired(g, 0, row);
    EraseRowsPaired(g, 0, g.rows);
    KeepSize(g);
    EraseRowsPaired(EraseRange(g, row, col, g.cols - 1), row + 1, g.rows);
    EraseRangePaired(EraseRows(g, 0, row), row, 0, col);
    if count > 0 { EraseRangePaired(g, row, col, Min(col + count - 1, g.cols - 1)); }
  }

  lemma KeepSize(g: Grid)
    requires g.Sized()
    ensures EraseRange(g, g.cursor.row, g.cursor.col, g.cols - 1).rows == g.rows
    ensures EraseRows(g, 0, g.cursor.row).rows == g.rows && EraseRows(g, 0, g.cursor.row).cols == g.cols
  {
  }

  lemma AlternatePaired(g: Grid)
    requires g.Sized() && PairedGrid(g)
    ensures PairedGrid(EnterAlternate(g)) && PairedGrid(ExitAlternate(g))
  {
    hide Paired;
    BlankRowsPaired(g.rows, g.cols);
  }

  // -------------------------------------------------------------------------
  // Resizing
  // -------------------------------------------------------------------------

  lemma {:induction false} RewrapAllPaired(lines: seq<seq<Cell>>, n: nat)
    requires n > 0
    ensures AllPaired(R.RewrapAll(lines, n))
  {
    hide R.Rewrap, Paired;
    if lines != [] {
      ReflowProperties.RewrapShape(lines[0], n);
      RewrapAllPaired(lines[1..], n);
    }
  }

  /** Reflow gives paired rows whatever the rows before were. */
  lemma ReflowPaired(g: Grid, cols: nat, rows: nat)
    requires g.Sized() && cols > 0 && rows > 0 && g.alternate.None?
    ensures PairedGrid(ReflowResize(g, cols, rows))
  {
    hide Paired, R.RewrapAll, R.CursorTarget, R.Collect, S.PushAll;
    var tape := Tape(g);
    RewrapAllPaired(R.TrimAll(R.Collect(tape, [], false)), cols);
    var split := R.SplitRows(R.Reflowed(tape, cols), cols, rows);
    SplitPaired(R.Reflowed(tape, cols), cols, rows);
    PushAllPaired(S.Clear(g.history), split.history);
  }

  lemma SplitPaired(rows: seq<Row>, cols: nat, height: nat)
    requires HasWidth(rows, cols) && AllPaired(rows)
    ensures AllPaired(R.SplitRows(rows, cols, height).history) && AllPaired(R.SplitRows(rows, cols, height).visible)
  {
    hide Paired, R.IsBlankRow;
    BlankRowsPaired(1, cols);
    assert Paired(BlankRows(1, cols)[0].cells);
  }

  /** A row keeps its pairs at the new width. */
  predicate Resizable(row: Row, cols: nat) {
    if cols < |row.cells| then cols == 0 || !row.cells[cols - 1].wide
    else cols == |row.cells| || PerfectlyPaired(row.cells)
  }

  predicate AllResizable(screen: seq<Row>, cols: nat, rows: nat) {
    forall i :: 0 <= i < |screen| && i < rows ==> Resizable(screen[i], cols)
  }

  lemma ResizeScreenPaired(screen: seq<Row>, cols: nat, rows: nat)
    requires AllPaired(screen)
    ensures AllPaired(ResizeScreen(screen, cols, rows)) <==> AllResizable(screen, cols, rows)
  {
    hide Paired, PerfectlyPaired;
    BlankRowsPaired(1, cols);
    assert Paired(BlankRows(1, cols)[0].cells);
    var r := ResizeScreen(screen, cols, rows);
    forall i | 0 <= i < |screen| && i < rows
      ensures Paired(r[i].cells) <==> Resizable(screen[i], cols)
    {
      ResizeKeepsPairing(screen[i], cols);
    }
    if AllPaired(r) {
      forall i | 0 <= i < |screen| && i < rows ensures Resizable(screen[i], cols) {
        assert Paired(r[i].cells);
      }
    }
  }

  /** A resize keeps the geometry, always on the primary screen, and on the alternate
      screen exactly when no row kept on either screen is cut inside a pair or padded
      behind a lost one. */
  lemma ResizePaired(g: Grid, cols: nat, rows: nat)
    requires g.Sized() && PairedGrid(g) && cols > 0 && rows > 0
    ensures PairedGrid(Resize(g, cols, rows)) <==>
            (g.alternate.Some? ==>
               AllResizable(g.visible, cols, rows) && AllResizable(g.alternate.value.visible, cols, rows))
  {
    hide AllPaired, ResizeScreen, AllResizable, ReflowResize;
    if g.alternate.None? && cols != g.cols {
      ReflowPaired(g, cols, rows);
    } else {
      ResizeScreenPaired(g.visible, cols, rows);
      if g.alternate.Some? {
        ResizeScreenPaired(g.alternate.value.visible, cols, rows);
      } else {
        SameWidthResizable(g.visible, cols, rows);
      }
    }
  }

  lemma SameWidthResizable(screen: seq<Row>, cols: nat, rows: nat)
    requires HasWidth(screen, cols)
    ensures AllResizable(screen, cols, rows)
  {
  }
}
