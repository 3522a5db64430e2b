/** The closed loop for whole frames whose wide characters have second halves of any content:
    what the host shows, and when that is the frame itself. */
module WideFrames {
  import opened Cells
  import opened Protocol
  import opened Grids
  import opened Terminals
  import opened Render
  import opened ClosedLoop
  import opened ClosedLoopFrames

  /** The cell is narrow, or one half of a wide character, whatever the second half holds. */
  predicate PairedDataAt(cells: seq<CellData>, i: nat, width: char -> Width)
    requires i < |cells|
  {
    || NarrowData(cells[i], width)
    || (WideAt(cells, i, width) && IsContinuationData(cells[i + 1]))
    || (WideAt(cells, i - 1, width) && IsContinuationData(cells[i]))
  }

  predicate PairedDataRow(cells: seq<CellData>, width: char -> Width) {
    forall i :: 0 <= i < |cells| ==> PairedDataAt(cells, i, width)
  }

  predicate PairedFrame(f: Frame, width: char -> Width)
    requires f.Valid()
  {
    forall r :: 0 <= r < f.rows as int ==> PairedDataRow(f.Row(r), width)
  }

  /** The cells as a terminal draws them: a second half takes after its first. */
  function Drawn(cells: seq<CellData>): (r: seq<CellData>)
    ensures |r| == |cells|
  {
    seq(|cells|, i requires 0 <= i < |cells| =>
      if i > 0 && cells[i - 1].flags == 1 then SecondHalf(cells[i - 1]) else cells[i])
  }

  function DrawnFrame(f: Frame): (r: Frame)
    requires f.Valid()
    ensures r.Valid() && r.cols == f.cols && r.rows == f.rows
  {
    f.(cells := Drawn(f.cells))
  }

  /** No row ends in the first half of a wide character. */
  lemma LastIsNotWide(cells: seq<CellData>, width: char -> Width)
    requires PairedDataRow(cells, width) && cells != []
    ensures cells[|cells| - 1].flags != 1
  {
    assert PairedDataAt(cells, |cells| - 1, width);
  }

  lemma DrawnRows(f: Frame, r: nat, width: char -> Width)
    requires f.Valid() && r < f.rows && PairedFrame(f, width)
    ensures DrawnFrame(f).Row(r) == Drawn(f.Row(r))
  {
    hide PairedDataRow, RowStart;
    RowInside(r, f.rows, f.cols);
    var start := RowStart(r, f.cols);
    if r > 0 && f.cols > 0 {
      RowInside(r - 1, f.rows, f.cols);
      NextRowStart(r - 1, f.cols);
      LastIsNotWide(f.Row(r - 1), width);
      assert f.Row(r - 1)[f.cols as int - 1] == f.cells[start - 1];
    }
    if r == 0 {
      FirstRowStart(f.cols);
    }
  }

  lemma FirstRowStart(cols: nat)
    ensures RowStart(0, cols) == 0
  {
  }

  lemma {:induction false} DrawnIsShowable(cells: seq<CellData>, width: char -> Width)
    requires PairedDataRow(cells, width)
    ensures ShowableRow(Drawn(cells), width)
  {
    var r := Drawn(cells);
    forall i | 0 <= i < |r| ensures ShowableAt(r, i, width) {
      assert PairedDataAt(cells, i, width);
      if i > 0 {
        assert PairedDataAt(cells, i - 1, width);
      }
      if i > 1 {
        assert PairedDataAt(cells, i - 2, width);
      }
    }
  }

  /** A cell is skipped as drawn exactly when it is skipped as sent; otherwise it is the same. */
  lemma SkippedAlike(cells: seq<CellData>, i: nat, width: char -> Width)
    requires PairedDataRow(cells, width) && i < |cells|
    ensures IsContinuationData(Drawn(cells)[i]) <==> IsContinuationData(cells[i])
    ensures !IsContinuationData(cells[i]) ==> Drawn(cells)[i] == cells[i]
  {
    assert PairedDataAt(cells, i, width);
    if i > 0 {
      assert PairedDataAt(cells, i - 1, width);
    }
  }

  lemma {:induction false} DrawnTokens(cells: seq<CellData>, row: nat, col: nat, last: RenderedStyle, positioned: bool,
          width: char -> Width)
    requires PairedDataRow(cells, width) && col <= |cells|
    ensures RowTokens(Drawn(cells), row, col, last, positioned) == RowTokens(cells, row, col, last, positioned)
    decreases |cells| - col
  {
    hide EmitSgr, Drawn, PairedDataRow;
    if col < |cells| {
      SkippedAlike(cells, col, width);
      DrawnTokens(cells, row, col + 1, last, positioned, width);
      DrawnTokens(cells, row, col + 1, StyleOf(cells[col]), positioned, width);
    }
  }

  lemma {:induction false} DrawnFrameTokens(f: Frame, row: nat, last: RenderedStyle, width: char -> Width)
    requires f.Valid() && PairedFrame(f, width) && row <= f.rows
    ensures FrameTokens(DrawnFrame(f), row, last) == FrameTokens(f, row, last)
    decreases f.rows as int - row
  {
    hide DrawnFrame, Drawn, RowTokens, Frame.Row, PairedDataRow;
    if row < f.rows {
      DrawnRows(f, row, width);
      DrawnTokens(f.Row(row), row, 0, last, true, width);
      DrawnFrameTokens(f, row + 1, RowTokens(f.Row(row), row, 0, last, true).1, width);
    }
  }

  lemma DrawnFrameIsShowable(f: Frame, width: char -> Width)
    requires f.Valid() && PairedFrame(f, width)
    ensures ShowableFrame(DrawnFrame(f), width)
  {
    hide DrawnFrame, Drawn, Frame.Row, PairedDataRow, ShowableRow;
    forall r | 0 <= r < f.rows as int ensures ShowableRow(DrawnFrame(f).Row(r), width) {
      DrawnRows(f, r, width);
      DrawnIsShowable(f.Row(r), width);
    }
  }

  /** Whatever the second halves of a frame hold, the host shows the frame as drawn. */
  lemma FullFrameShowsDrawn(t: Terminal, f: Frame, width: char -> Width)
    requires t.Valid() && t.parser.Idle() && Host(t.state, t.state.grid.cursor.style) && AllPaired(t.state.grid.visible)
    requires f.Valid() && f.cols == t.state.grid.cols && f.rows == t.state.grid.rows && PairedFrame(f, width)
    ensures InSync(Feed(t, Bytes(RenderFullFrame(f)), width), DrawnFrame(f))
  {
    hide Feed, Bytes, Shows, Paired, DrawnFrame, FrameTokens, ShowableFrame, PairedFrame;
    DrawnFrameTokens(f, 0, NO_STYLE, width);
    DrawnFrameIsShowable(f, width);
    FullFrameLoop(t, DrawnFrame(f), width);
  }

  /** A screen shows at most one frame. */
  lemma ShowsOne(g: Grid, a: Frame, b: Frame)
    requires Shows(g, a) && Shows(g, b)
    ensures a == b
  {
    hide Frame.Row, Cells.HasWidth;
    forall r | 0 <= r < a.rows as int ensures a.Row(r) == b.Row(r) {
      RowLength(g, r);
      assert RowShows(g.visible[r].cells, a.Row(r), a.cols) && RowShows(g.visible[r].cells, b.Row(r), b.cols);
    }
    SameRowsSameFrame(a, b);
  }

  /** It is the frame itself exactly when every second half is a space in the style of its first
      half, as a terminal writes it. */
  lemma FullFrameLoopIff(t: Terminal, f: Frame, width: char -> Width)
    requires t.Valid() && t.parser.Idle() && Host(t.state, t.state.grid.cursor.style) && AllPaired(t.state.grid.visible)
    requires f.Valid() && f.cols == t.state.grid.cols && f.rows == t.state.grid.rows && PairedFrame(f, width)
    ensures InSync(Feed(t, Bytes(RenderFullFrame(f)), width), f) <==> ShowableFrame(f, width)
  {
    hide Feed, Bytes, RenderFullFrame, Shows, Paired, DrawnFrame, ShowableFrame, PairedFrame;
    FullFrameShowsDrawn(t, f, width);
    DrawnFrameIsShowable(f, width);
    var t' := Feed(t, Bytes(RenderFullFrame(f)), width);
    if InSync(t', f) {
      ShowsOne(t'.state.grid, f, DrawnFrame(f));
    }
    if ShowableFrame(f, width) {
      FullFrameLoop(t, f, width);
    }
  }
}
