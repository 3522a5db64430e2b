/** Cells and rows of the screen. */
module Cells {
  import opened Common
  import opened Styles

  datatype Cell = Cell(grapheme: string, style: Style, wide: bool, continuation: bool)

  const BLANK: Cell := Cell(" ", PLAIN, false, false)

  datatype Row = Row(cells: seq<Cell>, softWrapped: bool)

  function BlankRow(cols: nat): Row {
    Row(Repeat(BLANK, cols), false)
  }

  function BlankRows(n: nat, cols: nat): (rows: seq<Row>)
    ensures |rows| == n
    ensures forall i :: 0 <= i < n ==> rows[i] == BlankRow(cols)
  {
    Repeat(BlankRow(cols), n)
  }

  /** Truncate or pad with blank cells. */
  function ResizeRow(row: Row, cols: nat): (r: Row)
    ensures |r.cells| == cols
  {
    if cols <= |row.cells| then row.(cells := row.cells[..cols])
    else row.(cells := row.cells + Repeat(BLANK, cols - |row.cells|))
  }

  predicate HasWidth(rows: seq<Row>, cols: nat) {
    forall i :: 0 <= i < |rows| ==> |rows[i].cells| == cols
  }

  // -------------------------------------------------------------------------
  // Wide characters
  // -------------------------------------------------------------------------

  /** The geometry of wide characters in a row: a continuation always follows its wide
      cell, and a wide cell is always followed by its continuation, except that the last
      cell of the row may have lost that role. No cell plays both parts. */
  predicate Paired(cells: seq<Cell>) {
    forall i :: 0 <= i < |cells| ==> PairedAt(cells, i)
  }

  predicate PairedAt(cells: seq<Cell>, i: nat)
    requires i < |cells|
  {
    && !(cells[i].wide && cells[i].continuation)
    && (cells[i].continuation ==> i > 0 && cells[i - 1].wide)
    && (cells[i].wide ==> i + 1 < |cells| && (cells[i + 1].continuation || (i + 2 == |cells| && !cells[i + 1].wide)))
  }

  predicate AllPaired(rows: seq<Row>) {
    forall i :: 0 <= i < |rows| ==> Paired(rows[i].cells)
  }

  /** The geometry without the exception. */
  predicate PerfectlyPaired(cells: seq<Cell>) {
    && Paired(cells)
    && forall i :: 0 <= i < |cells| && cells[i].wide ==> i + 1 < |cells| && cells[i + 1].continuation
  }

  predicate Narrow(cell: Cell) {
    !cell.wide && !cell.continuation
  }

  predicate AllNarrow(cells: seq<Cell>) {
    forall i :: 0 <= i < |cells| ==> Narrow(cells[i])
  }

  lemma NarrowIsPaired(cells: seq<Cell>)
    requires AllNarrow(cells)
    ensures PerfectlyPaired(cells)
  {
  }

  /** Changing the width of a row keeps its geometry exactly when the cut does not separate
      a wide cell from its second half, and the padding does not follow a wide cell whose
      second half was lost. */
  lemma ResizeKeepsPairing(row: Row, cols: nat)
    requires Paired(row.cells)
    ensures Paired(ResizeRow(row, cols).cells) <==>
            if cols < |row.cells| then cols == 0 || !row.cells[cols - 1].wide
            else cols == |row.cells| || PerfectlyPaired(row.cells)
  {
    var r := ResizeRow(row, cols).cells;
    if cols < |row.cells| {
      if cols > 0 && row.cells[cols - 1].wide {
        assert !PairedAt(r, cols - 1);
      } else {
        forall i | 0 <= i < |r| ensures PairedAt(r, i) {
          assert PairedAt(row.cells, i);
        }
      }
    } else if cols > |row.cells| {
      if PerfectlyPaired(row.cells) {
        forall i | 0 <= i < |r| ensures PairedAt(r, i) {
          if i < |row.cells| { assert PairedAt(row.cells, i); }
        }
      } else {
        var i :| 0 <= i < |row.cells| && row.cells[i].wide && !(i + 1 < |row.cells| && row.cells[i + 1].continuation);
        assert PairedAt(row.cells, i);
        assert !PairedAt(r, i);
      }
    } else {
      assert r == row.cells;
    }
  }
}
