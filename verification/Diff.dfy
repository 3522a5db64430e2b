/** Frame diffs: what changed, what applying the changes does, and that the one undoes the
    other. */
module Diff {
  import opened Common
  import opened Protocol

  function CountChanged(cur: seq<CellData>, prev: seq<CellData>): (n: nat)
    requires |cur| == |prev|
    ensures n == 0 <==> cur == prev
  {
    if cur == [] then 0 else (if cur[0] != prev[0] then 1 else 0) + CountChanged(cur[1..], prev[1..])
  }

  /** One entry for each changed cell from `col` on. */
  function CellChanges(row: u16, cur: seq<CellData>, prev: seq<CellData>, col: nat): seq<DiffEntry>
    requires |cur| == |prev| <= 0x1_0000 && col <= |cur|
    decreases |cur| - col
  {
    if col == |cur| then []
    else (if cur[col] != prev[col] then [CellChange(col, row, cur[col])] else [])
         + CellChanges(row, cur, prev, col + 1)
  }

  /** A row that changed in more than half its cells is sent whole. */
  function RowDiff(row: u16, cur: seq<CellData>, prev: seq<CellData>): seq<DiffEntry>
    requires |cur| == |prev| <= 0x1_0000
  {
    var changed := CountChanged(cur, prev);
    if changed == 0 then []
    else if changed * 2 > |cur| then [LineChange(row, cur)]
    else CellChanges(row, cur, prev, 0)
  }

  function RowDiffs(prev: Frame, cur: Frame, row: nat): seq<DiffEntry>
    requires prev.Valid() && cur.Valid() && prev.cols == cur.cols && prev.rows == cur.rows && row <= cur.rows
    decreases cur.rows as int - row
  {
    if row == cur.rows then [] else RowDiff(row, cur.Row(row), prev.Row(row)) + RowDiffs(prev, cur, row + 1)
  }

  function LineChanges(f: Frame, row: nat): seq<DiffEntry>
    requires f.Valid() && row <= f.rows
    decreases f.rows as int - row
  {
    if row == f.rows then [] else [LineChange(row, f.Row(row))] + LineChanges(f, row + 1)
  }

  function FullAsDiff(f: Frame): seq<DiffEntry>
    requires f.Valid()
  {
    LineChanges(f, 0)
  }

  function ComputeDiff(prev: Frame, cur: Frame): seq<DiffEntry>
    requires prev.Valid() && cur.Valid()
  {
    if prev.cols != cur.cols || prev.rows != cur.rows then FullAsDiff(cur) else RowDiffs(prev, cur, 0)
  }

  // -------------------------------------------------------------------------
  // Applying a diff
  // -------------------------------------------------------------------------

  /** The entry names cells of a frame of this size. */
  predicate InFrame(e: DiffEntry, cols: nat, rows: nat) {
    match e
    case CellChange(col, row, _) => col < cols && row < rows
    case LineChange(row, cells) => row < rows && |cells| == cols
    case RegionScroll(_, _, _) => false
  }

  /** Overwrite `new` into `cells` from `start`. */
  function Splice(cells: seq<CellData>, start: nat, new_: seq<CellData>): (r: seq<CellData>)
    requires start + |new_| <= |cells|
    ensures |r| == |cells|
  {
    cells[..start] + new_ + cells[start + |new_|..]
  }

  lemma EntryInside(col: nat, row: nat, len: nat, cols: nat, rows: nat)
    requires row < rows && col + len <= cols
    ensures RowStart(row, cols) + col + len <= RowStart(rows, cols)
  {
    RowInside(row, rows, cols);
  }

  function ApplyEntry(f: Frame, e: DiffEntry): (r: Frame)
    requires f.Valid() && InFrame(e, f.cols, f.rows)
    ensures r.Valid() && r.cols == f.cols && r.rows == f.rows
  {
    match e
    case CellChange(col, row, cell) =>
      EntryInside(col, row, 1, f.cols, f.rows);
      f.(cells := Splice(f.cells, RowStart(row, f.cols) + col as int, [cell]))
    case LineChange(row, cells) =>
      EntryInside(0, row, f.cols, f.cols, f.rows);
      f.(cells := Splice(f.cells, RowStart(row, f.cols), cells))
  }

  predicate AllInFrame(es: seq<DiffEntry>, cols: nat, rows: nat) {
    forall i :: 0 <= i < |es| ==> InFrame(es[i], cols, rows)
  }

  function Apply(f: Frame, es: seq<DiffEntry>): (r: Frame)
    requires f.Valid() && AllInFrame(es, f.cols, f.rows)
    ensures r.Valid() && r.cols == f.cols && r.rows == f.rows
    decreases es
  {
    if es == [] then f else Apply(ApplyEntry(f, es[0]), es[1..])
  }

  /** What an entry changes, row by row. */
  function ChangedRow(e: DiffEntry, r: nat, old_: seq<CellData>): seq<CellData> {
    match e
    case CellChange(col, row, cell) => if row == r && col < |old_| then old_[col := cell] else old_
    case LineChange(row, cells) => if row == r then cells else old_
    case RegionScroll(_, _, _) => old_
  }

  lemma RowsDisjoint(a: nat, b: nat, cols: nat)
    requires a < b
    ensures RowStart(a, cols) + cols <= RowStart(b, cols)
  {
    RowInside(a, b, cols);
  }

  lemma SpliceOutside(cells: seq<CellData>, at: nat, new_: seq<CellData>, start: nat, end: nat)
    requires at + |new_| <= |cells| && start <= end <= |cells|
    requires end <= at || at + |new_| <= start
    ensures Splice(cells, at, new_)[start..end] == cells[start..end]
  {
  }

  lemma SpliceInside(cells: seq<CellData>, at: nat, new_: seq<CellData>, start: nat, end: nat)
    requires start <= at && at + |new_| <= end <= |cells|
    ensures Splice(cells, at, new_)[start..end] == Splice(cells[start..end], at - start, new_)
  {
  }

  lemma SpliceOne(cells: seq<CellData>, at: nat, cell: CellData)
    requires at < |cells|
    ensures Splice(cells, at, [cell]) == cells[at := cell]
  {
  }

  lemma SpliceAll(cells: seq<CellData>, new_: seq<CellData>)
    requires |cells| == |new_|
    ensures Splice(cells, 0, new_) == new_
  {
  }

  lemma ApplyEntryOtherRow(f: Frame, e: DiffEntry, r: nat)
    requires f.Valid() && InFrame(e, f.cols, f.rows) && r < f.rows && r != e.row
    ensures ApplyEntry(f, e).Row(r) == f.Row(r)
  {
    hide Splice, RowStart;
    var cols: nat, row: nat := f.cols, e.row;
    if row < r { RowsDisjoint(row, r, cols); } else { RowsDisjoint(r, row, cols); }
    RowInside(r, f.rows, cols);
    RowInside(row, f.rows, cols);
    var base, start := RowStart(row, cols), RowStart(r, cols);
    match e
    case CellChange(col, _, cell) => SpliceOutside(f.cells, base + col, [cell], start, start + cols);
    case LineChange(_, cells) => SpliceOutside(f.cells, base, cells, start, start + cols);
  }

  lemma ApplyEntrySameRow(f: Frame, e: DiffEntry)
    requires f.Valid() && InFrame(e, f.cols, f.rows)
    ensures ApplyEntry(f, e).Row(e.row) == ChangedRow(e, e.row, f.Row(e.row))
  {
    hide RowStart, Splice;
    var cols: nat, row: nat := f.cols, e.row;
    RowInside(row, f.rows, cols);
    var base := RowStart(row, cols);
    match e
    case CellChange(col, _, cell) =>
      SpliceInside(f.cells, base + col, [cell], base, base + cols);
      SpliceOne(f.Row(row), col, cell);
    case LineChange(_, cells) =>
      SpliceInside(f.cells, base, cells, base, base + cols);
      SpliceAll(f.Row(row), cells);
  }

  lemma ApplyEntryRow(f: Frame, e: DiffEntry, r: nat)
    requires f.Valid() && InFrame(e, f.cols, f.rows) && r < f.rows
    ensures ApplyEntry(f, e).Row(r) == ChangedRow(e, r, f.Row(r))
  {
    hide ApplyEntry, Frame.Row;
    if r == e.row { ApplyEntrySameRow(f, e); } else { ApplyEntryOtherRow(f, e, r); }
  }

  lemma {:induction false} ApplyConcat(f: Frame, a: seq<DiffEntry>, b: seq<DiffEntry>)
    requires f.Valid() && AllInFrame(a, f.cols, f.rows) && AllInFrame(b, f.cols, f.rows)
    ensures AllInFrame(a + b, f.cols, f.rows) && Apply(f, a + b) == Apply(Apply(f, a), b)
    decreases a
  {
    if a == [] {
      assert a + b == b;
    } else {
      assert (a + b)[1..] == a[1..] + b;
      ApplyConcat(ApplyEntry(f, a[0]), a[1..], b);
    }
  }

  /** After the changes from `col` on the row is `cur` there; other rows are untouched. */
  lemma {:induction false} CellChangesApply(f: Frame, row: nat, cur: seq<CellData>, prev: seq<CellData>, col: nat)
    requires f.Valid() && row < f.rows && |cur| == |prev| == f.cols && col <= |cur|
    requires f.Row(row) == cur[..col] + prev[col..]
    ensures var es := CellChanges(row, cur, prev, col);
            AllInFrame(es, f.cols, f.rows)
            && Apply(f, es).Row(row) == cur
            && forall r :: 0 <= r < f.rows && r != row ==> Apply(f, es).Row(r) == f.Row(r)
    decreases |cur| - col
  {
    hide ApplyEntry, Frame.Row;
    if col == |cur| {
      assert cur[..col] + prev[col..] == cur;
    } else {
      var rest := CellChanges(row, cur, prev, col + 1);
      if cur[col] != prev[col] {
        var e := CellChange(col, row, cur[col]);
        var f' := ApplyEntry(f, e);
        ApplyEntryRow(f, e, row);
        assert f'.Row(row) == cur[..col + 1] + prev[col + 1..];
        CellChangesApply(f', row, cur, prev, col + 1);
        assert ([e] + rest)[1..] == rest;
        forall r | 0 <= r < f.rows && r != row ensures Apply(f, [e] + rest).Row(r) == f.Row(r) {
          ApplyEntryRow(f, e, r);
        }
      } else {
        assert f.Row(row) == cur[..col + 1] + prev[col + 1..];
        CellChangesApply(f, row, cur, prev, col + 1);
        assert [] + rest == rest;
      }
    }
  }

  lemma RowDiffApplies(f: Frame, row: nat, cur: seq<CellData>)
    requires f.Valid() && row < f.rows && |cur| == f.cols
    ensures var es := RowDiff(row, cur, f.Row(row));
            AllInFrame(es, f.cols, f.rows)
            && Apply(f, es).Row(row) == cur
            && forall r :: 0 <= r < f.rows && r != row ==> Apply(f, es).Row(r) == f.Row(r)
  {
    hide ApplyEntry, Frame.Row;
    var prev := f.Row(row);
    var changed := CountChanged(cur, prev);
    if changed == 0 {
    } else if changed * 2 > |cur| {
      LineChangeApplies(f, row, cur);
    } else {
      assert cur[..0] + prev[0..] == prev;
      CellChangesApply(f, row, cur, prev, 0);
    }
  }

  lemma LineChangeApplies(f: Frame, row: nat, cur: seq<CellData>)
    requires f.Valid() && row < f.rows && |cur| == f.cols
    ensures var es := [LineChange(row, cur)];
            AllInFrame(es, f.cols, f.rows)
            && Apply(f, es).Row(row) == cur
            && forall r :: 0 <= r < f.rows && r != row ==> Apply(f, es).Row(r) == f.Row(r)
  {
    hide ApplyEntry, Frame.Row;
    var e := LineChange(row, cur);
    assert [e][1..] == [];
    assert Apply(f, [e]) == ApplyEntry(f, e);
    forall r | 0 <= r < f.rows ensures ApplyEntry(f, e).Row(r) == if r == row then cur else f.Row(r) {
      ApplyEntryRow(f, e, r);
    }
  }

  /** Rows before `row` already show `cur`, the others still `prev`. */
  predicate Between(f: Frame, prev: Frame, cur: Frame, row: nat)
    requires f.Valid() && prev.Valid() && cur.Valid()
    requires f.cols == prev.cols == cur.cols && f.rows == prev.rows == cur.rows
  {
    forall r :: 0 <= r < f.rows as int ==> f.Row(r) == if r < row then cur.Row(r) else prev.Row(r)
  }

  lemma {:induction false} RowDiffsApply(f: Frame, prev: Frame, cur: Frame, row: nat)
    requires f.Valid() && prev.Valid() && cur.Valid() && row <= cur.rows
    requires f.cols == prev.cols == cur.cols && f.rows == prev.rows == cur.rows
    requires Between(f, prev, cur, row)
    ensures AllInFrame(RowDiffs(prev, cur, row), f.cols, f.rows) && Apply(f, RowDiffs(prev, cur, row)) == cur
    decreases cur.rows as int - row
  {
    hide RowDiff, Frame.Row, ApplyEntry;
    if row == cur.rows {
      SameRowsSameFrame(f, cur);
    } else {
      assert f.Row(row) == prev.Row(row);
      RowDiffApplies(f, row, cur.Row(row));
      var es := RowDiff(row, cur.Row(row), prev.Row(row));
      var f' := Apply(f, es);
      RowDiffsApply(f', prev, cur, row + 1);
      ApplyConcat(f, es, RowDiffs(prev, cur, row + 1));
    }
  }

  /** Applying the diff of two frames of the same size to the first gives the second,
      whichever mix of entries the diff chose. */
  lemma DiffApplies(prev: Frame, cur: Frame)
    requires prev.Valid() && cur.Valid() && prev.cols == cur.cols && prev.rows == cur.rows
    ensures AllInFrame(ComputeDiff(prev, cur), cur.cols, cur.rows) && Apply(prev, ComputeDiff(prev, cur)) == cur
  {
    RowDiffsApply(prev, prev, cur, 0);
  }

  lemma {:induction false} LineChangesApply(f: Frame, prev: Frame, cur: Frame, row: nat)
    requires f.Valid() && prev.Valid() && cur.Valid() && row <= cur.rows
    requires f.cols == prev.cols == cur.cols && f.rows == prev.rows == cur.rows
    requires Between(f, prev, cur, row)
    ensures AllInFrame(LineChanges(cur, row), f.cols, f.rows) && Apply(f, LineChanges(cur, row)) == cur
    decreases cur.rows as int - row
  {
    hide Frame.Row, ApplyEntry;
    if row == cur.rows {
      SameRowsSameFrame(f, cur);
    } else {
      LineChangeApplies(f, row, cur.Row(row));
      var es := [LineChange(row, cur.Row(row))];
      LineChangesApply(Apply(f, es), prev, cur, row + 1);
      ApplyConcat(f, es, LineChanges(cur, row + 1));
    }
  }

  /** A full diff overwrites any frame of its size. */
  lemma FullDiffApplies(prev: Frame, cur: Frame)
    requires prev.Valid() && cur.Valid() && prev.cols == cur.cols && prev.rows == cur.rows
    ensures AllInFrame(FullAsDiff(cur), cur.cols, cur.rows) && Apply(prev, FullAsDiff(cur)) == cur
  {
    LineChangesApply(prev, prev, cur, 0);
  }

  /** What a diff should say: the changed cells of a row in which at most half are changed, and any
      other row whole. */
  predicate Reports(prev: Frame, cur: Frame, e: DiffEntry)
    requires prev.Valid() && cur.Valid() && prev.cols == cur.cols && prev.rows == cur.rows
  {
    match e
    case CellChange(col, row, cell) =>
      row < cur.rows && ReportsCell(row, cur.Row(row), prev.Row(row), 0, e)
      && CountChanged(cur.Row(row), prev.Row(row)) * 2 <= cur.cols as int
    case LineChange(row, cells) =>
      row < cur.rows && cells == cur.Row(row) && CountChanged(cur.Row(row), prev.Row(row)) * 2 > cur.cols as int
    case RegionScroll(_, _, _) => false
  }

  predicate ReportsCell(row: u16, cur: seq<CellData>, prev: seq<CellData>, from: nat, e: DiffEntry)
    requires |cur| == |prev|
  {
    e.CellChange? && e.row == row && from <= e.col as int < |cur| && e.cell == cur[e.col] != prev[e.col]
  }

  lemma {:induction false} CellChangesReport(row: u16, cur: seq<CellData>, prev: seq<CellData>, col: nat, e: DiffEntry)
    requires |cur| == |prev| <= 0x1_0000 && col <= |cur|
    ensures e in CellChanges(row, cur, prev, col) <==> ReportsCell(row, cur, prev, col, e)
    decreases |cur| - col
  {
    if col < |cur| {
      CellChangesReport(row, cur, prev, col + 1, e);
    }
  }

  lemma RowDiffReports(prev: Frame, cur: Frame, row: nat, e: DiffEntry)
    requires prev.Valid() && cur.Valid() && prev.cols == cur.cols && prev.rows == cur.rows && row < cur.rows
    ensures e in RowDiff(row, cur.Row(row), prev.Row(row))
            <==> !e.RegionScroll? && e.row as int == row && Reports(prev, cur, e)
  {
    hide Frame.Row, CountChanged, CellChanges;
    CellChangesReport(row, cur.Row(row), prev.Row(row), 0, e);
  }

  lemma {:induction false} RowDiffsReport(prev: Frame, cur: Frame, row: nat, e: DiffEntry)
    requires prev.Valid() && cur.Valid() && prev.cols == cur.cols && prev.rows == cur.rows && row <= cur.rows
    ensures e in RowDiffs(prev, cur, row) <==> !e.RegionScroll? && e.row as int >= row && Reports(prev, cur, e)
    decreases cur.rows as int - row
  {
    hide Frame.Row, RowDiff, CountChanged;
    if row < cur.rows {
      RowDiffReports(prev, cur, row, e);
      RowDiffsReport(prev, cur, row + 1, e);
    }
  }

  /** A diff says that and nothing else. */
  lemma DiffReportsChanges(prev: Frame, cur: Frame, e: DiffEntry)
    requires prev.Valid() && cur.Valid() && prev.cols == cur.cols && prev.rows == cur.rows
    ensures e in ComputeDiff(prev, cur) <==> Reports(prev, cur, e)
  {
    hide Frame.Row, RowDiffs, CountChanged;
    RowDiffsReport(prev, cur, 0, e);
  }

  /** A diff is empty exactly when nothing changed. */
  lemma EmptyDiffMeansSame(prev: Frame, cur: Frame)
    requires prev.Valid() && cur.Valid() && prev.cols == cur.cols && prev.rows == cur.rows
    ensures ComputeDiff(prev, cur) == [] <==> prev == cur
  {
    if ComputeDiff(prev, cur) == [] {
      DiffApplies(prev, cur);
    }
    if prev == cur {
      SameDiff(cur, 0);
    }
  }

  lemma {:induction false} SameDiff(f: Frame, row: nat)
    requires f.Valid() && row <= f.rows
    ensures RowDiffs(f, f, row) == []
    decreases f.rows as int - row
  {
    if row < f.rows { SameDiff(f, row + 1); }
  }

  // -------------------------------------------------------------------------
  // The loops
  // -------------------------------------------------------------------------

  method ComputeDiffEntries(prev: Frame, cur: Frame) returns (diffs: seq<DiffEntry>)
    requires prev.Valid() && cur.Valid()
    ensures diffs == ComputeDiff(prev, cur)
  {
    if prev.cols != cur.cols || prev.rows != cur.rows {
      diffs := FullAsDiffEntries(cur);
      return;
    }
    diffs := [];
    for row := 0 to cur.rows as int
      invariant diffs + RowDiffs(prev, cur, row) == RowDiffs(prev, cur, 0)
    {
      var es := RowDiffEntries(row, cur.Row(row), prev.Row(row));
      assert diffs + (es + RowDiffs(prev, cur, row + 1)) == (diffs + es) + RowDiffs(prev, cur, row + 1);
      diffs := diffs + es;
    }
  }

  method CountChangedCells(cur: seq<CellData>, prev: seq<CellData>) returns (changed: nat)
    requires |cur| == |prev|
    ensures changed == CountChanged(cur, prev)
  {
    changed := 0;
    for col := 0 to |cur|
      invariant changed + CountChanged(cur[col..], prev[col..]) == CountChanged(cur, prev)
    {
      assert cur[col..][1..] == cur[col + 1..] && prev[col..][1..] == prev[col + 1..];
      if cur[col] != prev[col] {
        changed := changed + 1;
      }
    }
  }

  method CellChangeEntries(row: u16, cur: seq<CellData>, prev: seq<CellData>) returns (es: seq<DiffEntry>)
    requires |cur| == |prev| <= 0x1_0000
    ensures es == CellChanges(row, cur, prev, 0)
  {
    es := [];
    for col := 0 to |cur|
      invariant es + CellChanges(row, cur, prev, col) == CellChanges(row, cur, prev, 0)
    {
      if cur[col] != prev[col] {
        es := es + [CellChange(col, row, cur[col])];
      }
    }
  }

  method RowDiffEntries(row: u16, cur: seq<CellData>, prev: seq<CellData>) returns (es: seq<DiffEntry>)
    requires |cur| == |prev| <= 0x1_0000
    ensures es == RowDiff(row, cur, prev)
  {
    hide CountChanged, CellChanges;
    var changed := CountChangedCells(cur, prev);
    if changed == 0 {
      es := [];
    } else if changed * 2 > |cur| {
      es := [LineChange(row, cur)];
    } else {
      es := CellChangeEntries(row, cur, prev);
    }
  }

  method FullAsDiffEntries(f: Frame) returns (diffs: seq<DiffEntry>)
    requires f.Valid()
    ensures diffs == FullAsDiff(f)
  {
    diffs := [];
    for row := 0 to f.rows as int
      invariant diffs + LineChanges(f, row) == LineChanges(f, 0)
    {
      diffs := diffs + [LineChange(row, f.Row(row))];
    }
  }
}
