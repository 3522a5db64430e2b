/** The reflow loops, each proved against its specification in `Reflow`. */
module ReflowLoops {
  import opened Common
  import opened Cells
  import opened Reflow
  import opened ReflowText

  method CollectLogicalLines(rows: seq<Row>) returns (lines: seq<seq<Cell>>)
    ensures lines == Collect(rows, [], false)
  {
    lines := [];
    var current: seq<Cell> := [];
    var inSoftWrap := false;
    for r := 0 to |rows|
      invariant lines + Collect(rows[r..], current, inSoftWrap) == Collect(rows, [], false)
    {
      assert rows[r..][1..] == rows[r + 1..];
      if !inSoftWrap {
        if current != [] {
          lines := lines + [current];
          current := [];
        }
      }
      ghost var before := current;
      for c := 0 to |rows[r].cells|
        invariant current == before + rows[r].cells[..c]
      {
        current := current + [rows[r].cells[c]];
      }
      assert before + rows[r].cells[..|rows[r].cells|] == before + rows[r].cells;
      assert [] + rows[r].cells == rows[r].cells;
      inSoftWrap := rows[r].softWrapped;
    }
    lines := lines + [current];
  }

  method TrimTrailingBlankCells(cells: seq<Cell>) returns (trimmed: seq<Cell>)
    ensures trimmed == Trim(cells)
  {
    var end: nat := |cells|;
    assert cells[..end] == cells;
    while end > 0
      invariant end <= |cells|
      invariant Trim(cells) == Trim(cells[..end])
    {
      var c := cells[end - 1];
      if c.grapheme == " " && !c.wide && !c.continuation {
        assert cells[..end][..end - 1] == cells[..end - 1];
        end := end - 1;
      } else {
        break;
      }
    }
    trimmed := cells[..end];
  }

  /** The rows emitted so far: every one is soft-wrapped. */
  function OpenRows(segments: seq<seq<Cell>>, n: nat): (rows: seq<Row>)
    requires AllFit(segments, n)
    ensures |rows| == |segments|
  {
    seq(|segments|, i requires 0 <= i < |segments| => Row(Pad(segments[i], n), true))
  }

  /** One segment is complete. */
  lemma OpenRowsSnoc(segments: seq<seq<Cell>>, line: seq<Cell>, n: nat)
    requires AllFit(segments, n) && |line| <= n
    ensures AllFit(segments + [line], n)
    ensures OpenRows(segments + [line], n) == OpenRows(segments, n) + [Row(Pad(line, n), true)]
  {
  }

  lemma CloseLast(segments: seq<seq<Cell>>, rows: seq<Row>, n: nat)
    requires AllFit(segments, n) && segments != [] && |rows| == |segments|
    requires rows[..|rows| - 1] == OpenRows(segments, n)[..|segments| - 1]
    requires rows[|rows| - 1].cells == Pad(segments[|segments| - 1], n)
    ensures SegmentRows(segments, n) == rows[|rows| - 1 := rows[|rows| - 1].(softWrapped := false)]
  {
    var closed := rows[|rows| - 1 := rows[|rows| - 1].(softWrapped := false)];
    forall i | 0 <= i < |rows| ensures SegmentRows(segments, n)[i] == closed[i] {
      if i < |rows| - 1 { assert rows[..|rows| - 1][i] == OpenRows(segments, n)[..|segments| - 1][i]; }
    }
  }

  lemma PadPut(line: seq<Cell>, c: Cell, n: nat)
    requires |line| < n
    ensures Pad(line, n)[|line| := c] == Pad(line + [c], n)
  {
  }

  lemma PadPutGlyph(line: seq<Cell>, c: Cell, n: nat)
    requires |line| < n && !(c.wide && |line| + 1 >= n)
    ensures |line + Glyph(c)| == |line| + (if c.wide then 2 else 1) <= n
    ensures Pad(line + Glyph(c), n)
            == if c.wide then Pad(line, n)[|line| := c][|line| + 1 := CONTINUATION] else Pad(line, n)[|line| := c]
  {
    hide Pad;
    PadPut(line, c, n);
    if c.wide {
      PadPut(line + [c], CONTINUATION, n);
      assert line + [c] + [CONTINUATION] == line + Glyph(c);
    }
  }

  /** The unfinished row: `line` written into its first cells, blanks after it. */
  ghost predicate Unfinished(current: Row, line: seq<Cell>, n: nat, col: nat) {
    |line| == col < n && current == Row(Pad(line, n), false)
  }

  /** The segments emitted so far and those still to come are the segments of the line. */
  ghost predicate Progress(cells: seq<Cell>, idx: nat, n: nat, line: seq<Cell>, done: seq<seq<Cell>>) {
    && idx <= |cells| && |line| < n && AllFit(done, n)
    && done + Segments(cells[idx..], n, line) == Segments(cells, n, [])
  }

  lemma StepSkip(cells: seq<Cell>, idx: nat, n: nat, line: seq<Cell>, done: seq<seq<Cell>>)
    requires Progress(cells, idx, n, line, done) && idx < |cells| && cells[idx].continuation
    ensures Progress(cells, idx + 1, n, line, done)
  {
    assert cells[idx..][1..] == cells[idx + 1..];
  }

  lemma StepDrop(cells: seq<Cell>, idx: nat, line: seq<Cell>, done: seq<seq<Cell>>)
    requires Progress(cells, idx, 1, line, done) && idx < |cells| && !cells[idx].continuation && cells[idx].wide
    ensures Progress(cells, Min(idx + 2, |cells|), 1, [], done + [[]])
  {
    var rest := cells[idx..];
    var k := Min(2, |rest|);
    assert rest[k..] == cells[Min(idx + 2, |cells|)..];
    var tail := Segments(rest[k..], 1, []);
    assert Segments(rest, 1, line) == [[]] + tail;
    assert done + ([[]] + tail) == (done + [[]]) + tail;
  }

  lemma StepPush(cells: seq<Cell>, idx: nat, n: nat, line: seq<Cell>, done: seq<seq<Cell>>)
    requires Progress(cells, idx, n, line, done) && idx < |cells| && !cells[idx].continuation && cells[idx].wide
    requires n != 1 && |line| + 1 >= n
    ensures Progress(cells, idx, n, [], done + [line])
  {
    var tail := Segments(cells[idx..], n, []);
    assert done + ([line] + tail) == (done + [line]) + tail;
  }

  lemma StepGlyph(cells: seq<Cell>, idx: nat, n: nat, line: seq<Cell>, done: seq<seq<Cell>>)
    requires Progress(cells, idx, n, line, done) && idx < |cells| && !cells[idx].continuation
    requires !(cells[idx].wide && |line| + 1 >= n)
    ensures var line' := line + Glyph(cells[idx]);
            var paired := cells[idx].wide && idx + 1 < |cells| && cells[idx + 1].continuation;
            var idx' := if paired then idx + 2 else idx + 1;
            |line'| <= n
            && if |line'| >= n then Progress(cells, idx', n, [], done + [line'])
               else Progress(cells, idx', n, line', done)
  {
    var rest := cells[idx..];
    var line' := line + Glyph(cells[idx]);
    assert rest[1..] == cells[idx + 1..];
    if idx + 1 < |cells| { assert rest[2..] == cells[idx + 2..]; }
    if |line'| >= n {
      var tail := Segments(AfterGlyph(rest), n, []);
      assert done + ([line'] + tail) == (done + [line']) + tail;
    }
  }

  lemma StepsDone(cells: seq<Cell>, n: nat, line: seq<Cell>, done: seq<seq<Cell>>)
    requires n > 0 && Progress(cells, |cells|, n, line, done)
    ensures LineSegments(cells, n) == if line != [] || done == [] then done + [line] else done
  {
    assert cells[|cells|..] == [];
  }

  lemma StepsStart(cells: seq<Cell>, n: nat)
    requires n > 0
    ensures Progress(cells, 0, n, [], []) && AllFit([], n) && OpenRows([], n) == []
  {
    assert cells[0..] == cells;
  }

  /** Write a cell, and its continuation if it is wide, into the row being filled. */
  method PutGlyph(current: Row, cell: Cell, col: nat, n: nat, ghost line: seq<Cell>) returns (after: Row, next: nat)
    requires Unfinished(current, line, n, col) && !(cell.wide && col + 1 >= n)
    ensures next == |line + Glyph(cell)| <= n && after == Row(Pad(line + Glyph(cell), n), false)
  {
    hide Pad;
    PadPutGlyph(line, cell, n);
    after := current.(cells := current.cells[col := cell]);
    next := col + 1;
    if cell.wide {
      if next < n {
        after := after.(cells := after.cells[next := CONTINUATION]);
        next := next + 1;
      }
    }
  }

  /** Emit the row being filled unless it is empty and not the only one; the last row is not
      soft-wrapped. */
  method FinishRows(ghost cells: seq<Cell>, n: nat, full: seq<Row>, current: Row, col: nat, ghost line: seq<Cell>,
                    ghost done: seq<seq<Cell>>) returns (rows: seq<Row>)
    requires cells != [] && Progress(cells, |cells|, n, line, done) && Unfinished(current, line, n, col)
    requires AllFit(done, n) && full == OpenRows(done, n)
    ensures rows == Rewrap(cells, n)
  {
    hide Progress, AllFit, Pad, LineSegments, Segments, SegmentRows;
    rows := full;
    ghost var segments := done;
    StepsDone(cells, n, line, done);
    if col > 0 || rows == [] {
      OpenRowsSnoc(done, line, n);
      segments := done + [line];
      rows := rows + [current.(softWrapped := false)];
    }
    assert rows != [] && rows[..|rows| - 1] == OpenRows(segments, n)[..|segments| - 1];
    CloseLast(segments, rows, n);
    rows := rows[|rows| - 1 := rows[|rows| - 1].(softWrapped := false)];
  }

  method RewrapLine(cells: seq<Cell>, n: nat) returns (rows: seq<Row>)
    requires n > 0
    ensures rows == Rewrap(cells, n)
  {
    if cells == [] {
      rows := [BlankRow(n)];
      RewrapOfNothing(n);
      return;
    }
    hide Progress, AllFit, Glyph, Pad, OpenRows, LineSegments, Segments, SegmentRows, Rewrap, BlankRow;
    rows := [];
    var current := BlankRow(n);
    var col: nat := 0;
    var idx: nat := 0;
    ghost var done: seq<seq<Cell>> := [];
    ghost var line: seq<Cell> := [];
    StepsStart(cells, n);
    FreshRow(n);
    while idx < |cells|
      invariant idx <= |cells| && Progress(cells, idx, n, line, done)
      invariant Unfinished(current, line, n, col)
      invariant AllFit(done, n) && rows == OpenRows(done, n)
      decreases |cells| - idx, col
    {
      var cell := cells[idx];
      if cell.continuation {
        StepSkip(cells, idx, n, line, done);
        idx := idx + 1;
        continue;
      }
      if cell.wide && n == 1 {
        StepDrop(cells, idx, line, done);
        current := current.(cells := current.cells[0 := BLANK]);
        OneColumn(line);
        col := 1;
        line := [];
        idx := Min(idx + 2, |cells|);
      } else if cell.wide && col + 1 >= n {
        StepPush(cells, idx, n, line, done);
        current := current.(cells := current.cells[col := BLANK], softWrapped := true);
        PadLastBlank(line, n);
        rows := rows + [current];
        OpenRowsSnoc(done, line, n);
        done := done + [line];
        line := [];
        current := BlankRow(n);
        FreshRow(n);
        col := 0;
        continue;
      } else {
        StepGlyph(cells, idx, n, line, done);
        current, col := PutGlyph(current, cell, col, n, line);
        if cell.wide && idx + 1 < |cells| && cells[idx + 1].continuation {
          idx := idx + 1;
        }
        idx := idx + 1;
        line := line + Glyph(cell);
      }
      if col >= n {
        rows := rows + [current.(softWrapped := true)];
        OpenRowsSnoc(done, line, n);
        done := done + [line];
        line := [];
        current := BlankRow(n);
        FreshRow(n);
        col := 0;
      }
    }
    rows := FinishRows(cells, n, rows, current, col, line, done);
  }

  lemma FreshRow(n: nat)
    requires n > 0
    ensures Unfinished(BlankRow(n), [], n, 0)
  {
    PadOfNothing(n);
  }

  lemma OneColumn(line: seq<Cell>)
    requires |line| == 0
    ensures Pad(line, 1)[0 := BLANK] == Pad([], 1)
  {
  }

  lemma PadLastBlank(line: seq<Cell>, n: nat)
    requires |line| + 1 == n
    ensures Pad(line, n)[|line| := BLANK] == Pad(line, n)
  {
  }

  lemma PadOfNothing(n: nat)
    ensures Pad([], n) == BlankRow(n).cells
  {
  }

  // -------------------------------------------------------------------------
  // The cursor
  // -------------------------------------------------------------------------

  method CursorOffsetInLines(rows: seq<Row>, cursorRow: nat, cursorCol: nat) returns (line: nat, offset: nat)
    ensures cursorRow < |rows| ==>
              line == LineOf(rows, cursorRow) && offset == RowOffset(rows, cursorRow) + cursorCol
    ensures cursorRow >= |rows| ==> line == 0 && offset == 0
  {
    var lineIdx, offsetInLine := 0, 0;
    var inSoftWrap := false;
    line, offset := 0, 0;
    for r := 0 to |rows|
      invariant r == 0 ==> lineIdx == 0 && offsetInLine == 0 && !inSoftWrap
      invariant r > 0 ==>
                  lineIdx == LineOf(rows, r - 1) && inSoftWrap == rows[r - 1].softWrapped
                  && offsetInLine == RowOffset(rows, r - 1) + |rows[r - 1].cells|
      invariant if cursorRow < r then line == LineOf(rows, cursorRow)
        && offset == RowOffset(rows, cursorRow) + cursorCol
                else line == 0 && offset == 0
    {
      if !inSoftWrap {
        if r > 0 {
          lineIdx := lineIdx + 1;
        }
        offsetInLine := 0;
      }
      if r == cursorRow {
        line := lineIdx;
        offset := offsetInLine + cursorCol;
      }
      offsetInLine := offsetInLine + |rows[r].cells|;
      inSoftWrap := rows[r].softWrapped;
    }
  }

  method CursorFromOffset(rows: seq<Row>, boundaries: seq<nat>, line: nat, offset: nat) returns (row: nat, col: nat)
    ensures (row, col)
         == Walk(rows, if line < |boundaries| then boundaries[line] else SaturatingSub(|rows|, 1), offset)
  {
    var rowIdx := if line < |boundaries| then boundaries[line] else SaturatingSub(|rows|, 1);
    var remaining: nat := offset;
    ghost var start := rowIdx;
    while rowIdx < |rows|
      invariant Walk(rows, rowIdx, remaining) == Walk(rows, start, offset)
      decreases |rows| - rowIdx
    {
      var len := |rows[rowIdx].cells|;
      if remaining < len {
        return rowIdx, remaining;
      }
      remaining := remaining - len;
      if !rows[rowIdx].softWrapped {
        return rowIdx, Min(SaturatingSub(len, 1), remaining);
      }
      rowIdx := rowIdx + 1;
    }
    row := SaturatingSub(|rows|, 1);
    col := if rows == [] then 0 else SaturatingSub(|rows[|rows| - 1].cells|, 1);
  }

  // -------------------------------------------------------------------------
  // The whole reflow
  // -------------------------------------------------------------------------

  method RewrapLines(lines: seq<seq<Cell>>, n: nat) returns (rows: seq<Row>, starts: seq<nat>)
    requires n > 0
    ensures rows == RewrapAll(TrimAll(lines), n)
    ensures |starts| == |lines| && forall i :: 0 <= i < |lines| ==> starts[i] == LineStart(TrimAll(lines), n, i)
  {
    rows, starts := [], [];
    ghost var trimmed := TrimAll(lines);
    hide Rewrap;
    for i := 0 to |lines|
      invariant rows == RewrapAll(trimmed[..i], n)
      invariant |starts| == i && forall k :: 0 <= k < i ==> starts[k] == LineStart(trimmed, n, k)
    {
      hide RewrapAll, Trim;
      starts := starts + [|rows|];
      var line := TrimTrailingBlankCells(lines[i]);
      var wrapped := RewrapLine(line, n);
      rows := rows + wrapped;
      RewrapAllConcat(trimmed[..i], [trimmed[i]], n);
      RewrapAllOne(trimmed[i], n);
      assert trimmed[..i + 1] == trimmed[..i] + [trimmed[i]];
    }
    assert trimmed[..|lines|] == trimmed;
  }

  /** The number of rows before the trailing blank ones. */
  method ContentLength(rows: seq<Row>) returns (len: nat)
    ensures len <= |rows| && rows[..len] == TrimRows(rows)
  {
    len := |rows|;
    assert rows[..len] == rows;
    while len > 0
      invariant len <= |rows| && TrimRows(rows) == TrimRows(rows[..len])
    {
      var row := rows[len - 1];
      var isBlank := forall i :: 0 <= i < |row.cells| ==>
                       row.cells[i].grapheme == " " && !row.cells[i].wide && !row.cells[i].continuation;
      if isBlank && !row.softWrapped {
        assert IsBlankRow(row);
        assert rows[..len][..len - 1] == rows[..len - 1];
        len := len - 1;
      } else {
        assert !IsBlankRow(row);
        break;
      }
    }
  }

  /** Oldest rows first: the history backwards, then the screen. */
  method AllRows(history: seq<Row>, visible: seq<Row>) returns (rows: seq<Row>)
    ensures rows == Reverse(history) + visible
  {
    rows := [];
    for i := |history| downto 0
      invariant rows == Reverse(history)[..|history| - i]
    {
      rows := rows + [history[i]];
    }
    assert Reverse(history)[..|history|] == Reverse(history);
    for r := 0 to |visible|
      invariant rows == Reverse(history) + visible[..r]
    {
      rows := rows + [visible[r]];
    }
    assert visible[..|visible|] == visible;
  }

  method SplitReflowed(reflowed: seq<Row>, n: nat, height: nat) returns (newHistory: seq<Row>, newVisible: seq<Row>)
    requires HasWidth(reflowed, n)
    ensures Split(newHistory, newVisible) == SplitRows(reflowed, n, height)
  {
    hide TrimRows, IsBlankRow;
    var contentLen := ContentLength(reflowed);
    var content := reflowed[..contentLen];
    if contentLen <= height {
      newHistory := [];
      newVisible := content;
      while |newVisible| < height
        invariant |content| <= |newVisible| <= height
        invariant newVisible == content + BlankRows(|newVisible| - |content|, n)
      {
        newVisible := newVisible + [BlankRow(n)];
      }
    } else {
      var splitAt := contentLen - height;
      newHistory := reflowed[..splitAt];
      newVisible := reflowed[splitAt..contentLen];
      assert newHistory == content[..splitAt] && newVisible == content[splitAt..];
    }
  }

  method ReflowRows(history: seq<Row>, visible: seq<Row>, cursorRow: nat, cursorCol: nat, n: nat, height: nat)
    returns (newHistory: seq<Row>, newVisible: seq<Row>, newRow: nat, newCol: nat)
    requires n > 0 && height > 0 && cursorRow < |visible|
    ensures Screen(newHistory, newVisible, newRow, newCol)
         == ReflowScreen(Reverse(history) + visible, |history| + cursorRow, cursorCol, n, height)
  {
    hide Rewrap, RewrapAll, Walk, Collect, TrimRows, IsBlankRow, LineStart, LineOf, RowOffset, SplitRows, HasWidth,
      Reverse;
    var rows := AllRows(history, visible);
    var line, offset := CursorOffsetInLines(rows, |history| + cursorRow, cursorCol);
    var lines := CollectLogicalLines(rows);
    var reflowed, starts := RewrapLines(lines, n);
    assert reflowed == Reflowed(rows, n);
    var targetRow, targetCol := CursorFromOffset(reflowed, starts, line, offset);
    assert (targetRow, targetCol) == CursorTarget(rows, |history| + cursorRow, cursorCol, n);
    newHistory, newVisible := SplitReflowed(reflowed, n, height);
    if targetRow >= |newHistory| {
      newRow := Min(targetRow - |newHistory|, height - 1);
      newCol := Min(targetCol, n - 1);
    } else {
      newRow, newCol := 0, 0;
    }
  }
}
