/** The cursor stays on its cell through a reflow of narrow cells. */
module ReflowCursor {
  import opened Cells
  import opened Reflow
  import opened ReflowText

  lemma {:induction false} LineOfRest(rows: seq<Row>, row: nat)
    requires 0 < row < |rows|
    ensures var rest := rows[1..];
            if rows[0].softWrapped then
              LineOf(rows, row) == LineOf(rest, row - 1)
              && RowOffset(rows, row)
                 == RowOffset(rest, row - 1) + (if LineOf(rest, row - 1) == 0 then |rows[0].cells| else 0)
            else
              LineOf(rows, row) == LineOf(rest, row - 1) + 1 && RowOffset(rows, row) == RowOffset(rest, row - 1)
  {
    if row == 1 {
      assert LineOf(rows, 0) == 0 && RowOffset(rows, 0) == 0;
    } else {
      LineOfRest(rows, row - 1);
      assert rows[1..][row - 2] == rows[row - 1];
    }
  }

  /** A screen position is a line and an offset into it. */
  lemma {:induction false} OffsetLocatesCell(rows: seq<Row>, row: nat, col: nat)
    requires row < |rows| && col < |rows[row].cells|
    ensures var lines, line, offset := Lines(rows), LineOf(rows, row), RowOffset(rows, row) + col;
            line < |lines| && offset < |lines[line]| && lines[line][offset] == rows[row].cells[col]
  {
    if row > 0 {
      LineOfRest(rows, row);
      OffsetLocatesCell(rows[1..], row - 1, col);
    }
  }

  /** Walking from the start of a re-wrapped line reaches the cell at the offset. */
  lemma {:induction false} WalkFindsCell(pre: seq<Row>, line: seq<Cell>, post: seq<Row>, n: nat, offset: nat)
    requires n > 0 && AllNarrow(line) && offset < |line|
    ensures var rows := pre + Rewrap(line, n) + post;
            var (r, c) := Walk(rows, |pre|, offset);
            |pre| <= r < |pre| + |Rewrap(line, n)| && c < n && |rows[r].cells| == n
            && rows[r].cells[c] == line[offset]
    decreases |line|
  {
    hide Rewrap;
    var rows := pre + Rewrap(line, n) + post;
    if |line| <= n {
      RewrapLast(line, n);
      assert rows[|pre|] == Row(Pad(line, n), false);
    } else {
      RewrapFirst(line, n);
      assert rows[|pre|] == Row(line[..n], true);
      if offset >= n {
        var pre' := pre + [Row(line[..n], true)];
        assert rows == pre' + Rewrap(line[n..], n) + post;
        WalkFindsCell(pre', line[n..], post, n, offset - n);
      }
    }
  }

  lemma RewrapAllAt(lines: seq<seq<Cell>>, k: nat, n: nat)
    requires n > 0 && k < |lines|
    ensures RewrapAll(lines, n)
            == RewrapAll(lines[..k], n) + Rewrap(lines[k], n) + RewrapAll(lines[k + 1..], n)
  {
    hide *;
    RewrapAllConcat(lines[..k], [lines[k]] + lines[k + 1..], n);
    RewrapAllConcat([lines[k]], lines[k + 1..], n);
    RewrapAllOne(lines[k], n);
    assert lines == lines[..k] + ([lines[k]] + lines[k + 1..]);
    assert RewrapAll(lines[..k], n) + (Rewrap(lines[k], n) + RewrapAll(lines[k + 1..], n))
        == RewrapAll(lines[..k], n) + Rewrap(lines[k], n) + RewrapAll(lines[k + 1..], n);
  }

  /** The cursor's offset within its line, and the line without trailing blanks. */
  function CursorOffset(rows: seq<Row>, row: nat, col: nat): nat
    requires row < |rows|
  {
    RowOffset(rows, row) + col
  }

  predicate WithinText(rows: seq<Row>, row: nat, col: nat)
    requires row < |rows|
  {
    LineOf(rows, row) < |Lines(rows)| && CursorOffset(rows, row, col) < |Trim(Lines(rows)[LineOf(rows, row)])|
  }

  lemma ReflowedLines(rows: seq<Row>, n: nat)
    requires n > 0 && NarrowRows(rows) && rows != []
    ensures Collect(rows, [], false) == Lines(rows) && Reflowed(rows, n) == RewrapAll(TrimAll(Lines(rows)), n)
    ensures NarrowLines(TrimAll(Lines(rows))) && Trimmed(TrimAll(Lines(rows)))
  {
    hide RewrapAll, Lines, Collect, AllNarrow;
    CollectAllGivesLines(rows);
    NarrowRowsGiveNarrowLines(rows);
    TrimAllTrims(Lines(rows));
  }

  lemma RowsUpToShownRow(pre: seq<Row>, mid: seq<Row>, post: seq<Row>)
    requires mid != [] && !IsBlankRow(mid[|mid| - 1])
    ensures |pre| + |mid| <= |TrimRows(pre + mid + post)|
  {
    hide IsBlankRow;
    var rows := pre + mid + post;
    assert rows[|pre| + |mid| - 1] == mid[|mid| - 1];
  }

  /** The reflowed row the cursor is sent to holds its cell. */
  lemma TargetHoldsCell(rows: seq<Row>, row: nat, col: nat, n: nat)
    requires n > 0 && NarrowRows(rows) && row < |rows| && col < |rows[row].cells| && WithinText(rows, row, col)
    ensures var reflowed := Reflowed(rows, n);
            var (r, c) := CursorTarget(rows, row, col, n);
            r < |TrimRows(reflowed)| && c < n && reflowed[r].cells[c] == rows[row].cells[col]
  {
    hide Reflowed, TrimRows, Rewrap, RewrapAll, Lines, Collect, IsBlankRow, Walk, AllNarrow, Trim, HasWidth, NarrowRows;
    ReflowedLines(rows, n);
    var lines := TrimAll(Lines(rows));
    var k, offset := LineOf(rows, row), CursorOffset(rows, row, col);
    OffsetLocatesCell(rows, row, col);
    assert lines[k][offset] == rows[row].cells[col];
    RewrapAllAt(lines, k, n);
    var pre, mid, post := RewrapAll(lines[..k], n), Rewrap(lines[k], n), RewrapAll(lines[k + 1..], n);
    assert LineStart(lines, n, k) == |pre|;
    WalkFindsCell(pre, lines[k], post, n, offset);
    LastRowShows(lines[k], n);
    RowsUpToShownRow(pre, mid, post);
  }

  /** If the cursor is within the text of its line and its reflowed row is still on the
      screen, the cell under it is the same cell. */
  lemma CursorKeepsItsCell(rows: seq<Row>, row: nat, col: nat, n: nat, height: nat)
    requires n > 0 && height > 0 && NarrowRows(rows) && row < |rows| && col < |rows[row].cells|
    requires WithinText(rows, row, col)
    requires |SplitRows(Reflowed(rows, n), n, height).history| <= CursorTarget(rows, row, col, n).0
    ensures var r := ReflowScreen(rows, row, col, n, height);
            r.visible[r.cursorRow].cells[r.cursorCol] == rows[row].cells[col]
  {
    hide Reflowed, CursorTarget, TrimRows, WithinText;
    TargetHoldsCell(rows, row, col, n);
    var content := TrimRows(Reflowed(rows, n));
    var (r, c) := CursorTarget(rows, row, col, n);
    var split := SplitRows(Reflowed(rows, n), n, height);
    assert split.visible[r - |split.history|] == content[r];
  }
}
