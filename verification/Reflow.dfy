/** Reflow on values: rows are joined into logical lines, each line is cut into segments of
    the new width, and the cursor is carried along as an offset into its line. */
module Reflow {
  import opened Common
  import opened Cells

  // -------------------------------------------------------------------------
  // Logical lines
  // -------------------------------------------------------------------------

  /** The logical lines of rows read oldest first: a soft-wrapped row is continued by the
      next one. */
  function Lines(rows: seq<Row>): (lines: seq<seq<Cell>>)
    ensures lines == [] <==> rows == []
  {
    if rows == [] then []
    else
      var rest := Lines(rows[1..]);
      if rows[0].softWrapped && rest != [] then [rows[0].cells + rest[0]] + rest[1..]
      else [rows[0].cells] + rest
  }

  /** What the collecting loop computes from a partly built line. An empty line is never
      closed by the start of another. */
  function Collect(rows: seq<Row>, current: seq<Cell>, inSoftWrap: bool): seq<seq<Cell>>
    decreases rows
  {
    if rows == [] then [current]
    else if inSoftWrap || current == [] then
      Collect(rows[1..], current + rows[0].cells, rows[0].softWrapped)
    else
      [current] + Collect(rows[1..], rows[0].cells, rows[0].softWrapped)
  }

  /** Every row has at least one cell. */
  predicate NoEmptyRow(rows: seq<Row>) {
    forall i :: 0 <= i < |rows| ==> rows[i].cells != []
  }

  lemma {:induction false} CollectGivesLines(rows: seq<Row>, current: seq<Cell>, inSoftWrap: bool)
    requires NoEmptyRow(rows) && current != []
    ensures Collect(rows, current, inSoftWrap) ==
            if rows == [] then [current]
            else if inSoftWrap then [current + Lines(rows)[0]] + Lines(rows)[1..]
            else [current] + Lines(rows)
    decreases rows
  {
    if rows != [] {
      var next := if inSoftWrap then current + rows[0].cells else rows[0].cells;
      CollectGivesLines(rows[1..], next, rows[0].softWrapped);
      if inSoftWrap && rows[1..] != [] {
        assert (current + rows[0].cells) + Lines(rows[1..])[0] == current + (rows[0].cells + Lines(rows[1..])[0]);
      }
    }
  }

  lemma CollectAllGivesLines(rows: seq<Row>)
    requires NoEmptyRow(rows)
    ensures Collect(rows, [], false) == if rows == [] then [[]] else Lines(rows)
  {
    if rows != [] {
      assert [] + rows[0].cells == rows[0].cells;
      CollectGivesLines(rows[1..], rows[0].cells, rows[0].softWrapped);
    }
  }

  // -------------------------------------------------------------------------
  // Blank cells and rows
  // -------------------------------------------------------------------------

  predicate IsBlank(c: Cell) {
    c.grapheme == " " && !c.wide && !c.continuation
  }

  predicate IsBlankRow(row: Row) {
    (forall i :: 0 <= i < |row.cells| ==> IsBlank(row.cells[i])) && !row.softWrapped
  }

  /** A line without its trailing blank cells. */
  function Trim(cells: seq<Cell>): (r: seq<Cell>)
    ensures r <= cells
    ensures r != [] ==> !IsBlank(r[|r| - 1])
    ensures forall i :: |r| <= i < |cells| ==> IsBlank(cells[i])
  {
    if cells != [] && IsBlank(cells[|cells| - 1]) then Trim(cells[..|cells| - 1]) else cells
  }

  /** Rows without the trailing rows that are blank and not soft-wrapped. */
  function TrimRows(rows: seq<Row>): (r: seq<Row>)
    ensures r <= rows
    ensures r != [] ==> !IsBlankRow(r[|r| - 1])
    ensures forall i :: |r| <= i < |rows| ==> IsBlankRow(rows[i])
  {
    if rows != [] && IsBlankRow(rows[|rows| - 1]) then TrimRows(rows[..|rows| - 1]) else rows
  }

  // -------------------------------------------------------------------------
  // Re-wrapping
  // -------------------------------------------------------------------------

  const CONTINUATION: Cell := BLANK.(continuation := true)

  /** The cells a leading cell takes: itself, and its second half when it is wide. */
  function Glyph(c: Cell): seq<Cell> {
    if c.wide then [c, CONTINUATION] else [c]
  }

  /** The cells after the glyph at the head of `cells`. */
  function AfterGlyph(cells: seq<Cell>): (rest: seq<Cell>)
    requires cells != []
    ensures |rest| < |cells|
  {
    if cells[0].wide && |cells| > 1 && cells[1].continuation then cells[2..] else cells[1..]
  }

  /** The row contents, without padding, that re-wrapping makes of `cells` when the row
      being filled already holds `line`. */
  function Segments(cells: seq<Cell>, n: nat, line: seq<Cell>): seq<seq<Cell>>
    requires |line| < n
    decreases |cells|, |line|
  {
    if cells == [] then
      if line == [] then [] else [line]
    else if cells[0].continuation then
      Segments(cells[1..], n, line)
    else if cells[0].wide && n == 1 then
      [[]] + Segments(cells[Min(2, |cells|)..], n, [])
    else if cells[0].wide && |line| + 1 >= n then
      [line] + Segments(cells, n, [])
    else
      var line' := line + Glyph(cells[0]);
      if |line'| >= n then [line'] + Segments(AfterGlyph(cells), n, [])
      else Segments(AfterGlyph(cells), n, line')
  }

  function Pad(line: seq<Cell>, n: nat): (r: seq<Cell>)
    requires |line| <= n
    ensures |r| == n
  {
    line + Repeat(BLANK, n - |line|)
  }

  predicate AllFit(segments: seq<seq<Cell>>, n: nat) {
    forall i :: 0 <= i < |segments| ==> |segments[i]| <= n
  }

  /** One padded row per segment; all but the last are soft-wrapped. */
  function SegmentRows(segments: seq<seq<Cell>>, n: nat): (rows: seq<Row>)
    requires AllFit(segments, n)
    ensures |rows| == |segments|
    ensures forall i :: 0 <= i < |rows| ==> rows[i] == Row(Pad(segments[i], n), i + 1 < |rows|)
  {
    seq(|segments|, i requires 0 <= i < |segments| => Row(Pad(segments[i], n), i + 1 < |segments|))
  }

  lemma {:induction false} SegmentsFit(cells: seq<Cell>, n: nat, line: seq<Cell>)
    requires |line| < n
    ensures AllFit(Segments(cells, n, line), n)
    decreases |cells|, |line|
  {
    if cells == [] {
    } else if cells[0].continuation {
      SegmentsFit(cells[1..], n, line);
    } else if cells[0].wide && n == 1 {
      SegmentsFit(cells[Min(2, |cells|)..], n, []);
    } else if cells[0].wide && |line| + 1 >= n {
      SegmentsFit(cells, n, []);
    } else {
      var line' := line + Glyph(cells[0]);
      SegmentsFit(AfterGlyph(cells), n, if |line'| >= n then [] else line');
    }
  }

  /** The segments of a whole line; a line that leaves none still takes one row. */
  function LineSegments(cells: seq<Cell>, n: nat): (segments: seq<seq<Cell>>)
    requires n > 0
    ensures segments != [] && AllFit(segments, n)
  {
    SegmentsFit(cells, n, []);
    var segments := Segments(cells, n, []);
    if segments == [] then [[]] else segments
  }

  function Rewrap(cells: seq<Cell>, n: nat): (rows: seq<Row>)
    requires n > 0
    ensures rows != [] && HasWidth(rows, n)
  {
    SegmentRows(LineSegments(cells, n), n)
  }

  function RewrapAll(lines: seq<seq<Cell>>, n: nat): (rows: seq<Row>)
    requires n > 0
    ensures HasWidth(rows, n)
  {
    if lines == [] then [] else Rewrap(lines[0], n) + RewrapAll(lines[1..], n)
  }

  function TrimAll(lines: seq<seq<Cell>>): (r: seq<seq<Cell>>)
    ensures |r| == |lines|
    ensures forall i :: 0 <= i < |r| ==> r[i] == Trim(lines[i])
  {
    seq(|lines|, i requires 0 <= i < |lines| => Trim(lines[i]))
  }

  /** The rows a sequence of rows becomes at width `n`, before the trailing blank ones are
      dropped. */
  function Reflowed(rows: seq<Row>, n: nat): (r: seq<Row>)
    requires n > 0
    ensures HasWidth(r, n)
  {
    RewrapAll(TrimAll(Collect(rows, [], false)), n)
  }

  // -------------------------------------------------------------------------
  // Splitting into history and screen
  // -------------------------------------------------------------------------

  datatype Split = Split(history: seq<Row>, visible: seq<Row>)

  /** The last `height` content rows are visible, padded below; the rest is history. */
  function SplitRows(rows: seq<Row>, n: nat, height: nat): (s: Split)
    requires HasWidth(rows, n)
    ensures |s.visible| == height && HasWidth(s.visible, n) && HasWidth(s.history, n)
  {
    var content := TrimRows(rows);
    if |content| <= height then Split([], content + BlankRows(height - |content|, n))
    else Split(content[..|content| - height], content[|content| - height..])
  }

  // -------------------------------------------------------------------------
  // The cursor
  // -------------------------------------------------------------------------

  /** The line a row belongs to, counting row starts after the first as new lines unless
      the row before is soft-wrapped. */
  function LineOf(rows: seq<Row>, row: nat): nat
    requires row < |rows|
  {
    if row == 0 then 0
    else LineOf(rows, row - 1) + (if rows[row - 1].softWrapped then 0 else 1)
  }

  /** The offset of a row's first cell within its logical line. */
  function RowOffset(rows: seq<Row>, row: nat): nat
    requires row < |rows|
  {
    if row > 0 && rows[row - 1].softWrapped then RowOffset(rows, row - 1) + |rows[row - 1].cells| else 0
  }

  /** Where each line starts among the reflowed rows. */
  function LineStart(lines: seq<seq<Cell>>, n: nat, line: nat): nat
    requires n > 0 && line <= |lines|
  {
    |RewrapAll(lines[..line], n)|
  }

  /** Walk forward from `row` until the offset falls inside a row or the line ends. */
  function Walk(rows: seq<Row>, row: nat, remaining: nat): (r: (nat, nat))
    ensures rows != [] ==> r.0 < |rows|
    decreases |rows| - row
  {
    if row >= |rows| then
      (SaturatingSub(|rows|, 1), if rows == [] then 0 else SaturatingSub(|rows[|rows| - 1].cells|, 1))
    else
      var len := |rows[row].cells|;
      if remaining < len then (row, remaining)
      else if !rows[row].softWrapped then (row, Min(SaturatingSub(len, 1), remaining - len))
      else Walk(rows, row + 1, remaining - len)
  }

  /** The reflowed position of the cursor. */
  function CursorTarget(rows: seq<Row>, row: nat, col: nat, n: nat): (nat, nat)
    requires row < |rows| && n > 0
  {
    var lines := TrimAll(Collect(rows, [], false));
    var reflowed := RewrapAll(lines, n);
    var line := LineOf(rows, row);
    Walk(reflowed, if line < |lines| then LineStart(lines, n, line) else SaturatingSub(|reflowed|, 1),
         RowOffset(rows, row) + col)
  }

  datatype Screen = Screen(history: seq<Row>, visible: seq<Row>, cursorRow: nat, cursorCol: nat)

  /** The whole reflow of rows read oldest first, the last of them on screen; `row` is the
      cursor's row among them. */
  function ReflowScreen(rows: seq<Row>, row: nat, col: nat, n: nat, height: nat): (r: Screen)
    requires row < |rows| && n > 0 && height > 0
    ensures |r.visible| == height && HasWidth(r.visible, n) && r.cursorRow < height && r.cursorCol < n
    ensures HasWidth(r.history, n)
  {
    var split := SplitRows(Reflowed(rows, n), n, height);
    var (targetRow, targetCol) := CursorTarget(rows, row, col, n);
    var dropped := |split.history|;
    if targetRow >= dropped then
      Screen(split.history, split.visible, Min(targetRow - dropped, height - 1), Min(targetCol, n - 1))
    else
      Screen(split.history, split.visible, 0, 0)
  }
}
