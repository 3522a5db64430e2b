/** Excursions: leaving a width and coming back to it, and the screens that survive it. */
module Excursions {
  import opened Common
  import opened Cells
  import opened Grids
  import opened GridProperties
  import R = Reflow
  import RC = ReflowCursor
  import RT = ReflowText
  import S = Scrollback

  /** The history a reflow leaves when it sends these rows there. */
  function NewHistory(g: Grid, rows: seq<Row>): S.History {
    S.PushAll(S.Clear(g.history), rows)
  }

  /** Leaving a width and coming back is not the identity: it reflows the tape at its own
      width. (A resize that keeps the width does not.) */
  lemma ExcursionReflows(g: Grid, cols1: nat, rows1: nat, rows2: nat)
    requires g.Sized() && NarrowTape(g) && g.alternate.None?
    requires cols1 > 0 && rows1 > 0 && rows2 > 0 && cols1 != g.cols
    requires |HistoryAfter(g, cols1, rows1)| <= g.history.maxLines
    ensures var back := Resize(Resize(g, cols1, rows1), g.cols, rows2);
            var s := R.SplitRows(R.Reflowed(Tape(g), g.cols), g.cols, rows2);
            back.visible == s.visible && back.history == NewHistory(g, s.history)
  {
    hide R.SplitRows, R.Reflowed, R.CursorTarget, S.PushAll, RT.Text, RT.NarrowRows, Reverse;
    ReflowTape(g, cols1, rows1);
    RT.ReflowPathIndependence(Tape(g), cols1, rows1, g.cols, rows2);
    PushAllKeepsMax(S.Clear(g.history), HistoryAfter(g, cols1, rows1));
  }

  /** But it settles: a second excursion restores what the first one left, whatever widths the
      two go through. */
  lemma ExcursionsSettle(g: Grid, cols1: nat, cols2: nat, rows1: nat, rows2: nat)
    requires g.Sized() && NarrowTape(g) && g.alternate.None?
    requires cols1 > 0 && cols2 > 0 && rows1 > 0 && rows2 > 0 && cols1 != g.cols && cols2 != g.cols
    requires |HistoryAfter(g, cols1, rows1)| <= g.history.maxLines
    requires |HistoryAfter(g, g.cols, g.rows)| <= g.history.maxLines
    requires var once := Resize(Resize(g, cols1, rows1), g.cols, g.rows);
             |HistoryAfter(once, cols2, rows2)| <= g.history.maxLines
    ensures var once := Resize(Resize(g, cols1, rows1), g.cols, g.rows);
            var twice := Resize(Resize(once, cols2, rows2), g.cols, g.rows);
            twice.visible == once.visible && twice.history == once.history
  {
    hide R.SplitRows, R.Reflowed, R.CursorTarget, S.PushAll, RT.Text, RT.NarrowRows, Reverse;
    var mid := Resize(g, cols1, rows1);
    var once := Resize(mid, g.cols, g.rows);
    ReflowTape(g, cols1, rows1);
    RT.TextDeterminesReflow(Tape(mid), Tape(g), g.cols, g.rows);
    PushAllKeepsMax(S.Clear(g.history), HistoryAfter(g, cols1, rows1));
    ReflowTape(mid, g.cols, g.rows);
    PushAllKeepsMax(S.Clear(mid.history), HistoryAfter(mid, g.cols, g.rows));
    ExcursionReflows(g, cols1, rows1, g.rows);
    ExcursionReflows(once, cols2, rows2, g.rows);
    RT.TextDeterminesReflow(Tape(once), Tape(g), g.cols, g.rows);
  }

  // -------------------------------------------------------------------------
  // Rows that reflow leaves alone
  // -------------------------------------------------------------------------

  /** The row has the screen's width. A soft-wrapped row is followed by one that shows
      something or is itself soft-wrapped, so that its line reaches past it; behind the text of
      any other row there are only plain blanks. */
  predicate SettledRow(rows: seq<Row>, i: nat, n: nat)
    requires i < |rows|
  {
    && |rows[i].cells| == n
    && if rows[i].softWrapped then i + 1 < |rows| && (rows[i + 1].softWrapped || R.Trim(rows[i + 1].cells) != [])
       else rows[i].cells == R.Pad(R.Trim(rows[i].cells), n)
  }

  predicate SettledRows(rows: seq<Row>, n: nat) {
    forall i :: 0 <= i < |rows| ==> SettledRow(rows, i, n)
  }

  /** What can be read off the screen: every row is settled, and the history holds exactly the
      rows that do not fit the screen, trailing blank rows not counted. */
  predicate Settled(g: Grid) {
    && SettledRows(Tape(g), g.cols)
    && |g.history.rows| == SaturatingSub(|R.TrimRows(Tape(g))|, g.rows)
  }

  lemma {:induction false} TrimBehind(a: seq<Cell>, b: seq<Cell>)
    requires R.Trim(b) != []
    ensures R.Trim(a + b) == a + R.Trim(b)
  {
    hide R.IsBlank;
    var n := |b| - 1;
    assert (a + b)[..|a + b| - 1] == a + b[..n];
    if R.IsBlank(b[n]) {
      TrimBehind(a, b[..n]);
    }
  }

  lemma SettledRest(rows: seq<Row>, n: nat)
    requires SettledRows(rows, n) && rows != []
    ensures SettledRows(rows[1..], n)
  {
    forall i | 0 <= i < |rows| - 1 ensures SettledRow(rows[1..], i, n) {
      assert SettledRow(rows, i + 1, n);
    }
  }

  lemma {:induction false} SettledSuffix(rows: seq<Row>, d: nat, n: nat)
    requires SettledRows(rows, n) && d <= |rows|
    ensures SettledRows(rows[d..], n)
  {
    forall i | 0 <= i < |rows| - d ensures SettledRow(rows[d..], i, n) {
      assert SettledRow(rows, d + i, n);
    }
  }

  lemma SettledConcat(a: seq<Row>, b: seq<Row>, n: nat)
    requires SettledRows(a, n) && SettledRows(b, n)
    ensures SettledRows(a + b, n)
  {
    forall i | 0 <= i < |a + b| ensures SettledRow(a + b, i, n) {
      if i < |a| { assert SettledRow(a, i, n); } else { assert SettledRow(b, i - |a|, n); }
    }
  }

  lemma SettledBlanks(k: nat, n: nat)
    ensures SettledRows(BlankRows(k, n), n)
  {
    RT.TrimIgnoresBlanks([], n);
    assert [] + Repeat(BLANK, n) == Repeat(BLANK, n);
  }

  /** The first line of settled rows shows something if its first row says so. */
  lemma {:induction false} FirstLineShows(rows: seq<Row>, n: nat)
    requires SettledRows(rows, n) && rows != [] && (rows[0].softWrapped || R.Trim(rows[0].cells) != [])
    ensures R.Lines(rows) != [] && R.Trim(R.Lines(rows)[0]) != []
    decreases rows
  {
    hide R.Trim;
    if rows[0].softWrapped {
      assert SettledRow(rows, 0, n);
      SettledRest(rows, n);
      FirstLineShows(rows[1..], n);
      TrimBehind(rows[0].cells, R.Lines(rows[1..])[0]);
    }
  }

  /** Re-wrapping settled rows gives the same rows. */
  lemma {:induction false} SettledRowsStay(rows: seq<Row>, n: nat)
    requires n > 0 && SettledRows(rows, n) && RT.NarrowRows(rows)
    ensures R.RewrapAll(R.TrimAll(R.Lines(rows)), n) == rows
    decreases rows
  {
    hide R.Trim, R.Rewrap, R.Pad, SettledRows;
    if rows != [] {
      var row, rest := rows[0], rows[1..];
      SettledHead(rows, n);
      SettledRest(rows, n);
      NarrowRest(rows);
      SettledRowsStay(rest, n);
      var lines := R.TrimAll(R.Lines(rest));
      assert rows == [row] + rest;
      if row.softWrapped {
        FirstLineShows(rest, n);
        var line := R.Lines(rest)[0];
        TrimBehind(row.cells, line);
        assert R.TrimAll(R.Lines(rows)) == [row.cells + R.Trim(line)] + lines[1..];
        NarrowRowsHaveNarrowLine(rest);
        FullRowFirst(row, R.Trim(line), n);
        assert lines == [R.Trim(line)] + lines[1..];
        FirstRewrapped(row.cells + R.Trim(line), lines[1..], n);
        FirstRewrapped(R.Trim(line), lines[1..], n);
        assert [row] + R.Rewrap(R.Trim(line), n) + R.RewrapAll(lines[1..], n)
            == [row] + (R.Rewrap(R.Trim(line), n) + R.RewrapAll(lines[1..], n));
      } else {
        assert R.TrimAll(R.Lines(rows)) == [R.Trim(row.cells)] + lines;
        NarrowTrim(row.cells);
        RT.RewrapLast(R.Trim(row.cells), n);
        FirstRewrapped(R.Trim(row.cells), lines, n);
      }
    }
  }

  lemma SettledHead(rows: seq<Row>, n: nat)
    requires SettledRows(rows, n) && rows != []
    ensures SettledRow(rows, 0, n)
  {
  }

  lemma NarrowRest(rows: seq<Row>)
    requires RT.NarrowRows(rows) && rows != []
    ensures RT.NarrowRows(rows[1..]) && AllNarrow(rows[0].cells)
  {
  }

  lemma NarrowTrim(cells: seq<Cell>)
    requires AllNarrow(cells)
    ensures AllNarrow(R.Trim(cells)) && |R.Trim(cells)| <= |cells|
  {
    hide R.Trim;
  }

  lemma NarrowRowsHaveNarrowLine(rows: seq<Row>)
    requires RT.NarrowRows(rows) && rows != []
    ensures AllNarrow(R.Trim(R.Lines(rows)[0]))
  {
    hide R.Trim, R.Lines;
    RT.NarrowRowsGiveNarrowLines(rows);
    NarrowTrim(R.Lines(rows)[0]);
  }

  lemma FullRowFirst(row: Row, line: seq<Cell>, n: nat)
    requires n > 0 && row.softWrapped && |row.cells| == n && AllNarrow(row.cells) && AllNarrow(line) && line != []
    ensures R.Rewrap(row.cells + line, n) == [row] + R.Rewrap(line, n)
  {
    hide R.Rewrap;
    RT.RewrapFirst(row.cells + line, n);
    assert (row.cells + line)[..n] == row.cells && (row.cells + line)[n..] == line;
  }

  lemma FirstRewrapped(line: seq<Cell>, rest: seq<seq<Cell>>, n: nat)
    requires n > 0
    ensures R.RewrapAll([line] + rest, n) == R.Rewrap(line, n) + R.RewrapAll(rest, n)
  {
    hide R.Rewrap, R.RewrapAll;
    RT.RewrapAllConcat([line], rest, n);
    RT.RewrapAllOne(line, n);
  }

  /** The rows of a trimmed line are settled. */
  lemma {:induction false} RewrapSettles(line: seq<Cell>, n: nat)
    requires n > 0 && AllNarrow(line) && R.Trim(line) == line
    ensures SettledRows(R.Rewrap(line, n), n)
    ensures line != [] ==> var first := R.Rewrap(line, n)[0]; first.softWrapped || R.Trim(first.cells) != []
    decreases |line|
  {
    hide R.Rewrap, R.Trim, AllNarrow;
    if |line| <= n {
      RT.RewrapLast(line, n);
      RT.TrimIgnoresBlanks(line, n - |line|);
    } else {
      RT.RewrapFirst(line, n);
      RT.TrimmedSuffix(line, n);
      NarrowSuffix(line, n);
      RewrapSettles(line[n..], n);
      SettledCons(Row(line[..n], true), R.Rewrap(line[n..], n), n);
    }
  }

  lemma NarrowSuffix(line: seq<Cell>, n: nat)
    requires AllNarrow(line) && n <= |line|
    ensures AllNarrow(line[n..])
  {
  }

  lemma SettledCons(row: Row, rest: seq<Row>, n: nat)
    requires SettledRows(rest, n) && rest != [] && |row.cells| == n && row.softWrapped
    requires rest[0].softWrapped || R.Trim(rest[0].cells) != []
    ensures SettledRows([row] + rest, n)
  {
    hide R.Trim;
    forall i | 0 <= i < |rest| + 1 ensures SettledRow([row] + rest, i, n) {
      if i > 0 { assert SettledRow(rest, i - 1, n); }
    }
  }

  lemma {:induction false} RewrapAllSettles(lines: seq<seq<Cell>>, n: nat)
    requires n > 0 && RT.NarrowLines(lines) && RT.Trimmed(lines)
    ensures SettledRows(R.RewrapAll(lines, n), n)
  {
    hide R.Rewrap, R.Trim, AllNarrow;
    if lines == [] {
      RT.RewrapAllOfNone(n);
    } else {
      assert AllNarrow(lines[0]) && R.Trim(lines[0]) == lines[0];
      RewrapSettles(lines[0], n);
      RewrapAllSettles(lines[1..], n);
      assert lines == [lines[0]] + lines[1..];
      FirstRewrapped(lines[0], lines[1..], n);
      SettledConcat(R.Rewrap(lines[0], n), R.RewrapAll(lines[1..], n), n);
    }
  }

  // -------------------------------------------------------------------------
  // Screens that survive
  // -------------------------------------------------------------------------

  /** The rows a reflow at the screen's own width leaves, history and screen together. */
  function Reflown(g: Grid): seq<Row>
    requires g.Sized()
  {
    var content := R.TrimRows(R.Reflowed(Tape(g), g.cols));
    content + BlankRows(SaturatingSub(g.rows, |content|), g.cols)
  }

  lemma ReflownSettled(g: Grid)
    requires g.Sized() && NarrowTape(g)
    ensures SettledRows(Reflown(g), g.cols)
  {
    hide R.TrimRows, R.Reflowed, R.RewrapAll, Tape, RT.NarrowRows, RT.Text, SettledRows, BlankRows;
    var content := R.TrimRows(R.Reflowed(Tape(g), g.cols));
    RT.ReflowedContent(Tape(g), g.cols);
    RT.TextIsTrimmed(Tape(g));
    RewrapAllSettles(RT.Text(Tape(g)), g.cols);
    SettledBlanks(SaturatingSub(g.rows, |content|), g.cols);
    SettledConcat(content, BlankRows(SaturatingSub(g.rows, |content|), g.cols), g.cols);
  }

  lemma SettledTapeStays(g: Grid)
    requires g.Sized() && NarrowTape(g) && SettledRows(Tape(g), g.cols)
    ensures R.Reflowed(Tape(g), g.cols) == Tape(g)
  {
    hide R.TrimRows, R.Reflowed, R.RewrapAll, RT.NarrowRows, SettledRows, R.Lines;
    RC.ReflowedLines(Tape(g), g.cols);
    SettledRowsStay(Tape(g), g.cols);
  }

  lemma {:induction false} BlankRowsBehind(rows: seq<Row>, n: nat)
    requires SettledRows(rows, n)
    ensures var content := R.TrimRows(rows); rows == content + BlankRows(|rows| - |content|, n)
  {
    hide R.TrimRows, R.Trim;
    var content := R.TrimRows(rows);
    forall i | |content| <= i < |rows| ensures rows[i] == BlankRow(n) {
      assert R.IsBlankRow(rows[i]) && SettledRow(rows, i, n);
      BlankRowIsPlain(rows[i], n);
    }
  }

  lemma BlankRowIsPlain(row: Row, n: nat)
    requires R.IsBlankRow(row) && |row.cells| == n && row.cells == R.Pad(R.Trim(row.cells), n)
    ensures row == BlankRow(n)
  {
    var t := R.Trim(row.cells);
    assert row.cells[..|t|] == t;
  }

  /** Coming back shows the screen and the history as they were exactly when they were
      settled. */
  lemma ExcursionIsIdentityIff(g: Grid, cols: nat, rows: nat)
    requires g.Sized() && NarrowTape(g) && g.alternate.None? && cols > 0 && rows > 0 && cols != g.cols
    requires |HistoryAfter(g, cols, rows)| <= g.history.maxLines
    ensures var back := Resize(Resize(g, cols, rows), g.cols, g.rows);
            back.visible == g.visible && back.history == g.history <==> Settled(g)
  {
    hide R.SplitRows, R.Reflowed, R.TrimRows, S.PushAll, RT.NarrowRows, SettledRows, Resize, Reverse, BlankRows,
      HasWidth;
    var back := Resize(Resize(g, cols, rows), g.cols, g.rows);
    ExcursionReflows(g, cols, rows, g.rows);
    var s := R.SplitRows(R.Reflowed(Tape(g), g.cols), g.cols, g.rows);
    RT.SplitIsPadding(R.Reflowed(Tape(g), g.cols), g.cols, g.rows);
    HistoryKeepsLast(g, s.history);
    SameScreenIff(back, g);
    if Tape(back) == Tape(g) {
      SameTapeIsSettled(g, s.history, s.visible);
    }
    if Settled(g) {
      SettledIsSameTape(g, s.history, s.visible);
    }
  }

  /** The tape of a new history is what was sent there, as far as there is room. */
  lemma HistoryKeepsLast(g: Grid, rows: seq<Row>)
    requires g.Sized()
    ensures S.Tape(NewHistory(g, rows)) == S.Last(rows, g.history.maxLines)
    ensures NewHistory(g, rows).maxLines == g.history.maxLines
  {
    hide S.PushAll;
    S.PushAllExtendsTape(S.Clear(g.history), rows);
    assert S.Tape(S.Clear(g.history)) + rows == rows;
    PushAllKeepsMax(S.Clear(g.history), rows);
  }

  lemma SplitSizes(rows: seq<Row>, n: nat, height: nat)
    requires HasWidth(rows, n)
    ensures |R.SplitRows(rows, n, height).history| == SaturatingSub(|R.TrimRows(rows)|, height)
  {
    hide R.TrimRows;
  }

  /** If the reflown tape, or its end, is the tape, the screen was settled. */
  lemma SameTapeIsSettled(g: Grid, history: seq<Row>, visible: seq<Row>)
    requires g.Sized() && NarrowTape(g) && g.alternate.None?
    requires R.SplitRows(R.Reflowed(Tape(g), g.cols), g.cols, g.rows) == R.Split(history, visible)
    requires history + visible == Reflown(g)
    requires S.Last(history, g.history.maxLines) + visible == Tape(g)
    ensures Settled(g)
  {
    hide R.Reflowed, R.TrimRows, RT.NarrowRows, SettledRows, Reflown, Reverse, R.SplitRows;
    var d := SaturatingSub(|history|, g.history.maxLines);
    assert Tape(g) == (history + visible)[d..];
    ReflownSettled(g);
    SettledSuffix(Reflown(g), d, g.cols);
    SettledTapeStays(g);
    SplitSizes(R.Reflowed(Tape(g), g.cols), g.cols, g.rows);
    assert |Tape(g)| == |g.history.rows| + g.rows;
    assert |visible| == g.rows;
  }

  /** A settled tape is its own reflow. */
  lemma SettledIsSameTape(g: Grid, history: seq<Row>, visible: seq<Row>)
    requires g.Sized() && NarrowTape(g) && g.alternate.None? && Settled(g)
    requires R.SplitRows(R.Reflowed(Tape(g), g.cols), g.cols, g.rows) == R.Split(history, visible)
    requires history + visible == Reflown(g)
    ensures S.Last(history, g.history.maxLines) + visible == Tape(g)
  {
    hide R.Reflowed, R.TrimRows, RT.NarrowRows, SettledRows, Reverse, R.SplitRows, BlankRows;
    SettledTapeStays(g);
    BlankRowsBehind(Tape(g), g.cols);
    SplitSizes(R.Reflowed(Tape(g), g.cols), g.cols, g.rows);
    assert |Tape(g)| == |g.history.rows| + g.rows;
  }
}
