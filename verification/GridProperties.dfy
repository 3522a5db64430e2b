/** What scrolling does to the tape of history and screen, and what resizing keeps. */
module GridProperties {
  import opened Common
  import opened Cells
  import opened Grids
  import S = Scrollback
  import R = Reflow
  import RT = ReflowText
  import RC = ReflowCursor

  // -------------------------------------------------------------------------
  // Scrolling
  // -------------------------------------------------------------------------

  lemma LastIsDrop<T>(s: seq<T>, n: nat)
    ensures S.Last(s, n) == s[SaturatingSub(|s|, n)..]
  {
  }

  /** A full-screen scroll of the primary screen appends blank rows to the tape and forgets
      only the oldest rows beyond the history's capacity. */
  lemma ScrollUpExtendsTape(g: Grid, count: nat)
    requires g.Sized() && g.alternate.None? && g.top == 0 && g.bottom == g.rows - 1
    ensures var k := Min(count, g.rows);
            var forgotten := SaturatingSub(|g.history.rows| + k, g.history.maxLines);
            Tape(ScrollUpIn(g, count, g.top, g.bottom)) == (Tape(g) + BlankRows(k, g.cols))[forgotten..]
  {
    hide S.PushAll, S.Push, S.Last, Reverse, BlankRows, HasWidth;
    var k := Min(count, g.rows);
    S.PushAllExtendsTape(g.history, g.visible[..k]);
    var past, max := S.Tape(g.history), g.history.maxLines;
    assert g.visible[0..0 + k] == g.visible[..k];
    WholeScreenScrolls(g, k);
    Forgets(past, g.visible, BlankRows(k, g.cols), k, max);
  }

  lemma WholeScreenScrolls(g: Grid, k: nat)
    requires g.Sized() && k <= g.rows
    ensures ScrolledUp(g.visible, g.cols, k, 0, g.rows - 1) == g.visible[k..] + BlankRows(k, g.cols)
  {
    hide HasWidth;
  }

  /** Moving the first `k` rows of a screen behind a bounded past. */
  lemma Forgets(past: seq<Row>, screen: seq<Row>, blanks: seq<Row>, k: nat, max: nat)
    requires k <= |screen| && |past| <= max
    ensures S.Last(past + screen[..k], max) + (screen[k..] + blanks)
         == (past + screen + blanks)[SaturatingSub(|past| + k, max)..]
  {
    LastIsDrop(past + screen[..k], max);
    DropFront(past + screen[..k], screen[k..] + blanks, SaturatingSub(|past| + k, max));
    Rejoin(past, screen, blanks, k);
  }

  lemma DropFront<T>(a: seq<T>, b: seq<T>, d: nat)
    requires d <= |a|
    ensures a[d..] + b == (a + b)[d..]
  {
  }

  lemma Rejoin<T>(past: seq<T>, screen: seq<T>, blanks: seq<T>, k: nat)
    requires k <= |screen|
    ensures past + screen[..k] + (screen[k..] + blanks) == past + screen + blanks
  {
    assert screen[..k] + screen[k..] == screen;
    assert past + screen[..k] + (screen[k..] + blanks) == past + (screen[..k] + screen[k..]) + blanks;
  }

  lemma ScrolledUpAt(rows: seq<Row>, cols: nat, k: nat, top: nat, bottom: nat, i: nat)
    requires top <= bottom < |rows| && k <= bottom - top + 1 && HasWidth(rows, cols) && i < |rows|
    ensures ScrolledUp(rows, cols, k, top, bottom)[i]
         == if !(top <= i <= bottom) then rows[i] else if i + k <= bottom then rows[i + k] else BlankRow(cols)
  {
    hide HasWidth, BlankRow;
  }

  lemma ScrolledDownAt(rows: seq<Row>, cols: nat, k: nat, top: nat, bottom: nat, i: nat)
    requires top <= bottom < |rows| && k <= bottom - top + 1 && HasWidth(rows, cols) && i < |rows|
    ensures ScrolledDown(rows, cols, k, top, bottom)[i]
         == if !(top <= i <= bottom) then rows[i] else if top + k <= i then rows[i - k] else BlankRow(cols)
  {
    hide HasWidth, BlankRow;
  }

  lemma ScrolledUpTwice(rows: seq<Row>, cols: nat, j: nat, k: nat, top: nat, bottom: nat)
    requires top <= bottom < |rows| && HasWidth(rows, cols)
    requires j <= bottom - top + 1 && k <= bottom - top + 1
    ensures ScrolledUp(ScrolledUp(rows, cols, j, top, bottom), cols, k, top, bottom)
         == ScrolledUp(rows, cols, Min(j + k, bottom - top + 1), top, bottom)
  {
    hide ScrolledUp, HasWidth, BlankRow;
    var once := ScrolledUp(rows, cols, j, top, bottom);
    var m := Min(j + k, bottom - top + 1);
    forall i | 0 <= i < |rows|
      ensures ScrolledUp(once, cols, k, top, bottom)[i] == ScrolledUp(rows, cols, m, top, bottom)[i]
    {
      ScrolledUpAt(once, cols, k, top, bottom, i);
      ScrolledUpAt(rows, cols, m, top, bottom, i);
      ScrolledUpAt(rows, cols, j, top, bottom, if top <= i && i + k <= bottom then i + k else i);
    }
  }

  lemma ScrolledDownTwice(rows: seq<Row>, cols: nat, j: nat, k: nat, top: nat, bottom: nat)
    requires top <= bottom < |rows| && HasWidth(rows, cols)
    requires j <= bottom - top + 1 && k <= bottom - top + 1
    ensures ScrolledDown(ScrolledDown(rows, cols, j, top, bottom), cols, k, top, bottom)
         == ScrolledDown(rows, cols, Min(j + k, bottom - top + 1), top, bottom)
  {
    hide ScrolledDown, HasWidth, BlankRow;
    var once := ScrolledDown(rows, cols, j, top, bottom);
    var m := Min(j + k, bottom - top + 1);
    forall i | 0 <= i < |rows|
      ensures ScrolledDown(once, cols, k, top, bottom)[i] == ScrolledDown(rows, cols, m, top, bottom)[i]
    {
      ScrolledDownAt(once, cols, k, top, bottom, i);
      ScrolledDownAt(rows, cols, m, top, bottom, i);
      ScrolledDownAt(rows, cols, j, top, bottom, if top + k <= i <= bottom then i - k else i);
    }
  }

  lemma {:induction false} PushAllConcat(h: S.History, a: seq<Row>, b: seq<Row>)
    ensures S.PushAll(S.PushAll(h, a), b) == S.PushAll(h, a + b)
    decreases a
  {
    hide S.Push;
    if a == [] {
      assert a + b == b;
    } else {
      assert (a + b)[1..] == a[1..] + b;
      PushAllConcat(S.Push(h, a[0]), a[1..], b);
    }
  }

  /** Scrolling by `a` and then by `b` is scrolling by `a + b`, in both directions and for every
      region; the history, too, is the same unless the whole region has gone by. */
  lemma ScrollsAdd(g: Grid, a: nat, b: nat)
    requires g.Sized()
    ensures ScrollDownIn(ScrollDownIn(g, a, g.top, g.bottom), b, g.top, g.bottom)
         == ScrollDownIn(g, a + b, g.top, g.bottom)
    ensures var twice := ScrollUpIn(ScrollUpIn(g, a, g.top, g.bottom), b, g.top, g.bottom);
            var once := ScrollUpIn(g, a + b, g.top, g.bottom);
            && twice == once.(history := twice.history)
            && (a + b <= g.bottom - g.top + 1 || !Captures(g, g.top, g.bottom) ==> twice == once)
  {
    hide S.PushAll, ScrolledUp, ScrolledDown, HasWidth;
    var height := g.bottom - g.top + 1;
    ScrolledUpTwice(g.visible, g.cols, Min(a, height), Min(b, height), g.top, g.bottom);
    ScrolledDownTwice(g.visible, g.cols, Min(a, height), Min(b, height), g.top, g.bottom);
    if a + b <= height && Captures(g, g.top, g.bottom) {
      PushAllConcat(g.history, g.visible[..a], g.visible[a..a + b]);
      LeavingRows(g, a, b);
    }
  }

  /** The rows that leave the top of the whole screen by two scrolls. */
  lemma LeavingRows(g: Grid, a: nat, b: nat)
    requires g.Sized() && a + b <= g.rows
    ensures var screen := ScrolledUp(g.visible, g.cols, a, 0, g.rows - 1);
            screen[..b] == g.visible[a..a + b] && g.visible[..a] + screen[..b] == g.visible[..a + b]
  {
    hide HasWidth;
  }

  /** A row after scrolling up and back down: blank if it had left the region. */
  lemma UpThenDown(rows: seq<Row>, cols: nat, k: nat, top: nat, bottom: nat, i: nat)
    requires top <= bottom < |rows| && k <= bottom - top + 1 && HasWidth(rows, cols) && i < |rows|
    ensures ScrolledDown(ScrolledUp(rows, cols, k, top, bottom), cols, k, top, bottom)[i]
         == if top <= i < top + k then BlankRow(cols) else rows[i]
  {
    hide ScrolledUp, ScrolledDown, HasWidth, BlankRow;
    ScrolledDownAt(ScrolledUp(rows, cols, k, top, bottom), cols, k, top, bottom, i);
    ScrolledUpAt(rows, cols, k, top, bottom, if top + k <= i <= bottom then i - k else i);
  }

  lemma DownThenUp(rows: seq<Row>, cols: nat, k: nat, top: nat, bottom: nat, i: nat)
    requires top <= bottom < |rows| && k <= bottom - top + 1 && HasWidth(rows, cols) && i < |rows|
    ensures ScrolledUp(ScrolledDown(rows, cols, k, top, bottom), cols, k, top, bottom)[i]
         == if bottom - k < i <= bottom then BlankRow(cols) else rows[i]
  {
    hide ScrolledUp, ScrolledDown, HasWidth, BlankRow;
    ScrolledUpAt(ScrolledDown(rows, cols, k, top, bottom), cols, k, top, bottom, i);
    ScrolledDownAt(rows, cols, k, top, bottom, if top <= i && i + k <= bottom then i + k else i);
  }

  /** Scrolling down undoes scrolling up exactly when only blank rows left the region, and the
      other way round. Only a scroll of the whole primary screen feeds the history. */
  lemma ScrollUndoneIff(g: Grid, count: nat)
    requires g.Sized()
    ensures var k := Min(count, g.bottom - g.top + 1);
            var up, down := ScrollUpIn(g, count, g.top, g.bottom), ScrollDownIn(g, count, g.top, g.bottom);
            && (ScrollDownIn(up, count, g.top, g.bottom).visible == g.visible
                <==> forall i :: g.top <= i < g.top + k ==> g.visible[i] == BlankRow(g.cols))
            && (ScrollUpIn(down, count, g.top, g.bottom).visible == g.visible
                <==> forall i :: g.bottom - k < i <= g.bottom ==> g.visible[i] == BlankRow(g.cols))
            && down.history == g.history && (!Captures(g, g.top, g.bottom) ==> up.history == g.history)
  {
    hide ScrolledUp, ScrolledDown, BlankRow, HasWidth, S.PushAll;
    var k := Min(count, g.bottom - g.top + 1);
    forall i | 0 <= i < g.rows
      ensures ScrolledDown(ScrolledUp(g.visible, g.cols, k, g.top, g.bottom), g.cols, k, g.top, g.bottom)[i]
           == if g.top <= i < g.top + k then BlankRow(g.cols) else g.visible[i]
      ensures ScrolledUp(ScrolledDown(g.visible, g.cols, k, g.top, g.bottom), g.cols, k, g.top, g.bottom)[i]
           == if g.bottom - k < i <= g.bottom then BlankRow(g.cols) else g.visible[i]
    {
      UpThenDown(g.visible, g.cols, k, g.top, g.bottom, i);
      DownThenUp(g.visible, g.cols, k, g.top, g.bottom, i);
    }
  }

  // -------------------------------------------------------------------------
  // Reflow
  // -------------------------------------------------------------------------

  /** Every cell of the tape is narrow and no row is empty. */
  predicate NarrowTape(g: Grid) {
    RT.NarrowRows(Tape(g))
  }

  /** The reflowed rows that a resize sends to the history. */
  function HistoryAfter(g: Grid, cols: nat, rows: nat): seq<Row>
    requires g.Sized() && cols > 0
  {
    R.SplitRows(R.Reflowed(Tape(g), cols), cols, rows).history
  }

  lemma {:induction false} PushAllToEmpty(maxLines: nat, rows: seq<Row>)
    requires |rows| <= maxLines
    ensures S.Tape(S.PushAll(S.History([], maxLines), rows)) == rows
  {
    S.PushAllExtendsTape(S.History([], maxLines), rows);
    assert S.Tape(S.History([], maxLines)) + rows == rows;
  }

  /** Without eviction the tape after a reflow is the split, and it shows the same text. */
  lemma ReflowTape(g: Grid, cols: nat, rows: nat)
    requires g.Sized() && NarrowTape(g) && g.alternate.None? && cols > 0 && rows > 0 && cols != g.cols
    requires |HistoryAfter(g, cols, rows)| <= g.history.maxLines
    ensures var s := R.SplitRows(R.Reflowed(Tape(g), cols), cols, rows);
            Tape(Resize(g, cols, rows)) == s.history + s.visible
    ensures NarrowTape(Resize(g, cols, rows))
    ensures RT.Text(Tape(Resize(g, cols, rows))) == RT.Text(Tape(g))
  {
    hide R.SplitRows, R.Reflowed, R.CursorTarget, S.PushAll, RT.Text, RT.NarrowRows, Reverse;
    PushAllToEmpty(g.history.maxLines, HistoryAfter(g, cols, rows));
    RT.ReflowKeepsText(Tape(g), cols, rows);
  }

  /** Resizing to one width and then to another gives the same screen and history, soft-wrap
      flags included, as resizing straight to the second. */
  lemma ResizePathIndependence(g: Grid, cols1: nat, rows1: nat, cols2: nat, rows2: nat)
    requires g.Sized() && NarrowTape(g) && g.alternate.None?
    requires cols1 > 0 && rows1 > 0 && cols2 > 0 && rows2 > 0
    requires cols1 != g.cols && cols2 != cols1 && cols2 != g.cols
    requires |HistoryAfter(g, cols1, rows1)| <= g.history.maxLines
    ensures var via, direct := Resize(Resize(g, cols1, rows1), cols2, rows2), Resize(g, cols2, rows2);
            via.visible == direct.visible && via.history == direct.history
  {
    hide R.SplitRows, R.Reflowed, R.CursorTarget, S.PushAll, RT.Text, RT.NarrowRows, Reverse;
    ReflowTape(g, cols1, rows1);
    RT.ReflowPathIndependence(Tape(g), cols1, rows1, cols2, rows2);
    PushAllKeepsMax(S.Clear(g.history), HistoryAfter(g, cols1, rows1));
  }

  lemma PushAllKeepsMax(h: S.History, rows: seq<Row>)
    ensures S.PushAll(h, rows).maxLines == h.maxLines
  {
  }

  lemma SameTapeSameScreen(a: Grid, b: Grid)
    requires a.Sized() && b.Sized() && a.rows == b.rows && Tape(a) == Tape(b)
    ensures a.visible == b.visible && a.history.rows == b.history.rows
  {
    var n := |a.history.rows|;
    assert |Tape(a)| == n + a.rows;
    assert a.visible == Tape(a)[n..] && b.visible == Tape(b)[n..];
    assert Reverse(a.history.rows) == Tape(a)[..n] && Reverse(b.history.rows) == Tape(b)[..n];
    forall i | 0 <= i < n ensures a.history.rows[i] == b.history.rows[i] {
      assert Reverse(a.history.rows)[n - 1 - i] == a.history.rows[i];
      assert Reverse(b.history.rows)[n - 1 - i] == b.history.rows[i];
    }
  }

  /** Screen and history are what the tape and the screen's height say. */
  lemma SameScreenIff(a: Grid, b: Grid)
    requires a.Sized() && b.Sized() && a.rows == b.rows
    ensures a.visible == b.visible && a.history.rows == b.history.rows <==> Tape(a) == Tape(b)
  {
    if Tape(a) == Tape(b) {
      SameTapeSameScreen(a, b);
    }
  }

  /** The cursor's row on the tape. */
  function TapeRow(g: Grid): nat {
    |g.history.rows| + g.cursor.row
  }

  /** If the cursor is within the text of its logical line and its reflowed row is still on
      the screen, the cell under it after the resize is the cell under it before. */
  lemma CursorStaysOnItsCell(g: Grid, cols: nat, rows: nat)
    requires g.Sized() && NarrowTape(g) && g.alternate.None? && cols > 0 && rows > 0 && cols != g.cols
    requires RC.WithinText(Tape(g), TapeRow(g), g.cursor.col)
    requires |HistoryAfter(g, cols, rows)| <= R.CursorTarget(Tape(g), TapeRow(g), g.cursor.col, cols).0
    ensures var r := Resize(g, cols, rows);
            r.visible[r.cursor.row].cells[r.cursor.col] == g.visible[g.cursor.row].cells[g.cursor.col]
  {
    hide R.SplitRows, R.Reflowed, R.CursorTarget, S.PushAll, RT.NarrowRows, RC.WithinText, Reverse;
    var tape := Tape(g);
    assert tape[TapeRow(g)] == g.visible[g.cursor.row];
    RC.CursorKeepsItsCell(tape, TapeRow(g), g.cursor.col, cols, rows);
  }

  lemma HeightResizeKeepsRows(g: Grid, rows: nat)
    requires g.Sized() && rows > 0
    ensures var r := Resize(g, g.cols, rows);
            && r.history == g.history && r.cols == g.cols && r.rows == rows
            && (forall i :: 0 <= i < rows ==> r.visible[i] == if i < g.rows then g.visible[i] else BlankRow(g.cols))
  {
    forall i | 0 <= i < g.rows ensures ResizeRow(g.visible[i], g.cols) == g.visible[i] {
      assert g.visible[i].cells[..g.cols] == g.visible[i].cells;
    }
  }

  /** A change of height cuts or pads the screen at the bottom, so coming back to the old
      height restores the screen exactly when the rows that were cut off are blank. */
  lemma HeightExcursionIff(g: Grid, rows: nat)
    requires g.Sized() && rows > 0
    ensures var back := Resize(Resize(g, g.cols, rows), g.cols, g.rows);
            && back.history == g.history
            && (back.visible == g.visible <==> forall i :: rows <= i < g.rows ==> g.visible[i] == BlankRow(g.cols))
  {
    hide Resize, BlankRow, HasWidth;
    HeightResizeKeepsRows(g, rows);
    HeightResizeKeepsRows(Resize(g, g.cols, rows), g.rows);
  }

  /** The same grid without a pending wrap. */
  function Unparked(g: Grid): Grid {
    g.(cursor := g.cursor.(wrapPending := false))
  }

  // -------------------------------------------------------------------------
  // What every resize does
  // -------------------------------------------------------------------------

  /** Tab stops that remain stay, and new columns get one in every eighth; the whole screen becomes
      the region; and modes, the saved cursor and the history's capacity are kept. */
  lemma ResizeSetting(g: Grid, cols: nat, rows: nat, col: nat)
    requires g.Sized() && cols > 0 && rows > 0 && col < cols
    ensures var r := Resize(g, cols, rows);
            && |r.tabs| == cols && r.tabs[col] == (if col < g.cols then g.tabs[col] else col % 8 == 0)
            && r.top == 0 && r.bottom == rows - 1
            && r.modes == g.modes && r.saved == g.saved && r.history.maxLines == g.history.maxLines
            && r.cursor.style == g.cursor.style && r.cursor.visible == g.cursor.visible
            && (r.alternate.Some? <==> g.alternate.Some?)
  {
    hide HasWidth, R.ReflowScreen, S.PushAll;
    PushAllKeepsMax(S.Clear(g.history), R.ReflowScreen(Tape(g), TapeRow(g), g.cursor.col, cols, rows).history);
  }

  /** The cell at a position of a screen that is cut or padded. */
  function CutOrPadded(screen: seq<Row>, row: nat, col: nat): Cell {
    if row < |screen| && col < |screen[row].cells| then screen[row].cells[col] else BLANK
  }

  /** On the alternate screen, and when the width stays, both screens are cut or padded on the right
      and at the bottom, and the cursors are moved no further than needed. */
  lemma BasicResizeCells(g: Grid, cols: nat, rows: nat, row: nat, col: nat)
    requires g.Sized() && (g.alternate.Some? || cols == g.cols) && cols > 0 && rows > 0 && row < rows && col < cols
    ensures |Resize(g, cols, rows).visible| == rows && |Resize(g, cols, rows).visible[row].cells| == cols
    ensures var r := Resize(g, cols, rows);
            && r.history == g.history && r.visible[row].cells[col] == CutOrPadded(g.visible, row, col)
            && r.cursor == g.cursor.(col := Min(g.cursor.col, cols - 1), row := Min(g.cursor.row, rows - 1))
    ensures g.alternate.Some? ==>
              var a, b := g.alternate.value, Resize(g, cols, rows).alternate.value;
              && |b.visible| == rows && |b.visible[row].cells| == cols
              && b.visible[row].cells[col] == CutOrPadded(a.visible, row, col)
              && b.cursor == a.cursor.(col := Min(a.cursor.col, cols - 1), row := Min(a.cursor.row, rows - 1))
              && b.top == Min(a.top, rows - 1) && b.bottom == Min(a.bottom, rows - 1)
  {
  }
}
