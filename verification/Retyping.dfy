/** Typing, resizing and typing on: when a terminal that is resized behind a text is the terminal
    that was given the text at the new size, cursor and all. */
module Retyping {
  import opened Common
  import opened Cells
  import opened Grids
  import opened GridProperties
  import opened ReflowCursor
  import opened Terminals
  import opened TerminalProperties
  import opened Typing
  import PP = ParserProperties
  import R = Reflow
  import RP = ReflowProperties
  import RT = ReflowText
  import S = Scrollback
  import Utf8

  // -------------------------------------------------------------------------
  // Where the cursor is behind a typed text
  // -------------------------------------------------------------------------

  lemma ShortSegment(s: seq<Cell>, n: nat)
    requires n > 0 && AllNarrow(s) && 0 < |s| <= n
    ensures R.LineSegments(s, n) == [s]
  {
    RT.NarrowSegments(s, n, []);
    assert [] + s == s;
  }

  /** The last segment of a text has as many cells as its last row. */
  lemma {:induction false} LastSegment(s: seq<Cell>, n: nat)
    requires n > 0 && AllNarrow(s) && s != []
    ensures var segments := R.LineSegments(s, n); |segments[|segments| - 1]| == LastLength(s, n)
    ensures |s| == (|R.LineSegments(s, n)| - 1) * n + LastLength(s, n)
    decreases |s|
  {
    hide R.LineSegments, AllNarrow;
    if |s| <= n {
      ShortSegment(s, n);
    } else {
      RT.SegmentsFirst(s, n);
      NarrowDrop(s, n);
      LastSegment(s[n..], n);
      OneRowMore(|R.LineSegments(s[n..], n)| - 1, n);
    }
  }

  lemma OneRowMore(k: int, n: nat)
    ensures (k + 1) * n == k * n + n
  {
  }

  /** A row of the first line of a tape begins behind the full rows above it. */
  lemma {:induction false} FirstLineOffset(rows: seq<Row>, row: nat, n: nat)
    requires row < |rows| && forall i :: 0 <= i < row ==> rows[i].softWrapped && |rows[i].cells| == n
    ensures R.LineOf(rows, row) == 0 && R.RowOffset(rows, row) == row * n
    decreases row
  {
    if row > 0 {
      FirstLineOffset(rows, row - 1, n);
      OneRowMore(row - 1, n);
    }
  }

  // -------------------------------------------------------------------------
  // Where reflow takes an offset
  // -------------------------------------------------------------------------

  /** The row and column that an offset into a line of `len` narrow cells is taken to: by whole rows
      up to the last one, and there, past its end, back by a row's width. */
  function Target(len: nat, n: nat, offset: nat): (r: (nat, nat))
    requires n > 0
    decreases len
  {
    if len <= n then (0, if offset < n then offset else Min(n - 1, offset - n))
    else if offset < n then (0, offset)
    else
      var (row, col) := Target(len - n, n, offset - n);
      (row + 1, col)
  }

  lemma {:induction false} WalkGoesToTarget(pre: seq<Row>, line: seq<Cell>, post: seq<Row>, n: nat, offset: nat)
    requires n > 0 && AllNarrow(line)
    ensures var (row, col) := Target(|line|, n, offset);
            R.Walk(pre + R.Rewrap(line, n) + post, |pre|, offset) == (|pre| + row, col)
    decreases |line|
  {
    hide R.Rewrap, AllNarrow;
    var rows := pre + R.Rewrap(line, n) + post;
    if |line| <= n {
      RT.RewrapLast(line, n);
      assert rows[|pre|] == Row(R.Pad(line, n), false);
    } else {
      RT.RewrapFirst(line, n);
      assert rows[|pre|] == Row(line[..n], true);
      if offset >= n {
        var pre' := pre + [Row(line[..n], true)];
        NarrowDrop(line, n);
        assert rows == pre' + R.Rewrap(line[n..], n) + post;
        WalkGoesToTarget(pre', line[n..], post, n, offset - n);
      }
    }
  }

  /** How many cells the last row of a line holds, and how many rows it takes. */
  function LastOf(len: nat, n: nat): nat
    requires n > 0
    decreases len
  {
    if len <= n then len else LastOf(len - n, n)
  }

  function RowsFor(len: nat, n: nat): nat
    requires n > 0
    decreases len
  {
    if len <= n then 1 else 1 + RowsFor(len - n, n)
  }

  /** An offset behind a line that needs no more rows for it, and the one before. */
  lemma {:induction false} TargetBehind(len: nat, longer: nat, n: nat)
    requires n > 0 && len <= longer && RowsFor(len, n) == RowsFor(longer, n) && longer > 0
    ensures var last := LastOf(longer, n);
            && 0 < last <= n
            && Target(len, n, longer) == (RowsFor(longer, n) - 1, if last < n then last else 0)
            && Target(len, n, longer - 1) == (RowsFor(longer, n) - 1, last - 1)
    decreases len
  {
    if len > n {
      TargetBehind(len - n, longer - n, n);
    }
  }

  lemma {:induction false} RowsOfLine(s: seq<Cell>, n: nat)
    requires n > 0 && AllNarrow(s)
    ensures |R.Rewrap(s, n)| == RowsFor(|s|, n)
    ensures s != [] ==> LastLength(s, n) == LastOf(|s|, n)
    decreases |s|
  {
    hide R.Rewrap, AllNarrow;
    if |s| <= n {
      RT.RewrapLast(s, n);
    } else {
      RT.RewrapFirst(s, n);
      NarrowDrop(s, n);
      RowsOfLine(s[n..], n);
    }
  }

  lemma {:induction false} FullRowIff(len: nat, n: nat)
    requires n > 0 && len > 0
    ensures LastOf(len, n) == n <==> len % n == 0
    decreases len
  {
    if len < n {
      SmallRemainder(len, n);
    } else if len == n {
      WholeRemainder(n);
    } else {
      FullRowIff(len - n, n);
      RemainderLess(len, n);
    }
  }

  lemma SmallRemainder(a: nat, n: nat)
    requires a < n
    ensures a % n == a
  {
  }

  lemma WholeRemainder(n: nat)
    requires n > 0
    ensures n % n == 0
  {
  }

  lemma AtLeastOnce(k: int, n: nat)
    requires k >= 1
    ensures k * n >= n
  {
    assert k * n == (k - 1) * n + n;
    assert (k - 1) * n >= 0;
  }

  /** A number has one quotient and one remainder. */
  lemma SameRemainder(p: int, r: nat, q: int, t: nat, n: nat)
    requires p * n + r == q * n + t && r < n && t < n
    ensures r == t
  {
    assert (p - q) * n == p * n - q * n;
    if p > q {
      AtLeastOnce(p - q, n);
    } else if q > p {
      AtLeastOnce(q - p, n);
    }
  }

  lemma RemainderLess(a: nat, n: nat)
    requires 0 < n <= a
    ensures a % n == (a - n) % n
  {
    var p, r, q, t := a / n, a % n, (a - n) / n, (a - n) % n;
    assert a == p * n + r && a - n == q * n + t;
    assert (q + 1) * n == q * n + n;
    SameRemainder(p, r, q + 1, t, n);
  }

  // -------------------------------------------------------------------------
  // The cursor of a typed screen, before and after a resize
  // -------------------------------------------------------------------------

  /** The screen shows a line of narrow cells that has just been typed. */
  ghost predicate JustTyped(g: Grid, s: seq<Cell>) {
    HoldsLine(g, s) && Typed(g, [], R.LineSegments(s, g.cols))
  }

  lemma TypedCursor(g: Grid, s: seq<Cell>)
    requires JustTyped(g, s)
    ensures var last := LastOf(|s|, g.cols);
            && TapeRow(g) == |R.Rewrap(s, g.cols)| - 1
            && g.cursor.wrapPending == (last == g.cols) && g.cursor.col == if last == g.cols then g.cols - 1 else last
    ensures |s| == TapeRow(g) * g.cols + LastOf(|s|, g.cols)
  {
    hide AllNarrow, Holds, R.LineSegments, R.SegmentRows;
    LastSegment(s, g.cols);
    RowsOfLine(s, g.cols);
  }

  /** The offset of the cursor: behind the text, or on its last cell if a wrap is pending. */
  function OffsetOf(g: Grid, s: seq<Cell>): int {
    if g.cursor.wrapPending then |s| - 1 else |s|
  }

  lemma TypedOffset(g: Grid, s: seq<Cell>)
    requires JustTyped(g, s)
    ensures TapeRow(g) < |Tape(g)| && R.LineOf(Tape(g), TapeRow(g)) == 0
    ensures R.RowOffset(Tape(g), TapeRow(g)) + g.cursor.col == OffsetOf(g, s)
  {
    hide AllNarrow, R.Rewrap, R.LineSegments, RowsOf, Tape, BlankRows;
    TypedCursor(g, s);
    TapeOfRow(g, g.visible[0]);
    RP.RewrapShape(s, g.cols);
    var tape, rows := Tape(g), R.Rewrap(s, g.cols);
    forall i | 0 <= i < TapeRow(g) ensures tape[i].softWrapped && |tape[i].cells| == g.cols {
      assert tape[i] == rows[i];
    }
    FirstLineOffset(tape, TapeRow(g), g.cols);
  }

  lemma TypedTarget(g: Grid, s: seq<Cell>, cols: nat)
    requires JustTyped(g, s) && cols > 0
    ensures OffsetOf(g, s) >= 0 && TapeRow(g) < |Tape(g)|
    ensures R.CursorTarget(Tape(g), TapeRow(g), g.cursor.col, cols) == Target(|R.Trim(s)|, cols, OffsetOf(g, s))
  {
    hide AllNarrow, R.Rewrap, R.RewrapAll, R.LineSegments, RowsOf, Tape, BlankRows, R.Trim, R.Lines, R.Collect, R.Walk,
         Holds, Plain, RT.NarrowRows, R.Reflowed, Typed;
    TypedOffset(g, s);
    LinesOfTyped(g, s);
    TapeOfTyped(g, s);
    ReflowedLines(Tape(g), cols);
    var t, more := R.Trim(s), Repeat([], |Tape(g)| - |R.Rewrap(s, g.cols)|);
    FirstLineWalked(t, more, cols, OffsetOf(g, s));
  }

  lemma TapeOfTyped(g: Grid, s: seq<Cell>)
    requires JustTyped(g, s)
    ensures Tape(g) != [] && |Tape(g)| >= |R.Rewrap(s, g.cols)| && AllNarrow(R.Trim(s))
    ensures OffsetOf(g, s) >= 0
  {
    hide AllNarrow, R.Rewrap, Tape, R.LineSegments;
    TapeOfRow(g, g.visible[0]);
    assert AllNarrow(R.Trim(s)) by { NarrowPrefix(s, R.Trim(s)); }
  }

  lemma NarrowPrefix(s: seq<Cell>, t: seq<Cell>)
    requires AllNarrow(s) && t <= s
    ensures AllNarrow(t)
  {
  }

  lemma FirstLineWalked(t: seq<Cell>, more: seq<seq<Cell>>, n: nat, offset: nat)
    requires n > 0 && AllNarrow(t)
    ensures var reflowed := R.RewrapAll([t] + more, n);
            R.LineStart([t] + more, n, 0) == 0 && R.Walk(reflowed, 0, offset) == Target(|t|, n, offset)
  {
    hide R.Rewrap, R.Walk, AllNarrow;
    assert ([t] + more)[1..] == more && ([t] + more)[..0] == [];
    WalkGoesToTarget([], t, R.RewrapAll(more, n), n, offset);
    assert [] + R.Rewrap(t, n) + R.RewrapAll(more, n) == R.RewrapAll([t] + more, n);
  }

  lemma ReflownRows(g: Grid, s: seq<Cell>, cols: nat)
    requires HoldsLine(g, s) && cols > 0
    ensures |R.TrimRows(R.Reflowed(Tape(g), cols))| == |Reflown(s, cols)|
    ensures R.Trim(s) != [] ==> |Reflown(s, cols)| == RowsFor(|R.Trim(s)|, cols)
  {
    hide AllNarrow, R.Rewrap, R.RewrapAll, Tape, R.Trim, RT.Text, RT.NarrowRows, R.Reflowed, R.TrimRows, Holds, Plain;
    TypedIsOneLine(g, s);
    RT.ReflowedContent(Tape(g), cols);
    RewrapOfText(R.Trim(s), cols);
    NarrowPrefix(s, R.Trim(s));
    RowsOfLine(R.Trim(s), cols);
  }

  /** Where a change of width puts the cursor: on its target, if that is still on the screen. */
  lemma ReflownCursor(g: Grid, cols: nat, rows: nat)
    requires g.Sized() && g.alternate.None? && cols > 0 && rows > 0 && cols != g.cols && TapeRow(g) < |Tape(g)|
    ensures var (row, col) := R.CursorTarget(Tape(g), TapeRow(g), g.cursor.col, cols);
            var gone := SaturatingSub(|R.TrimRows(R.Reflowed(Tape(g), cols))|, rows);
            gone <= row < gone + rows && col < cols ==>
              Resize(g, cols, rows).cursor == MoveTo(g.cursor, col, row - gone)
  {
    hide R.Reflowed, R.TrimRows, R.CursorTarget, R.SplitRows, Tape, HasWidth, S.PushAll;
    SplitHistory(R.Reflowed(Tape(g), cols), cols, rows);
  }

  /** A resize takes the cursor behind the text, if this needs no more rows than it has without
      trailing blanks, and neither began nor ended in the last column. */
  lemma ResizedCursor(g: Grid, s: seq<Cell>, cols: nat, rows: nat)
    requires JustTyped(g, s) && cols > 0 && rows > 0 && cols != g.cols
    requires RowsFor(|R.Trim(s)|, cols) == RowsFor(|s|, cols)
    ensures var last, m := LastOf(|s|, cols), RowsFor(|s|, cols);
            && 0 < last <= cols && SaturatingSub(m, rows) < m
            && Resize(g, cols, rows).cursor
               == MoveTo(g.cursor, if g.cursor.wrapPending then last - 1 else if last < cols then last else 0,
                         m - 1 - SaturatingSub(m, rows))
  {
    hide AllNarrow, R.Rewrap, R.RewrapAll, R.LineSegments, Tape, R.Trim, R.CursorTarget, R.Reflowed, R.TrimRows, Holds,
         RT.NarrowRows, Target, RowsOf, Resize;
    TypedTarget(g, s, cols);
    ReflownRows(g, s, cols);
    TargetBehind(|R.Trim(s)|, |s|, cols);
    TypedIsValid(g, s);
    ReflownCursor(g, cols, rows);
  }

  lemma TypedIsValid(g: Grid, s: seq<Cell>)
    requires JustTyped(g, s)
    ensures g.Valid() && g.alternate.None? && s != []
  {
    hide AllNarrow, R.Rewrap, R.LineSegments, Tape, HasWidth;
  }

  lemma SplitHistory(rows: seq<Row>, n: nat, height: nat)
    requires HasWidth(rows, n)
    ensures |R.SplitRows(rows, n, height).history| == SaturatingSub(|R.TrimRows(rows)|, height)
  {
    hide R.TrimRows;
  }

  // -------------------------------------------------------------------------
  // The two terminals
  // -------------------------------------------------------------------------

  lemma DefaultTabsResized(cols1: nat, cols2: nat)
    ensures ResizeTabs(DefaultTabs(cols1), cols2) == DefaultTabs(cols2)
  {
  }

  /** Resizing a typed grid and typing at the new size can differ only in history, screen and
      cursor. */
  lemma SameButScreen(g1: Grid, cols1: nat, rows1: nat, g2: Grid, cols2: nat, rows2: nat)
    requires cols1 > 0 && rows1 > 0 && cols2 > 0 && rows2 > 0 && cols1 != cols2
    requires g1.Sized() && SameSetting(New(cols1, rows1), g1) && g2.Sized() && SameSetting(New(cols2, rows2), g2)
    ensures var r := Resize(g1, cols2, rows2);
            && r == g2.(visible := r.visible, history := r.history, cursor := r.cursor)
            && r.history.maxLines == g2.history.maxLines
            && r.cursor == g2.cursor.(col := r.cursor.col, row := r.cursor.row, wrapPending := false)
  {
    hide HasWidth, R.ReflowScreen, S.PushAll, DefaultTabs, ResizeTabs, Tape;
    DefaultTabsResized(cols1, cols2);
    ResizeSetting(g1, cols2, rows2, 0);
  }

  lemma SameGridIff(a: Grid, b: Grid)
    requires a == b.(visible := a.visible, history := a.history, cursor := a.cursor)
    requires a.history.maxLines == b.history.maxLines
    requires a.cursor == b.cursor.(col := a.cursor.col, row := a.cursor.row, wrapPending := false)
    ensures a == b <==> a.visible == b.visible && a.history.rows == b.history.rows && a.cursor.col == b.cursor.col
                        && a.cursor.row == b.cursor.row && !b.cursor.wrapPending
  {
  }

  /** The two cursors agree exactly when no last row is full. */
  lemma SameCursorIff(g1: Grid, g2: Grid, s: seq<Cell>)
    requires JustTyped(g1, s) && JustTyped(g2, s) && g1.cols != g2.cols
    requires RowsFor(|R.Trim(s)|, g2.cols) == RowsFor(|s|, g2.cols)
    ensures var r := Resize(g1, g2.cols, g2.rows).cursor;
            r.col == g2.cursor.col && r.row == g2.cursor.row && !g2.cursor.wrapPending
            <==> LastOf(|s|, g1.cols) < g1.cols && LastOf(|s|, g2.cols) < g2.cols
  {
    hide AllNarrow, R.Rewrap, R.LineSegments, R.Trim, Resize, RowsOf, Tape, Plain;
    ResizedCursor(g1, s, g2.cols, g2.rows);
    TypedCursor(g1, s);
    TypedCursor(g2, s);
    RowsOfLine(s, g2.cols);
    RowsOfLine(s, g1.cols);
  }

  /** Resizing a terminal behind a text gives the terminal that was given the text at the new
      size, so that whatever comes next is shown alike, exactly when the spaces at the end of the text
      need no row of their own and the text fills its last row at neither width. */
  lemma ResizedTerminalIsRetypedIff(text: string, cols1: nat, rows1: nat, cols2: nat, rows2: nat,
          width: char -> Width)
    requires cols1 > 0 && rows1 > 0 && cols2 > 0 && rows2 > 0 && cols1 != cols2
    requires text != [] && PP.AllPrintable(text) && AllOfWidthOne(text, width)
    requires |R.Rewrap(CellsOf(text), cols1)| <= S.DEFAULT_MAX_LINES
    requires |R.Rewrap(CellsOf(text), cols2)| <= S.DEFAULT_MAX_LINES
    ensures ResizeTerminal(Feed(NewTerminal(cols1, rows1), Utf8.Encode(text), width), cols2, rows2)
            == Feed(NewTerminal(cols2, rows2), Utf8.Encode(text), width)
            <==> |R.Rewrap(CellsOf(text), cols2)| == |R.Rewrap(R.Trim(CellsOf(text)), cols2)|
                 && |text| % cols1 != 0 && |text| % cols2 != 0
  {
    hide R.Rewrap, Resize, Feed, Utf8.Encode, AllNarrow, Tape, PP.AllPrintable, AllOfWidthOne, CellsOf, R.Trim,
         HoldsLine, Typed, SameSetting, R.LineSegments;
    var s := CellsOf(text);
    NarrowTyped(cols1, rows1, text, width);
    NarrowTyped(cols2, rows2, text, width);
    var t1, t2 := Feed(NewTerminal(cols1, rows1), Utf8.Encode(text), width),
                  Feed(NewTerminal(cols2, rows2), Utf8.Encode(text), width);
    var g1, g2 := t1.state.grid, t2.state.grid;
    SizesOf(g1, cols1, rows1);
    SizesOf(g2, cols2, rows2);
    SameButScreen(g1, cols1, rows1, g2, cols2, rows2);
    SameGridIff(Resize(g1, cols2, rows2), g2);
    ResizedIsRetypedIff(text, cols1, rows1, cols2, rows2, width);
    RowsOfTrimmed(s, cols2);
    FullRowIff(|s|, cols1);
    FullRowIff(|s|, cols2);
    LastFits(|s|, cols1);
    LastFits(|s|, cols2);
    if RowsFor(|R.Trim(s)|, cols2) == RowsFor(|s|, cols2) {
      SameCursorIff(g1, g2, s);
    }
  }

  lemma SizesOf(g: Grid, cols: nat, rows: nat)
    requires cols > 0 && rows > 0 && SameSetting(New(cols, rows), g)
    ensures g.cols == cols && g.rows == rows
  {
  }

  lemma RowsOfTrimmed(s: seq<Cell>, n: nat)
    requires n > 0 && AllNarrow(s)
    ensures |R.Rewrap(s, n)| == RowsFor(|s|, n) && |R.Rewrap(R.Trim(s), n)| == RowsFor(|R.Trim(s)|, n)
  {
    hide R.Rewrap, AllNarrow;
    NarrowPrefix(s, R.Trim(s));
    RowsOfLine(s, n);
    RowsOfLine(R.Trim(s), n);
  }

  lemma {:induction false} LastFits(len: nat, n: nat)
    requires n > 0 && len > 0
    ensures 0 < LastOf(len, n) <= n
    decreases len
  {
    if len > n {
      LastFits(len - n, n);
    }
  }
}
