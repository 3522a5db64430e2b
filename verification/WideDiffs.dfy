/** The closed loop for diffs between frames with wide characters: exactly which diffs the
    renderer draws faithfully. */
module WideDiffs {
  import opened Common
  import opened Styles
  import opened Cells
  import opened Protocol
  import opened Grids
  import opened GridPairing
  import opened Terminals
  import opened Render
  import opened RenderParsing
  import opened StyleCache
  import opened Diff
  import opened ClosedLoop
  import opened ClosedLoopFrames
  import PP = ParserProperties

  // -------------------------------------------------------------------------
  // What writing a character does to a row
  // -------------------------------------------------------------------------

  /** Only the cell before and the cell behind can change with the written ones: the one when
      its second half was overwritten, the other when its first half was. */
  lemma PlacedAt(cells: seq<Cell>, k: nat, c: char, style: Style, w: nat)
    requires Paired(cells) && k < |cells| && 1 <= w <= 2 && k + w <= |cells|
    ensures var r := PlaceChar(cells, k, c, style, w);
            && r[k] == Cell([c], style, w == 2, false)
            && (w == 2 ==> r[k + 1] == Cell(" ", style, false, true))
            && (forall i :: 0 <= i < k ==> r[i] == cells[i] || (i == k - 1 && cells[k].continuation))
            && (forall i :: k + w < i < |cells| ==> r[i] == cells[i])
            && (k + w < |cells| ==> r[k + w] == cells[k + w] || (r[k + w] == BLANK && cells[k + w - 1].wide))
  {
    assert PairedAt(cells, k);
  }

  lemma NarrowKept(cells: seq<Cell>, j: nat, k: nat, c: char, style: Style, w: nat)
    requires Paired(cells) && j < k < |cells| && 1 <= w <= 2 && k + w <= |cells| && Narrow(cells[j])
    ensures Narrow(PlaceChar(cells, k, c, style, w)[j])
  {
    hide PlaceChar;
    assert PairedAt(cells, k);
    PlacedAt(cells, k, c, style, w);
  }

  // -------------------------------------------------------------------------
  // A row under its cell changes
  // -------------------------------------------------------------------------

  /** What may stand in a cell before its turn: the old cell, the new one when a wide character
      has brought it along, or a blank where half a wide character was overwritten. */
  predicate Awaits(cell: Cell, prev: CellData, cur: CellData) {
    || CellToData(cell) == prev
    || CellToData(cell) == cur
    || (cell == BLANK && cur != prev && !IsContinuationData(cur))
  }

  /** The row shows `cur` before column `col`, and the rest awaits its turn. */
  predicate Midway(cells: seq<Cell>, prev: seq<CellData>, cur: seq<CellData>, col: nat)
    requires |cells| == |prev| == |cur|
  {
    && (forall i :: 0 <= i < |cells| && i < col ==> CellToData(cells[i]) == cur[i])
    && (forall i :: col <= i < |cells| ==> Awaits(cells[i], prev[i], cur[i]))
  }

  lemma UnchangedIsShown(cells: seq<Cell>, prev: seq<CellData>, cur: seq<CellData>, col: nat)
    requires |cells| == |prev| == |cur| && Midway(cells, prev, cur, col) && col < |cur| && cur[col] == prev[col]
    ensures Midway(cells, prev, cur, col + 1)
  {
    assert Awaits(cells[col], prev[col], cur[col]);
  }

  /** A new cell never finds a continuation in its place. */
  lemma NoContinuationMidway(cells: seq<Cell>, prev: seq<CellData>, cur: seq<CellData>, col: nat, width: char -> Width)
    requires |cells| == |prev| == |cur| && Paired(cells) && Midway(cells, prev, cur, col) && ShowableRow(cur, width)
    requires col < |cur| && !IsContinuationData(cur[col])
    ensures !cells[col].continuation
  {
    hide Midway;
    MidwayShows(cells, prev, cur, col);
    NextIsNoContinuation(cells, cur, col, width);
  }

  lemma MidwayShows(cells: seq<Cell>, prev: seq<CellData>, cur: seq<CellData>, col: nat)
    requires |cells| == |prev| == |cur| && col <= |cells|
    requires Midway(cells, prev, cur, col)
    ensures RowShows(cells, cur, col)
  {
  }

  /** The cell behind a written one awaits its turn: if it was blanked, it was the second half
      of an old wide character and has to change. */
  lemma BehindAwaits(cells: seq<Cell>, prev: seq<CellData>, cur: seq<CellData>, col: nat, i: nat, width: char -> Width)
    requires |cells| == |prev| == |cur| && Midway(cells, prev, cur, col)
    requires ShowableRow(prev, width) && ShowableRow(cur, width)
    requires col < i < |cells| && cells[i - 1].wide && !IsContinuationData(cur[i])
    ensures Awaits(BLANK, prev[i], cur[i])
  {
    assert Awaits(cells[i - 1], prev[i - 1], cur[i - 1]);
    assert ShowableAt(prev, i - 1, width) && ShowableAt(cur, i - 1, width);
  }

  lemma ChangedIsShown(cells: seq<Cell>, prev: seq<CellData>, cur: seq<CellData>, col: nat, width: char -> Width)
    requires |cells| == |prev| == |cur| && Paired(cells) && Midway(cells, prev, cur, col)
    requires ShowableRow(prev, width) && ShowableRow(cur, width)
    requires col < |cur| && !IsContinuationData(cur[col])
    ensures Drawable(cur[col], width) && Behind(cur, col) <= |cur|
    ensures var (c, style) := (cur[col].grapheme[0], HostStyle(StyleOf(cur[col])));
            Midway(PlaceChar(cells, col, c, style, width(c)), prev, cur, col + 1)
  {
    hide PlaceChar, HostStyle, StyleOf, CellToData, Paired, ShowableRow, Awaits;
    var d := cur[col];
    ShowableIsWritable(cur, col, width);
    NoContinuationMidway(cells, prev, cur, col, width);
    PlacedAt(cells, col, d.grapheme[0], HostStyle(StyleOf(d)), width(d.grapheme[0]));
    CellReadsBack(d, width);
    var i := Behind(cur, col);
    if i < |cur| && cells[i - 1].wide {
      BehindAwaits(cells, prev, cur, col, i, width);
    }
    NewAwaits(Cell(" ", HostStyle(StyleOf(d)), false, true), prev, cur, col);
  }

  lemma NewAwaits(cell: Cell, prev: seq<CellData>, cur: seq<CellData>, col: nat)
    requires |prev| == |cur|
    ensures col + 1 < |cur| && CellToData(cell) == cur[col + 1] ==> Awaits(cell, prev[col + 1], cur[col + 1])
  {
  }

  // -------------------------------------------------------------------------
  // One entry
  // -------------------------------------------------------------------------

  /** A cell whose text is one printable scalar that takes up columns. */
  predicate CanDraw(d: CellData, width: char -> Width) {
    |d.grapheme| == 1 && PP.IsPrintable(d.grapheme[0]) && width(d.grapheme[0]) >= 1 && Coded(d.attrs)
  }

  /** The terminal after some tokens, of the same size and ready for more. */
  ghost predicate Follows(t: TerminalState, ts: seq<Token>, end: RenderedStyle, t': TerminalState,
          width: char -> Width)
    requires t.Valid()
  {
    && t' == HandleAll(t, Events(ts), width) && AllReadable(ts)
    && Host(t', HostStyle(end)) && Within(end.attrs, MAPPED)
    && t'.grid.cols == t.grid.cols && t'.grid.rows == t.grid.rows
  }

  /** At most the cells of one row differ. */
  ghost predicate OnlyRow(g: Grid, g': Grid, row: nat)
    requires row < |g.visible| && row < |g'.visible|
  {
    g'.visible == g.visible[row := g.visible[row].(cells := g'.visible[row].cells)]
  }

  lemma CellDrawn(t: TerminalState, col: u16, row: u16, d: CellData, last: RenderedStyle, width: char -> Width)
    returns (t': TerminalState)
    requires Host(t, HostStyle(last)) && Within(last.attrs, MAPPED) && CanDraw(d, width)
    requires row < t.grid.rows && col as int + width(d.grapheme[0]) <= t.grid.cols
    ensures var (ts, end) := EntryTokens(CellChange(col, row, d), last);
            end == StyleOf(d) && Follows(t, ts, end, t', width)
    ensures OnlyRow(t.grid, t'.grid, row)
    ensures t'.grid.visible[row].cells
         == PlaceChar(t.grid.visible[row].cells, col, d.grapheme[0], HostStyle(StyleOf(d)), width(d.grapheme[0]))
  {
    hide HandleAll, Events, Handle, HostStyle, EmitSgr, StyleOf, PlaceChar, Readable, Cells.HasWidth;
    var first, text := [Cup(col, row)] + EmitSgr(last, StyleOf(d)), [Text(d.grapheme)];
    StyledAt(t, row, col, last, d, true, width);
    var t1 := HandleAll(t, Events(first), width);
    assert d.grapheme == [d.grapheme[0]];
    CharPrints(t1, d.grapheme[0], width);
    t' := HandleAll(t1, Events(text), width);
    TwoParts(t, first, text, width);
    CodedIsMapped(d);
    RowLength(t.grid, row);
  }

  lemma ShowableCanBeDrawn(cells: seq<CellData>, col: nat, width: char -> Width)
    requires ShowableRow(cells, width) && col < |cells| && width(' ') == 1
    ensures CanDraw(cells[col], width) && col + width(cells[col].grapheme[0]) <= |cells|
  {
    assert ShowableAt(cells, col, width);
  }

  // -------------------------------------------------------------------------
  // One row
  // -------------------------------------------------------------------------

  /** No second half of a wide character is among the changed cells from `col` on. */
  predicate NoHalves(cur: seq<CellData>, prev: seq<CellData>, col: nat)
    requires |cur| == |prev|
  {
    forall i :: col <= i < |cur| && cur[i] != prev[i] ==> !IsContinuationData(cur[i])
  }

  /** After the cell changes of a row it shows the new cells if no second half was among them;
      where one was, the cell is narrow. */
  predicate RowOutcome(before: seq<Cell>, after: seq<Cell>, prev: seq<CellData>, cur: seq<CellData>, col: nat)
    requires |before| == |after| == |prev| == |cur|
  {
    && Paired(after)
    && (Midway(before, prev, cur, col) && NoHalves(cur, prev, col) ==> Midway(after, prev, cur, |cur|))
    && (forall k :: 0 <= k < |cur| && k < col && Narrow(before[k]) ==> Narrow(after[k]))
    && (forall k :: col <= k < |cur| && cur[k] != prev[k] && IsContinuationData(cur[k]) ==> Narrow(after[k]))
  }

  lemma OutcomeSkips(before: seq<Cell>, after: seq<Cell>, prev: seq<CellData>, cur: seq<CellData>, col: nat)
    requires |before| == |after| == |prev| == |cur| && col < |cur| && cur[col] == prev[col]
    requires RowOutcome(before, after, prev, cur, col + 1)
    ensures RowOutcome(before, after, prev, cur, col)
  {
    hide Paired, Midway, Narrow;
    if Midway(before, prev, cur, col) {
      UnchangedIsShown(before, prev, cur, col);
    }
  }

  lemma OutcomeDraws(before: seq<Cell>, after: seq<Cell>, prev: seq<CellData>, cur: seq<CellData>, col: nat,
          width: char -> Width)
    requires |before| == |after| == |prev| == |cur| && col < |cur| && cur[col] != prev[col] && Paired(before)
    requires ShowableRow(prev, width) && ShowableRow(cur, width) && width(' ') == 1
    requires CanDraw(cur[col], width) && col + width(cur[col].grapheme[0]) <= |cur|
    requires RowOutcome(PlaceChar(before, col, cur[col].grapheme[0], HostStyle(StyleOf(cur[col])),
                                  width(cur[col].grapheme[0])), after, prev, cur, col + 1)
    ensures RowOutcome(before, after, prev, cur, col)
  {
    hide PlaceChar, HostStyle, StyleOf, Paired, Midway, ShowableRow;
    var c, style, w := cur[col].grapheme[0], HostStyle(StyleOf(cur[col])), width(cur[col].grapheme[0]);
    var drawn := PlaceChar(before, col, c, style, w);
    if Midway(before, prev, cur, col) && NoHalves(cur, prev, col) {
      ChangedIsShown(before, prev, cur, col, width);
    }
    forall k | 0 <= k < col && Narrow(before[k]) ensures Narrow(after[k]) {
      NarrowKept(before, k, col, c, style, w);
    }
    if IsContinuationData(cur[col]) {
      HalfIsASpace(cur, col, width);
      PlacedAt(before, col, c, style, w);
    }
  }

  lemma HalfIsASpace(cells: seq<CellData>, col: nat, width: char -> Width)
    requires ShowableRow(cells, width) && col < |cells| && IsContinuationData(cells[col])
    ensures cells[col].grapheme == " "
  {
    assert ShowableAt(cells, col, width);
  }

  /** The style the host is left in. */
  function EndStyle(es: seq<DiffEntry>, last: RenderedStyle): RenderedStyle
    decreases es
  {
    if es == [] then last else EndStyle(es[1..], EntryTokens(es[0], last).1)
  }

  lemma {:induction false} DiffTokensConcat(a: seq<DiffEntry>, b: seq<DiffEntry>, last: RenderedStyle)
    ensures DiffTokens(a + b, last) == DiffTokens(a, last) + DiffTokens(b, EndStyle(a, last))
    ensures EndStyle(a + b, last) == EndStyle(b, EndStyle(a, last))
    decreases a
  {
    hide EntryTokens;
    if a == [] {
      assert a + b == b;
    } else {
      assert (a + b)[1..] == a[1..] + b;
      DiffTokensConcat(a[1..], b, EntryTokens(a[0], last).1);
    }
  }

  lemma OneEntry(e: DiffEntry, last: RenderedStyle)
    ensures DiffTokens([e], last) == EntryTokens(e, last).0 && EndStyle([e], last) == EntryTokens(e, last).1
  {
    hide EntryTokens;
    assert [e][1..] == [];
    assert EntryTokens(e, last).0 + [] == EntryTokens(e, last).0;
  }

  lemma FollowsThen(t: TerminalState, a: seq<Token>, middle: RenderedStyle, t1: TerminalState,
          b: seq<Token>, end: RenderedStyle, t2: TerminalState, width: char -> Width)
    requires t.Valid() && t1.Valid() && Follows(t, a, middle, t1, width) && Follows(t1, b, end, t2, width)
    ensures Follows(t, a + b, end, t2, width)
  {
    hide Readable, HandleAll, Events, HostStyle, Host;
    TwoParts(t, a, b, width);
  }

  lemma NothingFollows(t: TerminalState, last: RenderedStyle, width: char -> Width)
    requires Host(t, HostStyle(last)) && Within(last.attrs, MAPPED)
    ensures Follows(t, [], last, t, width)
  {
    hide HostStyle;
    NothingHandled(t, width);
  }

  /** The cell changes of a row, on any host whose row is paired. */
  lemma {:induction false} CellChangesDrawn(t: TerminalState, row: u16, prev: seq<CellData>, cur: seq<CellData>,
          col: nat, last: RenderedStyle, width: char -> Width)
    returns (t': TerminalState)
    requires Host(t, HostStyle(last)) && Within(last.attrs, MAPPED) && row < t.grid.rows && width(' ') == 1
    requires |prev| == |cur| == t.grid.cols && col <= |cur| && ShowableRow(prev, width) && ShowableRow(cur, width)
    requires |t.grid.visible[row].cells| == t.grid.cols && Paired(t.grid.visible[row].cells)
    ensures var es := CellChanges(row, cur, prev, col);
            Follows(t, DiffTokens(es, last), EndStyle(es, last), t', width)
    ensures |t'.grid.visible| == |t.grid.visible| && OnlyRow(t.grid, t'.grid, row)
    ensures |t'.grid.visible[row].cells| == t.grid.cols
    ensures RowOutcome(t.grid.visible[row].cells, t'.grid.visible[row].cells, prev, cur, col)
    decreases |cur| - col
  {
    hide Follows, HandleAll, HostStyle, StyleOf, EntryTokens, RowOutcome, Paired, ShowableRow, PlaceChar, CanDraw,
      Within, Cells.HasWidth, DiffTokens, EndStyle;
    var es := CellChanges(row, cur, prev, col);
    HostIsValid(t, HostStyle(last));
    if col == |cur| {
      NoTokens(last);
      NothingFollows(t, last, width);
      NoOutcome(t.grid.visible[row].cells, prev, cur);
      t' := t;
    } else {
      var rest := CellChanges(row, cur, prev, col + 1);
      if cur[col] == prev[col] {
        t' := CellChangesDrawn(t, row, prev, cur, col + 1, last, width);
        OutcomeSkips(t.grid.visible[row].cells, t'.grid.visible[row].cells, prev, cur, col);
        assert es == rest;
      } else {
        var e := CellChange(col, row, cur[col]);
        ShowableCanBeDrawn(cur, col, width);
        var t1 := CellDrawn(t, col, row, cur[col], last, width);
        FollowsIsHost(t, EntryTokens(e, last).0, StyleOf(cur[col]), t1, width);
        var c, style, w := cur[col].grapheme[0], HostStyle(StyleOf(cur[col])), width(cur[col].grapheme[0]);
        DrawnIsPaired(t.grid.visible[row].cells, col, cur[col], width);
        t' := CellChangesDrawn(t1, row, prev, cur, col + 1, StyleOf(cur[col]), width);
        OutcomeDraws(t.grid.visible[row].cells, t'.grid.visible[row].cells, prev, cur, col, width);
        OneEntry(e, last);
        DiffTokensConcat([e], rest, last);
        FollowsThen(t, EntryTokens(e, last).0, StyleOf(cur[col]), t1,
          DiffTokens(rest, StyleOf(cur[col])), EndStyle(rest, StyleOf(cur[col])), t', width);
        assert es == [e] + rest;
      }
    }
  }

  lemma NoTokens(last: RenderedStyle)
    ensures DiffTokens([], last) == [] && EndStyle([], last) == last
  {
  }

  lemma FollowsIsHost(t: TerminalState, ts: seq<Token>, end: RenderedStyle, t': TerminalState, width: char -> Width)
    requires t.Valid() && Follows(t, ts, end, t', width)
    ensures Host(t', HostStyle(end)) && Within(end.attrs, MAPPED)
    ensures t'.grid.cols == t.grid.cols && t'.grid.rows == t.grid.rows
  {
  }

  lemma DrawnIsPaired(cells: seq<Cell>, col: nat, d: CellData, width: char -> Width)
    requires Paired(cells) && CanDraw(d, width) && col + width(d.grapheme[0]) <= |cells|
    ensures Paired(PlaceChar(cells, col, d.grapheme[0], HostStyle(StyleOf(d)), width(d.grapheme[0])))
  {
    hide Paired, PlaceChar;
    PlaceCharPaired(cells, col, d.grapheme[0], HostStyle(StyleOf(d)), width(d.grapheme[0]));
  }

  lemma NoOutcome(cells: seq<Cell>, prev: seq<CellData>, cur: seq<CellData>)
    requires |cells| == |prev| == |cur| && Paired(cells)
    ensures RowOutcome(cells, cells, prev, cur, |cur|)
  {
  }

  lemma ShownShowableIsPaired(cells: seq<Cell>, data: seq<CellData>, width: char -> Width)
    requires |cells| == |data| && RowShows(cells, data, |data|) && ShowableRow(data, width)
    ensures Paired(cells)
  {
    forall i | 0 <= i < |cells| ensures PairedAt(cells, i) {
      assert ShowableAt(data, i, width);
      assert CellToData(cells[i]) == data[i];
      if i > 0 {
        assert CellToData(cells[i - 1]) == data[i - 1];
      }
      if i + 1 < |cells| {
        assert CellToData(cells[i + 1]) == data[i + 1];
      }
    }
  }

  lemma LineDrawn(t: TerminalState, row: u16, cur: seq<CellData>, last: RenderedStyle, width: char -> Width)
    returns (t': TerminalState)
    requires Host(t, HostStyle(last)) && Within(last.attrs, MAPPED) && row < t.grid.rows
    requires |cur| == t.grid.cols && ShowableRow(cur, width) && Paired(t.grid.visible[row].cells)
    ensures var (ts, end) := EntryTokens(LineChange(row, cur), last);
            Follows(t, ts, end, t', width)
    ensures |t'.grid.visible| == |t.grid.visible| && OnlyRow(t.grid, t'.grid, row)
    ensures |t'.grid.visible[row].cells| == |cur| && RowShows(t'.grid.visible[row].cells, cur, |cur|)
  {
    hide HandleAll, Events, Handle, HostStyle, RowTokens, Readable, Cells.HasWidth, RowShows, Paired, ShowableRow;
    var cup, body := [Cup(0, row)], RowTokens(cur, row, 0, last, false).0;
    CupMoves(t, row, 0, HostStyle(last), width);
    var t1 := HandleAll(t, Events(cup), width);
    RowLength(t.grid, row);
    NothingShown(t.grid.visible[row].cells, cur);
    FirstIsDrawn(cur, width);
    RowWritten(t1, cur, row, 0, last, false, width);
    t' := HandleAll(t1, Events(body), width);
    RowLength(t'.grid, row);
    TwoParts(t, cup, body, width);
  }

  /** The row is sent whole, or no second half of a wide character is among its changes. */
  predicate SafeRow(prev: seq<CellData>, cur: seq<CellData>)
    requires |prev| == |cur|
  {
    CountChanged(cur, prev) * 2 > |cur| || NoHalves(cur, prev, 0)
  }

  /** What becomes of a row. */
  predicate RowResult(before: seq<Cell>, after: seq<Cell>, prev: seq<CellData>, cur: seq<CellData>) {
    && |before| == |after| == |prev| == |cur| && Paired(after)
    && (RowShows(before, prev, |prev|) && SafeRow(prev, cur) ==> RowShows(after, cur, |cur|))
    && (!SafeRow(prev, cur) ==> !RowShows(after, cur, |cur|))
  }

  lemma {:induction false} OutcomeIsResult(before: seq<Cell>, after: seq<Cell>, prev: seq<CellData>, cur: seq<CellData>)
    requires |before| == |after| == |prev| == |cur| && RowOutcome(before, after, prev, cur, 0)
    requires CountChanged(cur, prev) * 2 <= |cur|
    ensures RowResult(before, after, prev, cur)
  {
    hide Paired, CountChanged;
    if RowShows(before, prev, |prev|) {
      assert Midway(before, prev, cur, 0);
    }
    if !SafeRow(prev, cur) {
      var k :| 0 <= k < |cur| && cur[k] != prev[k] && IsContinuationData(cur[k]);
      assert Narrow(after[k]);
      assert CellToData(after[k]) != cur[k];
    }
  }

  lemma SameRowResult(cells: seq<Cell>, prev: seq<CellData>)
    requires |cells| == |prev| && Paired(cells)
    ensures RowResult(cells, cells, prev, prev)
  {
    hide Paired, RowShows;
  }

  /** The entries of one row, on any host whose row is paired. */
  lemma RowDiffDrawn(t: TerminalState, row: u16, prev: seq<CellData>, cur: seq<CellData>, last: RenderedStyle,
          width: char -> Width)
    returns (t': TerminalState)
    requires Host(t, HostStyle(last)) && Within(last.attrs, MAPPED) && row < t.grid.rows && width(' ') == 1
    requires |prev| == |cur| == t.grid.cols && ShowableRow(prev, width) && ShowableRow(cur, width)
    requires Paired(t.grid.visible[row].cells)
    ensures var es := RowDiff(row, cur, prev);
            Follows(t, DiffTokens(es, last), EndStyle(es, last), t', width)
    ensures |t'.grid.visible| == |t.grid.visible| && OnlyRow(t.grid, t'.grid, row)
    ensures RowResult(t.grid.visible[row].cells, t'.grid.visible[row].cells, prev, cur)
  {
    hide Follows, HandleAll, HostStyle, EntryTokens, RowOutcome, Paired, ShowableRow, Within, Cells.HasWidth,
      DiffTokens, EndStyle, CellChanges, RowResult, CountChanged, RowShows;
    RowLength(t.grid, row);
    if CountChanged(cur, prev) == 0 {
      NoTokens(last);
      NothingFollows(t, last, width);
      SameRowResult(t.grid.visible[row].cells, prev);
      t' := t;
    } else if CountChanged(cur, prev) * 2 > |cur| {
      OneEntry(LineChange(row, cur), last);
      t' := LineDrawn(t, row, cur, last, width);
      ShownShowableIsPaired(t'.grid.visible[row].cells, cur, width);
      WholeRowResult(t.grid.visible[row].cells, t'.grid.visible[row].cells, prev, cur);
    } else {
      t' := CellChangesDrawn(t, row, prev, cur, 0, last, width);
      OutcomeIsResult(t.grid.visible[row].cells, t'.grid.visible[row].cells, prev, cur);
    }
  }

  lemma WholeRowResult(before: seq<Cell>, after: seq<Cell>, prev: seq<CellData>, cur: seq<CellData>)
    requires |before| == |after| == |prev| == |cur| && Paired(after) && RowShows(after, cur, |cur|)
    requires CountChanged(cur, prev) * 2 > |cur|
    ensures RowResult(before, after, prev, cur)
  {
    hide Paired, RowShows, CountChanged;
  }

  // -------------------------------------------------------------------------
  // All rows
  // -------------------------------------------------------------------------

  /** Rows before `row` are untouched, and every other one has its result. */
  ghost predicate RowsResult(g: Grid, g': Grid, prev: Frame, cur: Frame, row: nat)
    requires prev.Valid() && cur.Valid() && prev.rows == cur.rows
  {
    && |g.visible| == |g'.visible| == cur.rows as int
    && (forall r :: 0 <= r < cur.rows as int && r < row ==> g'.visible[r] == g.visible[r])
    && (forall r :: row <= r < cur.rows as int ==>
          RowResult(g.visible[r].cells, g'.visible[r].cells, prev.Row(r), cur.Row(r)))
  }

  lemma {:induction false} RowDiffsDrawn(t: TerminalState, prev: Frame, cur: Frame, row: nat, last: RenderedStyle,
          width: char -> Width)
    returns (t': TerminalState)
    requires Host(t, HostStyle(last)) && Within(last.attrs, MAPPED) && width(' ') == 1
    requires prev.Valid() && cur.Valid() && prev.cols == cur.cols && prev.rows == cur.rows && row <= cur.rows
    requires cur.cols == t.grid.cols && cur.rows == t.grid.rows
    requires ShowableFrame(prev, width) && ShowableFrame(cur, width)
    requires forall r :: row <= r < t.grid.rows ==> Paired(t.grid.visible[r].cells)
    ensures var es := RowDiffs(prev, cur, row);
            Follows(t, DiffTokens(es, last), EndStyle(es, last), t', width)
    ensures RowsResult(t.grid, t'.grid, prev, cur, row)
    decreases cur.rows as int - row
  {
    hide Follows, HandleAll, HostStyle, EntryTokens, Paired, ShowableRow, Within, Cells.HasWidth, DiffTokens, EndStyle,
      RowDiff, RowResult, Frame.Row;
    HostIsValid(t, HostStyle(last));
    if row == cur.rows {
      NoTokens(last);
      NothingFollows(t, last, width);
      t' := t;
    } else {
      var here, rest := RowDiff(row, cur.Row(row), prev.Row(row)), RowDiffs(prev, cur, row + 1);
      var t1 := RowDiffDrawn(t, row, prev.Row(row), cur.Row(row), last, width);
      FollowsIsHost(t, DiffTokens(here, last), EndStyle(here, last), t1, width);
      var style := EndStyle(here, last);
      t' := RowDiffsDrawn(t1, prev, cur, row + 1, style, width);
      DiffTokensConcat(here, rest, last);
      FollowsThen(t, DiffTokens(here, last), style, t1, DiffTokens(rest, style), EndStyle(rest, style), t', width);
      assert forall r :: 0 <= r < cur.rows as int && r != row ==> t1.grid.visible[r] == t.grid.visible[r];
    }
  }

  // -------------------------------------------------------------------------
  // Frames
  // -------------------------------------------------------------------------

  /** Every row is safe. */
  predicate SafeDiff(prev: Frame, cur: Frame)
    requires prev.Valid() && cur.Valid() && prev.cols == cur.cols && prev.rows == cur.rows
  {
    forall r :: 0 <= r < cur.rows as int ==> SafeRow(prev.Row(r), cur.Row(r))
  }

  lemma ShownRowsArePaired(g: Grid, f: Frame, width: char -> Width)
    requires Shows(g, f) && ShowableFrame(f, width)
    ensures forall r :: 0 <= r < g.rows ==> Paired(g.visible[r].cells)
  {
    hide Paired, RowShows, ShowableRow, Frame.Row, Cells.HasWidth;
    forall r | 0 <= r < g.rows ensures Paired(g.visible[r].cells) {
      RowLength(g, r);
      ShownShowableIsPaired(g.visible[r].cells, f.Row(r), width);
    }
  }

  lemma {:induction false} ResultsShow(g: Grid, g': Grid, prev: Frame, cur: Frame)
    requires Shows(g, prev) && cur.Valid() && prev.cols == cur.cols && prev.rows == cur.rows
    requires g'.Valid() && g'.cols == g.cols && g'.rows == g.rows && RowsResult(g, g', prev, cur, 0)
    ensures Shows(g', cur) <==> SafeDiff(prev, cur)
  {
    hide Paired, RowShows, SafeRow, Frame.Row, Cells.HasWidth;
    forall r | 0 <= r < cur.rows as int
      ensures RowShows(g'.visible[r].cells, cur.Row(r), cur.cols) <==> SafeRow(prev.Row(r), cur.Row(r))
    {
      assert RowShows(g.visible[r].cells, prev.Row(r), prev.cols);
      assert RowResult(g.visible[r].cells, g'.visible[r].cells, prev.Row(r), cur.Row(r));
    }
  }

  lemma WideDiffHandled(t: TerminalState, prev: Frame, cur: Frame, width: char -> Width)
    requires Host(t, PLAIN) && Shows(t.grid, prev) && width(' ') == 1
    requires cur.Valid() && prev.cols == cur.cols && prev.rows == cur.rows
    requires ShowableFrame(prev, width) && ShowableFrame(cur, width)
    ensures var ts := RenderDiff(ComputeDiff(prev, cur));
            var t' := HandleAll(t, Events(ts), width);
            && AllReadable(ts) && Host(t', PLAIN) && (Shows(t'.grid, cur) <==> SafeDiff(prev, cur))
            && SynchronizedOutput !in t'.modes
  {
    hide HandleAll, Events, Handle, Readable, Frame.Row, DiffTokens, RowShows, Cells.HasWidth, RowDiffs, Paired,
      ShowableRow, RowResult, SafeRow, EndStyle;
    var es := RowDiffs(prev, cur, 0);
    var start, body, end := [SYNC_START], DiffTokens(es, NO_STYLE), [SGR_RESET, SYNC_END];
    PlainIsNoStyle();
    SyncHandled(t, SM, PLAIN, width);
    var t1 := HandleAll(t, Events(start), width);
    assert Shows(t1.grid, prev);
    ShownRowsArePaired(t1.grid, prev, width);
    var t2 := RowDiffsDrawn(t1, prev, cur, 0, NO_STYLE, width);
    ResultsShow(t1.grid, t2.grid, prev, cur);
    EndHandled(t2, HostStyle(EndStyle(es, NO_STYLE)), width);
    TwoParts(t, start, body, width);
    TwoParts(t, start + body, end, width);
  }

  /** A terminal that shows one frame and is sent the diff to another, wide characters in
      either, shows the other afterwards exactly when no row sent as cell changes has a second
      half of a wide character among them. */
  lemma WideDiffLoopIff(t: Terminal, prev: Frame, cur: Frame, width: char -> Width)
    requires InSync(t, prev) && width(' ') == 1
    requires cur.Valid() && prev.cols == cur.cols && prev.rows == cur.rows
    requires ShowableFrame(prev, width) && ShowableFrame(cur, width)
    ensures InSync(Feed(t, Bytes(RenderDiff(ComputeDiff(prev, cur))), width), cur) <==> SafeDiff(prev, cur)
  {
    hide Feed, Bytes, Events, HandleAll, Readable, RenderDiff, Shows, ComputeDiff, SafeDiff, ShowableFrame;
    ShowsAreValid(t.state.grid, prev);
    WideDiffHandled(t.state, prev, cur, width);
    FeedTokens(t, RenderDiff(ComputeDiff(prev, cur)), width);
  }

  // -------------------------------------------------------------------------
  // Sessions
  // -------------------------------------------------------------------------

  predicate AllShowable(frames: seq<Frame>, cols: u16, rows: u16, width: char -> Width) {
    SameSize(frames, cols, rows) && forall i :: 0 <= i < |frames| ==> ShowableFrame(frames[i], width)
  }

  /** After each diff the host shows the frame it leads to. */
  ghost predicate KeepsInStep(t: Terminal, shown: Frame, frames: seq<Frame>, width: char -> Width)
    requires t.Valid() && shown.Valid() && SameSize(frames, shown.cols, shown.rows)
    decreases frames
  {
    frames == []
    || (var t1 := Feed(t, Bytes(RenderDiff(ComputeDiff(shown, frames[0]))), width);
        InSync(t1, frames[0]) && KeepsInStep(t1, frames[0], frames[1..], width))
  }

  /** The diff from each frame to the next is safe. */
  predicate SafeSession(shown: Frame, frames: seq<Frame>)
    requires shown.Valid() && SameSize(frames, shown.cols, shown.rows)
    decreases frames
  {
    frames == [] || (SafeDiff(shown, frames[0]) && SafeSession(frames[0], frames[1..]))
  }

  /** Over any number of frames, a host is kept in step exactly when every diff is safe. */
  lemma {:induction false} SessionKeepsInStepIff(t: Terminal, shown: Frame, frames: seq<Frame>, width: char -> Width)
    requires InSync(t, shown) && width(' ') == 1 && ShowableFrame(shown, width)
    requires AllShowable(frames, shown.cols, shown.rows, width)
    ensures KeepsInStep(t, shown, frames, width) <==> SafeSession(shown, frames)
    decreases frames
  {
    hide Feed, Bytes, RenderDiff, Shows, ComputeDiff, ShowableFrame, SafeDiff, Host;
    ShowsAreValid(t.state.grid, shown);
    if frames != [] {
      WideDiffLoopIff(t, shown, frames[0], width);
      var t1 := Feed(t, Bytes(RenderDiff(ComputeDiff(shown, frames[0]))), width);
      if SafeDiff(shown, frames[0]) {
        SessionKeepsInStepIff(t1, frames[0], frames[1..], width);
      }
    }
  }

  /** A host that is kept in step ends up showing the last frame. */
  lemma {:induction false} InStepShowsLast(t: Terminal, shown: Frame, frames: seq<Frame>, width: char -> Width)
    requires InSync(t, shown) && SameSize(frames, shown.cols, shown.rows) && KeepsInStep(t, shown, frames, width)
    ensures InSync(FollowDiffs(t, shown, frames, width), if frames == [] then shown else frames[|frames| - 1])
    decreases frames
  {
    hide Feed, Bytes, RenderDiff, Shows, ComputeDiff, Host;
    if frames != [] {
      ShowsAreValid(t.state.grid, shown);
      InStepShowsLast(Feed(t, Bytes(RenderDiff(ComputeDiff(shown, frames[0]))), width), frames[0], frames[1..], width);
    }
  }
}
