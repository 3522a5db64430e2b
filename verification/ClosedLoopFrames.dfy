/** The closed loop over whole frames, diffs and sessions. */
module ClosedLoopFrames {
  import opened Common
  import opened Styles
  import opened Cells
  import opened Protocol
  import opened Grids
  import opened GridPairing
  import opened Parser
  import opened Terminals
  import opened Render
  import opened RenderParsing
  import opened StyleCache
  import opened Diff
  import opened ClosedLoop
  import opened Commands
  import P = Params

  // -------------------------------------------------------------------------
  // Full frames
  // -------------------------------------------------------------------------

  /** The first `row` rows show the frame. */
  ghost predicate ShowsRows(g: Grid, f: Frame, row: nat) {
    && g.Valid() && f.Valid() && g.cols == f.cols && g.rows == f.rows && row <= f.rows
    && forall r :: 0 <= r < row ==> RowShows(g.visible[r].cells, f.Row(r), f.cols)
  }

  lemma ShowsMoreRows(g: Grid, g': Grid, f: Frame, row: nat)
    requires ShowsRows(g, f, row) && row < f.rows
    requires g'.Valid() && g'.cols == g.cols && g'.rows == g.rows
    requires g'.visible == g.visible[row := g.visible[row].(cells := g'.visible[row].cells)]
    requires RowShows(g'.visible[row].cells, f.Row(row), f.cols)
    ensures ShowsRows(g', f, row + 1)
    ensures forall r :: row < r < g.rows ==> g'.visible[r] == g.visible[r]
  {
    hide Frame.Row;
  }

  /** The rows of a frame from `row` on, over a host whose remaining rows are paired. */
  lemma {:induction false} FrameWritten(t: TerminalState, f: Frame, row: nat, last: RenderedStyle, width: char -> Width)
    requires Host(t, HostStyle(last)) && Within(last.attrs, MAPPED)
    requires ShowsRows(t.grid, f, row) && ShowableFrame(f, width)
    requires forall r :: row <= r < t.grid.rows ==> Paired(t.grid.visible[r].cells)
    ensures var t' := HandleAll(t, Events(FrameTokens(f, row, last)), width);
            AllReadable(FrameTokens(f, row, last)) && exists s :: Host(t', s) && ShowsRows(t'.grid, f, f.rows)
    decreases f.rows as int - row
  {
    hide Handle, HandleAll, HostStyle, Paired, Readable, Cells.HasWidth, RowShows, RowTokens, Frame.Row, ShowableRow;
    if row == f.rows {
      NothingHandled(t, width);
      assert Host(t, HostStyle(last));
    } else {
      var data := f.Row(row);
      RowLength(t.grid, row);
      NothingShown(t.grid.visible[row].cells, data);
      FirstIsDrawn(data, width);
      RowWritten(t, data, row, 0, last, true, width);
      var (here, end) := RowTokens(data, row, 0, last, true);
      var t1 := HandleAll(t, Events(here), width);
      ShowsMoreRows(t.grid, t1.grid, f, row);
      FrameWritten(t1, f, row + 1, end, width);
      var rest := FrameTokens(f, row + 1, end);
      EventsConcat(here, rest);
      HandleAllConcat(t, Events(here), Events(rest), width);
      ReadableConcat(here, rest);
    }
  }

  lemma FirstIsDrawn(data: seq<CellData>, width: char -> Width)
    requires ShowableRow(data, width)
    ensures data != [] ==> !IsContinuationData(data[0])
  {
    if data != [] {
      assert ShowableAt(data, 0, width);
    }
  }

  lemma NothingShown(cells: seq<Cell>, data: seq<CellData>)
    ensures RowShows(cells, data, 0)
  {
  }

  // -------------------------------------------------------------------------
  // The frame around a frame: synchronised output and reset
  // -------------------------------------------------------------------------

  lemma SyncModeHandled(t: TerminalState, final: byte, width: char -> Width)
    requires t.Valid() && (final == SM || final == RM)
    ensures Handle(t, Csi([2026], [QUESTION_MARK], final), width) == PrivateMode(t, 2026, final == SM)
  {
    hide PrivateMode;
    assert [2026 as u16][1..] == [];
  }

  lemma SyncModeKeepsHost(t: TerminalState, on: bool, style: Style)
    requires Host(t, style)
    ensures var t' := PrivateMode(t, 2026, on);
            Host(t', style) && t'.grid.visible == t.grid.visible
            && t'.grid.cols == t.grid.cols && t'.grid.rows == t.grid.rows
            && (SynchronizedOutput in t'.modes <==> on)
  {
    hide Cells.HasWidth;
  }

  lemma SyncHandled(t: TerminalState, final: byte, style: Style, width: char -> Width)
    requires Host(t, style) && (final == SM || final == RM)
    ensures var tok := Control(true, [2026], final);
            var t' := HandleAll(t, Events([tok]), width);
            Readable(tok) && Host(t', style) && t'.grid.visible == t.grid.visible
            && t'.grid.cols == t.grid.cols && t'.grid.rows == t.grid.rows
            && (SynchronizedOutput in t'.modes <==> final == SM)
  {
    hide Handle, PrivateMode;
    var tok := Control(true, [2026], final);
    EventsOne(tok);
    assert P.SaturateAll([2026]) == [2026];
    var e := Csi([2026], [QUESTION_MARK], final);
    assert EventsOf(tok) == [e];
    assert [e][1..] == [];
    assert HandleAll(t, [e], width) == Handle(t, e, width);
    SyncModeHandled(t, final, width);
    SyncModeKeepsHost(t, final == SM, style);
  }

  lemma ResetHandled(t: TerminalState, style: Style, width: char -> Width)
    requires Host(t, style)
    ensures var t' := HandleAll(t, Events([SGR_RESET]), width);
            Readable(SGR_RESET) && Host(t', PLAIN) && t'.grid.visible == t.grid.visible
            && t'.grid.cols == t.grid.cols && t'.grid.rows == t.grid.rows
  {
    hide Sgr;
    ResetCode(style);
    InterpretOne(style, SGR_RESET);
    SgrTokensHandled(t, [SGR_RESET], width);
  }

  /** Same cells, same size. */
  ghost predicate SameScreen(g: Grid, g': Grid) {
    g'.visible == g.visible && g'.cols == g.cols && g'.rows == g.rows
  }

  lemma TwoParts(t: TerminalState, a: seq<Token>, b: seq<Token>, width: char -> Width)
    requires t.Valid()
    ensures HandleAll(t, Events(a + b), width) == HandleAll(HandleAll(t, Events(a), width), Events(b), width)
    ensures AllReadable(a) && AllReadable(b) ==> AllReadable(a + b)
  {
    assert CanHandle(t, Events(a) + Events(b));
    hide *;
    EventsConcat(a, b);
    HandleAllConcat(t, Events(a), Events(b), width);
    if AllReadable(a) && AllReadable(b) { ReadableConcat(a, b); }
  }

  lemma EndHandled(t: TerminalState, style: Style, width: char -> Width)
    requires Host(t, style)
    ensures var t' := HandleAll(t, Events([SGR_RESET, SYNC_END]), width);
            && AllReadable([SGR_RESET, SYNC_END]) && Host(t', PLAIN) && SameScreen(t.grid, t'.grid)
            && SynchronizedOutput !in t'.modes
  {
    hide HandleAll, Events, Handle;
    ResetHandled(t, style, width);
    var t1 := HandleAll(t, Events([SGR_RESET]), width);
    SyncHandled(t1, RM, PLAIN, width);
    TwoParts(t, [SGR_RESET], [SYNC_END], width);
    assert [SGR_RESET] + [SYNC_END] == [SGR_RESET, SYNC_END];
  }

  lemma StartHandled(t: TerminalState, style: Style, width: char -> Width)
    requires Host(t, style)
    ensures var t' := HandleAll(t, Events([SYNC_START, SGR_RESET]), width);
            AllReadable([SYNC_START, SGR_RESET]) && Host(t', PLAIN) && SameScreen(t.grid, t'.grid)
  {
    hide HandleAll, Events, Handle;
    SyncHandled(t, SM, style, width);
    var t1 := HandleAll(t, Events([SYNC_START]), width);
    ResetHandled(t1, style, width);
    TwoParts(t, [SYNC_START], [SGR_RESET], width);
    assert [SYNC_START] + [SGR_RESET] == [SYNC_START, SGR_RESET];
  }

  /** The state of a host that mirrors a frame: the parser between sequences, literal
      output, the plain style that the renderer's cache assumes, the frame on screen, and no
      output held back. */
  ghost predicate InSync(t: Terminal, f: Frame) {
    && t.Valid() && t.parser.Idle() && Host(t.state, PLAIN) && Shows(t.state.grid, f)
    && SynchronizedOutput !in t.state.modes
  }

  lemma PlainIsNoStyle()
    ensures HostStyle(NO_STYLE) == PLAIN && Within(NO_STYLE.attrs, MAPPED)
  {
  }

  lemma FullFrameHandled(t: TerminalState, f: Frame, style: Style, width: char -> Width)
    requires Host(t, style) && AllPaired(t.grid.visible)
    requires f.Valid() && f.cols == t.grid.cols && f.rows == t.grid.rows && ShowableFrame(f, width)
    ensures var t' := HandleAll(t, Events(RenderFullFrame(f)), width);
            && AllReadable(RenderFullFrame(f)) && Host(t', PLAIN) && Shows(t'.grid, f)
            && SynchronizedOutput !in t'.modes
  {
    hide HandleAll, Events, Handle, Paired, RowShows, FrameTokens, ShowableRow, Frame.Row, Cells.HasWidth;
    var start, body, end := [SYNC_START, SGR_RESET], FrameTokens(f, 0, NO_STYLE), [SGR_RESET, SYNC_END];
    PlainIsNoStyle();
    StartHandled(t, style, width);
    var t1 := HandleAll(t, Events(start), width);
    FrameWritten(t1, f, 0, NO_STYLE, width);
    var t2 := HandleAll(t1, Events(body), width);
    var s :| Host(t2, s) && ShowsRows(t2.grid, f, f.rows);
    EndHandled(t2, s, width);
    TwoParts(t, start, body, width);
    TwoParts(t, start + body, end, width);
  }

  lemma FeedTokens(t: Terminal, ts: seq<Token>, width: char -> Width)
    requires t.Valid() && t.parser.Idle() && AllReadable(ts)
    ensures var t' := Feed(t, Bytes(ts), width);
            t'.parser.Idle() && t'.state == HandleAll(t.state, Events(ts), width)
  {
    hide Run, Bytes, Events, HandleAll, Readable;
    TokensParse(t.parser, ts);
  }

  /** Feeding the bytes of a full frame to any terminal of the frame's size that is between
      sequences, positions absolutely and prints ASCII leaves it showing exactly that frame,
      wide characters included, whatever was on its screen. */
  lemma FullFrameLoop(t: Terminal, f: Frame, width: char -> Width)
    requires t.Valid() && t.parser.Idle() && Host(t.state, t.state.grid.cursor.style) && AllPaired(t.state.grid.visible)
    requires f.Valid() && f.cols == t.state.grid.cols && f.rows == t.state.grid.rows && ShowableFrame(f, width)
    ensures InSync(Feed(t, Bytes(RenderFullFrame(f)), width), f)
  {
    hide Feed, Bytes, Events, HandleAll, Readable, RenderFullFrame, Shows, Paired, ShowableRow;
    FullFrameHandled(t.state, f, t.state.grid.cursor.style, width);
    FeedTokens(t, RenderFullFrame(f), width);
  }

  /** In particular a new terminal. */
  lemma FullFrameOnNewTerminal(f: Frame, width: char -> Width)
    requires f.Valid() && f.cols > 0 && f.rows > 0 && ShowableFrame(f, width)
    ensures InSync(Feed(NewTerminal(f.cols, f.rows), Bytes(RenderFullFrame(f)), width), f)
  {
    hide Feed, Bytes, RenderFullFrame, ShowableRow;
    BlankRowsPaired(f.rows, f.cols);
    FullFrameLoop(NewTerminal(f.cols, f.rows), f, width);
  }

  // -------------------------------------------------------------------------
  // Diffs
  // -------------------------------------------------------------------------

  /** No cell of the frame carries a flag, so no cell of a screen showing it is wide. */
  predicate Unflagged(f: Frame)
    requires f.Valid()
  {
    forall r, i :: 0 <= r < f.rows as int && 0 <= i < f.cols as int ==> f.Row(r)[i].flags == 0
  }

  predicate NarrowEntry(e: DiffEntry, width: char -> Width) {
    match e
    case CellChange(_, _, cell) => NarrowData(cell, width)
    case LineChange(_, cells) => NarrowDataRow(cells, width)
    case RegionScroll(_, _, _) => false
  }

  predicate NarrowEntries(es: seq<DiffEntry>, width: char -> Width) {
    forall i :: 0 <= i < |es| ==> NarrowEntry(es[i], width)
  }

  lemma ShownCellsAreNarrow(g: Grid, f: Frame, row: nat)
    requires Shows(g, f) && Unflagged(f) && row < f.rows
    ensures AllNarrow(g.visible[row].cells)
  {
    var cells := g.visible[row].cells;
    forall i | 0 <= i < |cells| ensures Narrow(cells[i]) {
      assert CellToData(cells[i]) == f.Row(row)[i];
      assert f.Row(row)[i].flags == 0;
    }
  }

  /** The screen after an entry shows the frame after the entry. */
  lemma EntryShown(g: Grid, g': Grid, f: Frame, e: DiffEntry)
    requires Shows(g, f) && InFrame(e, f.cols, f.rows)
    requires g'.Valid() && g'.cols == g.cols && g'.rows == g.rows
    requires g'.visible == g.visible[e.row := g.visible[e.row].(cells := g'.visible[e.row].cells)]
    requires RowShows(g'.visible[e.row].cells, ChangedRow(e, e.row, f.Row(e.row)), f.cols)
    ensures Shows(g', ApplyEntry(f, e))
  {
    hide ApplyEntry, Frame.Row, ChangedRow;
    var f' := ApplyEntry(f, e);
    forall r | 0 <= r < f.rows as int ensures RowShows(g'.visible[r].cells, f'.Row(r), f.cols) {
      ApplyEntryRow(f, e, r);
      if r != e.row { ChangedOtherRow(e, r, f.Row(r)); }
    }
  }

  lemma ChangedOtherRow(e: DiffEntry, r: nat, cells: seq<CellData>)
    requires !e.RegionScroll? && e.row != r
    ensures ChangedRow(e, r, cells) == cells
  {
  }

  lemma ApplyKeepsUnflagged(f: Frame, e: DiffEntry, width: char -> Width)
    requires f.Valid() && InFrame(e, f.cols, f.rows) && Unflagged(f) && NarrowEntry(e, width)
    ensures Unflagged(ApplyEntry(f, e))
  {
    hide ApplyEntry, Frame.Row;
    var f' := ApplyEntry(f, e);
    forall r, i | 0 <= r < f.rows as int && 0 <= i < f.cols as int ensures f'.Row(r)[i].flags == 0 {
      ApplyEntryRow(f, e, r);
      if e.LineChange? && e.row == r { assert NarrowData(e.cells[i], width); }
      assert f.Row(r)[i].flags == 0;
    }
  }

  lemma CellChangeHandled(t: TerminalState, f: Frame, e: DiffEntry, last: RenderedStyle, width: char -> Width)
    requires Host(t, HostStyle(last)) && Within(last.attrs, MAPPED) && Shows(t.grid, f) && Unflagged(f)
    requires e.CellChange? && InFrame(e, f.cols, f.rows) && NarrowEntry(e, width)
    ensures var (ts, end) := EntryTokens(e, last);
            var t' := HandleAll(t, Events(ts), width);
            AllReadable(ts) && Host(t', HostStyle(end)) && Within(end.attrs, MAPPED) && Shows(t'.grid, ApplyEntry(f, e))
  {
    hide HandleAll, Events, Handle, HostStyle, EmitSgr, StyleOf, PlaceChar, Readable, ApplyEntry, Frame.Row,
      Cells.HasWidth, RowShows, CellToData;
    var d, row: nat, col: nat := e.cell, e.row, e.col;
    var first, text := [Cup(col, row)] + EmitSgr(last, StyleOf(d)), [Text(d.grapheme)];
    StyledAt(t, row, col, last, d, true, width);
    var t1 := HandleAll(t, Events(first), width);
    TextPrints(t1, d, width);
    ShownCellsAreNarrow(t.grid, f, row);
    var cells := t.grid.visible[row].cells;
    RowLength(t.grid, row);
    PlaceNarrow(cells, col, d.grapheme[0], HostStyle(StyleOf(d)));
    CellReadsBack(d, width);
    var t2 := HandleAll(t1, Events(text), width);
    assert t2.grid.visible[row].cells == cells[col := Cell([d.grapheme[0]], HostStyle(StyleOf(d)), false, false)];
    OneCellShown(cells, f.Row(row), col, Cell([d.grapheme[0]], HostStyle(StyleOf(d)), false, false), d);
    EntryShown(t.grid, t2.grid, f, e);
    TwoParts(t, first, text, width);
    CodedIsMapped(d);
  }

  lemma OneCellShown(cells: seq<Cell>, data: seq<CellData>, col: nat, cell: Cell, d: CellData)
    requires |cells| == |data| && col < |cells| && RowShows(cells, data, |data|) && CellToData(cell) == d
    ensures RowShows(cells[col := cell], data[col := d], |data|)
  {
  }

  lemma LineChangeHandled(t: TerminalState, f: Frame, e: DiffEntry, last: RenderedStyle, width: char -> Width)
    requires Host(t, HostStyle(last)) && Within(last.attrs, MAPPED) && Shows(t.grid, f) && Unflagged(f)
    requires e.LineChange? && InFrame(e, f.cols, f.rows) && NarrowEntry(e, width)
    ensures var (ts, end) := EntryTokens(e, last);
            var t' := HandleAll(t, Events(ts), width);
            AllReadable(ts) && Host(t', HostStyle(end)) && Within(end.attrs, MAPPED) && Shows(t'.grid, ApplyEntry(f, e))
  {
    hide HandleAll, Events, Handle, HostStyle, RowTokens, Readable, ApplyEntry, Frame.Row, Cells.HasWidth, RowShows,
      Paired;
    var row: nat := e.row;
    var cup, body := [Cup(0, row)], RowTokens(e.cells, row, 0, last, false).0;
    CupMoves(t, row, 0, HostStyle(last), width);
    var t1 := HandleAll(t, Events(cup), width);
    ShownCellsAreNarrow(t.grid, f, row);
    RowLength(t.grid, row);
    NarrowIsPaired(t.grid.visible[row].cells);
    NothingShown(t.grid.visible[row].cells, e.cells);
    RowWritten(t1, e.cells, row, 0, last, false, width);
    var t2 := HandleAll(t1, Events(body), width);
    EntryShown(t.grid, t2.grid, f, e);
    TwoParts(t, cup, body, width);
  }

  lemma EntryHandled(t: TerminalState, f: Frame, e: DiffEntry, last: RenderedStyle, width: char -> Width)
    requires Host(t, HostStyle(last)) && Within(last.attrs, MAPPED) && Shows(t.grid, f) && Unflagged(f)
    requires InFrame(e, f.cols, f.rows) && NarrowEntry(e, width)
    ensures var (ts, end) := EntryTokens(e, last);
            var t' := HandleAll(t, Events(ts), width);
            AllReadable(ts) && Host(t', HostStyle(end)) && Within(end.attrs, MAPPED) && Shows(t'.grid, ApplyEntry(f, e))
  {
    hide *;
    if e.CellChange? {
      CellChangeHandled(t, f, e, last, width);
    } else {
      assert e.LineChange? by { NoScroll(e, f.cols, f.rows); }
      LineChangeHandled(t, f, e, last, width);
    }
  }

  lemma NoScroll(e: DiffEntry, cols: nat, rows: nat)
    requires InFrame(e, cols, rows)
    ensures !e.RegionScroll?
  {
  }

  /** Rendering any diff and reading it back is applying the diff: the host that showed the
      frame before shows the frame after. */
  lemma {:induction false} DiffHandled(t: TerminalState, f: Frame, es: seq<DiffEntry>, last: RenderedStyle,
          width: char -> Width)
    requires Host(t, HostStyle(last)) && Within(last.attrs, MAPPED) && Shows(t.grid, f) && Unflagged(f)
    requires AllInFrame(es, f.cols, f.rows) && NarrowEntries(es, width)
    ensures var t' := HandleAll(t, Events(DiffTokens(es, last)), width);
            AllReadable(DiffTokens(es, last)) && (exists s :: Host(t', s)) && Shows(t'.grid, Apply(f, es))
    decreases es
  {
    hide HandleAll, Events, Handle, HostStyle, Readable, ApplyEntry, Frame.Row, EntryTokens, Shows, Unflagged, InFrame,
         NarrowEntry, Host;
    if es == [] {
      NothingHandled(t, width) by { HostIsValid(t, HostStyle(last)); }
      assert Host(t, HostStyle(last));
    } else {
      HostIsValid(t, HostStyle(last));
      ShowsAreValid(t.grid, f);
      EntryHandled(t, f, es[0], last, width);
      ApplyKeepsUnflagged(f, es[0], width);
      var (here, end) := EntryTokens(es[0], last);
      var t1 := HandleAll(t, Events(here), width);
      DiffHandled(t1, ApplyEntry(f, es[0]), es[1..], end, width);
      TwoParts(t, here, DiffTokens(es[1..], end), width);
    }
  }

  lemma HostIsValid(t: TerminalState, s: Style)
    requires Host(t, s)
    ensures t.Valid()
  {
  }

  lemma ShowsAreValid(g: Grid, f: Frame)
    requires Shows(g, f)
    ensures g.Valid() && f.Valid()
  {
  }

  lemma RenderedDiffHandled(t: TerminalState, f: Frame, es: seq<DiffEntry>, width: char -> Width)
    requires Host(t, PLAIN) && Shows(t.grid, f) && Unflagged(f)
    requires AllInFrame(es, f.cols, f.rows) && NarrowEntries(es, width)
    ensures var t' := HandleAll(t, Events(RenderDiff(es)), width);
            && AllReadable(RenderDiff(es)) && Host(t', PLAIN) && Shows(t'.grid, Apply(f, es))
            && SynchronizedOutput !in t'.modes
  {
    hide HandleAll, Events, Handle, Readable, ApplyEntry, Frame.Row, DiffTokens, Unflagged, InFrame, NarrowEntry,
      RowShows, Cells.HasWidth, Apply;
    var start, body, end := [SYNC_START], DiffTokens(es, NO_STYLE), [SGR_RESET, SYNC_END];
    PlainIsNoStyle();
    SyncHandled(t, SM, PLAIN, width);
    var t1 := HandleAll(t, Events(start), width);
    assert Shows(t1.grid, f);
    DiffHandled(t1, f, es, NO_STYLE, width);
    var t2 := HandleAll(t1, Events(body), width);
    var s :| Host(t2, s);
    EndHandled(t2, s, width);
    TwoParts(t, start, body, width);
    TwoParts(t, start + body, end, width);
  }

  /** A host that mirrors a frame, fed any rendered diff, mirrors the frame with the diff
      applied. */
  lemma RenderedDiffLoop(t: Terminal, f: Frame, es: seq<DiffEntry>, width: char -> Width)
    requires InSync(t, f) && Unflagged(f) && AllInFrame(es, f.cols, f.rows) && NarrowEntries(es, width)
    ensures InSync(Feed(t, Bytes(RenderDiff(es)), width), Apply(f, es))
  {
    hide Feed, Bytes, Events, HandleAll, Readable, RenderDiff, Shows, Apply, InFrame, NarrowEntry, Unflagged;
    RenderedDiffHandled(t.state, f, es, width);
    FeedTokens(t, RenderDiff(es), width);
  }

  // -------------------------------------------------------------------------
  // Scrolled regions
  // -------------------------------------------------------------------------

  lemma ControlHandled(t: TerminalState, params: seq<nat>, final: byte, width: char -> Width)
    requires t.Valid() && forall i :: 0 <= i < |params| ==> params[i] <= 0xFFFF
    ensures HandleAll(t, Events([Control(false, params, final)]), width)
         == t.(grid := Dispatch(t.grid, params, final))
  {
    hide Dispatch, HandleAll;
    SmallParams(params);
    EventsOne(Control(false, params, final));
    HandleOne(t, Csi(params, [], final), width);
  }

  /** The row at `i` after a region has scrolled by `n`, up or, if `n` is negative, down. */
  function ScrolledRow(rows: seq<Row>, cols: nat, top: nat, bottom: nat, n: int, i: nat): Row
    requires i < |rows| && bottom < |rows|
  {
    if !(top <= i <= bottom) then rows[i]
    else if top <= i + n <= bottom then rows[i + n]
    else BlankRow(cols)
  }

  predicate ScrolledBy(before: seq<Row>, after: seq<Row>, cols: nat, top: nat, bottom: nat, n: int) {
    && |after| == |before| && bottom < |before|
    && forall i :: 0 <= i < |before| ==> after[i] == ScrolledRow(before, cols, top, bottom, n, i)
  }

  lemma ScrollCommandAt(g: Grid, action: byte, n: u16, i: nat)
    requires g.Sized() && n > 0 && (action == SCROLL_UP || action == SCROLL_DOWN) && i < g.rows
    ensures |Dispatch(g, [n], action).visible| == |g.visible| == g.rows
    ensures Dispatch(g, [n], action).visible[i]
         == ScrolledRow(g.visible, g.cols, g.top, g.bottom, if action == SCROLL_UP then n as int else -(n as int), i)
  {
    hide Dispatch, BlankRow, Cells.HasWidth;
    RegionScrolls(g, n, i);
  }

  lemma ScrollCommand(g: Grid, action: byte, n: u16)
    requires g.Sized() && n > 0 && (action == SCROLL_UP || action == SCROLL_DOWN)
    ensures ScrolledBy(g.visible, Dispatch(g, [n], action).visible, g.cols, g.top, g.bottom,
                       if action == SCROLL_UP then n as int else -(n as int))
  {
    hide Dispatch, ScrolledRow;
    var r, k := Dispatch(g, [n], action).visible, if action == SCROLL_UP then n as int else -(n as int);
    ScrollCommandAt(g, action, n, 0);
    forall i | 0 <= i < |g.visible| ensures r[i] == ScrolledRow(g.visible, g.cols, g.top, g.bottom, k, i) {
      ScrollCommandAt(g, action, n, i);
    }
  }

  function RegionToken(top: u16, bottom: u16): Token {
    Control(false, [top as int + 1, bottom as int + 1], REGION)
  }

  lemma RegionHandled(t: TerminalState, top: u16, bottom: u16, width: char -> Width)
    requires t.Valid() && top < bottom < 0xFFFF && (bottom as int) < t.grid.rows
    ensures HandleAll(t, Events([RegionToken(top, bottom)]), width)
         == t.(grid := t.grid.(top := top, bottom := bottom, cursor := MoveTo(t.grid.cursor, 0, 0)))
  {
    hide Dispatch, HandleAll, Events;
    ControlHandled(t, [top as int + 1, bottom as int + 1], REGION, width);
    RegionIsSetIff(t.grid, top + 1, bottom + 1);
  }

  lemma RegionThenScroll(t: TerminalState, top: u16, bottom: u16, action: byte, n: u16, width: char -> Width)
    requires t.Valid() && top < bottom < 0xFFFF && (bottom as int) < t.grid.rows
    requires n > 0 && (action == SCROLL_UP || action == SCROLL_DOWN)
    ensures var g := t.grid;
            var r := HandleAll(t, Events([RegionToken(top, bottom)] + [Control(false, [n], action)]), width).grid;
            && ScrolledBy(g.visible, r.visible, g.cols, top, bottom,
                          if action == SCROLL_UP then n as int else -(n as int))
            && r.top == top as int && r.bottom == bottom as int && r.cursor == MoveTo(g.cursor, 0, 0)
  {
    hide Dispatch, HandleAll, Events, ScrolledBy, Cells.HasWidth;
    RegionHandled(t, top, bottom, width);
    var s := HandleAll(t, Events([RegionToken(top, bottom)]), width);
    TwoParts(t, [RegionToken(top, bottom)], [Control(false, [n], action)], width);
    ControlHandled(s, [n], action, width);
    ScrollCommand(s.grid, action, n);
    RegionScrolls(s.grid, n, 0);
  }

  lemma NotScrolled(rows: seq<Row>, cols: nat, top: nat, bottom: nat)
    requires bottom < |rows|
    ensures ScrolledBy(rows, rows, cols, top, bottom, 0)
  {
  }

  lemma ScrollTokens(e: DiffEntry, last: RenderedStyle)
    requires e.RegionScroll?
    ensures var region := [RegionToken(e.top, e.bottom)];
            EntryTokens(e, last).0
            == if e.count > 0 then region + [Control(false, [e.count], SCROLL_UP)]
               else if e.count < 0 then region + [Control(false, [-(e.count as int)], SCROLL_DOWN)]
               else region
  {
    hide RowTokens, EmitSgr;
  }

  /** A rendered scroll of a region scrolls that region of the host. The host is left with the
      region set. */
  lemma RegionScrollHandled(t: TerminalState, e: DiffEntry, last: RenderedStyle, width: char -> Width)
    requires t.Valid() && e.RegionScroll? && e.top < e.bottom < 0xFFFF && (e.bottom as int) < t.grid.rows
    ensures var g, r := t.grid, HandleAll(t, Events(EntryTokens(e, last).0), width).grid;
            && ScrolledBy(g.visible, r.visible, g.cols, e.top, e.bottom, e.count as int)
            && r.top == e.top as int && r.bottom == e.bottom as int && r.cursor == MoveTo(g.cursor, 0, 0)
  {
    hide HandleAll, Events, ScrolledBy, Cells.HasWidth, EntryTokens, RegionToken;
    ScrollTokens(e, last);
    if e.count > 0 {
      RegionThenScroll(t, e.top, e.bottom, SCROLL_UP, e.count, width);
    } else if e.count < 0 {
      RegionThenScroll(t, e.top, e.bottom, SCROLL_DOWN, -(e.count as int), width);
    } else {
      RegionHandled(t, e.top, e.bottom, width);
      NotScrolled(t.grid.visible, t.grid.cols, e.top, e.bottom);
    }
  }

  // -------------------------------------------------------------------------
  // Computed diffs
  // -------------------------------------------------------------------------

  lemma {:induction false} CellChangesNarrow(row: u16, cur: seq<CellData>, prev: seq<CellData>, col: nat,
          width: char -> Width)
    requires |cur| == |prev| <= 0x1_0000 && col <= |cur| && NarrowDataRow(cur, width)
    ensures NarrowEntries(CellChanges(row, cur, prev, col), width)
    decreases |cur| - col
  {
    if col < |cur| { CellChangesNarrow(row, cur, prev, col + 1, width); }
  }

  lemma {:induction false} RowDiffsNarrow(prev: Frame, cur: Frame, row: nat, width: char -> Width)
    requires prev.Valid() && cur.Valid() && prev.cols == cur.cols && prev.rows == cur.rows && row <= cur.rows
    requires NarrowFrame(cur, width)
    ensures NarrowEntries(RowDiffs(prev, cur, row), width)
    decreases cur.rows as int - row
  {
    hide Frame.Row, NarrowDataRow, NarrowData;
    if row < cur.rows {
      CellChangesNarrow(row, cur.Row(row), prev.Row(row), 0, width);
      RowDiffsNarrow(prev, cur, row + 1, width);
    }
  }

  lemma NarrowIsUnflagged(f: Frame, width: char -> Width)
    requires f.Valid() && NarrowFrame(f, width)
    ensures Unflagged(f)
  {
    hide Frame.Row;
    forall r, i | 0 <= r < f.rows as int && 0 <= i < f.cols as int ensures f.Row(r)[i].flags == 0 {
      assert NarrowDataRow(f.Row(r), width);
      assert NarrowData(f.Row(r)[i], width);
    }
  }

  /** If a terminal shows `prev`, feeding it the rendered diff from `prev` to `cur` leaves it
      showing exactly `cur`, whichever mix of entries the diff chose. */
  lemma DiffLoop(t: Terminal, prev: Frame, cur: Frame, width: char -> Width)
    requires InSync(t, prev) && Unflagged(prev)
    requires cur.Valid() && cur.cols == prev.cols && cur.rows == prev.rows && NarrowFrame(cur, width)
    ensures InSync(Feed(t, Bytes(RenderDiff(ComputeDiff(prev, cur))), width), cur)
  {
    hide Feed, Bytes, RenderDiff, Shows, Apply, InFrame, NarrowEntry, Unflagged, RowDiffs, Frame.Row, NarrowDataRow;
    ShowsAreValid(t.state.grid, prev);
    DiffApplies(prev, cur);
    RowDiffsNarrow(prev, cur, 0, width);
    RenderedDiffLoop(t, prev, ComputeDiff(prev, cur), width);
  }

  // -------------------------------------------------------------------------
  // Sessions
  // -------------------------------------------------------------------------

  predicate SameSize(frames: seq<Frame>, cols: u16, rows: u16) {
    forall i :: 0 <= i < |frames| ==> frames[i].Valid() && frames[i].cols == cols && frames[i].rows == rows
  }

  predicate NarrowFrames(frames: seq<Frame>, cols: u16, rows: u16, width: char -> Width) {
    SameSize(frames, cols, rows) && forall i :: 0 <= i < |frames| ==> NarrowFrame(frames[i], width)
  }

  /** The host after a full frame has been shown and the later frames sent as diffs. */
  function FollowDiffs(t: Terminal, shown: Frame, frames: seq<Frame>, width: char -> Width): (r: Terminal)
    requires t.Valid() && shown.Valid() && SameSize(frames, shown.cols, shown.rows)
    ensures r.Valid()
    decreases frames
  {
    if frames == [] then t
    else FollowDiffs(Feed(t, Bytes(RenderDiff(ComputeDiff(shown, frames[0]))), width), frames[0], frames[1..], width)
  }

  /** Over any number of frames the host stays in step: after the last diff it shows the
      last frame, and it is ready for the next one. */
  lemma {:induction false} SessionStaysInSync(t: Terminal, shown: Frame, frames: seq<Frame>, width: char -> Width)
    requires InSync(t, shown) && NarrowFrame(shown, width)
    requires NarrowFrames(frames, shown.cols, shown.rows, width)
    ensures InSync(FollowDiffs(t, shown, frames, width), if frames == [] then shown else frames[|frames| - 1])
    decreases frames
  {
    hide Feed, Bytes, RenderDiff, Shows, ComputeDiff, NarrowDataRow, Frame.Row, Unflagged, Host;
    if frames != [] {
      ShowsAreValid(t.state.grid, shown);
      NarrowIsUnflagged(shown, width);
      DiffLoop(t, shown, frames[0], width);
      var t1 := Feed(t, Bytes(RenderDiff(ComputeDiff(shown, frames[0]))), width);
      SessionStaysInSync(t1, frames[0], frames[1..], width);
    }
  }
}
