/** The closed loop: what the renderer prints, read back by the terminal emulator, is the
    frame that was rendered. */
module ClosedLoop {
  import opened Common
  import opened AttrNumbers
  import opened Styles
  import opened Cells
  import opened Protocol
  import opened Grids
  import opened GridPairing
  import opened Parser
  import opened Terminals
  import opened Render
  import opened RenderParsing
  import opened StyleCache
  import P = Params
  import PP = ParserProperties

  // -------------------------------------------------------------------------
  // Frames and hosts
  // -------------------------------------------------------------------------

  /** A cell the loop reproduces: one printable scalar of width 1, no flags, and attributes
      that have codes. */
  predicate NarrowData(c: CellData, width: char -> Width) {
    |c.grapheme| == 1 && PP.IsPrintable(c.grapheme[0]) && width(c.grapheme[0]) == 1
    && c.flags == 0 && Coded(c.attrs)
  }

  predicate NarrowDataRow(cells: seq<CellData>, width: char -> Width) {
    forall i :: 0 <= i < |cells| ==> NarrowData(cells[i], width)
  }

  predicate NarrowFrame(f: Frame, width: char -> Width)
    requires f.Valid()
  {
    forall r :: 0 <= r < f.rows as int ==> NarrowDataRow(f.Row(r), width)
  }

  /** A first or only cell the loop reproduces: one printable scalar of width 1 or 2, flagged
      accordingly, and attributes that have codes. */
  predicate Drawable(c: CellData, width: char -> Width) {
    |c.grapheme| == 1 && PP.IsPrintable(c.grapheme[0]) && width(c.grapheme[0]) >= 1
    && c.flags == width(c.grapheme[0]) - 1 && Coded(c.attrs)
  }

  /** The cell that follows a wide character. */
  function SecondHalf(c: CellData): CellData {
    CellData(" ", c.fg, c.bg, c.attrs, 2)
  }

  predicate WideAt(cells: seq<CellData>, i: int, width: char -> Width) {
    0 <= i && i + 1 < |cells| && Drawable(cells[i], width) && cells[i].flags == 1
  }

  /** The cell is narrow, or one half of a wide character that is followed by the other. */
  predicate ShowableAt(cells: seq<CellData>, i: nat, width: char -> Width)
    requires i < |cells|
  {
    || NarrowData(cells[i], width)
    || (WideAt(cells, i, width) && cells[i + 1] == SecondHalf(cells[i]))
    || (WideAt(cells, i - 1, width) && cells[i] == SecondHalf(cells[i - 1]))
  }

  predicate ShowableRow(cells: seq<CellData>, width: char -> Width) {
    forall i :: 0 <= i < |cells| ==> ShowableAt(cells, i, width)
  }

  predicate ShowableFrame(f: Frame, width: char -> Width)
    requires f.Valid()
  {
    forall r :: 0 <= r < f.rows as int ==> ShowableRow(f.Row(r), width)
  }

  lemma NarrowRowIsShowable(cells: seq<CellData>, width: char -> Width)
    requires NarrowDataRow(cells, width)
    ensures ShowableRow(cells, width)
  {
    hide NarrowData;
  }

  lemma NarrowFrameIsShowable(f: Frame, width: char -> Width)
    requires f.Valid() && NarrowFrame(f, width)
    ensures ShowableFrame(f, width)
  {
    hide NarrowDataRow, ShowableRow, Frame.Row;
    forall r | 0 <= r < f.rows as int ensures ShowableRow(f.Row(r), width) {
      NarrowRowIsShowable(f.Row(r), width);
    }
  }

  /** A terminal that takes output literally: absolute positioning and ASCII, with the given
      current style. */
  ghost predicate Host(t: TerminalState, style: Style) {
    t.Valid() && Origin !in t.modes && t.ActiveCharset() == Ascii && t.grid.cursor.style == style
    && t.grid.cols <= 0xFFFF && t.grid.rows <= 0xFFFF
  }

  predicate RowShows(cells: seq<Cell>, data: seq<CellData>, upTo: nat)
    requires upTo <= |cells| && upTo <= |data|
  {
    forall i :: 0 <= i < upTo ==> CellToData(cells[i]) == data[i]
  }

  /** The screen, read as frame data, is the frame. */
  ghost predicate Shows(g: Grid, f: Frame) {
    && g.Valid() && f.Valid() && g.cols == f.cols && g.rows == f.rows
    && forall r :: 0 <= r < f.rows as int ==> RowShows(g.visible[r].cells, f.Row(r), f.cols)
  }

  // -------------------------------------------------------------------------
  // One cell
  // -------------------------------------------------------------------------

  /** The cursor is at a cell, ready to write there. */
  predicate At(g: Grid, row: nat, col: nat) {
    g.cursor.row == row && g.cursor.col == col && !g.cursor.wrapPending
  }

  lemma CupMoves(t: TerminalState, row: nat, col: nat, style: Style, width: char -> Width)
    requires Host(t, style) && row < t.grid.rows && col < t.grid.cols
    ensures Readable(Cup(col, row))
    ensures HandleAll(t, Events([Cup(col, row)]), width)
            == t.(grid := t.grid.(cursor := MoveTo(t.grid.cursor, col, row)))
  {
    EventsOne(Cup(col, row));
    var ps := P.SaturateAll([row + 1, col + 1]);
    assert ps == [row + 1, col + 1];
    var e := Csi(ps, [], CUP);
    assert EventsOf(Cup(col, row)) == [e];
    hide Events, EventsOf;
    HandleOne(t, e, width);
    CupHandled(t, row, col, style, ps, width);
  }

  lemma CupHandled(t: TerminalState, row: nat, col: nat, style: Style, ps: seq<u16>, width: char -> Width)
    requires Host(t, style) && row < t.grid.rows && col < t.grid.cols && ps == [row + 1, col + 1]
    ensures Handle(t, Csi(ps, [], CUP), width) == t.(grid := t.grid.(cursor := MoveTo(t.grid.cursor, col, row)))
  {
    assert ParamOr(ps, 0, 1) == row + 1 && ParamOr(ps, 1, 1) == col + 1;
  }

  /** Writing a narrow character over a cell that is no continuation changes that cell,
      and the next one only if it was the second half of a wide character. */
  lemma PlaceNarrow(cells: seq<Cell>, col: nat, c: char, style: Style)
    requires col < |cells| && !cells[col].continuation
    ensures var r := PlaceChar(cells, col, c, style, 1);
            && r[col] == Cell([c], style, false, false)
            && (forall i :: 0 <= i < |cells| && i != col && i != col + 1 ==> r[i] == cells[i])
            && (!cells[col].wide ==> r == cells[col := Cell([c], style, false, false)])
  {
  }

  /** Writing a wide character over cells of which the first is no continuation changes these
      two, and the next only if it was the second half of a wide character. */
  lemma PlaceWide(cells: seq<Cell>, col: nat, c: char, style: Style)
    requires col + 1 < |cells| && !cells[col].continuation
    ensures var r := PlaceChar(cells, col, c, style, 2);
            && r[col] == Cell([c], style, true, false) && r[col + 1] == Cell(" ", style, false, true)
            && (forall i :: 0 <= i < col ==> r[i] == cells[i])
  {
  }

  /** A cell written with its own style reads back as itself, and so does its second half. */
  lemma CellReadsBack(d: CellData, width: char -> Width)
    requires Drawable(d, width)
    ensures CellToData(Cell([d.grapheme[0]], HostStyle(StyleOf(d)), d.flags == 1, false)) == d
    ensures CellToData(Cell(" ", HostStyle(StyleOf(d)), false, true)) == SecondHalf(d)
  {
    assert [d.grapheme[0]] == d.grapheme;
    NumbersInverse(0, d.attrs);
  }

  lemma WritesAtCursor(g: Grid, c: char, w: nat)
    requires g.Valid() && !g.cursor.wrapPending && w >= 1 && (w == 2 ==> g.cursor.col + 1 < g.cols)
    ensures WriteChar(g, c, w) == WriteAtCursor(g, c, w)
  {
    hide WriteAtCursor, Cells.HasWidth;
  }

  lemma CharPrints(t: TerminalState, c: char, width: char -> Width)
    requires t.Valid() && PP.IsPrintable(c) && width(c) >= 1
    requires t.ActiveCharset() == Ascii && !t.grid.cursor.wrapPending
    requires width(c) == 2 ==> t.grid.cursor.col + 1 < t.grid.cols
    ensures Readable(Text([c]))
    ensures HandleAll(t, Events([Text([c])]), width) == t.(grid := WriteAtCursor(t.grid, c, width(c)))
  {
    hide WriteChar, WriteAtCursor, Cells.HasWidth;
    EventsOne(Text([c]));
    var e := Printed(c);
    assert Prints([c]) == [e];
    assert [e][1..] == [];
    assert HandleAll(t, [e], width) == Handle(t, e, width);
    WritesAtCursor(t.grid, c, width(c));
  }

  lemma TextPrints(t: TerminalState, d: CellData, width: char -> Width)
    requires t.Valid() && Drawable(d, width) && t.ActiveCharset() == Ascii && !t.grid.cursor.wrapPending
    requires d.flags == 1 ==> t.grid.cursor.col + 1 < t.grid.cols
    ensures Readable(Text(d.grapheme))
    ensures HandleAll(t, Events([Text(d.grapheme)]), width)
         == t.(grid := WriteAtCursor(t.grid, d.grapheme[0], d.flags as int + 1))
  {
    hide HandleAll, Events, WriteAtCursor, Cells.HasWidth;
    assert d.grapheme == [d.grapheme[0]];
    CharPrints(t, d.grapheme[0], width);
  }

  lemma RowLength(g: Grid, row: nat)
    requires g.Valid() && row < g.rows
    ensures |g.visible[row].cells| == g.cols
  {
  }

  /** The column behind a cell, or behind its second half. */
  function Behind(data: seq<CellData>, col: nat): nat
    requires col < |data|
  {
    if data[col].flags == 1 then col + 2 else col + 1
  }

  /** The cell at `col` can be written, with its second half if it is wide. */
  predicate WritableAt(data: seq<CellData>, col: nat, width: char -> Width)
    requires col < |data|
  {
    Drawable(data[col], width)
    && (data[col].flags == 1 ==> col + 1 < |data| && data[col + 1] == SecondHalf(data[col]))
  }

  lemma ShowsOneMore(cells: seq<Cell>, data: seq<CellData>, col: nat, width: char -> Width)
    requires |cells| == |data| && col < |data| && WritableAt(data, col, width)
    requires RowShows(cells, data, col) && !cells[col].continuation
    ensures var d := data[col];
            var r := PlaceChar(cells, col, d.grapheme[0], HostStyle(StyleOf(d)), d.flags as int + 1);
            Behind(data, col) <= |data| && RowShows(r, data, Behind(data, col))
  {
    hide PlaceChar, HostStyle, StyleOf, CellToData;
    var d := data[col];
    if d.flags == 1 {
      PlaceWide(cells, col, d.grapheme[0], HostStyle(StyleOf(d)));
    } else {
      PlaceNarrow(cells, col, d.grapheme[0], HostStyle(StyleOf(d)));
    }
    CellReadsBack(d, width);
  }

  /** What writing one cell of a row does. */
  lemma CellWritten(t: TerminalState, data: seq<CellData>, row: nat, col: nat, width: char -> Width)
    requires |data| == t.grid.cols && col < |data| && row < t.grid.rows && WritableAt(data, col, width)
    requires Host(t, HostStyle(StyleOf(data[col]))) && At(t.grid, row, col)
    requires RowShows(t.grid.visible[row].cells, data, col)
    requires !t.grid.visible[row].cells[col].continuation
    ensures var t' := HandleAll(t, Events([Text(data[col].grapheme)]), width);
            && Host(t', HostStyle(StyleOf(data[col]))) && t'.grid.cols == t.grid.cols && t'.grid.rows == t.grid.rows
            && t'.grid.visible == t.grid.visible[row := t.grid.visible[row].(cells := t'.grid.visible[row].cells)]
            && t'.grid.visible[row].cells
               == PlaceChar(t.grid.visible[row].cells, col, data[col].grapheme[0], HostStyle(StyleOf(data[col])),
                            data[col].flags as int + 1)
            && Behind(data, col) <= |data| && RowShows(t'.grid.visible[row].cells, data, Behind(data, col))
            && (Behind(data, col) < t.grid.cols ==> At(t'.grid, row, Behind(data, col)))
  {
    hide PlaceChar, Cells.HasWidth, HostStyle, StyleOf, RowShows;
    RowLength(t.grid, row);
    TextPrints(t, data[col], width);
    ShowsOneMore(t.grid.visible[row].cells, data, col, width);
  }

  // -------------------------------------------------------------------------
  // Rows
  // -------------------------------------------------------------------------

  /** The rest of a paired row, after a written cell, does not start with a continuation. */
  lemma NextIsNoContinuation(cells: seq<Cell>, data: seq<CellData>, col: nat, width: char -> Width)
    requires Paired(cells) && |cells| == |data| && col < |cells| && RowShows(cells, data, col)
             && ShowableRow(data, width) && !IsContinuationData(data[col])
    ensures !cells[col].continuation
  {
    assert PairedAt(cells, col);
    if col > 0 {
      assert CellToData(cells[col - 1]) == data[col - 1];
      assert ShowableAt(data, col - 1, width) && ShowableAt(data, col, width);
    }
  }

  /** Every cell that is not skipped can be written, and what stands behind it is not skipped. */
  lemma ShowableIsWritable(data: seq<CellData>, col: nat, width: char -> Width)
    requires ShowableRow(data, width) && col < |data| && !IsContinuationData(data[col])
    ensures WritableAt(data, col, width)
    ensures Behind(data, col) < |data| ==> !IsContinuationData(data[Behind(data, col)])
    ensures data[col].flags == 1 ==> IsContinuationData(data[col + 1])
  {
    assert ShowableAt(data, col, width);
    if Behind(data, col) < |data| {
      assert ShowableAt(data, Behind(data, col), width);
    }
  }

  /** Take the host to the style of a cell, moving to it first when asked. */
  lemma StyledAt(t: TerminalState, row: nat, col: nat, last: RenderedStyle, d: CellData, positioned: bool,
          width: char -> Width)
    requires Host(t, HostStyle(last)) && Within(last.attrs, MAPPED) && Coded(d.attrs)
    requires row < t.grid.rows && col < t.grid.cols && (positioned || At(t.grid, row, col))
    ensures var ts := (if positioned then [Cup(col, row)] else []) + EmitSgr(last, StyleOf(d));
            var t' := HandleAll(t, Events(ts), width);
            && AllReadable(ts)
            && Host(t', HostStyle(StyleOf(d))) && At(t'.grid, row, col)
            && t'.grid.visible == t.grid.visible && t'.grid.cols == t.grid.cols && t'.grid.rows == t.grid.rows
  {
    hide Handle, HandleAll, EmitSgr, Interpret, HostStyle, StyleOf, AllSgr, Cells.HasWidth;
    var move := if positioned then [Cup(col, row)] else [];
    var sgr := EmitSgr(last, StyleOf(d));
    assert Within(StyleOf(d).attrs, MAPPED) by { CodedIsMapped(d); }
    EmitSgrStyle(last, last);
    EmitSgrStyle(last, StyleOf(d));
    var t1 := HandleAll(t, Events(move), width);
    if positioned {
      CupMoves(t, row, col, HostStyle(last), width);
    } else {
      NothingHandled(t, width);
    }
    SgrTokensHandled(t1, sgr, width);
    EventsConcat(move, sgr);
    HandleAllConcat(t, Events(move), Events(sgr), width);
    ReadableConcat(move, sgr);
  }

  lemma CodedIsMapped(d: CellData)
    requires Coded(d.attrs)
    ensures Within(StyleOf(d).attrs, MAPPED)
  {
    NineBits(d.attrs);
  }

  lemma NothingHandled(t: TerminalState, width: char -> Width)
    requires t.Valid()
    ensures HandleAll(t, Events([]), width) == t
  {
  }

  /** One step along a row. */
  lemma RowStep(t: TerminalState, data: seq<CellData>, row: nat, col: nat, last: RenderedStyle, positioned: bool,
          width: char -> Width)
    requires Host(t, HostStyle(last)) && Within(last.attrs, MAPPED)
    requires row < t.grid.rows && |data| == t.grid.cols && col < |data| && ShowableRow(data, width)
    requires !IsContinuationData(data[col])
    requires Paired(t.grid.visible[row].cells) && RowShows(t.grid.visible[row].cells, data, col)
    requires positioned || At(t.grid, row, col)
    ensures var ts := (if positioned then [Cup(col, row)] else []) + EmitSgr(last, StyleOf(data[col]))
              + [Text(data[col].grapheme)];
            var t' := HandleAll(t, Events(ts), width);
            && AllReadable(ts)
            && Host(t', HostStyle(StyleOf(data[col]))) && t'.grid.cols == t.grid.cols && t'.grid.rows == t.grid.rows
            && t'.grid.visible == t.grid.visible[row := t.grid.visible[row].(cells := t'.grid.visible[row].cells)]
            && Paired(t'.grid.visible[row].cells)
            && Behind(data, col) <= |data| && RowShows(t'.grid.visible[row].cells, data, Behind(data, col))
            && (Behind(data, col) < t.grid.cols ==> At(t'.grid, row, Behind(data, col)))
  {
    hide Handle, HandleAll, EmitSgr, HostStyle, Paired, StyleOf, PlaceChar, Readable, Cells.HasWidth, RowShows,
      ShowableRow;
    var d := data[col];
    var first := (if positioned then [Cup(col, row)] else []) + EmitSgr(last, StyleOf(d));
    var text := [Text(d.grapheme)];
    RowLength(t.grid, row);
    ShowableIsWritable(data, col, width);
    NextIsNoContinuation(t.grid.visible[row].cells, data, col, width);
    StyledAt(t, row, col, last, d, positioned, width);
    var t1 := HandleAll(t, Events(first), width);
    CellWritten(t1, data, row, col, width);
    PlaceCharPaired(t.grid.visible[row].cells, col, d.grapheme[0], HostStyle(StyleOf(d)), d.flags as int + 1);
    TextPrints(t1, d, width);
    EventsConcat(first, text);
    HandleAllConcat(t, Events(first), Events(text), width);
    ReadableConcat(first, text);
  }

  /** The tokens of a row from a cell that is not skipped. */
  lemma RowTokensStep(data: seq<CellData>, row: nat, col: nat, last: RenderedStyle, positioned: bool,
          width: char -> Width)
    requires col < |data| && ShowableRow(data, width) && !IsContinuationData(data[col])
    ensures var style := StyleOf(data[col]);
            var cup := if positioned then [Cup(col, row)] else [];
            var here := cup + EmitSgr(last, style) + [Text(data[col].grapheme)];
            Behind(data, col) <= |data|
            && RowTokens(data, row, col, last, positioned)
               == (var (rest, end) := RowTokens(data, row, Behind(data, col), style, positioned); (here + rest, end))
  {
    hide EmitSgr, ShowableRow, WritableAt, Drawable;
    ShowableIsWritable(data, col, width);
  }

  /** Writing a row over any paired row shows exactly those cells there, wide characters
      included, and leaves the other rows alone. */
  lemma {:induction false} RowWritten(t: TerminalState, data: seq<CellData>, row: nat, col: nat, last: RenderedStyle,
                                      positioned: bool, width: char -> Width)
    requires Host(t, HostStyle(last)) && Within(last.attrs, MAPPED)
    requires row < t.grid.rows && |data| == t.grid.cols && col <= |data| && ShowableRow(data, width)
    requires col < |data| ==> !IsContinuationData(data[col])
    requires Paired(t.grid.visible[row].cells) && RowShows(t.grid.visible[row].cells, data, col)
    requires positioned || col == |data| || At(t.grid, row, col)
    ensures var (ts, end) := RowTokens(data, row, col, last, positioned);
            var t' := HandleAll(t, Events(ts), width);
            && AllReadable(ts) && Within(end.attrs, MAPPED)
            && Host(t', HostStyle(end)) && t'.grid.cols == t.grid.cols && t'.grid.rows == t.grid.rows
            && t'.grid.visible == t.grid.visible[row := t.grid.visible[row].(cells := t'.grid.visible[row].cells)]
            && RowShows(t'.grid.visible[row].cells, data, |data|)
    decreases |data| - col
  {
    hide Handle, HandleAll, EmitSgr, HostStyle, Paired, Readable, Cells.HasWidth, RowShows, ShowableRow;
    if col == |data| {
      NothingHandled(t, width);
      assert t.grid.visible[row := t.grid.visible[row]] == t.grid.visible;
    } else {
      RowStep(t, data, row, col, last, positioned, width);
      RowTokensStep(data, row, col, last, positioned, width);
      ShowableIsWritable(data, col, width);
      CodedIsMapped(data[col]);
      hide RowTokens;
      var style, next := StyleOf(data[col]), Behind(data, col);
      var here := (if positioned then [Cup(col, row)] else []) + EmitSgr(last, style) + [Text(data[col].grapheme)];
      var t1 := HandleAll(t, Events(here), width);
      RowWritten(t1, data, row, next, style, positioned, width);
      var rest := RowTokens(data, row, next, style, positioned).0;
      EventsConcat(here, rest);
      HandleAllConcat(t, Events(here), Events(rest), width);
      ReadableConcat(here, rest);
    }
  }
}
