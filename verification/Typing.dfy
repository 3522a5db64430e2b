/** Typing text and wrapping it are one thing: what a terminal shows after printing lines of
    characters of one or two columns is those lines wrapped at its width, so that printing narrow
    text at one width and resizing to another shows what printing at the other shows. */
module Typing {
  import opened Common
  import opened Styles
  import opened Cells
  import opened Grids
  import opened GridProperties
  import opened Parser
  import opened Terminals
  import S = Scrollback
  import R = Reflow
  import RP = ReflowProperties
  import RT = ReflowText
  import PP = ParserProperties
  import Sequences
  import Utf8

  // -------------------------------------------------------------------------
  // Filling rows glyph by glyph
  // -------------------------------------------------------------------------

  /** The cells of a character in the default style: one, or two for a wide one. */
  function GlyphOf(c: char, width: char -> Width): (glyph: seq<Cell>)
    ensures 1 <= |glyph| <= 2
  {
    R.Glyph(Cell([c], PLAIN, width(c) == 2, false))
  }

  function GlyphsOf(text: string, width: char -> Width): seq<Cell> {
    if text == [] then [] else GlyphOf(text[0], width) + GlyphsOf(text[1..], width)
  }

  /** Every character takes one or two columns, and not more than there are. */
  predicate Showable(text: string, width: char -> Width, n: nat) {
    forall i :: 0 <= i < |text| ==> 1 <= width(text[i]) <= 2 && width(text[i]) <= n
  }

  /** One more glyph goes behind the last segment, or into a new one when it does not fit. */
  function Put(segments: seq<seq<Cell>>, glyph: seq<Cell>, n: nat): (r: seq<seq<Cell>>)
    requires segments != [] && R.AllFit(segments, n) && |glyph| <= n
    ensures R.AllFit(r, n) && |r| >= |segments|
  {
    var last := segments[|segments| - 1];
    if |last| + |glyph| <= n then segments[|segments| - 1 := last + glyph] else segments + [glyph]
  }

  function PutAll(segments: seq<seq<Cell>>, text: string, width: char -> Width, n: nat): (r: seq<seq<Cell>>)
    requires segments != [] && R.AllFit(segments, n) && Showable(text, width, n)
    ensures r != [] && R.AllFit(r, n) && |r| >= |segments|
    decreases text
  {
    if text == [] then segments
    else PutAll(Put(segments, GlyphOf(text[0], width), n), text[1..], width, n)
  }

  /** The segments that reflow makes of the rest of a line. */
  function Rest(line: seq<Cell>, cells: seq<Cell>, n: nat): seq<seq<Cell>>
    requires n > 0 && |line| <= n
  {
    if |line| == n then [line] + R.Segments(cells, n, [])
    else if line == [] && cells == [] then [[]]
    else R.Segments(cells, n, line)
  }

  lemma SegmentsOfGlyph(line: seq<Cell>, c: char, rest: seq<Cell>, width: char -> Width, n: nat)
    requires |line| < n && 1 <= width(c) <= 2 && width(c) <= n
    ensures var glyph := GlyphOf(c, width);
            R.Segments(glyph + rest, n, line)
            == if |line| + |glyph| < n then R.Segments(rest, n, line + glyph)
               else if |line| + |glyph| == n then [line + glyph] + R.Segments(rest, n, [])
               else [line] + R.Segments(glyph + rest, n, [])
  {
    var cells := GlyphOf(c, width) + rest;
    assert cells[0] == Cell([c], PLAIN, width(c) == 2, false);
    assert R.AfterGlyph(cells) == rest;
  }

  lemma RestOfGlyph(line: seq<Cell>, c: char, rest: seq<Cell>, width: char -> Width, n: nat)
    requires |line| <= n && 1 <= width(c) <= 2 && width(c) <= n
    ensures |GlyphOf(c, width)| == width(c)
    ensures var glyph := GlyphOf(c, width);
            Rest(line, glyph + rest, n)
            == if |line| + |glyph| <= n then Rest(line + glyph, rest, n) else [line] + Rest(glyph, rest, n)
  {
    hide R.Segments;
    var glyph := GlyphOf(c, width);
    assert [] + glyph == glyph;
    SegmentsOfGlyph([], c, rest, width, n);
    if |line| < n {
      SegmentsOfGlyph(line, c, rest, width, n);
    }
  }

  /** Filling rows glyph by glyph makes the segments that reflow makes of the whole line. */
  lemma {:induction false} PutAllIsRest(done: seq<seq<Cell>>, line: seq<Cell>, text: string, width: char -> Width,
          n: nat)
    requires n > 0 && R.AllFit(done + [line], n) && |line| <= n && Showable(text, width, n)
    ensures PutAll(done + [line], text, width, n) == done + Rest(line, GlyphsOf(text, width), n)
    decreases text
  {
    hide R.Segments, Rest, GlyphOf;
    if text == [] {
      NothingLeft(line, n);
    } else {
      var glyph := GlyphOf(text[0], width);
      RestOfGlyph(line, text[0], GlyphsOf(text[1..], width), width, n);
      if |line| + |glyph| <= n {
        assert Put(done + [line], glyph, n) == done + [line + glyph];
        PutAllIsRest(done, line + glyph, text[1..], width, n);
      } else {
        assert Put(done + [line], glyph, n) == (done + [line]) + [glyph];
        PutAllIsRest(done + [line], glyph, text[1..], width, n);
        assert (done + [line]) + Rest(glyph, GlyphsOf(text[1..], width), n)
            == done + ([line] + Rest(glyph, GlyphsOf(text[1..], width), n));
      }
    }
  }

  lemma NothingLeft(line: seq<Cell>, n: nat)
    requires n > 0 && |line| <= n
    ensures Rest(line, [], n) == [line]
  {
  }

  lemma PutAllIsWrapped(text: string, width: char -> Width, n: nat)
    requires n > 0 && Showable(text, width, n)
    ensures PutAll([[]], text, width, n) == R.LineSegments(GlyphsOf(text, width), n)
  {
    var none: seq<seq<Cell>> := [];
    assert none + [[]] == [[]];
    PutAllIsRest(none, [], text, width, n);
  }

  // -------------------------------------------------------------------------
  // The tape under the cursor
  // -------------------------------------------------------------------------

  lemma TapeOfRow(g: Grid, row: Row)
    requires g.Valid()
    ensures |Tape(g)| == |g.history.rows| + g.rows && TapeRow(g) < |Tape(g)|
    ensures Tape(g)[TapeRow(g)] == g.visible[g.cursor.row]
    ensures Tape(g.(visible := g.visible[g.cursor.row := row])) == Tape(g)[TapeRow(g) := row]
  {
  }

  /** The whole primary screen scrolls, lines wrap, and what is written has the default style. */
  predicate Plain(g: Grid) {
    g.alternate.None? && g.top == 0 && g.bottom == g.rows - 1 && AutoWrap in g.modes && g.cursor.style == PLAIN
  }

  /** Same but for what the tape holds and where the cursor is. */
  predicate SameSetting(g: Grid, r: Grid) {
    r == g.(visible := r.visible, cursor := r.cursor, history := r.history)
    && r.history.maxLines == g.history.maxLines
    && r.cursor.style == g.cursor.style && r.cursor.visible == g.cursor.visible
  }

  lemma PlacedBehind(line: seq<Cell>, c: char, width: char -> Width, n: nat)
    requires 1 <= width(c) <= 2 && |line| + width(c) <= n
    ensures |GlyphOf(c, width)| == width(c)
    ensures PlaceChar(R.Pad(line, n), |line|, c, PLAIN, width(c)) == R.Pad(line + GlyphOf(c, width), n)
  {
  }

  /** Writing behind a line changes the row of the tape under the cursor and moves on. */
  lemma GlyphWritten(g: Grid, line: seq<Cell>, c: char, width: char -> Width)
    requires g.Valid() && Plain(g) && !g.cursor.wrapPending && 1 <= width(c) <= 2
    requires g.cursor.col == |line| && |line| + width(c) <= g.cols
    requires g.visible[g.cursor.row] == Row(R.Pad(line, g.cols), false)
    ensures var r, end := WriteAtCursor(g, c, width(c)), |line| + width(c);
            && r == g.(visible := r.visible, cursor := r.cursor)
            && |line + GlyphOf(c, width)| == end
            && Tape(r) == Tape(g)[TapeRow(g) := Row(R.Pad(line + GlyphOf(c, width), g.cols), false)]
            && r.cursor == g.cursor.(col := if end >= g.cols then g.cols - 1 else end, wrapPending := end >= g.cols)
  {
    PlacedBehind(line, c, width, g.cols);
    hide PlaceChar, R.Pad, GlyphOf;
    TapeOfRow(g, Row(R.Pad(line + GlyphOf(c, width), g.cols), false));
  }

  /** Going down one row of the tape, which a scroll appends if the cursor was on the last. */
  lemma DownTheTape(g: Grid)
    requires g.Valid() && Plain(g) && (g.cursor.row == g.rows - 1 ==> |g.history.rows| < g.history.maxLines)
    ensures var r := AdvanceRowForWrap(g);
            && SameSetting(g, r) && r.cursor == g.cursor.(row := r.cursor.row) && TapeRow(r) == TapeRow(g) + 1
            && (if g.cursor.row == g.rows - 1 then
                  Tape(r) == Tape(g) + BlankRows(1, g.cols) && |r.history.rows| == |g.history.rows| + 1
                else Tape(r) == Tape(g) && |r.history.rows| == |g.history.rows|)
  {
    hide HasWidth, ScrolledUp, Reverse, BlankRows;
    if g.cursor.row == g.rows - 1 {
      ScrollUpExtendsTape(g, 1);
      assert (Tape(g) + BlankRows(1, g.cols))[0..] == Tape(g) + BlankRows(1, g.cols);
      PushAllKeepsMax(g.history, g.visible[..1]);
      hide S.PushAll, Tape;
      TapeOfRow(ScrollUpIn(g, 1, g.top, g.bottom), g.visible[0]);
      TapeOfRow(g, g.visible[0]);
    }
  }

  // -------------------------------------------------------------------------
  // What has been typed
  // -------------------------------------------------------------------------

  /** The rows of the finished lines and of the line being typed. */
  function RowsOf(before: seq<Row>, segments: seq<seq<Cell>>, n: nat): (rows: seq<Row>)
    requires R.AllFit(segments, n)
    ensures |rows| == |before| + |segments|
  {
    before + R.SegmentRows(segments, n)
  }

  /** History and screen together are these rows and then blank ones. */
  ghost predicate Holds(g: Grid, rows: seq<Row>) {
    && g.Valid() && |rows| <= |Tape(g)| && Tape(g) == rows + BlankRows(|Tape(g)| - |rows|, g.cols)
    && |g.history.rows| == SaturatingSub(|rows|, g.rows)
  }

  /** The cursor is behind the last segment, or parked on the last column when that is full. */
  ghost predicate Typed(g: Grid, before: seq<Row>, segments: seq<seq<Cell>>) {
    && segments != [] && R.AllFit(segments, g.cols) && Plain(g)
    && Holds(g, RowsOf(before, segments, g.cols))
    && TapeRow(g) == |before| + |segments| - 1
    && var k := |segments[|segments| - 1]|;
       g.cursor.wrapPending == (k == g.cols) && g.cursor.col == if k == g.cols then g.cols - 1 else k
  }

  lemma CurrentRow(g: Grid, before: seq<Row>, segments: seq<seq<Cell>>)
    requires Typed(g, before, segments)
    ensures g.visible[g.cursor.row] == Row(R.Pad(segments[|segments| - 1], g.cols), false)
  {
    TapeOfRow(g, g.visible[g.cursor.row]);
  }

  /** The glyph fits into the row. */
  lemma TypeInRow(g: Grid, before: seq<Row>, segments: seq<seq<Cell>>, c: char, width: char -> Width)
    requires Typed(g, before, segments) && 1 <= width(c) <= 2
    requires |segments[|segments| - 1]| + width(c) <= g.cols
    ensures var r := WriteChar(g, c, width(c));
            |GlyphOf(c, width)| == width(c)
            && Typed(r, before, Put(segments, GlyphOf(c, width), g.cols)) && SameSetting(g, r)
  {
    hide HasWidth, WriteAtCursor, BlankRows, R.Pad, Tape;
    var line := segments[|segments| - 1];
    CurrentRow(g, before, segments);
    GlyphWritten(g, line, c, width);
    LastRowChanges(before, segments, GlyphOf(c, width), g.cols, BlankRows(|Tape(g)| - |before| - |segments|, g.cols));
  }

  lemma LastRowChanges(before: seq<Row>, segments: seq<seq<Cell>>, glyph: seq<Cell>, n: nat, blanks: seq<Row>)
    requires segments != [] && R.AllFit(segments, n) && |segments[|segments| - 1]| + |glyph| <= n
    ensures var line := segments[|segments| - 1];
            (RowsOf(before, segments, n) + blanks)[|before| + |segments| - 1 := Row(R.Pad(line + glyph, n), false)]
            == RowsOf(before, Put(segments, glyph, n), n) + blanks
  {
    hide R.Pad;
  }

  /** There is room for one row more. */
  predicate HasRoom(g: Grid, before: seq<Row>, segments: seq<seq<Cell>>) {
    |before| + |segments| + 1 <= g.history.maxLines + g.rows
  }

  lemma MarkedTape(g: Grid, before: seq<Row>, segments: seq<seq<Cell>>)
    requires Typed(g, before, segments)
    ensures var m := MarkSoftWrapped(g, g.cursor.row);
            && SameSetting(g, m) && m.cursor == g.cursor && m.history == g.history
            && Tape(m) + BlankRows(1, g.cols)
               == RowsOf(before, segments + [[]], g.cols) + BlankRows(|Tape(g)| - |before| - |segments|, g.cols)
  {
    hide HasWidth, Tape, R.Pad;
    CurrentRow(g, before, segments);
    var n, k := g.cols, |Tape(g)| - |before| - |segments|;
    var last := Row(R.Pad(segments[|segments| - 1], n), true);
    TapeOfRow(g, last);
    assert g.visible[g.cursor.row].(softWrapped := true) == last;
    LastRowMarked(before, segments, n, BlankRows(k, n));
    MoreBlanks(RowsOf(before, segments, n)[|before| + |segments| - 1 := last], k, n);
  }

  lemma LastRowMarked(before: seq<Row>, segments: seq<seq<Cell>>, n: nat, blanks: seq<Row>)
    requires segments != [] && R.AllFit(segments, n)
    ensures R.AllFit(segments + [[]], n)
    ensures var last := Row(R.Pad(segments[|segments| - 1], n), true);
            var marked := RowsOf(before, segments, n)[|before| + |segments| - 1 := last];
            (RowsOf(before, segments, n) + blanks)[|before| + |segments| - 1 := last] == marked + blanks
            && marked + [BlankRow(n)] == RowsOf(before, segments + [[]], n)
  {
    assert R.Pad([], n) == BlankRow(n).cells;
  }

  lemma MoreBlanks(rows: seq<Row>, k: nat, n: nat)
    ensures rows + BlankRows(k, n) + BlankRows(1, n) == rows + [BlankRow(n)] + BlankRows(k, n)
  {
  }

  lemma OneBlankLess(tape: seq<Row>, rows: seq<Row>, k: nat, n: nat)
    requires k > 0 && tape + BlankRows(1, n) == rows + BlankRows(k, n)
    ensures tape == rows + BlankRows(k - 1, n)
  {
    assert tape == (tape + BlankRows(1, n))[..|tape|];
    assert rows + BlankRows(k - 1, n) == (rows + BlankRows(k, n))[..|rows| + k - 1];
  }

  lemma WrapShape(g: Grid)
    requires g.Valid()
    ensures var r := SoftWrap(g);
            r == g.(visible := r.visible, history := r.history, cursor := g.cursor.(row := r.cursor.row, col := 0))
  {
    hide HasWidth, S.PushAll, ScrolledUp;
  }

  lemma WrappedTape(g: Grid, before: seq<Row>, segments: seq<seq<Cell>>)
    requires Typed(g, before, segments) && HasRoom(g, before, segments)
    ensures var r := Unparked(SoftWrap(g));
            && SameSetting(g, r) && TapeRow(r) == TapeRow(g) + 1
            && Holds(r, RowsOf(before, segments + [[]], g.cols))
  {
    hide HasWidth, Tape, R.Pad, BlankRows, AdvanceRowForWrap, R.SegmentRows;
    var m, k := MarkSoftWrapped(g, g.cursor.row), |Tape(g)| - |before| - |segments|;
    MarkedTape(g, before, segments);
    DownTheTape(m);
    TapeOfRow(g, g.visible[0]);
    TapeOfRow(m, m.visible[0]);
    var r := Unparked(SoftWrap(g));
    TapeOfRow(r, r.visible[0]);
    SameTapeElsewhere(r, AdvanceRowForWrap(m));
    if g.cursor.row != g.rows - 1 {
      OneBlankLess(Tape(m), RowsOf(before, segments + [[]], g.cols), k, g.cols);
    }
  }

  /** A soft wrap begins an empty segment on the next row. */
  lemma WrapTyped(g: Grid, before: seq<Row>, segments: seq<seq<Cell>>)
    requires Typed(g, before, segments) && HasRoom(g, before, segments)
    ensures var r := Unparked(SoftWrap(g));
            Typed(r, before, segments + [[]]) && SameSetting(g, r)
  {
    WrapShape(g);
    hide Tape, SoftWrap, Holds, RowsOf;
    WrappedTape(g, before, segments);
  }

  /** The tape does not depend on the cursor. */
  lemma SameTapeElsewhere(a: Grid, b: Grid)
    requires a == b.(cursor := a.cursor)
    ensures Tape(a) == Tape(b)
  {
  }

  /** The glyph goes to the next row, whether a wrap was pending or the last column is left
      blank because it is wide. */
  lemma TypeInNextRow(g: Grid, before: seq<Row>, segments: seq<seq<Cell>>, c: char, width: char -> Width)
    requires Typed(g, before, segments) && 1 <= width(c) <= 2 && width(c) <= g.cols
    requires |segments[|segments| - 1]| + width(c) > g.cols && HasRoom(g, before, segments)
    ensures var r := WriteChar(g, c, width(c));
            |GlyphOf(c, width)| == width(c)
            && Typed(r, before, Put(segments, GlyphOf(c, width), g.cols)) && SameSetting(g, r)
  {
    hide HasWidth, Tape, R.Pad, BlankRows, WriteAtCursor, SoftWrap;
    WrapTyped(g, before, segments);
    var b := Unparked(SoftWrap(g));
    TypeInRow(b, before, segments + [[]], c, width);
    NextRowIsWrapped(g, before, segments, c, width(c));
    var glyph := GlyphOf(c, width);
    assert [] + glyph == glyph;
    assert Put(segments + [[]], glyph, g.cols) == segments + [glyph];
  }

  lemma NextRowIsWrapped(g: Grid, before: seq<Row>, segments: seq<seq<Cell>>, c: char, w: nat)
    requires Typed(g, before, segments) && 1 <= w <= 2 && w <= g.cols && |segments[|segments| - 1]| + w > g.cols
    ensures SoftWrap(g).cursor.col == 0
    ensures WriteChar(g, c, w) == WriteChar(Unparked(SoftWrap(g)), c, w)
  {
    hide HasWidth, WriteAtCursor, SoftWrap, RowsOf, BlankRows, FillLastCell;
    WrapShape(g);
    if !g.cursor.wrapPending {
      CurrentRow(g, before, segments);
      LastIsBlank(g, segments[|segments| - 1]);
    }
  }

  lemma LastIsBlank(g: Grid, line: seq<Cell>)
    requires g.Valid() && |line| + 1 == g.cols && g.cursor.col == |line|
    requires g.visible[g.cursor.row] == Row(R.Pad(line, g.cols), false)
    ensures FillLastCell(g) == g
  {
    var row := g.visible[g.cursor.row];
    assert row.cells[|line| := BLANK] == row.cells;
    assert g.visible[g.cursor.row := row] == g.visible;
  }

  // -------------------------------------------------------------------------
  // Typing lines
  // -------------------------------------------------------------------------

  const CR: byte := 0x0D
  const LF: byte := 0x0A

  /** Carriage return and line feed: the start of the next row. */
  function NewLine(g: Grid): (r: Grid)
    requires g.Valid()
    ensures r.Valid()
  {
    LineFeed(SetCursor(g, 0, g.cursor.row))
  }

  lemma LineFeedGoesDown(g: Grid)
    requires g.Valid() && Plain(g)
    ensures LineFeed(g) == Unparked(AdvanceRowForWrap(g))
  {
    hide HasWidth, S.PushAll, ScrolledUp;
  }

  lemma NewLineTyped(g: Grid, before: seq<Row>, segments: seq<seq<Cell>>)
    requires Typed(g, before, segments) && HasRoom(g, before, segments)
    ensures var r := NewLine(g);
            Typed(r, RowsOf(before, segments, g.cols), [[]]) && SameSetting(g, r)
  {
    hide HasWidth, Tape, R.Pad, BlankRows, AdvanceRowForWrap, LineFeed;
    var h, r := SetCursor(g, 0, g.cursor.row), NewLine(g);
    var rows, k := RowsOf(before, segments, g.cols), |Tape(g)| - |before| - |segments|;
    LineFeedGoesDown(h);
    DownTheTape(h);
    SameTapeElsewhere(h, g);
    TapeOfRow(g, g.visible[0]);
    TapeOfRow(r, r.visible[0]);
    SameTapeElsewhere(r, AdvanceRowForWrap(h));
    EmptyRow(rows, g.cols);
    MoreBlanks(rows, k, g.cols);
    if g.cursor.row != g.rows - 1 {
      OneBlankLess(Tape(g), RowsOf(rows, [[]], g.cols), k, g.cols);
    }
  }

  lemma EmptyRow(rows: seq<Row>, n: nat)
    ensures R.AllFit([[]], n) && RowsOf(rows, [[]], n) == rows + [BlankRow(n)]
  {
    assert R.Pad([], n) == BlankRow(n).cells;
  }

  lemma PrintOne(t: TerminalState, c: char, width: char -> Width)
    requires t.Valid() && t.ActiveCharset() == Ascii
    ensures Handle(t, Printed(c), width) == t.(grid := WriteChar(t.grid, c, width(c)))
  {
    hide WriteChar;
  }

  /** Printing a text puts its glyphs one behind the other. */
  lemma {:induction false} TypeText(t: TerminalState, before: seq<Row>, segments: seq<seq<Cell>>, text: string,
          width: char -> Width)
    requires t.Valid() && t.ActiveCharset() == Ascii && Typed(t.grid, before, segments)
    requires Showable(text, width, t.grid.cols)
    requires |before| + |PutAll(segments, text, width, t.grid.cols)| <= t.grid.history.maxLines + t.grid.rows
    ensures var r := HandleAll(t, Prints(text), width);
            && Typed(r.grid, before, PutAll(segments, text, width, t.grid.cols))
            && SameSetting(t.grid, r.grid) && r == t.(grid := r.grid)
    decreases text
  {
    hide WriteChar, Handle, Holds, Plain, RowsOf, Put, GlyphOf;
    if text != [] {
      GlyphSize(text[0], width);
      PrintOne(t, text[0], width);
      TypeOne(t.grid, before, segments, text[0], width);
      assert Prints(text)[1..] == Prints(text[1..]);
      TypeText(Handle(t, Printed(text[0]), width), before, Put(segments, GlyphOf(text[0], width), t.grid.cols),
        text[1..], width);
    }
  }

  lemma TypeOne(g: Grid, before: seq<Row>, segments: seq<seq<Cell>>, c: char, width: char -> Width)
    requires Typed(g, before, segments) && 1 <= width(c) <= 2 && width(c) <= g.cols
    requires |before| + |Put(segments, GlyphOf(c, width), g.cols)| <= g.history.maxLines + g.rows
    ensures var r := WriteChar(g, c, width(c));
            Typed(r, before, Put(segments, GlyphOf(c, width), g.cols)) && SameSetting(g, r)
  {
    hide WriteChar, Tape, RowsOf;
    if |segments[|segments| - 1]| + width(c) <= g.cols {
      TypeInRow(g, before, segments, c, width);
    } else {
      GlyphSize(c, width);
      TypeInNextRow(g, before, segments, c, width);
    }
  }

  lemma GlyphSize(c: char, width: char -> Width)
    requires 1 <= width(c) <= 2
    ensures |GlyphOf(c, width)| == width(c)
  {
  }

  /** The lines with CR LF between them, as bytes and as what the parser makes of them. */
  function Keys(lines: seq<string>): seq<byte>
    requires lines != []
  {
    if |lines| == 1 then Utf8.Encode(lines[0]) else Utf8.Encode(lines[0]) + [CR, LF] + Keys(lines[1..])
  }

  function KeyEvents(lines: seq<string>): seq<Event>
    requires lines != []
  {
    if |lines| == 1 then Prints(lines[0])
    else Prints(lines[0]) + [Executed(CR), Executed(LF)] + KeyEvents(lines[1..])
  }

  predicate AllPrintable(lines: seq<string>) {
    forall i :: 0 <= i < |lines| ==> PP.AllPrintable(lines[i])
  }

  predicate AllShowable(lines: seq<string>, width: char -> Width, n: nat) {
    forall i :: 0 <= i < |lines| ==> Showable(lines[i], width, n)
  }

  /** The lines as cells. */
  function GlyphLines(lines: seq<string>, width: char -> Width): seq<seq<Cell>> {
    if lines == [] then [] else [GlyphsOf(lines[0], width)] + GlyphLines(lines[1..], width)
  }

  lemma {:induction false} KeysRun(m: Machine, lines: seq<string>)
    requires m.Valid() && m.Idle() && lines != [] && AllPrintable(lines)
    ensures Run(m, Keys(lines)) == (m, KeyEvents(lines))
    decreases lines
  {
    hide Run, PP.AllPrintable, Utf8.Encode, Prints;
    PP.TextPrintsItself(m, lines[0]);
    if |lines| > 1 {
      KeysRun(m, lines[1..]);
      Sequences.ControlActsInside(m, CR);
      Sequences.ControlActsInside(m, LF);
      PP.RunThen(m, [CR], m, [Executed(CR)], [LF], m, [Executed(LF)]);
      assert [CR] + [LF] == [CR, LF] && [Executed(CR)] + [Executed(LF)] == [Executed(CR), Executed(LF)];
      PP.RunThen(m, Utf8.Encode(lines[0]), m, Prints(lines[0]), [CR, LF], m, [Executed(CR), Executed(LF)]);
      PP.RunThen(m, Utf8.Encode(lines[0]) + [CR, LF], m, Prints(lines[0]) + [Executed(CR), Executed(LF)],
        Keys(lines[1..]), m, KeyEvents(lines[1..]));
    }
  }

  lemma ControlsHandled(t: TerminalState, width: char -> Width)
    requires t.Valid()
    ensures Handle(t, Executed(CR), width) == t.(grid := SetCursor(t.grid, 0, t.grid.cursor.row))
    ensures Handle(t, Executed(LF), width) == t.(grid := LineFeed(t.grid))
  {
    hide LineFeed, HasWidth;
  }

  lemma NewLineHandled(t: TerminalState, width: char -> Width)
    requires t.Valid()
    ensures HandleAll(t, [Executed(CR), Executed(LF)], width) == t.(grid := NewLine(t.grid))
  {
    ControlsHandled(t, width);
    var t1 := Handle(t, Executed(CR), width);
    ControlsHandled(t1, width);
    hide Handle, LineFeed, HandleAll, SetCursor;
    TwoHandled(t, Executed(CR), Executed(LF), width);
  }

  /** The rows above the line being typed after all of some lines. */
  function RowsAbove(before: seq<Row>, lines: seq<string>, width: char -> Width, n: nat): seq<Row>
    requires n > 0 && lines != []
    decreases lines
  {
    if |lines| == 1 then before
    else RowsAbove(before + R.Rewrap(GlyphsOf(lines[0], width), n), lines[1..], width, n)
  }

  lemma LinesRewrapped(lines: seq<string>, width: char -> Width, n: nat)
    requires n > 0 && lines != []
    ensures R.RewrapAll(GlyphLines(lines, width), n)
         == R.Rewrap(GlyphsOf(lines[0], width), n) + R.RewrapAll(GlyphLines(lines[1..], width), n)
  {
    hide R.Rewrap, GlyphsOf;
    assert GlyphLines(lines, width)[1..] == GlyphLines(lines[1..], width);
  }

  lemma {:induction false} RowsAboveAndLast(before: seq<Row>, lines: seq<string>, width: char -> Width, n: nat)
    requires n > 0 && lines != []
    ensures RowsAbove(before, lines, width, n) + R.Rewrap(GlyphsOf(lines[|lines| - 1], width), n)
         == before + R.RewrapAll(GlyphLines(lines, width), n)
    decreases lines
  {
    hide R.Rewrap, GlyphsOf, R.RewrapAll, GlyphLines;
    var first, rest := R.Rewrap(GlyphsOf(lines[0], width), n), R.RewrapAll(GlyphLines(lines[1..], width), n);
    LinesRewrapped(lines, width, n);
    if |lines| == 1 {
      assert rest == [] by { NoLines(width, n); }
      assert first + [] == first;
    } else {
      assert lines[1..][|lines[1..]| - 1] == lines[|lines| - 1];
      RowsAboveAndLast(before + first, lines[1..], width, n);
      assert before + first + rest == before + (first + rest);
    }
  }

  lemma NoLines(width: char -> Width, n: nat)
    requires n > 0
    ensures R.RewrapAll(GlyphLines([], width), n) == []
  {
  }

  /** Typing lines one below the other. */
  lemma {:induction false} TypeLines(t: TerminalState, before: seq<Row>, lines: seq<string>, width: char -> Width)
    requires t.Valid() && t.ActiveCharset() == Ascii && Typed(t.grid, before, [[]])
    requires lines != [] && AllShowable(lines, width, t.grid.cols)
    requires |before| + |R.RewrapAll(GlyphLines(lines, width), t.grid.cols)| <= t.grid.history.maxLines + t.grid.rows
    ensures var r := HandleAll(t, KeyEvents(lines), width);
            && Typed(r.grid, RowsAbove(before, lines, width, t.grid.cols),
                     R.LineSegments(GlyphsOf(lines[|lines| - 1], width), t.grid.cols))
            && SameSetting(t.grid, r.grid) && r == t.(grid := r.grid)
    decreases lines
  {
    hide Handle, HandleAll, Holds, Plain, Prints, Put, GlyphsOf, R.LineSegments, R.SegmentRows, NewLine, Showable;
    var n, first := t.grid.cols, GlyphsOf(lines[0], width);
    FirstLine(before, lines, width, n);
    PutAllIsWrapped(lines[0], width, n);
    TypeText(t, before, [[]], lines[0], width);
    if |lines| > 1 {
      var t1 := HandleAll(t, Prints(lines[0]), width);
      var t2 := t1.(grid := NewLine(t1.grid));
      NewLineTyped(t1.grid, before, R.LineSegments(first, n));
      NewLineHandled(t1, width);
      HandleAllConcat(t, Prints(lines[0]), [Executed(CR), Executed(LF)], width);
      HandleAllConcat(t, Prints(lines[0]) + [Executed(CR), Executed(LF)], KeyEvents(lines[1..]), width);
      TypeLines(t2, before + R.Rewrap(first, n), lines[1..], width);
    }
  }

  /** The rows of the first line, and the room it leaves for the others. */
  lemma FirstLine(before: seq<Row>, lines: seq<string>, width: char -> Width, n: nat)
    requires n > 0 && lines != []
    ensures var first := GlyphsOf(lines[0], width);
            && RowsOf(before, R.LineSegments(first, n), n) == before + R.Rewrap(first, n)
            && R.RewrapAll(GlyphLines(lines, width), n)
               == R.Rewrap(first, n) + R.RewrapAll(GlyphLines(lines[1..], width), n)
            && (|lines| > 1 ==> R.RewrapAll(GlyphLines(lines[1..], width), n) != [])
  {
    LinesRewrapped(lines, width, n);
    hide GlyphsOf, R.LineSegments, R.SegmentRows;
  }

  lemma NewIsTyped(cols: nat, rows: nat)
    requires cols > 0 && rows > 0
    ensures Typed(New(cols, rows), [], [[]])
  {
    var g := New(cols, rows);
    EmptyRow([], cols);
    assert Tape(g) == [] + BlankRows(rows, cols);
    assert [] + [BlankRow(cols)] + BlankRows(rows - 1, cols) == BlankRows(rows, cols);
  }

  lemma FeedKeys(t: Terminal, lines: seq<string>, width: char -> Width)
    requires t.Valid() && t.parser.Idle() && lines != [] && AllPrintable(lines)
    ensures Feed(t, Keys(lines), width) == t.(state := HandleAll(t.state, KeyEvents(lines), width))
  {
    hide Run, HandleAll, Keys, KeyEvents, AllPrintable;
    KeysRun(t.parser, lines);
  }

  /** A new terminal fed lines of text shows them wrapped at its width: history and screen
      together are the rows into which reflow wraps the lines, and then blank ones, and the cursor
      is behind the last character. */
  lemma TypedLines(cols: nat, rows: nat, lines: seq<string>, width: char -> Width)
    requires cols > 0 && rows > 0 && lines != [] && AllPrintable(lines) && AllShowable(lines, width, cols)
    requires |R.RewrapAll(GlyphLines(lines, width), cols)| <= S.DEFAULT_MAX_LINES + rows
    ensures var t := Feed(NewTerminal(cols, rows), Keys(lines), width);
            t == NewTerminal(cols, rows).(state := NewTerminal(cols, rows).state.(grid := t.state.grid))
    ensures var g := Feed(NewTerminal(cols, rows), Keys(lines), width).state.grid;
            && Holds(g, R.RewrapAll(GlyphLines(lines, width), cols)) && SameSetting(New(cols, rows), g)
            && Typed(g, RowsAbove([], lines, width, cols), R.LineSegments(GlyphsOf(lines[|lines| - 1], width), cols))
  {
    hide HandleAll, Feed, Holds, Plain, GlyphsOf, GlyphLines, Keys, KeyEvents, R.LineSegments, R.SegmentRows,
      R.RewrapAll, RowsAbove, AllShowable, AllPrintable;
    var t := NewTerminal(cols, rows);
    NewIsTyped(cols, rows);
    FeedKeys(t, lines, width);
    TypeLines(t.state, [], lines, width);
    RowsAboveAndLast([], lines, width, cols);
    assert [] + R.RewrapAll(GlyphLines(lines, width), cols) == R.RewrapAll(GlyphLines(lines, width), cols);
  }

  /** In particular one line. */
  lemma TypedText(cols: nat, rows: nat, text: string, width: char -> Width)
    requires cols > 0 && rows > 0 && PP.AllPrintable(text) && Showable(text, width, cols)
    requires |R.Rewrap(GlyphsOf(text, width), cols)| <= S.DEFAULT_MAX_LINES + rows
    ensures var g := Feed(NewTerminal(cols, rows), Utf8.Encode(text), width).state.grid;
            Holds(g, R.Rewrap(GlyphsOf(text, width), cols)) && SameSetting(New(cols, rows), g)
  {
    hide Feed, Holds, GlyphsOf, R.Rewrap, Showable, PP.AllPrintable, Utf8.Encode;
    OneLine(text, width, cols);
    TypedLines(cols, rows, [text], width);
  }

  lemma OneLine(text: string, width: char -> Width, n: nat)
    requires n > 0
    ensures R.RewrapAll(GlyphLines([text], width), n) == R.Rewrap(GlyphsOf(text, width), n)
    ensures Keys([text]) == Utf8.Encode(text)
  {
    hide R.Rewrap, GlyphsOf;
    var cells := GlyphsOf(text, width);
    assert [text][1..] == [];
    assert GlyphLines([text], width) == [cells] + [];
    assert [cells][1..] == [];
    assert R.Rewrap(cells, n) + [] == R.Rewrap(cells, n);
  }

  // -------------------------------------------------------------------------
  // Narrow text
  // -------------------------------------------------------------------------

  /** The cells of a text of narrow characters in the default style. */
  function CellsOf(text: string): (s: seq<Cell>)
    ensures |s| == |text| && AllNarrow(s)
  {
    seq(|text|, i requires 0 <= i < |text| => Cell([text[i]], PLAIN, false, false))
  }

  predicate AllOfWidthOne(text: string, width: char -> Width) {
    forall i :: 0 <= i < |text| ==> width(text[i]) == 1
  }

  lemma {:induction false} NarrowGlyphs(text: string, width: char -> Width)
    requires AllOfWidthOne(text, width)
    ensures GlyphsOf(text, width) == CellsOf(text)
    decreases text
  {
    if text != [] {
      NarrowGlyphs(text[1..], width);
      assert CellsOf(text) == [Cell([text[0]], PLAIN, false, false)] + CellsOf(text[1..]);
    }
  }

  /** History and screen hold one line of narrow cells. */
  ghost predicate HoldsLine(g: Grid, s: seq<Cell>) {
    g.cols > 0 && Plain(g) && s != [] && AllNarrow(s) && Holds(g, R.Rewrap(s, g.cols))
  }

  lemma NarrowTyped(cols: nat, rows: nat, text: string, width: char -> Width)
    requires cols > 0 && rows > 0 && text != [] && PP.AllPrintable(text) && AllOfWidthOne(text, width)
    requires |R.Rewrap(CellsOf(text), cols)| <= S.DEFAULT_MAX_LINES
    ensures var t := Feed(NewTerminal(cols, rows), Utf8.Encode(text), width);
            && t == NewTerminal(cols, rows).(state := NewTerminal(cols, rows).state.(grid := t.state.grid))
            && HoldsLine(t.state.grid, CellsOf(text)) && SameSetting(New(cols, rows), t.state.grid)
            && Typed(t.state.grid, [], R.LineSegments(CellsOf(text), cols))
  {
    hide Feed, Holds, R.Rewrap, PP.AllPrintable, Utf8.Encode, AllNarrow, R.LineSegments, R.SegmentRows;
    NarrowGlyphs(text, width);
    OneLine(text, width, cols);
    TypedLines(cols, rows, [text], width);
  }

  // -------------------------------------------------------------------------
  // Typing and resizing
  // -------------------------------------------------------------------------

  /** The lines of a typed screen are the typed line and then empty ones. */
  lemma LinesOfTyped(g: Grid, s: seq<Cell>)
    requires HoldsLine(g, s)
    ensures NarrowTape(g)
    ensures R.TrimAll(R.Lines(Tape(g))) == [R.Trim(s)] + Repeat([], |Tape(g)| - |R.Rewrap(s, g.cols)|)
  {
    hide R.Rewrap, AllNarrow, Tape, R.Trim, R.Lines, RT.NarrowRows, BlankRows;
    var rows := R.Rewrap(s, g.cols);
    var k := |Tape(g)| - |rows|;
    var j := RT.RewrapIsOneLine(s, g.cols);
    RT.LinesOfBlankRows(k, g.cols);
    RP.LinesConcat(rows, BlankRows(k, g.cols));
    RT.TrimIgnoresBlanks(s, j);
    TrimmedLines(s + Repeat(BLANK, j), R.Lines(BlankRows(k, g.cols)));
    RT.NarrowBlanks(k, g.cols);
    RT.NarrowConcat(rows, BlankRows(k, g.cols));
  }

  /** The text of a typed screen is the typed line without its trailing blanks. */
  lemma TypedIsOneLine(g: Grid, s: seq<Cell>)
    requires HoldsLine(g, s)
    ensures NarrowTape(g) && RT.Text(Tape(g)) == RT.StripEmpty([R.Trim(s)])
  {
    hide R.Rewrap, AllNarrow, Tape, R.Trim, R.Lines, RT.StripEmpty, RT.NarrowRows, BlankRows;
    LinesOfTyped(g, s);
    RT.StripIgnoresEmpty([R.Trim(s)], |Tape(g)| - |R.Rewrap(s, g.cols)|);
  }

  lemma TrimmedLines(line: seq<Cell>, rest: seq<seq<Cell>>)
    ensures R.TrimAll([line] + rest) == [R.Trim(line)] + R.TrimAll(rest)
  {
  }

  /** The rows a typed line reflows to. */
  function Reflown(s: seq<Cell>, n: nat): seq<Row>
    requires n > 0
  {
    if R.Trim(s) == [] then [] else R.Rewrap(R.Trim(s), n)
  }

  /** Resizing a screen with typed text wraps the text without its trailing blanks. */
  lemma TypedThenResized(g: Grid, s: seq<Cell>, cols: nat, rows: nat)
    requires HoldsLine(g, s) && cols > 0 && rows > 0 && cols != g.cols
    requires |Reflown(s, cols)| <= g.history.maxLines
    ensures Tape(Resize(g, cols, rows)) == Reflown(s, cols) + BlankRows(SaturatingSub(rows, |Reflown(s, cols)|), cols)
  {
    hide R.Rewrap, Tape, R.Trim, RT.Text, RT.NarrowRows, R.Reflowed, R.TrimRows, HasWidth, Resize, BlankRows,
      AllNarrow, R.RewrapAll;
    TypedIsOneLine(g, s);
    RT.ReflowedContent(Tape(g), cols);
    RewrapOfText(R.Trim(s), cols);
    RT.SplitIsPadding(R.Reflowed(Tape(g), cols), cols, rows);
    ReflowTape(g, cols, rows);
  }

  lemma RewrapOfText(line: seq<Cell>, n: nat)
    requires n > 0
    ensures R.RewrapAll(RT.StripEmpty([line]), n) == if line == [] then [] else R.Rewrap(line, n)
  {
    hide R.Rewrap;
    assert [line][..0] == [];
    if line != [] {
      RT.RewrapAllOne(line, n);
    }
  }

  // -------------------------------------------------------------------------
  // Wrapping one more cell
  // -------------------------------------------------------------------------

  /** The number of cells in the last row of a wrapped line. */
  function LastLength(s: seq<Cell>, n: nat): (k: nat)
    requires n > 0 && s != []
    ensures 1 <= k <= n
    decreases |s|
  {
    if |s| <= n then |s| else LastLength(s[n..], n)
  }

  lemma PadMore(s: seq<Cell>, c: Cell, n: nat)
    requires |s| < n
    ensures R.Pad(s, n)[|s| := c] == R.Pad(s + [c], n)
  {
  }

  lemma FullPad(s: seq<Cell>)
    ensures R.Pad(s, |s|) == s
  {
  }

  lemma NarrowMore(s: seq<Cell>, c: Cell)
    requires AllNarrow(s) && Narrow(c)
    ensures AllNarrow(s + [c]) && AllNarrow([c])
  {
  }

  lemma NarrowDrop(s: seq<Cell>, n: nat)
    requires AllNarrow(s) && n <= |s|
    ensures AllNarrow(s[n..])
  {
  }

  /** One more cell goes into the last row, or into a new one when that is full. */
  lemma {:induction false} WrapOneMore(s: seq<Cell>, c: Cell, n: nat)
    requires n > 0 && s != [] && AllNarrow(s) && Narrow(c)
    ensures AllNarrow(s + [c])
    ensures var rows, k := R.Rewrap(s, n), LastLength(s, n);
            var last := |rows| - 1;
            && (k < n ==> R.Rewrap(s + [c], n) == rows[last := Row(rows[last].cells[k := c], false)]
                          && LastLength(s + [c], n) == k + 1)
            && (k == n ==>
                  R.Rewrap(s + [c], n) == rows[last := Row(rows[last].cells, true)] + [Row(R.Pad([c], n), false)]
                  && LastLength(s + [c], n) == 1)
    decreases |s|
  {
    hide R.Rewrap, AllNarrow, R.Pad;
    NarrowMore(s, c);
    if |s| < n {
      RT.RewrapLast(s, n);
      RT.RewrapLast(s + [c], n);
      PadMore(s, c, n);
    } else if |s| == n {
      RT.RewrapLast(s, n);
      FullPad(s);
      RT.RewrapFirst(s + [c], n);
      assert (s + [c])[..n] == s && (s + [c])[n..] == [c];
      RT.RewrapLast([c], n);
    } else {
      RT.RewrapFirst(s, n);
      RT.RewrapFirst(s + [c], n);
      assert (s + [c])[..n] == s[..n] && (s + [c])[n..] == s[n..] + [c];
      NarrowDrop(s, n);
      WrapOneMore(s[n..], c, n);
      Shift(Row(s[..n], true), R.Rewrap(s[n..], n), LastLength(s, n), c, n);
    }
  }

  lemma Shift(first: Row, rows: seq<Row>, k: nat, c: Cell, n: nat)
    requires rows != [] && HasWidth(rows, n) && 0 < k <= n
    ensures var last := |rows| - 1;
            && (k < n ==> [first] + rows[last := Row(rows[last].cells[k := c], false)]
                          == ([first] + rows)[last + 1 := Row(([first] + rows)[last + 1].cells[k := c], false)])
            && [first] + rows[last := Row(rows[last].cells, true)]
               == ([first] + rows)[last + 1 := Row(([first] + rows)[last + 1].cells, true)]
    ensures forall more: seq<Row> :: [first] + (rows + more) == [first] + rows + more
  {
  }

  // -------------------------------------------------------------------------
  // Trailing blanks
  // -------------------------------------------------------------------------

  /** The cell under the cursor of a text that does not fill its last row is blank. */
  lemma BlankBehind(s: seq<Cell>, n: nat)
    requires n > 0 && s != [] && AllNarrow(s) && LastLength(s, n) < n
    ensures var rows := R.Rewrap(s, n);
            rows[|rows| - 1].cells[LastLength(s, n)] == BLANK && !rows[|rows| - 1].softWrapped
    decreases |s|
  {
    hide R.Rewrap, AllNarrow;
    if |s| <= n {
      RT.RewrapLast(s, n);
    } else {
      RT.RewrapFirst(s, n);
      NarrowDrop(s, n);
      BlankBehind(s[n..], n);
    }
  }

  lemma LastNotWrapped(s: seq<Cell>, n: nat)
    requires n > 0 && s != [] && AllNarrow(s)
    ensures var rows := R.Rewrap(s, n); !rows[|rows| - 1].softWrapped
    decreases |s|
  {
    hide R.Rewrap, AllNarrow;
    if |s| <= n {
      RT.RewrapLast(s, n);
    } else {
      RT.RewrapFirst(s, n);
      NarrowDrop(s, n);
      LastNotWrapped(s[n..], n);
    }
  }

  /** Blank cells behind a line change its rows only by needing more of them. */
  lemma {:induction false} TrailingBlanks(s: seq<Cell>, j: nat, n: nat)
    requires n > 0 && s != [] && AllNarrow(s)
    ensures var more := s + Repeat(BLANK, j);
            && AllNarrow(more) && |R.Rewrap(s, n)| <= |R.Rewrap(more, n)|
            && (|R.Rewrap(s, n)| == |R.Rewrap(more, n)| ==> R.Rewrap(more, n) == R.Rewrap(s, n))
    decreases j
  {
    hide R.Rewrap, AllNarrow;
    if j == 0 {
      assert s + Repeat(BLANK, 0) == s;
    } else {
      TrailingBlanks(s, j - 1, n);
      var before := s + Repeat(BLANK, j - 1);
      assert s + Repeat(BLANK, j) == before + [BLANK];
      WrapOneMore(before, BLANK, n);
      var rows := R.Rewrap(before, n);
      if LastLength(before, n) < n {
        BlankBehind(before, n);
        SameCellAgain(rows, LastLength(before, n));
      }
    }
  }

  lemma SameCellAgain(rows: seq<Row>, k: nat)
    requires rows != [] && k < |rows[|rows| - 1].cells| && rows[|rows| - 1].cells[k] == BLANK
             && !rows[|rows| - 1].softWrapped
    ensures rows[|rows| - 1 := Row(rows[|rows| - 1].cells[k := BLANK], false)] == rows
  {
    var row := rows[|rows| - 1];
    assert row.cells[k := BLANK] == row.cells;
  }

  /** A typed line is its trimmed part and then default blanks. */
  lemma TrimmedPart(text: string)
    ensures var s := CellsOf(text); var t := R.Trim(s);
            s == t + Repeat(BLANK, |s| - |t|) && AllNarrow(t)
  {
    hide R.Trim;
    var s := CellsOf(text);
    var t := R.Trim(s);
    assert forall i :: |t| <= i < |s| ==> R.IsBlank(s[i]);
  }

  /** A line of blanks only is one blank row, or a soft-wrapped first row and more. */
  lemma OnlyBlanks(j: nat, n: nat)
    requires n > 0 && j > 0
    ensures AllNarrow(Repeat(BLANK, j))
    ensures var rows := R.Rewrap(Repeat(BLANK, j), n);
            |rows| == 1 ==> rows == BlankRows(1, n)
  {
    hide R.Rewrap;
    var s := Repeat(BLANK, j);
    if j <= n {
      RT.RewrapLast(s, n);
      assert R.Pad(s, n) == BlankRow(n).cells;
    } else {
      RT.RewrapFirst(s, n);
    }
  }

  /** The rows of the typed line and those it reflows to make the same tape exactly when the
      trailing blanks need no row of their own. */
  lemma SameTapeIff(text: string, n: nat, rows: nat)
    requires n > 0 && rows > 0 && text != []
    ensures var s := CellsOf(text); var typed, reflown := R.Rewrap(s, n), Reflown(s, n);
            && |reflown| <= |typed|
            && ((typed + BlankRows(SaturatingSub(rows, |typed|), n)
                 == reflown + BlankRows(SaturatingSub(rows, |reflown|), n))
                <==> |typed| == |R.Rewrap(R.Trim(s), n)|)
  {
    hide R.Rewrap, R.Trim, AllNarrow;
    var s := CellsOf(text);
    var t := R.Trim(s);
    TrimmedPart(text);
    RP.RewrapShape(s, n);
    if t == [] {
      assert s == Repeat(BLANK, |s|);
      OnlyBlanks(|s|, n);
      RT.RewrapOfNothing(n);
      BlanksAgree(R.Rewrap(s, n), n, rows);
    } else {
      TrailingBlanks(t, |s| - |t|, n);
      LastNotWrapped(t, n);
      FlagsDiffer(R.Rewrap(s, n), R.Rewrap(t, n), n, rows);
    }
  }

  lemma BlanksAgree(typed: seq<Row>, n: nat, rows: nat)
    requires rows > 0 && typed != [] && (|typed| == 1 ==> typed == BlankRows(1, n))
             && (|typed| > 1 ==> typed[0].softWrapped)
    ensures typed + BlankRows(SaturatingSub(rows, |typed|), n) == [] + BlankRows(rows, n) <==> |typed| == 1
  {
    if |typed| > 1 {
      assert (typed + BlankRows(SaturatingSub(rows, |typed|), n))[0].softWrapped;
      assert !([] + BlankRows(rows, n))[0].softWrapped;
    }
  }

  lemma FlagsDiffer(typed: seq<Row>, reflown: seq<Row>, n: nat, rows: nat)
    requires reflown != [] && |reflown| <= |typed| && !reflown[|reflown| - 1].softWrapped
    requires forall i :: 0 <= i < |typed| ==> (typed[i].softWrapped <==> i + 1 < |typed|)
    requires |reflown| == |typed| ==> typed == reflown
    ensures typed + BlankRows(SaturatingSub(rows, |typed|), n) == reflown + BlankRows(SaturatingSub(rows, |reflown|), n)
            <==> |typed| == |reflown|
  {
    if |reflown| < |typed| {
      var last := |reflown| - 1;
      assert (typed + BlankRows(SaturatingSub(rows, |typed|), n))[last] == typed[last];
      assert (reflown + BlankRows(SaturatingSub(rows, |reflown|), n))[last] == reflown[last];
    }
  }

  /** Typing a text and then changing the width is typing it at the new width, the same
      screen and the same history with the same soft-wrap flags, exactly when the spaces at
      the end of the text need no row of their own at the new width. */
  lemma ResizedIsRetypedIff(text: string, cols1: nat, rows1: nat, cols2: nat, rows2: nat, width: char -> Width)
    requires cols1 > 0 && rows1 > 0 && cols2 > 0 && rows2 > 0 && cols1 != cols2
    requires text != [] && PP.AllPrintable(text) && AllOfWidthOne(text, width)
    requires |R.Rewrap(CellsOf(text), cols1)| <= S.DEFAULT_MAX_LINES
    requires |R.Rewrap(CellsOf(text), cols2)| <= S.DEFAULT_MAX_LINES
    ensures var resized := Resize(Feed(NewTerminal(cols1, rows1), Utf8.Encode(text), width).state.grid, cols2, rows2);
            var retyped := Feed(NewTerminal(cols2, rows2), Utf8.Encode(text), width).state.grid;
            resized.visible == retyped.visible && resized.history.rows == retyped.history.rows
            <==> |R.Rewrap(CellsOf(text), cols2)| == |R.Rewrap(R.Trim(CellsOf(text)), cols2)|
  {
    hide R.Rewrap, Resize, Feed, Utf8.Encode, NewTerminal, AllNarrow, Tape, PP.AllPrintable, AllOfWidthOne, LastLength,
         CellsOf, R.Trim, Reflown, BlankRows;
    var s := CellsOf(text);
    assert New(cols1, rows1).history.maxLines == S.DEFAULT_MAX_LINES;
    NarrowTyped(cols1, rows1, text, width);
    NarrowTyped(cols2, rows2, text, width);
    var typed := Feed(NewTerminal(cols1, rows1), Utf8.Encode(text), width).state.grid;
    var retyped := Feed(NewTerminal(cols2, rows2), Utf8.Encode(text), width).state.grid;
    SameTapeIff(text, cols2, rows2);
    TypedThenResized(typed, s, cols2, rows2);
    TapeOfRow(retyped, retyped.visible[0]);
    SameScreenIff(Resize(typed, cols2, rows2), retyped);
  }

  /** In particular for any text that does not end in a space. */
  lemma ResizedIsRetyped(text: string, cols1: nat, rows1: nat, cols2: nat, rows2: nat, width: char -> Width)
    requires cols1 > 0 && rows1 > 0 && cols2 > 0 && rows2 > 0 && cols1 != cols2
    requires text != [] && PP.AllPrintable(text) && AllOfWidthOne(text, width) && text[|text| - 1] != ' '
    requires |R.Rewrap(CellsOf(text), cols1)| <= S.DEFAULT_MAX_LINES
    requires |R.Rewrap(CellsOf(text), cols2)| <= S.DEFAULT_MAX_LINES
    ensures var resized := Resize(Feed(NewTerminal(cols1, rows1), Utf8.Encode(text), width).state.grid, cols2, rows2);
            var retyped := Feed(NewTerminal(cols2, rows2), Utf8.Encode(text), width).state.grid;
            resized.visible == retyped.visible && resized.history.rows == retyped.history.rows
  {
    hide R.Rewrap, Resize, Feed, Utf8.Encode, NewTerminal, R.Trim, PP.AllPrintable, AllOfWidthOne;
    ResizedIsRetypedIff(text, cols1, rows1, cols2, rows2, width);
    var s := CellsOf(text);
    assert s[|s| - 1].grapheme == [text[|text| - 1]];
    assert !R.IsBlank(s[|s| - 1]);
    assert R.Trim(s) == s;
  }
}
