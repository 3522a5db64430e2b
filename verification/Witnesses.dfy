/** Inputs on which promises fail: for each property with an exact condition, one case that the
    programs can receive and that does not meet it. */
module Witnesses {
  import opened Common
  import opened Styles
  import opened Cells
  import opened Protocol
  import opened Render
  import opened Diff
  import opened Layouts
  import opened Grids
  import opened GridProperties
  import opened Excursions
  import opened ParserTable
  import opened Parser
  import opened Terminals
  import opened ClosedLoop
  import opened ClosedLoopFrames
  import opened WideDiffs
  import C = Codec
  import E = EndToEnd
  import P = Params
  import PP = ParserProperties
  import R = Reflow
  import RC = ReflowCursor
  import RP = ReflowProperties
  import RT = ReflowText
  import Retyping
  import S = Scrollback
  import Sequences
  import T = LayoutText
  import SgrLaws
  import TS = TerminalSequences
  import Typing
  import Utf8

  // -------------------------------------------------------------------------
  // Excursions: a line and a line feed on a screen of one cell
  // -------------------------------------------------------------------------

  const LETTER_X: byte := 'x' as int
  const LINE_FEED: byte := 0x0A

  /** The row of history that the line feed leaves. */
  const SEEN: Row := Row([Cell("x", PLAIN, false, false)], false)

  /** A blank screen of one cell with one row of history. */
  function Scrolled(): Grid {
    New(1, 1).(history := S.History([SEEN], S.DEFAULT_MAX_LINES))
  }

  lemma LetterAndLineFeedRun(m: Machine)
    requires m.Valid() && m.Idle()
    ensures Run(m, [LETTER_X, LINE_FEED]) == (m, [Printed('x'), Executed(LINE_FEED)])
  {
    PP.AsciiByte(m, LETTER_X);
    assert LETTER_X as char == 'x';
    hide *;
    PP.RunOne(m, LETTER_X);
    Sequences.ControlActsInside(m, LINE_FEED);
    PP.RunThen(m, [LETTER_X], m, [Printed('x')], [LINE_FEED], m, [Executed(LINE_FEED)]);
    assert [LETTER_X] + [LINE_FEED] == [LETTER_X, LINE_FEED];
    assert [Printed('x')] + [Executed(LINE_FEED)] == [Printed('x'), Executed(LINE_FEED)];
  }

  lemma LetterWritten()
    ensures WriteChar(New(1, 1), 'x', 1) == New(1, 1).(visible := [SEEN], cursor := HOME.(wrapPending := true))
  {
    assert PlaceChar(New(1, 1).visible[0].cells, 0, 'x', PLAIN, 1) == SEEN.cells;
  }

  lemma LetterScrolled()
    ensures var g := New(1, 1).(visible := [SEEN], cursor := HOME.(wrapPending := true));
            g.Valid() && LineFeed(g) == Scrolled()
  {
    var g := New(1, 1).(visible := [SEEN], cursor := HOME.(wrapPending := true));
    assert g.visible[0..1] == [SEEN] && [SEEN][1..] == [];
    assert ScrolledUp(g.visible, 1, 1, 0, 0) == BlankRows(1, 1);
    var h := S.History([], S.DEFAULT_MAX_LINES);
    assert S.Push(h, SEEN) == S.History([SEEN], S.DEFAULT_MAX_LINES);
    assert S.PushAll(h, [SEEN]) == S.PushAll(S.Push(h, SEEN), []);
    assert ScrollUpIn(g, 1, 0, 0).history == S.History([SEEN], S.DEFAULT_MAX_LINES);
  }

  lemma FeedHandles(t: Terminal, input: seq<byte>, width: char -> Width)
    requires t.Valid()
    ensures Feed(t, input, width).state == HandleAll(t.state, Run(t.parser, input).1, width)
  {
    hide Run, HandleAll;
  }

  lemma LineFeedHandled(t: TerminalState, width: char -> Width)
    requires t.Valid()
    ensures Handle(t, Executed(LINE_FEED), width) == t.(grid := LineFeed(t.grid))
  {
    hide LineFeed;
  }

  lemma ScrolledIsReached(width: char -> Width)
    requires width('x') == 1
    ensures Feed(NewTerminal(1, 1), [LETTER_X, LINE_FEED], width).state.grid == Scrolled()
  {
    var t := NewTerminal(1, 1);
    assert t.parser.Idle() && t.state.grid == New(1, 1) && t.state.ActiveCharset() == Ascii;
    hide Run, WriteChar, LineFeed, New, Scrolled, Handle, HandleAll, Feed, NewTerminal;
    LetterAndLineFeedRun(t.parser);
    FeedHandles(t, [LETTER_X, LINE_FEED], width);
    TwoHandled(t.state, Printed('x'), Executed(LINE_FEED), width);
    Typing.PrintOne(t.state, 'x', width);
    LetterWritten();
    LineFeedHandled(Handle(t.state, Printed('x'), width), width);
    LetterScrolled();
  }

  lemma ScrolledTape()
    ensures Tape(Scrolled()) == [SEEN, BlankRow(1)] && NarrowTape(Scrolled())
  {
    assert Reverse([SEEN]) == [SEEN];
  }

  lemma ScrolledContent()
    ensures R.TrimRows([SEEN, BlankRow(1)]) == [SEEN]
  {
    var rows := [SEEN, BlankRow(1)];
    assert R.IsBlankRow(rows[1]);
    assert !R.IsBlank(SEEN.cells[0]);
    assert rows[..1] == [SEEN];
    RT.TrimRowsStops([SEEN]);
  }

  lemma ScrolledLines()
    ensures R.Lines([SEEN, BlankRow(1)]) == [SEEN.cells] + [BlankRow(1).cells]
  {
    hide R.Lines;
    RT.LinesOfOne(BlankRow(1));
    RP.LinesStep(SEEN, [BlankRow(1)]);
    assert [SEEN] + [BlankRow(1)] == [SEEN, BlankRow(1)];
  }

  lemma TwoShortLines(a: seq<Cell>, b: seq<Cell>, n: nat)
    requires n > 0 && |a| <= n && |b| <= n && AllNarrow(a) && AllNarrow(b)
    ensures |R.RewrapAll([a] + [b], n)| == 2
  {
    hide R.Rewrap, R.RewrapAll;
    FirstRewrapped(a, [b], n);
    RT.RewrapAllOne(b, n);
    RT.RewrapLast(a, n);
    RT.RewrapLast(b, n);
  }

  /** It wraps into two rows at any width. */
  lemma ScrolledFits(n: nat)
    requires n > 0
    ensures |HistoryAfter(Scrolled(), n, 1)| <= 2
  {
    hide R.RewrapAll, R.TrimRows, R.Trim, R.Lines, R.Collect, RT.NarrowRows, Tape, Scrolled, R.Reflowed, HasWidth;
    ScrolledTape();
    ScrolledLines();
    var tape := Tape(Scrolled());
    RC.ReflowedLines(tape, n);
    var a, b := R.Trim(SEEN.cells), R.Trim(BlankRow(1).cells);
    assert R.TrimAll(R.Lines(tape)) == [a] + [b];
    TwoShortLines(a, b, n);
    ScrolledSplit(R.Reflowed(tape, n), n);
  }

  lemma ScrolledSplit(rows: seq<Row>, n: nat)
    requires HasWidth(rows, n)
    ensures |R.SplitRows(rows, n, 1).history| <= |rows|
  {
    hide R.TrimRows;
  }

  /** After one letter and a line feed on a screen of one cell, a change of width and back
      changes the screen or its history. */
  lemma ExcursionCanChangeTheScreen(width: char -> Width)
    requires width('x') == 1
    ensures var g := Feed(NewTerminal(1, 1), [LETTER_X, LINE_FEED], width).state.grid;
            var back := Grids.Resize(Grids.Resize(g, 2, 1), 1, 1);
            !Settled(g) && !(back.visible == g.visible && back.history == g.history)
  {
    hide Feed, Grids.Resize, R.TrimRows, SettledRows, NewTerminal;
    ScrolledIsReached(width);
    ScrolledTape();
    ScrolledContent();
    ScrolledFits(2);
    ExcursionIsIdentityIff(Scrolled(), 2, 1);
  }

  // -------------------------------------------------------------------------
  // Saved cursors
  // -------------------------------------------------------------------------

  const SEVEN: byte := '7' as int
  const FORWARD: byte := 'C' as int

  /** Move right, then save the cursor. */
  const SAVE_BESIDE: seq<byte> := [ESC, BRACKET, FORWARD, ESC, SEVEN]

  lemma SaveDispatches(m: Machine)
    requires m.Valid() && m.Idle()
    ensures Run(m, [ESC, SEVEN]).1 == [Esc([], SEVEN)]
  {
    hide Run, PP.Interrupted;
    Sequences.EscapeDispatches(m, [], SEVEN);
    PP.IdleInterruptsNothing(m);
    assert [ESC] + [] + [SEVEN] == [ESC, SEVEN];
    assert [] + [Esc([], SEVEN)] == [Esc([], SEVEN)];
  }

  lemma SaveBesideRuns(m: Machine)
    requires m.Valid() && m.Idle()
    ensures Run(m, SAVE_BESIDE).1 == [Csi([], [], FORWARD), Esc([], SEVEN)]
  {
    hide Run, PP.Interrupted, P.Fields, P.Take16;
    PP.ControlSequenceDispatches(m, false, [], FORWARD);
    assert PP.Interrupted(m) == [] by { PP.IdleInterruptsNothing(m); }
    assert PP.CsiBytes(false, [], FORWARD) == [ESC, BRACKET, FORWARD];
    var (m1, es1) := Run(m, [ESC, BRACKET, FORWARD]);
    SaveDispatches(m1);
    var (m2, es2) := Run(m1, [ESC, SEVEN]);
    PP.RunThen(m, [ESC, BRACKET, FORWARD], m1, es1, [ESC, SEVEN], m2, es2);
    assert [ESC, BRACKET, FORWARD] + [ESC, SEVEN] == SAVE_BESIDE;
    assert es1 == [Csi([], [], FORWARD)];
    assert es1 + es2 == [Csi([], [], FORWARD), Esc([], SEVEN)];
  }

  lemma ForwardHandled(t: TerminalState, width: char -> Width)
    requires t.Valid()
    ensures Handle(t, Csi([], [], FORWARD), width) == t.(grid := MoveCursor(t.grid, [], FORWARD))
  {
    hide MoveCursor, Sgr;
  }

  lemma SaveHandled(t: TerminalState, width: char -> Width)
    requires t.Valid()
    ensures Handle(t, Esc([], SEVEN), width) == t.(grid := SaveCursor(t.grid))
  {
  }

  lemma ForwardMoves()
    ensures var g := MoveCursor(New(2, 1), [], FORWARD); g == New(2, 1).(cursor := HOME.(col := 1))
  {
    assert ParamOr([], 0, 1) == 1;
  }

  /** On a screen of two cells, saving the cursor on the second and dropping the column leaves
      the saved cursor off the screen. */
  lemma SavedCursorCanBeLost(width: char -> Width)
    ensures var t := Feed(NewTerminal(2, 1), SAVE_BESIDE, width);
            t.Valid() && !Grids.Resize(t.state.grid, 1, 1).Valid()
  {
    var t := NewTerminal(2, 1);
    assert t.parser.Idle() && t.state.grid == New(2, 1);
    hide Run, New, Handle, HandleAll, Feed, NewTerminal, MoveCursor, Grids.Resize, HasWidth;
    SaveBesideRuns(t.parser);
    FeedHandles(t, SAVE_BESIDE, width);
    TwoHandled(t.state, Csi([], [], FORWARD), Esc([], SEVEN), width);
    ForwardHandled(t.state, width);
    ForwardMoves();
    var moved := Handle(t.state, Csi([], [], FORWARD), width);
    SaveHandled(moved, width);
    ResizeValid(SaveCursor(moved.grid), 1, 1);
  }

  // -------------------------------------------------------------------------
  // Trailing spaces
  // -------------------------------------------------------------------------

  lemma LetterAndSpaceWrap()
    ensures var s := Typing.CellsOf("x ");
            R.Trim(s) == SEEN.cells && |R.Rewrap(s, 2)| == 1 && |R.Rewrap(s, 1)| == 2 && |R.Rewrap(R.Trim(s), 1)| == 1
  {
    hide R.Rewrap;
    var s := Typing.CellsOf("x ");
    assert s == [SEEN.cells[0], BLANK];
    assert s[..1] == SEEN.cells && s[1..] == [BLANK];
    assert R.Trim(s[..1]) == s[..1];
    RT.RewrapLast(s, 2);
    RT.RewrapFirst(s, 1);
    RT.RewrapLast([BLANK], 1);
    RT.RewrapLast(SEEN.cells, 1);
  }

  /** A letter and a space, printed at width 2 and resized to width 1, do not show what they
      show when printed at width 1. */
  lemma TrailingSpaceCanBeLost(width: char -> Width)
    requires width('x') == 1 && width(' ') == 1
    ensures var resized := Grids.Resize(Feed(NewTerminal(2, 1), Utf8.Encode("x "), width).state.grid, 1, 1);
            var retyped := Feed(NewTerminal(1, 1), Utf8.Encode("x "), width).state.grid;
            !(resized.visible == retyped.visible && resized.history.rows == retyped.history.rows)
  {
    hide Feed, Grids.Resize, Utf8.Encode, R.Rewrap, R.Trim, NewTerminal;
    LetterAndSpaceWrap();
    Typing.ResizedIsRetypedIff("x ", 2, 1, 1, 1, width);
  }

  // -------------------------------------------------------------------------
  // The cursor behind a full row
  // -------------------------------------------------------------------------

  lemma TwoLetters()
    ensures var s := Typing.CellsOf("xy");
            && |s| == 2 && s[1].grapheme == "y" && R.Trim(s) == s
            && |R.Rewrap(s, 2)| == 1 && R.Rewrap(s, 3)[0].cells == s + [BLANK] && |R.Rewrap(s, 3)| == 1
  {
    hide R.Rewrap;
    var s := Typing.CellsOf("xy");
    assert s[1].grapheme == ['y'];
    assert !R.IsBlank(s[1]);
    RT.RewrapLast(s, 2);
    RT.RewrapLast(s, 3);
    assert R.Pad(s, 3) == s + [BLANK];
  }

  /** Two letters that fill a row leave the cursor, when a column is added, on the second of them,
      which the next letter overwrites. */
  lemma CursorIsOnTheText(width: char -> Width)
    requires width('x') == 1 && width('y') == 1
    ensures var g := Grids.Resize(Feed(NewTerminal(2, 1), Utf8.Encode("xy"), width).state.grid, 3, 1);
            g.cursor.col == 1 && !g.cursor.wrapPending && |g.visible[0].cells| == 3
            && g.visible[0].cells[1].grapheme == "y"
  {
    hide Feed, Grids.Resize, Utf8.Encode, R.Rewrap, R.Trim, NewTerminal, Typing.HoldsLine, Typing.Typed, R.LineSegments,
         Typing.CellsOf, Tape;
    var s := Typing.CellsOf("xy");
    TwoLetters();
    Typing.NarrowTyped(2, 1, "xy", width);
    var g := Feed(NewTerminal(2, 1), Utf8.Encode("xy"), width).state.grid;
    Retyping.TypedCursor(g, s);
    Retyping.ResizedCursor(g, s, 3, 1);
    assert Retyping.LastOf(2, 2) == 2 && Retyping.LastOf(2, 3) == 2;
    Typing.TypedThenResized(g, s, 3, 1);
    ShownIs(g, Typing.Reflown(s, 3)[0], 3);
  }

  /** The only row of a resized screen without history. */
  lemma ShownIs(g: Grid, row: Row, cols: nat)
    requires g.Valid() && g.saved.None? && cols > 0 && Tape(Grids.Resize(g, cols, 1)) == [row]
    ensures Grids.Resize(g, cols, 1).visible == [row]
  {
    hide Grids.Resize, HasWidth;
    var r := Grids.Resize(g, cols, 1);
    ResizeValid(g, cols, 1);
    assert |Tape(r)| == |r.history.rows| + 1;
    assert r.visible[0] == Tape(r)[0];
  }

  // -------------------------------------------------------------------------
  // Sequences
  // -------------------------------------------------------------------------

  /** Setting the title to a letter whose second UTF-8 byte is 0x80 sets it to the first byte. */
  lemma TitleLosesBytes(width: char -> Width)
    ensures var text := Utf8.Encode("\U{C0}");
            var t := Feed(NewTerminal(1, 1), [ESC, Sequences.OSC] + TS.TitleBytes('2' as int, text) + [Sequences.BEL],
                          width);
            t.state.title == [0xC3] != text
  {
    hide Feed, NewTerminal, Sequences.Split, Sequences.Kept, Sequences.Content, Utf8.Encode;
    LetterBytes();
    HalfIsKept();
    NewIsIdle();
    TS.TitleIsSet(NewTerminal(1, 1), '2' as int, [0xC3, 0x80], [Sequences.BEL], width);
  }

  lemma HalfIsKept()
    ensures var text := [0xC3, 0x80];
            && Sequences.AllInside(text) && Sequences.Content(Sequences.Kept(text)) < MAX_OSC_LEN
            && Sequences.Split(Sequences.Kept(text))[0] == [0xC3]
  {
    var text: seq<byte>, tail: seq<byte> := [0xC3, 0x80], [0x80];
    assert text[1..] == tail && tail[1..] == [];
    assert Sequences.Kept(tail) == [];
    assert Sequences.Kept(text) == [0xC3] + [] == [0xC3];
    Sequences.AllKept([0xC3]);
    OnePiece(0xC3);
  }

  lemma OnePiece(b: byte)
    requires b != P.SEMICOLON
    ensures Sequences.Split([b]) == [[b]]
  {
    var s, rest := [b], Sequences.Split([]);
    assert s[1..] == [] && rest == [[]] && rest[1..] == [];
    assert [b] + rest[0] == [b];
    assert Sequences.Split(s) == [[b] + rest[0]] + rest[1..];
  }

  lemma LetterBytes()
    ensures Utf8.Encode("\U{C0}") == [0xC3, 0x80]
  {
    var text := "\U{C0}";
    assert text[1..] == "";
    assert Utf8.EncodeScalar(text[0]) == [0xC3, 0x80];
    assert [0xC3, 0x80] + [] == [0xC3 as byte, 0x80];
  }

  lemma NewIsIdle()
    ensures NewTerminal(1, 1).parser.Idle() && NewTerminal(1, 1).state.grid.cursor.style == PLAIN
  {
  }

  /** A sequence with the marker '>', by which programs change what keys report, is taken for a
      style: this one underlines. */
  lemma MarkedSequenceUnderlines(width: char -> Width)
    ensures var t := Feed(NewTerminal(1, 1), [ESC, BRACKET] + ['>' as int] + P.Join([4]) + [] + ['m' as int], width);
            t.state.grid.cursor.style == PLAIN.(attrs := UNDERLINE) != PLAIN
  {
    hide Feed, NewTerminal, P.Join, P.SaturateAll;
    NewIsIdle();
    TS.OtherMarkersAreIgnored(NewTerminal(1, 1), ['>' as int], [4], [], 'm' as int, width);
    TS.SequenceFed(NewTerminal(1, 1), false, [4], 'm' as int, width);
    assert Sgr(PLAIN, [4]) == PLAIN.(attrs := UNDERLINE) by { SgrLaws.OneCode(PLAIN, 4); }
    FourIsUnderline(NewTerminal(1, 1).state, width);
  }

  lemma FourIsUnderline(t: TerminalState, width: char -> Width)
    requires t.Valid()
    ensures P.SaturateAll([4]) == [4]
    ensures var r := Terminals.CsiDispatch(t, [4], PP.Marker(false), 'm' as int);
            r.grid.cursor.style == Sgr(t.grid.cursor.style, [4])
  {
    hide Sgr;
  }

  /** Saving the cursor, hiding it and restoring it shows it while the mode says that it is
      hidden. */
  lemma HiddenCursorIsShown(width: char -> Width)
    ensures var t := HandleAll(NewTerminal(1, 1).state,
                               [TS.SAVE] + [Csi([25], [QUESTION_MARK], 'l' as int)] + [TS.RESTORE], width);
            t.grid.cursor.visible && CursorVisible !in t.modes
  {
    hide HandleAll, Handle;
    var t := NewTerminal(1, 1).state;
    var hide_ := Csi([25], [QUESTION_MARK], 'l' as int);
    TS.Between(t, TS.SAVE, [hide_], TS.RESTORE, width);
    TS.SaveAndRestoreHandled(t, width);
    var s := Handle(t, TS.SAVE, width);
    HandleOne(s, hide_, width);
    CursorHidden(s, width);
    TS.SaveAndRestoreHandled(Handle(s, hide_, width), width);
  }

  lemma CursorHidden(t: TerminalState, width: char -> Width)
    requires t.Valid()
    ensures var r := Handle(t, Csi([25], [QUESTION_MARK], 'l' as int), width);
            CursorVisible !in r.modes && r.grid.saved == t.grid.saved
  {
    hide HasWidth;
    assert [25 as u16][1..] == [];
  }

  // -------------------------------------------------------------------------
  // Wide characters at the edge
  // -------------------------------------------------------------------------

  /** A combining mark behind a wide character goes to the second half. */
  lemma MarkMissesWideCharacter(c: char, mark: char)
    ensures var g := WriteChar(WriteChar(New(3, 1), c, 2), mark, 0);
            g.visible[0].cells[0].grapheme == [c] && g.visible[0].cells[1].grapheme == " " + [mark]
  {
    var g := New(3, 1);
    assert PlaceChar(g.visible[0].cells, 0, c, PLAIN, 2)
        == [Cell([c], PLAIN, true, false), Cell(" ", PLAIN, false, true), BLANK];
  }

  /** On two columns, a wide character that is written from the second half of another blanks that
      half and goes to the next row. */
  lemma SecondHalfIsBlanked(c: char)
    ensures var full := WriteChar(New(2, 2), c, 2);
            var cells := WriteChar(SetCursor(full, 1, 0), c, 2).visible[0].cells;
            cells[0].wide && cells[1] == BLANK && !PerfectlyPaired(cells)
  {
    var g := New(2, 2);
    var pair := [Cell([c], PLAIN, true, false), Cell(" ", PLAIN, false, true)];
    assert PlaceChar(g.visible[0].cells, 0, c, PLAIN, 2) == pair;
    var full := SetCursor(WriteChar(g, c, 2), 1, 0);
    assert full.visible[0].cells == pair && full.cursor.col == 1;
    var r := WriteChar(full, c, 2);
    assert r.visible[0].cells == [pair[0], BLANK];
  }

  // -------------------------------------------------------------------------
  // Large screens
  // -------------------------------------------------------------------------

  const LETTER: CellData := CellData("x", DefaultColor, DefaultColor, 0, 0)

  /** A screen of 256 rows of 256 letters. */
  function LargeFrame(): Frame {
    Frame(256, 256, Repeat(LETTER, 0x1_0000))
  }

  /** It has one cell more than a message can carry. */
  lemma LargeFrameCannotBeSent(pane: u32, width: char -> Width)
    requires width('x') == 1
    ensures var f := LargeFrame();
            f.Valid() && NarrowFrame(f, width) && !C.ServerSendable(FullFrame(pane, f.cols, f.rows, f.cells))
  {
    hide Repeat, C.ServerSendable;
    var f := LargeFrame();
    assert RowStart(256, 256) == 0x1_0000;
    assert NarrowData(LETTER, width);
    forall r | 0 <= r < 256 ensures NarrowDataRow(f.Row(r), width) {
      forall i | 0 <= i < 256 ensures NarrowData(f.Row(r)[i], width) {
        assert f.Row(r)[i] == LETTER;
      }
    }
    E.FullFrameSendableIff(pane, f);
  }

  // -------------------------------------------------------------------------
  // Ratios
  // -------------------------------------------------------------------------

  /** A split at a third comes back at 33 hundredths. */
  lemma ThirdIsRounded()
    ensures var node := Split(Vertical, 1.0 / 3.0, Pane(1), Pane(2));
            var read := T.Deserialize(T.SerializeNode(node));
            read.Ok? && read.value.root != node
  {
    hide T.Deserialize, T.SerializeNode;
    var node := Split(Vertical, 1.0 / 3.0, Pane(1), Pane(2));
    T.RoundTripIsExactIff(node);
    var x := 1.0 / 3.0 * 100.0;
    assert 33.0 < x < 34.0;
    assert !T.WholeHundredths(1.0 / 3.0);
  }

  /** Asking for one and a half times the space is accepted, and the first pane gets all that
      the second can spare. */
  lemma RatioAboveOneIsClamped()
    ensures var l := NewLayout(1, 80, 24);
            && SplitPane(l, 1, Vertical, 1.5, 2).1.None?
            && Parts(Vertical, 1.5, l.Window()) == (Rect(0, 0, 74, 24), Rect(75, 0, 5, 24))
  {
    var l := NewLayout(1, 80, 24);
    var x := 79.0 * 1.5;
    assert x == 118.5 && x.Floor == 118;
    assert UnclampedShare(79, 1.5) == 118;
    assert ResolveNode(l.root, l.Window())[0] == Geometry(1, l.Window());
  }

  // -------------------------------------------------------------------------
  // Styled wide characters
  // -------------------------------------------------------------------------

  /** A wide character written in a style of its own loses the style of its second half when its
      line is re-wrapped, even at the width it has. */
  lemma StyledPairIsNotKept(c: char, style: Style)
    requires style != PLAIN
    ensures var line := WriteChar(New(2, 1).(cursor := HOME.(style := style)), c, 2).visible[0].cells;
            |R.Rewrap(line, 2)| == 1 && R.Rewrap(line, 2)[0].cells != line
  {
    var g := New(2, 1).(cursor := HOME.(style := style));
    var lead, second := Cell([c], style, true, false), Cell(" ", style, false, true);
    var line := [lead, second];
    assert PlaceChar(g.visible[0].cells, 0, c, style, 2) == line;
    assert R.AfterGlyph(line) == [];
    assert [] + R.Glyph(lead) == [lead, R.CONTINUATION];
    assert R.Segments(line, 2, []) == [[lead, R.CONTINUATION]] + R.Segments([], 2, []);
    assert R.LineSegments(line, 2) == [[lead, R.CONTINUATION]];
    assert R.Pad([lead, R.CONTINUATION], 2) == [lead, R.CONTINUATION];
  }

  // -------------------------------------------------------------------------
  // Diffs of wide characters
  // -------------------------------------------------------------------------

  function Glyph(c: char, flags: byte): CellData {
    CellData([c], DefaultColor, DefaultColor, 0, flags)
  }

  function FourLetters(): Frame {
    Frame(4, 1, [Glyph('a', 0), Glyph('b', 0), Glyph('c', 0), Glyph('d', 0)])
  }

  /** The same with a wide character in place of the first two. */
  function WideAndTwoLetters(c: char): Frame {
    Frame(4, 1, [Glyph(c, 1), SecondHalf(Glyph(c, 1)), Glyph('c', 0), Glyph('d', 0)])
  }

  lemma OnlyRowIsAll(f: Frame)
    requires f.Valid() && f.rows == 1 && |f.cells| == f.cols as int
    ensures f.Row(0) == f.cells
  {
  }

  lemma FramesAreShowable(c: char, width: char -> Width)
    requires PP.IsPrintable(c) && width(c) == 2 && width('a') == width('b') == width('c') == width('d') == 1
    ensures FourLetters().Valid() && ShowableFrame(FourLetters(), width)
    ensures WideAndTwoLetters(c).Valid() && ShowableFrame(WideAndTwoLetters(c), width)
  {
    var prev, cur := FourLetters(), WideAndTwoLetters(c);
    assert RowStart(1, 4) == 4;
    OnlyRowIsAll(prev);
    OnlyRowIsAll(cur);
    assert NarrowData(Glyph('a', 0), width) && NarrowData(Glyph('b', 0), width);
    assert NarrowData(Glyph('c', 0), width) && NarrowData(Glyph('d', 0), width);
    assert WideAt(cur.cells, 0, width);
  }

  lemma HalfOfTheRowChanges(c: char)
    requires FourLetters().Valid() && WideAndTwoLetters(c).Valid() && c != 'a'
    ensures !SafeDiff(FourLetters(), WideAndTwoLetters(c))
  {
    var prev, cur := FourLetters(), WideAndTwoLetters(c);
    OnlyRowIsAll(prev);
    OnlyRowIsAll(cur);
    assert prev.cells[2..] == cur.cells[2..];
    assert CountChanged(cur.cells[2..], prev.cells[2..]) == 0;
    assert cur.cells[1..][1..] == cur.cells[2..] && prev.cells[1..][1..] == prev.cells[2..];
    assert CountChanged(cur.cells[1..], prev.cells[1..]) == 1;
    assert CountChanged(cur.cells, prev.cells) == 2;
    assert cur.cells[1] != prev.cells[1] && IsContinuationData(cur.cells[1]);
    assert !SafeRow(prev.Row(0), cur.Row(0));
  }

  /** Writing a wide character over two of four letters changes half the row, so it is sent cell by
      cell, and the space sent for its second half wipes it out. */
  lemma WideCharacterIsLost(c: char, width: char -> Width)
    requires PP.IsPrintable(c) && c != 'a' && width(c) == 2
    requires width(' ') == width('a') == width('b') == width('c') == width('d') == 1
    ensures FourLetters().Valid() && WideAndTwoLetters(c).Valid()
    ensures var t := Feed(NewTerminal(4, 1), Bytes(RenderFullFrame(FourLetters())), width);
            && InSync(t, FourLetters())
            && !InSync(Feed(t, Bytes(RenderDiff(ComputeDiff(FourLetters(), WideAndTwoLetters(c)))), width),
                       WideAndTwoLetters(c))
  {
    hide Feed, Bytes, RenderFullFrame, RenderDiff, ComputeDiff, Shows, FourLetters, WideAndTwoLetters, SafeDiff,
      ShowableFrame;
    FramesAreShowable(c, width);
    HalfOfTheRowChanges(c);
    SizesOfFrames(c);
    FullFrameOnNewTerminal(FourLetters(), width);
    var t := Feed(NewTerminal(4, 1), Bytes(RenderFullFrame(FourLetters())), width);
    WideDiffLoopIff(t, FourLetters(), WideAndTwoLetters(c), width);
  }

  lemma SizesOfFrames(c: char)
    ensures FourLetters().cols == WideAndTwoLetters(c).cols == 4 && FourLetters().rows == WideAndTwoLetters(c).rows == 1
  {
  }
}
