/** What byte sequences do to a terminal: titles, saved cursors, modes and character sets. */
module TerminalSequences {
  import opened Common
  import opened Cells
  import opened Grids
  import opened Parser
  import opened Sequences
  import opened Terminals
  import B = Borders
  import P = Params
  import PP = ParserProperties
  import RenderParsing
  import S = Scrollback
  import T = ParserTable

  /** One event before some others and one behind them. */
  lemma Between(t: TerminalState, first: Event, es: seq<Event>, last: Event, width: char -> Width)
    requires t.Valid()
    ensures HandleAll(t, [first] + es + [last], width)
         == Handle(HandleAll(Handle(t, first, width), es, width), last, width)
  {
    hide Handle, HandleAll;
    HandleOne(t, first, width);
    HandleAllConcat(t, [first], es, width);
    HandleAllConcat(t, [first] + es, [last], width);
    HandleOne(HandleAll(t, [first] + es, width), last, width);
  }

  lemma FeedOne(t: Terminal, input: seq<byte>, e: Event, width: char -> Width)
    requires t.Valid() && var (m, es) := Run(t.parser, input); m.Idle() && es == [e]
    ensures var r := Feed(t, input, width); r.parser.Idle() && r.state == Handle(t.state, e, width)
  {
    hide Run, Handle, HandleAll;
    HandleOne(t.state, e, width);
  }

  lemma SequenceHandled(t: TerminalState, params: seq<u16>, intermediates: seq<byte>, final: byte,
          width: char -> Width)
    requires t.Valid()
    ensures Handle(t, Csi(params, intermediates, final), width) == CsiDispatch(t, params, intermediates, final)
  {
    hide CsiDispatch;
  }

  /** A control sequence with printed parameters dispatches them. */
  lemma SequenceFed(t: Terminal, private: bool, ps: seq<nat>, final: byte, width: char -> Width)
    requires t.Valid() && t.parser.Idle() && |ps| <= P.MAX_PARAMS && T.IsFinal(final)
    ensures var r := Feed(t, PP.CsiBytes(private, P.Join(ps), final), width);
            r.parser.Idle() && r.state == CsiDispatch(t.state, P.SaturateAll(ps), PP.Marker(private), final)
  {
    hide Run, P.Join, P.SaturateAll, PP.CsiBytes, PP.Marker, CsiDispatch, Feed, Handle;
    RenderParsing.ControlParses(t.parser, private, ps, final);
    FeedOne(t, PP.CsiBytes(private, P.Join(ps), final), Csi(P.SaturateAll(ps), PP.Marker(private), final), width);
    SequenceHandled(t.state, P.SaturateAll(ps), PP.Marker(private), final, width);
  }

  /** A sequence with another marker than the question mark, or with intermediates, is not ignored:
      it does what the sequence without them does. */
  lemma OtherMarkersAreIgnored(t: Terminal, marker: seq<byte>, ps: seq<nat>, ints: seq<byte>, final: byte,
          width: char -> Width)
    requires t.Valid() && t.parser.Idle() && |ps| <= P.MAX_PARAMS && T.IsFinal(final)
    requires IsMarker(marker) && QUESTION_MARK !in marker && AllIntermediate(ints)
    ensures var s := P.Join(ps);
            Feed(t, [T.ESC, BRACKET] + marker + s + ints + [final], width).state
            == Feed(t, PP.CsiBytes(false, s, final), width).state
  {
    hide Run, P.Join, P.SaturateAll, PP.CsiBytes, PP.Marker, Dispatch, Feed, Handle, IsMarker, P.Fields, FirstTwo;
    SequenceFed(t, false, ps, final, width);
    PP.IdleInterruptsNothing(t.parser);
    PrintedFields(ps);
    AnySequenceDispatches(t.parser, marker, P.Join(ps), ints, final);
    var e := Csi(P.SaturateAll(ps), FirstTwo(marker, ints), final);
    assert [] + [e] == [e];
    FeedOne(t, [T.ESC, BRACKET] + marker + P.Join(ps) + ints + [final], e, width);
    SequenceHandled(t.state, P.SaturateAll(ps), FirstTwo(marker, ints), final, width);
    NoQuestionMark(marker, ints);
    assert PP.Marker(false) == [] by { NoMarker(); }
  }

  lemma PrintedFields(ps: seq<nat>)
    requires |ps| <= P.MAX_PARAMS
    ensures var s := P.Join(ps);
            P.IsParamString(s) && P.SaturateAll(ps) == if s == [] then [] else P.Take16(P.Fields(s))
  {
    hide P.Fields;
    if ps != [] {
      P.FieldsOfJoin(ps);
      assert P.Join(ps) != [];
    }
  }

  lemma NoMarker()
    ensures PP.Marker(false) == []
  {
  }

  lemma NoQuestionMark(marker: seq<byte>, ints: seq<byte>)
    requires QUESTION_MARK !in marker && AllIntermediate(ints)
    ensures QUESTION_MARK !in FirstTwo(marker, ints)
  {
    assert forall b :: b in ints ==> T.IsIntermediate(b);
    assert QUESTION_MARK !in marker + ints;
  }

  /** An escape sequence dispatches its intermediates. */
  lemma EscapeFed(t: Terminal, ints: seq<byte>, final: byte, width: char -> Width)
    requires t.Valid() && t.parser.Idle() && AllIntermediate(ints) && |ints| <= MAX_INTERMEDIATES
    requires if ints == [] then EndsEscape(final) else T.In(final, 0x30, 0x7E) && final != BACKSLASH
    ensures var r := Feed(t, [T.ESC] + ints + [final], width);
            r.parser.Idle() && r.state == EscDispatch(t.state, ints, final)
  {
    hide Run, PP.Interrupted, EscDispatch, AllIntermediate, EndsEscape, Feed;
    PP.IdleInterruptsNothing(t.parser);
    EscapeDispatches(t.parser, ints, final);
    assert [] + [Esc(ints, final)] == [Esc(ints, final)];
    FeedOne(t, [T.ESC] + ints + [final], Esc(ints, final), width);
  }

  // -------------------------------------------------------------------------
  // Titles
  // -------------------------------------------------------------------------

  /** OSC 0 and OSC 2 followed by a text. */
  function TitleBytes(command: byte, text: seq<byte>): seq<byte> {
    [command, P.SEMICOLON] + text
  }

  lemma TitleFields(command: byte, text: seq<byte>)
    requires command == '0' as int || command == '2' as int
    ensures Kept(TitleBytes(command, text)) == TitleBytes(command, Kept(text))
    ensures Split(TitleBytes(command, text)) == [[command]] + Split(text)
    ensures Content(TitleBytes(command, text)) == 1 + Content(text)
  {
    hide Split, Kept, Content;
    var s := TitleBytes(command, text);
    assert s == [command] + ([P.SEMICOLON] + text) && s[1..][1..] == text;
    assert [P.SEMICOLON] + text == s[1..];
    KeptStep(s);
    KeptStep(s[1..]);
    SplitStep(s);
    SplitStep(s[1..]);
    assert [command] + [] == [command] && ([[]] + Split(text))[1..] == Split(text);
  }

  lemma KeptStep(s: seq<byte>)
    requires s != [] && IsKept(s[0])
    ensures Kept(s) == [s[0]] + Kept(s[1..])
    ensures Content(s) == (if s[0] == P.SEMICOLON then 0 else 1) + Content(s[1..])
  {
  }

  lemma SplitStep(s: seq<byte>)
    requires s != []
    ensures var rest := Split(s[1..]);
            Split(s) == if s[0] == P.SEMICOLON then [[]] + rest else [[s[0]] + rest[0]] + rest[1..]
  {
  }

  /** The title is set to the part of the text before its first semicolon, without the bytes that
      the parser drops, and nothing else changes. */
  lemma TitleIsSet(t: Terminal, command: byte, text: seq<byte>, ending: seq<byte>, width: char -> Width)
    requires t.Valid() && t.parser.Idle() && (command == '0' as int || command == '2' as int)
    requires AllInside(text) && Content(Kept(text)) < MAX_OSC_LEN && IsEnding(ending)
    ensures var r := Feed(t, [T.ESC, OSC] + TitleBytes(command, text) + ending, width);
            r.parser.Idle() && r.state == t.state.(title := Split(Kept(text))[0])
  {
    hide Run, Split, Kept, Content, PP.Interrupted, IsEnding, Feed;
    var s := TitleBytes(command, text);
    TitleFields(command, text);
    TitleFields(command, Kept(text));
    PP.IdleInterruptsNothing(t.parser);
    OscParses(t.parser, s, ending);
    var fields := P.Take16([[command]] + Split(Kept(text)));
    assert fields[0] == [command] && fields[1] == Split(Kept(text))[0];
    assert [] + [Osc(fields)] == [Osc(fields)];
    FeedOne(t, [T.ESC, OSC] + s + ending, Osc(fields), width);
  }

  /** Commands other than 0 and 2, and a command without a text, change nothing. */
  lemma OtherCommandsAreIgnored(t: Terminal, s: seq<byte>, ending: seq<byte>, width: char -> Width)
    requires t.Valid() && t.parser.Idle() && AllInside(s) && Content(Kept(s)) <= MAX_OSC_LEN && IsEnding(ending)
    requires var fields := Split(Kept(s));
             |fields| == 1 || (fields[0] != ['0' as int] && fields[0] != ['2' as int])
    ensures Feed(t, [T.ESC, OSC] + s + ending, width).state == t.state
  {
    hide Run, Split, Kept, Content, PP.Interrupted, IsEnding, Feed;
    PP.IdleInterruptsNothing(t.parser);
    OscParses(t.parser, s, ending);
    var fields := P.Take16(Split(Kept(s)));
    assert [] + [Osc(fields)] == [Osc(fields)];
    FeedOne(t, [T.ESC, OSC] + s + ending, Osc(fields), width);
  }

  lemma {:induction false} FirstPiece(s: seq<byte>)
    ensures |Split(s)[0]| <= |s| && (|Split(s)[0]| == |s| <==> P.SEMICOLON !in s) && Split(s)[0] == s[..|Split(s)[0]|]
    decreases s
  {
    if s != [] && s[0] != P.SEMICOLON {
      FirstPiece(s[1..]);
      var n := |Split(s[1..])[0]|;
      assert [s[0]] + s[1..][..n] == s[..n + 1];
      assert s == [s[0]] + s[1..];
    }
  }

  lemma {:induction false} KeptLength(s: seq<byte>)
    ensures |Kept(s)| <= |s| && (|Kept(s)| == |s| ==> Kept(s) == s)
    decreases s
  {
    if s != [] {
      KeptLength(s[1..]);
      assert s == [s[0]] + s[1..];
    }
  }

  /** The title is the text as it was sent exactly when no byte is dropped and none is a semicolon;
      dropped are, with all controls, the bytes 0x80 to 0x9F, which occur inside UTF-8. */
  lemma TitleIsTextIff(text: seq<byte>)
    ensures Split(Kept(text))[0] == text
            <==> P.SEMICOLON !in text && forall i :: 0 <= i < |text| ==> IsKept(text[i])
  {
    hide Split, Kept, IsKept;
    FirstPiece(Kept(text));
    KeptLength(text);
    AllKept(text);
  }

  // -------------------------------------------------------------------------
  // Saved cursors
  // -------------------------------------------------------------------------

  predicate LeavesSaved(e: Event) {
    !SavesCursor(e) && !RestoresCursor(e)
  }

  lemma SoftWrapKeeps(g: Grid)
    requires g.Sized()
    ensures var r := SoftWrap(g); r.saved == g.saved && r.cursor.visible == g.cursor.visible
  {
    hide HasWidth, ScrolledUp, S.PushAll;
  }

  lemma WriteKeeps(g: Grid, c: char, w: nat)
    requires g.Sized()
    ensures var r := WriteChar(g, c, w); r.saved == g.saved && r.cursor.visible == g.cursor.visible
  {
    hide HasWidth, PlaceChar, SoftWrap;
    SoftWrapKeeps(g);
    SoftWrapKeeps(FillLastCell(BeforeWrite(g)));
  }

  lemma {:induction false} ModesKeepSaved(t: TerminalState, numbers: seq<u16>, on: bool)
    requires t.Sized()
    ensures PrivateModes(t, numbers, on).grid.saved == t.grid.saved
    decreases numbers
  {
    if numbers != [] {
      ModesKeepSaved(PrivateMode(t, numbers[0], on), numbers[1..], on);
    }
  }

  lemma DispatchKeeps(g: Grid, params: seq<u16>, action: byte)
    requires g.Sized()
    ensures var r := Dispatch(g, params, action); r.saved == g.saved && r.cursor.visible == g.cursor.visible
  {
    hide HasWidth, ScrolledUp, ScrolledDown, S.PushAll, EraseCells, Sgr;
  }

  lemma HandleKeepsSaved(t: TerminalState, e: Event, width: char -> Width)
    requires t.Valid() && LeavesSaved(e)
    ensures Handle(t, e, width).grid.saved == t.grid.saved
  {
    hide WriteChar, PrivateModes, Dispatch, ScrollUpIn, ScrollDownIn, HasWidth;
    match e
    case Printed(c) =>
      WriteKeeps(t.grid, c, width(c));
      WriteKeeps(t.grid, DecGlyph(c), width(DecGlyph(c)));
    case Executed(b) => IndexKeeps(t.grid);
    case Csi(params, intermediates, action) =>
      ModesKeepSaved(t, params, true);
      ModesKeepSaved(t, params, false);
      DispatchKeeps(t.grid, params, action);
    case Esc(intermediates, action) => IndexKeeps(t.grid);
    case Osc(fields) =>
    case Dcs(_, _, _, _) =>
  }

  lemma IndexKeeps(g: Grid)
    requires g.Sized()
    ensures LineFeed(g).saved == g.saved == ReverseIndex(g).saved
    ensures LineFeed(g).cursor.visible == g.cursor.visible == ReverseIndex(g).cursor.visible
  {
    hide ScrolledUp, ScrolledDown, S.PushAll, HasWidth;
  }

  lemma {:induction false} HandleAllKeepsSaved(t: TerminalState, es: seq<Event>, width: char -> Width)
    requires t.Valid() && forall i :: 0 <= i < |es| ==> LeavesSaved(es[i])
    ensures HandleAll(t, es, width).grid.saved == t.grid.saved
    decreases es
  {
    hide Handle, LeavesSaved;
    if es != [] {
      HandleKeepsSaved(t, es[0], width);
      HandleAllKeepsSaved(Handle(t, es[0], width), es[1..], width);
    }
  }

  const SAVE: Event := Esc([], '7' as int)
  const RESTORE: Event := Esc([], '8' as int)

  lemma SaveAndRestoreHandled(t: TerminalState, width: char -> Width)
    requires t.Valid()
    ensures Handle(t, SAVE, width) == t.(grid := t.grid.(saved := Some(t.grid.cursor)))
    ensures var g := t.grid;
            Handle(t, RESTORE, width)
            == t.(grid := if g.saved.Some? then g.(cursor := g.saved.value, saved := None) else g)
  {
  }

  /** Whatever happens between saving the cursor and restoring it, other than saves and restores,
      the cursor comes back with its position, style, visibility and pending wrap, from the other
      screen even; a second restore does nothing. */
  lemma SavedCursorReturns(t: TerminalState, es: seq<Event>, width: char -> Width)
    requires t.Valid() && forall i :: 0 <= i < |es| ==> LeavesSaved(es[i])
    ensures var r := HandleAll(t, [SAVE] + es + [RESTORE], width);
            r.grid.cursor == t.grid.cursor && r.grid.saved == None && Handle(r, RESTORE, width) == r
  {
    hide Handle, HandleAll, LeavesSaved;
    Between(t, SAVE, es, RESTORE, width);
    SaveAndRestoreHandled(t, width);
    var s := Handle(t, SAVE, width);
    HandleAllKeepsSaved(s, es, width);
    var m := HandleAll(s, es, width);
    SaveAndRestoreHandled(m, width);
    SaveAndRestoreHandled(Handle(m, RESTORE, width), width);
  }

  // -------------------------------------------------------------------------
  // Private modes
  // -------------------------------------------------------------------------

  /** The number by which a mode is set; the alternate screen has its own. */
  function NumberOf(mode: Mode): u16 {
    match mode
    case CursorKeysApplication => 1
    case Origin => 6
    case AutoWrap => 7
    case CursorVisible => 25
    case MouseReportClick => 1000
    case MouseReportButton => 1002
    case MouseReportAll => 1003
    case FocusEvents => 1004
    case MouseSgrFormat => 1006
    case BracketedPaste => 2004
    case SynchronizedOutput => 2026
    case AlternateScreen => ALTERNATE_SCREEN_MODE
  }

  /** Modes and their numbers determine each other. */
  lemma NumbersNameModes(mode: Mode, number: u16)
    ensures mode != AlternateScreen ==> (ModeOf(number) == Some(mode) <==> number == NumberOf(mode))
    ensures ModeOf(number) != Some(AlternateScreen)
  {
  }

  /** The mode is among those with these numbers. */
  predicate Names(numbers: seq<u16>, mode: Mode) {
    NumberOf(mode) in numbers
  }

  lemma OneModeSet(t: TerminalState, number: u16, on: bool)
    requires t.Sized() && number != ALTERNATE_SCREEN_MODE
    ensures var r := PrivateMode(t, number, on);
            && r == t.(grid := r.grid, modes := r.modes)
            && r.grid == t.grid.(cursor := r.grid.cursor, modes := r.modes)
            && forall mode :: mode in r.modes <==> if number == NumberOf(mode) then on else mode in t.modes
  {
    hide HasWidth;
    forall mode: Mode ensures mode in PrivateMode(t, number, on).modes
                              <==> if number == NumberOf(mode) then on else mode in t.modes
    {
      NumbersNameModes(mode, number);
    }
  }

  /** Setting or resetting a list of modes turns on or off exactly the modes that are named. */
  lemma {:induction false} ModesSet(t: TerminalState, numbers: seq<u16>, on: bool, mode: Mode)
    requires t.Sized() && ALTERNATE_SCREEN_MODE !in numbers
    ensures var r := PrivateModes(t, numbers, on);
            && (mode in r.modes <==> if Names(numbers, mode) then on else mode in t.modes)
            && r.grid == t.grid.(cursor := r.grid.cursor, modes := r.modes)
            && r == t.(grid := r.grid, modes := r.modes)
    decreases numbers
  {
    hide PrivateMode;
    if numbers != [] {
      var r := PrivateMode(t, numbers[0], on);
      OneModeSet(t, numbers[0], on);
      ModesSet(r, numbers[1..], on, mode);
      assert numbers == [numbers[0]] + numbers[1..];
    }
  }

  /** Origin mode homes the cursor, into the region when it is set; setting auto-wrap cancels a
      pending wrap; and otherwise a mode moves nothing. */
  lemma ModeMovesCursor(t: TerminalState, number: u16, on: bool)
    requires t.Sized() && ModeOf(number).Some?
    ensures var r, c := PrivateMode(t, number, on), t.grid.cursor;
            r.grid.cursor
            == (if number == NumberOf(Origin) then MoveTo(c, 0, if on then t.grid.top else 0)
                else if number == NumberOf(AutoWrap) && on then c.(wrapPending := false)
                else c).(visible := CursorVisible in r.modes)
  {
    hide HasWidth;
  }

  /** The cursor is visible when the mode says so. */
  predicate VisibilityAgrees(t: TerminalState) {
    t.grid.cursor.visible <==> CursorVisible in t.modes
  }

  lemma {:induction false} ModesKeepVisibility(t: TerminalState, numbers: seq<u16>, on: bool)
    requires t.Sized() && VisibilityAgrees(t)
    ensures VisibilityAgrees(PrivateModes(t, numbers, on))
    decreases numbers
  {
    hide HasWidth;
    if numbers != [] {
      ModesKeepVisibility(PrivateMode(t, numbers[0], on), numbers[1..], on);
    }
  }

  /** Every event keeps that, the alternate screen included, save that restoring a cursor restores
      its visibility and not the mode. */
  lemma VisibilityKeptIff(t: TerminalState, e: Event, width: char -> Width)
    requires t.Valid() && VisibilityAgrees(t)
    ensures VisibilityAgrees(Handle(t, e, width))
            <==> (RestoresCursor(e) && t.grid.saved.Some? ==> t.grid.saved.value.visible == t.grid.cursor.visible)
  {
    hide WriteChar, LineFeed, ReverseIndex, PrivateModes, Dispatch, HasWidth;
    match e
    case Printed(c) =>
      WriteKeeps(t.grid, c, width(c));
      WriteKeeps(t.grid, DecGlyph(c), width(DecGlyph(c)));
    case Executed(b) => IndexKeeps(t.grid);
    case Csi(params, intermediates, action) =>
      ModesKeepVisibility(t, params, true);
      ModesKeepVisibility(t, params, false);
      DispatchKeeps(t.grid, params, action);
    case Esc(intermediates, action) => IndexKeeps(t.grid);
    case Osc(fields) =>
    case Dcs(_, _, _, _) =>
  }

  /** So it is so in every state that events without restores lead to. */
  lemma {:induction false} VisibilityOverRuns(t: TerminalState, es: seq<Event>, width: char -> Width)
    requires t.Valid() && VisibilityAgrees(t) && forall i :: 0 <= i < |es| ==> !RestoresCursor(es[i])
    ensures VisibilityAgrees(HandleAll(t, es, width))
    decreases es
  {
    hide Handle, RestoresCursor, VisibilityAgrees;
    if es != [] {
      VisibilityKeptIff(t, es[0], width);
      VisibilityOverRuns(Handle(t, es[0], width), es[1..], width);
    }
  }

  lemma NewTerminalAgrees(cols: nat, rows: nat)
    requires cols > 0 && rows > 0
    ensures VisibilityAgrees(NewTerminal(cols, rows).state)
  {
  }

  // -------------------------------------------------------------------------
  // Character sets
  // -------------------------------------------------------------------------

  function Mapped(s: string): (r: string)
    ensures |r| == |s|
  {
    seq(|s|, i requires 0 <= i < |s| => DecGlyph(s[i]))
  }

  const LINE_DRAWING: Event := Esc(['(' as int], '0' as int)
  const TO_ASCII: Event := Esc(['(' as int], 'B' as int)
  const SECOND_LINE_DRAWING: Event := Esc([')' as int], '0' as int)
  const SHIFT_OUT: byte := 0x0E
  const SHIFT_IN: byte := 0x0F

  /** The line-drawing letters. */
  function ArmsOfLetter(c: char): set<B.Side> {
    match c
    case 'j' => {B.Up, B.Left}
    case 'k' => {B.Down, B.Left}
    case 'l' => {B.Down, B.Right}
    case 'm' => {B.Up, B.Right}
    case 'n' => {B.Up, B.Down, B.Left, B.Right}
    case 'q' => {B.Left, B.Right}
    case 't' => {B.Up, B.Down, B.Right}
    case 'u' => {B.Up, B.Down, B.Left}
    case 'v' => {B.Up, B.Left, B.Right}
    case 'w' => {B.Down, B.Left, B.Right}
    case 'x' => {B.Up, B.Down}
    case _ => {}
  }

  /** A letter is shown as the box-drawing character with its arms, of which the borders between
      panes are made. */
  lemma LettersDrawLines(c: char)
    requires B.Arms(c) == {}
    ensures B.Arms(DecGlyph(c)) == ArmsOfLetter(c)
    ensures ArmsOfLetter(c) == {} && c !in {'`', 'a', 'f', 'g'} ==> DecGlyph(c) == c
  {
  }

  lemma PrintMapped(t: TerminalState, plain: TerminalState, c: char, width: char -> Width)
    requires t.Valid() && t.ActiveCharset() == DecSpecialGraphics
    requires plain.Valid() && plain.ActiveCharset() == Ascii && plain.grid == t.grid
    ensures Handle(t, Printed(c), width) == t.(grid := Handle(plain, Printed(DecGlyph(c)), width).grid)
    ensures var r := Handle(plain, Printed(DecGlyph(c)), width); r == plain.(grid := r.grid)
  {
    hide WriteChar, DecGlyph;
  }

  /** Under the line-drawing set a text is printed as its glyphs are under ASCII. */
  lemma {:induction false} TextMapped(t: TerminalState, plain: TerminalState, s: string, width: char -> Width)
    requires t.Valid() && t.ActiveCharset() == DecSpecialGraphics
    requires plain.Valid() && plain.ActiveCharset() == Ascii && plain.grid == t.grid
    ensures var r := HandleAll(plain, Prints(Mapped(s)), width);
            r == plain.(grid := r.grid) && HandleAll(t, Prints(s), width) == t.(grid := r.grid)
    decreases s
  {
    hide Handle, DecGlyph;
    if s != [] {
      PrintMapped(t, plain, s[0], width);
      TextMapped(Handle(t, Printed(s[0]), width), Handle(plain, Printed(DecGlyph(s[0])), width), s[1..], width);
      assert Prints(s)[1..] == Prints(s[1..]) && Prints(Mapped(s))[1..] == Prints(Mapped(s[1..]));
    }
  }

  lemma SetsDesignated(t: TerminalState, width: char -> Width)
    requires t.Valid()
    ensures Handle(t, LINE_DRAWING, width) == t.(g0 := DecSpecialGraphics)
    ensures Handle(t, TO_ASCII, width) == t.(g0 := Ascii)
    ensures Handle(t, SECOND_LINE_DRAWING, width) == t.(g1 := DecSpecialGraphics)
    ensures Handle(t, Executed(SHIFT_OUT), width) == t.(shifted := true)
    ensures Handle(t, Executed(SHIFT_IN), width) == t.(shifted := false)
  {
  }

  /** A text between the line-drawing and the ASCII designation is printed as its glyphs. */
  lemma LineDrawingPrintsGlyphs(t: TerminalState, s: string, width: char -> Width)
    requires t.Valid() && !t.shifted && t.g0 == Ascii
    ensures HandleAll(t, [LINE_DRAWING] + Prints(s) + [TO_ASCII], width) == HandleAll(t, Prints(Mapped(s)), width)
  {
    hide Handle, HandleAll, Prints, Mapped;
    var d := t.(g0 := DecSpecialGraphics);
    Between(t, LINE_DRAWING, Prints(s), TO_ASCII, width);
    SetsDesignated(t, width);
    TextMapped(d, t, s, width);
    SetsDesignated(HandleAll(d, Prints(s), width), width);
  }

  /** So is a text between the two shifts when the second set is for line drawing. */
  lemma ShiftedPrintsGlyphs(t: TerminalState, s: string, width: char -> Width)
    requires t.Valid() && !t.shifted && t.g0 == Ascii
    ensures var d := Handle(t, SECOND_LINE_DRAWING, width);
            HandleAll(d, [Executed(SHIFT_OUT)] + Prints(s) + [Executed(SHIFT_IN)], width)
            == HandleAll(d, Prints(Mapped(s)), width)
  {
    hide Handle, HandleAll, Prints, Mapped;
    SetsDesignated(t, width);
    var d := Handle(t, SECOND_LINE_DRAWING, width);
    Between(d, Executed(SHIFT_OUT), Prints(s), Executed(SHIFT_IN), width);
    SetsDesignated(d, width);
    TextMapped(d.(shifted := true), d, s, width);
    SetsDesignated(HandleAll(d.(shifted := true), Prints(s), width), width);
  }
}
