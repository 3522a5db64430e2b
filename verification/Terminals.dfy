/** The terminal on values: what each parser event does to the screen, the modes and the
    character sets. */
module Terminals {
  import opened Common
  import opened Styles
  import opened Cells
  import opened Grids
  import opened Parser
  import S = Scrollback

  /** The column width of a character, from the Unicode tables; a character without a
      width counts as zero-width. */
  type Width = w: nat | w <= 2

  datatype Charset = Ascii | DecSpecialGraphics

  datatype TerminalState = TerminalState(
    grid: Grid,
    title: seq<byte>,
    modes: set<Mode>,
    g0: Charset,
    g1: Charset,
    shifted: bool)
  {
    /** The terminal and its grid agree on the modes; a saved cursor may be off the screen. */
    ghost predicate Sized() {
      grid.Sized() && modes == grid.modes
    }

    ghost predicate Valid() {
      Sized() && grid.Valid()
    }

    function ActiveCharset(): Charset {
      if shifted then g1 else g0
    }
  }

  /** The parameter at `index`, or `default` when it is absent or zero. */
  function ParamOr(params: seq<u16>, index: nat, default: nat): nat {
    if index < |params| && params[index] != 0 then params[index] as int else default
  }

  function FirstParam(params: seq<u16>): nat {
    if params == [] then 0 else params[0] as int
  }

  // -------------------------------------------------------------------------
  // SGR (ECMA-48, section 8.3.117)
  // -------------------------------------------------------------------------

  function Clamp255(v: u16): byte {
    if v <= 255 then v else 255
  }

  /** The colour after a 38 or 48 at the head of `params`, and how many parameters the
      whole sequence takes. */
  function ExtendedColor(params: seq<u16>): (r: (Option<Color>, nat))
    requires params != []
    ensures 1 <= r.1 <= |params|
  {
    if |params| < 2 then (None, 1)
    else if params[1] == 5 && |params| >= 3 then (Some(Indexed(Clamp255(params[2]))), 3)
    else if params[1] == 2 && |params| >= 5 then
      (Some(Rgb(Clamp255(params[2]), Clamp255(params[3]), Clamp255(params[4]))), 5)
    else (None, 2)
  }

  /** A code that takes no further parameters. */
  function SgrCode(s: Style, p: u16): Style {
    if p == 0 then PLAIN
    else if p == 1 then SetAttr(s, BOLD)
    else if p == 2 then SetAttr(s, DIM)
    else if p == 3 then SetAttr(s, ITALIC)
    else if p == 4 then SetAttr(s, UNDERLINE)
    else if p == 5 then SetAttr(s, BLINK)
    else if p == 7 then SetAttr(s, INVERSE)
    else if p == 8 then SetAttr(s, HIDDEN)
    else if p == 9 then SetAttr(s, STRIKETHROUGH)
    else if p == 21 then SetAttr(s, CURLY_UNDERLINE)
    else if p == 22 then ClearAttr(ClearAttr(s, BOLD), DIM)
    else if p == 23 then ClearAttr(s, ITALIC)
    else if p == 24 then
      ClearAttr(ClearAttr(ClearAttr(ClearAttr(s, UNDERLINE), CURLY_UNDERLINE), DOTTED_UNDERLINE), DASHED_UNDERLINE)
    else if p == 25 then ClearAttr(s, BLINK)
    else if p == 27 then ClearAttr(s, INVERSE)
    else if p == 28 then ClearAttr(s, HIDDEN)
    else if p == 29 then ClearAttr(s, STRIKETHROUGH)
    else if 30 <= p <= 37 then SetForeground(s, Named(p - 30))
    else if p == 39 then SetForeground(s, Default)
    else if 40 <= p <= 47 then SetBackground(s, Named(p - 40))
    else if p == 49 then SetBackground(s, Default)
    else if 90 <= p <= 97 then SetForeground(s, Named(p - 90 + 8))
    else if 100 <= p <= 107 then SetBackground(s, Named(p - 100 + 8))
    else s
  }

  function SgrCodes(s: Style, params: seq<u16>): Style
    decreases params
  {
    if params == [] then s
    else if params[0] == 38 then
      var (color, taken) := ExtendedColor(params);
      SgrCodes(if color.Some? then SetForeground(s, color.value) else s, params[taken..])
    else if params[0] == 48 then
      var (color, taken) := ExtendedColor(params);
      SgrCodes(if color.Some? then SetBackground(s, color.value) else s, params[taken..])
    else SgrCodes(SgrCode(s, params[0]), params[1..])
  }

  /** No parameters at all means reset. */
  function Sgr(s: Style, params: seq<u16>): Style {
    if params == [] then PLAIN else SgrCodes(s, params)
  }

  // -------------------------------------------------------------------------
  // Cursor movement
  // -------------------------------------------------------------------------

  function MoveCursor(g: Grid, params: seq<u16>, action: byte): (r: Grid)
    requires g.Sized()
    ensures r.Sized() && (g.Valid() ==> r.Valid())
  {
    var n := ParamOr(params, 0, 1);
    var (col, row) := (g.cursor.col, g.cursor.row);
    if action == 'A' as int then SetCursor(g, col, SaturatingSub(row, n))
    else if action == 'B' as int then SetCursor(g, col, Min(row + n, g.rows - 1))
    else if action == 'C' as int then SetCursor(g, Min(col + n, g.cols - 1), row)
    else if action == 'D' as int then SetCursor(g, SaturatingSub(col, n), row)
    else if action == 'E' as int then SetCursor(g, 0, Min(row + n, g.rows - 1))
    else if action == 'F' as int then SetCursor(g, 0, SaturatingSub(row, n))
    else if action == 'G' as int then SetCursor(g, Min(SaturatingSub(n, 1), g.cols - 1), row)
    else if action == 'H' as int || action == 'f' as int then
      SetCursorCup(g, Min(SaturatingSub(ParamOr(params, 1, 1), 1), g.cols - 1), SaturatingSub(n, 1))
    else if action == 'd' as int then SetCursor(g, col, Min(SaturatingSub(n, 1), g.rows - 1))
    else g
  }

  predicate IsMovement(action: byte) {
    'A' as int <= action <= 'H' as int || action == 'd' as int || action == 'f' as int
  }

  /** Forward through at most `n` tab stops. */
  function TabForward(tabs: seq<bool>, col: nat, n: nat): (c: nat)
    requires col < |tabs|
    ensures c < |tabs|
    decreases n
  {
    if n == 0 then col
    else
      var next := NextStop(tabs, col);
      if next == col then col else TabForward(tabs, next, n - 1)
  }

  function TabBackward(tabs: seq<bool>, col: nat, n: nat): (c: nat)
    requires col < |tabs|
    ensures c < |tabs|
    decreases n
  {
    if n == 0 then col
    else
      var prev := PrevStop(tabs, col);
      if prev == col then col else TabBackward(tabs, prev, n - 1)
  }

  // -------------------------------------------------------------------------
  // Regions, erasing, tabs
  // -------------------------------------------------------------------------

  /** DECSTBM, SU and SD. An invalid region is ignored; the default bottom is the number of
      rows as a 16-bit value. */
  function ScrollRegion(g: Grid, params: seq<u16>, action: byte): (r: Grid)
    requires g.Sized()
    ensures r.Sized() && (g.Valid() ==> r.Valid())
  {
    if action == 'r' as int then
      var top := ParamOr(params, 0, 1);
      var bottom := ParamOr(params, 1, g.rows % 0x1_0000);
      if bottom <= g.rows && top < bottom then SetCursor(SetScrollRegion(g, top - 1, bottom - 1), 0, 0) else g
    else if action == 'S' as int then ScrollUpIn(g, ParamOr(params, 0, 1), g.top, g.bottom)
    else ScrollDownIn(g, ParamOr(params, 0, 1), g.top, g.bottom)
  }

  function EraseDisplay(g: Grid, p: nat): (r: Grid)
    requires g.Sized()
    ensures r.Sized() && (g.Valid() ==> r.Valid())
  {
    if p == 0 then EraseBelow(g) else if p == 1 then EraseAbove(g) else if p == 2 then EraseAll(g) else g
  }

  function EraseLine(g: Grid, p: nat): (r: Grid)
    requires g.Sized()
    ensures r.Sized() && (g.Valid() ==> r.Valid())
  {
    if p == 0 then EraseLineRight(g) else if p == 1 then EraseLineLeft(g) else if p == 2 then EraseLineAll(g) else g
  }

  function ClearTab(g: Grid, p: nat): (r: Grid)
    requires g.Sized()
    ensures r.Sized() && (g.Valid() ==> r.Valid())
  {
    if p == 0 then SetTab(g, g.cursor.col, false) else if p == 3 then ClearTabs(g) else g
  }

  /** A control sequence without a private marker. */
  function Dispatch(g: Grid, params: seq<u16>, action: byte): (r: Grid)
    requires g.Sized()
    ensures r.Sized() && (g.Valid() ==> r.Valid())
  {
    if action == 'm' as int then SetStyle(g, Sgr(g.cursor.style, params))
    else if IsMovement(action) then MoveCursor(g, params, action)
    else if action == 'J' as int then EraseDisplay(g, FirstParam(params))
    else if action == 'K' as int then EraseLine(g, FirstParam(params))
    else if action == 'X' as int then EraseChars(g, ParamOr(params, 0, 1))
    else if action == 'I' as int then
      SetCursor(g, TabForward(g.tabs, g.cursor.col, ParamOr(params, 0, 1)), g.cursor.row)
    else if action == 'Z' as int then
      SetCursor(g, TabBackward(g.tabs, g.cursor.col, ParamOr(params, 0, 1)), g.cursor.row)
    else if action == 'g' as int then ClearTab(g, FirstParam(params))
    else if action == 'r' as int || action == 'S' as int || action == 'T' as int then ScrollRegion(g, params, action)
    else g
  }

  // -------------------------------------------------------------------------
  // Private modes
  // -------------------------------------------------------------------------

  const ALTERNATE_SCREEN_MODE: u16 := 1049

  function ModeOf(number: u16): Option<Mode> {
    if number == 1 then Some(CursorKeysApplication)
    else if number == 6 then Some(Origin)
    else if number == 7 then Some(AutoWrap)
    else if number == 25 then Some(CursorVisible)
    else if number == 1000 then Some(MouseReportClick)
    else if number == 1002 then Some(MouseReportButton)
    else if number == 1003 then Some(MouseReportAll)
    else if number == 1004 then Some(FocusEvents)
    else if number == 1006 then Some(MouseSgrFormat)
    else if number == 2004 then Some(BracketedPaste)
    else if number == 2026 then Some(SynchronizedOutput)
    else None
  }

  function WithMode(modes: set<Mode>, mode: Mode, on: bool): set<Mode> {
    if on then modes + {mode} else modes - {mode}
  }

  function Sync(t: TerminalState, g: Grid, modes: set<Mode>): (r: TerminalState)
    requires g.Sized()
    ensures r.Sized() && (g.Valid() ==> r.Valid())
  {
    t.(grid := SetModes(g, modes), modes := modes)
  }

  function PrivateMode(t: TerminalState, number: u16, on: bool): (r: TerminalState)
    requires t.Sized()
    ensures r.Sized() && (t.Valid() ==> r.Valid())
  {
    if number == ALTERNATE_SCREEN_MODE then
      if on then
        Sync(t, EnterAlternate(t.grid), t.modes + {CursorVisible, AlternateScreen})
      else
        var g := ExitAlternate(t.grid);
        Sync(t, g, WithMode(t.modes - {AlternateScreen}, CursorVisible, g.cursor.visible))
    else if ModeOf(number).None? then t
    else
      var mode := ModeOf(number).value;
      var synced := Sync(t, t.grid, WithMode(t.modes, mode, on));
      if mode == Origin then synced.(grid := SetCursor(synced.grid, 0, if on then synced.grid.top else 0))
      else if mode == AutoWrap && on then
        synced.(grid := synced.grid.(cursor := synced.grid.cursor.(wrapPending := false)))
      else synced
  }

  function PrivateModes(t: TerminalState, numbers: seq<u16>, on: bool): (r: TerminalState)
    requires t.Sized()
    ensures r.Sized() && (t.Valid() ==> r.Valid())
    decreases numbers
  {
    if numbers == [] then t else PrivateModes(PrivateMode(t, numbers[0], on), numbers[1..], on)
  }

  // -------------------------------------------------------------------------
  // Events
  // -------------------------------------------------------------------------

  const QUESTION_MARK: byte := 0x3F

  /** The glyph of an ASCII character in the DEC special graphics set. */
  function DecGlyph(c: char): char {
    match c
    case '`' => '\U{25C6}'
    case 'a' => '\U{2592}'
    case 'f' => '\U{00B0}'
    case 'g' => '\U{00B1}'
    case 'j' => '\U{2518}'
    case 'k' => '\U{2510}'
    case 'l' => '\U{250C}'
    case 'm' => '\U{2514}'
    case 'n' => '\U{253C}'
    case 'q' => '\U{2500}'
    case 't' => '\U{251C}'
    case 'u' => '\U{2524}'
    case 'v' => '\U{2534}'
    case 'w' => '\U{252C}'
    case 'x' => '\U{2502}'
    case _ => c
  }

  function Print(t: TerminalState, c: char, width: char -> Width): (r: TerminalState)
    requires t.Sized()
    ensures r.Sized() && (t.Valid() ==> r.Valid())
  {
    var output := if t.ActiveCharset() == DecSpecialGraphics then DecGlyph(c) else c;
    WriteCharKeepsModes(t.grid, output, width(output));
    t.(grid := WriteChar(t.grid, output, width(output)))
  }

  lemma SoftWrapKeepsModes(g: Grid)
    requires g.Sized()
    ensures SoftWrap(g).modes == g.modes
  {
    hide ScrolledUp, S.PushAll, HasWidth;
  }

  lemma BeforeWriteKeepsModes(g: Grid)
    requires g.Sized()
    ensures BeforeWrite(g).modes == g.modes
  {
    hide SoftWrap, HasWidth;
    SoftWrapKeepsModes(g);
  }

  lemma WriteAtCursorKeepsModes(g: Grid, c: char, w: nat)
    requires g.Sized()
    ensures WriteAtCursor(g, c, w).modes == g.modes
  {
    hide PlaceChar, HasWidth;
  }

  lemma WriteCharKeepsModes(g: Grid, c: char, w: nat)
    requires g.Sized()
    ensures WriteChar(g, c, w).modes == g.modes
  {
    hide SoftWrap, BeforeWrite, WriteAtCursor, PlaceChar, HasWidth, FillLastCell;
    var g1 := BeforeWrite(g);
    BeforeWriteKeepsModes(g);
    WriteAtCursorKeepsModes(g1, c, w);
    if w == 2 && g1.cursor.col + 1 >= g1.cols {
      var g2 := FillLastCell(g1);
      FillLastCellKeepsModes(g1);
      SoftWrapKeepsModes(g2);
      WriteAtCursorKeepsModes(SoftWrap(g2), c, w);
    }
  }

  lemma FillLastCellKeepsModes(g: Grid)
    requires g.Sized()
    ensures FillLastCell(g).modes == g.modes
  {
    hide HasWidth;
  }

  function Execute(t: TerminalState, b: byte): (r: TerminalState)
    requires t.Sized()
    ensures r.Sized() && (t.Valid() ==> r.Valid())
  {
    var g := t.grid;
    if b == 0x08 then
      if g.cursor.col > 0 then t.(grid := SetCursor(g, g.cursor.col - 1, g.cursor.row)) else t
    else if b == 0x09 then t.(grid := SetCursor(g, NextStop(g.tabs, g.cursor.col), g.cursor.row))
    else if b == 0x0E then t.(shifted := true)
    else if b == 0x0F then t.(shifted := false)
    else if 0x0A <= b <= 0x0C then t.(grid := LineFeed(g))
    else if b == 0x0D then t.(grid := SetCursor(g, 0, g.cursor.row))
    else t
  }

  function CsiDispatch(t: TerminalState, params: seq<u16>, intermediates: seq<byte>, action: byte): (r: TerminalState)
    requires t.Sized()
    ensures r.Sized() && (t.Valid() ==> r.Valid())
  {
    if QUESTION_MARK in intermediates then
      if action == 'h' as int || action == 'l' as int then PrivateModes(t, params, action == 'h' as int) else t
    else
      DispatchKeepsModes(t.grid, params, action);
      t.(grid := Dispatch(t.grid, params, action))
  }

  lemma DispatchKeepsModes(g: Grid, params: seq<u16>, action: byte)
    requires g.Sized()
    ensures Dispatch(g, params, action).modes == g.modes
  {
  }

  predicate Designates(intermediates: seq<byte>) {
    intermediates != [] && (intermediates[0] == '(' as int || intermediates[0] == ')' as int)
  }

  /** DECRC. */
  predicate Restores(intermediates: seq<byte>, action: byte) {
    !Designates(intermediates) && action == '8' as int
  }

  /** DECSC. */
  predicate Saves(intermediates: seq<byte>, action: byte) {
    !Designates(intermediates) && action == '7' as int
  }

  function EscDispatch(t: TerminalState, intermediates: seq<byte>, action: byte): (r: TerminalState)
    requires t.Sized() && (Restores(intermediates, action) ==> t.Valid())
    ensures r.Sized() && (t.Valid() || Saves(intermediates, action) ==> r.Valid())
  {
    var charset := if action == '0' as int then DecSpecialGraphics else Ascii;
    if intermediates != [] && intermediates[0] == '(' as int then t.(g0 := charset)
    else if intermediates != [] && intermediates[0] == ')' as int then t.(g1 := charset)
    else if action == '7' as int then t.(grid := SaveCursor(t.grid))
    else if action == '8' as int then t.(grid := RestoreCursor(t.grid))
    else if action == 'H' as int then t.(grid := SetTab(t.grid, t.grid.cursor.col, true))
    else if action == 'D' as int then t.(grid := LineFeed(t.grid))
    else if action == 'M' as int then t.(grid := ReverseIndex(t.grid))
    else t
  }

  function OscDispatch(t: TerminalState, fields: seq<seq<byte>>): (r: TerminalState)
    requires t.Sized()
    ensures r.Sized() && (t.Valid() ==> r.Valid())
  {
    if |fields| > 1 && (fields[0] == ['0' as int] || fields[0] == ['2' as int]) then t.(title := fields[1]) else t
  }

  predicate RestoresCursor(e: Event) {
    e.Esc? && Restores(e.intermediates, e.action)
  }

  predicate SavesCursor(e: Event) {
    e.Esc? && Saves(e.intermediates, e.action)
  }

  /** What an event does. Only DECRC needs the saved cursor to be on the screen. */
  function Handle(t: TerminalState, e: Event, width: char -> Width): (r: TerminalState)
    requires t.Sized() && (RestoresCursor(e) ==> t.Valid())
    ensures r.Sized() && (t.Valid() || SavesCursor(e) ==> r.Valid())
  {
    match e
    case Printed(c) => Print(t, c, width)
    case Executed(b) => Execute(t, b)
    case Csi(params, intermediates, action) => CsiDispatch(t, params, intermediates, action)
    case Esc(intermediates, action) => EscDispatch(t, intermediates, action)
    case Osc(fields) => OscDispatch(t, fields)
    case Dcs(_, _, _, _) => t
  }

  /** No cursor is restored before one is saved. */
  predicate SavesFirst(es: seq<Event>)
    decreases es
  {
    es == [] || (!RestoresCursor(es[0]) && (SavesCursor(es[0]) || SavesFirst(es[1..])))
  }

  /** The events can be performed: the saved cursor is on the screen, or not used. */
  ghost predicate CanHandle(t: TerminalState, es: seq<Event>) {
    t.Valid() || (t.Sized() && SavesFirst(es))
  }

  function HandleAll(t: TerminalState, es: seq<Event>, width: char -> Width): (r: TerminalState)
    requires CanHandle(t, es)
    ensures r.Sized() && (t.Valid() ==> r.Valid())
    decreases es
  {
    if es == [] then t else HandleAll(Handle(t, es[0], width), es[1..], width)
  }

  lemma HandleOne(t: TerminalState, e: Event, width: char -> Width)
    requires t.Valid()
    ensures HandleAll(t, [e], width) == Handle(t, e, width)
  {
    hide Handle;
    assert [e][1..] == [];
  }

  lemma TwoHandled(t: TerminalState, a: Event, b: Event, width: char -> Width)
    requires t.Valid()
    ensures HandleAll(t, [a, b], width) == Handle(Handle(t, a, width), b, width)
  {
    hide Handle;
    assert [a, b][1..] == [b];
    HandleOne(Handle(t, a, width), b, width);
  }

  lemma {:induction false} SavesFirstPrefix(a: seq<Event>, b: seq<Event>)
    requires SavesFirst(a + b)
    ensures SavesFirst(a)
    decreases a
  {
    if a != [] {
      assert (a + b)[1..] == a[1..] + b;
      if !SavesCursor(a[0]) {
        SavesFirstPrefix(a[1..], b);
      }
    }
  }

  lemma {:induction false} HandleAllConcat(t: TerminalState, a: seq<Event>, b: seq<Event>, width: char -> Width)
    requires CanHandle(t, a + b)
    ensures CanHandle(t, a) && CanHandle(HandleAll(t, a, width), b)
    ensures HandleAll(t, a + b, width) == HandleAll(HandleAll(t, a, width), b, width)
    decreases a
  {
    hide Handle;
    if a == [] {
      assert a + b == b;
    } else {
      assert (a + b)[1..] == a[1..] + b;
      HandleAllConcat(Handle(t, a[0], width), a[1..], b, width);
      if SavesFirst(a + b) {
        SavesFirstPrefix(a, b);
      }
    }
  }

  // -------------------------------------------------------------------------
  // The terminal
  // -------------------------------------------------------------------------

  datatype Terminal = Terminal(parser: Machine, state: TerminalState) {
    ghost predicate Sized() {
      parser.Valid() && state.Sized()
    }

    ghost predicate Valid() {
      parser.Valid() && state.Valid()
    }
  }

  function NewTerminal(cols: nat, rows: nat): (t: Terminal)
    requires cols > 0 && rows > 0
    ensures t.Valid()
  {
    Terminal(INITIAL, TerminalState(New(cols, rows), [], DEFAULT_MODES, Ascii, Ascii, false))
  }

  /** The bytes can be fed: they restore no cursor that was saved off the screen. */
  ghost predicate CanFeed(t: Terminal, input: seq<byte>) {
    t.Valid() || (t.Sized() && SavesFirst(Run(t.parser, input).1))
  }

  /** Feed bytes to the terminal. */
  function Feed(t: Terminal, input: seq<byte>, width: char -> Width): (r: Terminal)
    requires CanFeed(t, input)
    ensures r.Sized() && (t.Valid() ==> r.Valid())
  {
    var (m, es) := Run(t.parser, input);
    Terminal(m, HandleAll(t.state, es, width))
  }
}
