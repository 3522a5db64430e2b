/** The alternate screen as a bracket: whatever happens inside, leaving it gives the
    primary screen back. */
module AlternateScreenBracket {
  import opened Common
  import opened Cells
  import opened Grids
  import opened Parser
  import opened Terminals
  import D = Decimal
  import P = Params
  import PP = ParserProperties
  import S = Scrollback
  import T = ParserTable

  /** The event leaves the alternate screen. */
  predicate Exits(e: Event) {
    e.Csi? && QUESTION_MARK in e.intermediates && e.action == 'l' as int && ALTERNATE_SCREEN_MODE in e.params
  }

  /** What the alternate screen must not touch. */
  ghost predicate Preserved(g: Grid, r: Grid) {
    r.alternate == g.alternate && r.history == g.history && r.cols == g.cols && r.rows == g.rows
  }

  lemma ScrollPreserves(g: Grid, count: nat)
    requires g.Valid() && g.alternate.Some?
    ensures Preserved(g, ScrollUpIn(g, count, g.top, g.bottom)) && Preserved(g, ScrollDownIn(g, count, g.top, g.bottom))
    ensures Preserved(g, LineFeed(g)) && Preserved(g, ReverseIndex(g))
  {
    hide ScrolledUp, ScrolledDown, S.PushAll, HasWidth;
  }

  lemma SoftWrapPreserves(g: Grid)
    requires g.Valid() && g.alternate.Some?
    ensures Preserved(g, SoftWrap(g)) && Preserved(g, BeforeWrite(g))
  {
    hide ScrolledUp, S.PushAll, HasWidth;
  }

  lemma WritePreserves(g: Grid, c: char, width: nat)
    requires g.Valid() && g.alternate.Some?
    ensures Preserved(g, WriteChar(g, c, width))
  {
    hide SoftWrap, BeforeWrite, HasWidth, PlaceChar;
    SoftWrapPreserves(g);
    var g1 := BeforeWrite(g);
    SoftWrapPreserves(FillLastCell(g1));
  }

  lemma DispatchPreserves(g: Grid, params: seq<u16>, action: byte)
    requires g.Valid() && g.alternate.Some?
    ensures Preserved(g, Dispatch(g, params, action))
  {
    hide ScrollUpIn, ScrollDownIn, HasWidth, EraseCells, Sgr;
    if action == 'S' as int || action == 'T' as int {
      ScrollPreserves(g, ParamOr(params, 0, 1));
    }
  }

  lemma {:induction false} PrivateModesPreserve(t: TerminalState, numbers: seq<u16>, on: bool)
    requires t.Valid() && t.grid.alternate.Some? && (on || ALTERNATE_SCREEN_MODE !in numbers)
    ensures Preserved(t.grid, PrivateModes(t, numbers, on).grid)
    decreases numbers
  {
    if numbers != [] {
      assert numbers[0] in numbers;
      PrivateModesPreserve(PrivateMode(t, numbers[0], on), numbers[1..], on);
    }
  }

  lemma HandlePreserves(t: TerminalState, e: Event, width: char -> Width)
    requires t.Valid() && t.grid.alternate.Some? && !Exits(e)
    ensures Preserved(t.grid, Handle(t, e, width).grid)
  {
    hide WriteChar, LineFeed, ReverseIndex, PrivateModes, Dispatch;
    ScrollPreserves(t.grid, 1);
    match e
    case Printed(c) =>
      WritePreserves(t.grid, c, width(c));
      WritePreserves(t.grid, DecGlyph(c), width(DecGlyph(c)));
    case Executed(b) =>
    case Csi(params, intermediates, action) =>
      if QUESTION_MARK !in intermediates {
        DispatchPreserves(t.grid, params, action);
      } else if action == 'h' as int || action == 'l' as int {
        PrivateModesPreserve(t, params, action == 'h' as int);
      }
    case Esc(intermediates, action) =>
    case Osc(fields) =>
    case Dcs(_, _, _, _) =>
  }

  lemma {:induction false} HandleAllPreserve(t: TerminalState, es: seq<Event>, width: char -> Width)
    requires t.Valid() && t.grid.alternate.Some? && forall i :: 0 <= i < |es| ==> !Exits(es[i])
    ensures Preserved(t.grid, HandleAll(t, es, width).grid)
    decreases es
  {
    hide Handle, Exits;
    if es != [] {
      HandlePreserves(t, es[0], width);
      HandleAllPreserve(Handle(t, es[0], width), es[1..], width);
    }
  }

  // -------------------------------------------------------------------------
  // The bracket in bytes
  // -------------------------------------------------------------------------

  const H: byte := 'h' as int
  const L: byte := 'l' as int

  /** ESC [ ? 1049 h, and ESC [ ? 1049 l. */
  const ENTER: seq<byte> := PP.CsiBytes(true, P.Join([1049]), H)
  const EXIT: seq<byte> := PP.CsiBytes(true, P.Join([1049]), L)

  lemma NumberText()
    ensures P.Join([1049]) == [0x31, 0x30, 0x34, 0x39]
  {
    assert D.Digits(1) == [0x31];
    assert D.Digits(10) == [0x31, 0x30];
    assert D.Digits(104) == [0x31, 0x30, 0x34];
    assert D.Digits(1049) == [0x31, 0x30, 0x34, 0x39];
  }

  function ModeEvent(final: byte): Event {
    Csi([ALTERNATE_SCREEN_MODE], [QUESTION_MARK], final)
  }

  lemma ModeSequence(m: Machine, final: byte)
    requires m.Valid() && T.IsFinal(final)
    ensures var (m', es) := Run(m, PP.CsiBytes(true, P.Join([1049]), final));
            m'.Idle() && es == PP.Interrupted(m) + [ModeEvent(final)]
  {
    hide Run, P.Fields, P.Join, PP.Interrupted;
    P.FieldsOfJoin([1049]);
    assert P.SaturateAll([1049]) == [1049];
    assert P.Join([1049]) != [] by { NumberText(); }
    PP.ControlSequenceDispatches(m, true, P.Join([1049]), final);
  }

  /** The primary screen, its cursor with style, visibility and pending wrap, its scroll
      region and the history. */
  ghost predicate SamePrimary(g: Grid, r: Grid) {
    && r.alternate.None? && r.visible == g.visible && r.cursor == g.cursor
    && r.top == g.top && r.bottom == g.bottom && r.history == g.history && r.cols == g.cols && r.rows == g.rows
  }

  lemma EnterStashes(t: TerminalState, width: char -> Width)
    requires t.Valid() && t.grid.alternate.None?
    ensures var g, r := t.grid, Handle(t, ModeEvent(H), width).grid;
            r.alternate == Some(Stash(g.visible, g.cursor, g.top, g.bottom))
            && r.history == g.history && r.cols == g.cols && r.rows == g.rows
  {
    OneMode(t, true);
  }

  /** What is shown on entering: a blank screen, the cursor home in the plain style and visible, and
      the whole screen as the region. Entering twice is entering once. */
  lemma EnterShowsBlank(t: TerminalState, width: char -> Width)
    requires t.Valid()
    ensures var r := Handle(t, ModeEvent(H), width);
            && AlternateScreen in r.modes && CursorVisible in r.modes
            && (t.grid.alternate.None? ==>
                  r.grid.visible == BlankRows(t.grid.rows, t.grid.cols)
                  && r.grid.cursor == HOME && r.grid.top == 0 && r.grid.bottom == t.grid.rows - 1)
            && Handle(r, ModeEvent(H), width) == r
  {
    OneMode(t, true);
    var r := PrivateMode(t, ALTERNATE_SCREEN_MODE, true);
    OneMode(r, true);
    assert r.modes + {CursorVisible, AlternateScreen} == r.modes;
  }

  lemma OneMode(t: TerminalState, on: bool)
    requires t.Valid()
    ensures PrivateModes(t, [ALTERNATE_SCREEN_MODE], on) == PrivateMode(t, ALTERNATE_SCREEN_MODE, on)
  {
    hide PrivateMode;
    assert [ALTERNATE_SCREEN_MODE][1..] == [];
  }

  lemma ExitRestores(t: TerminalState, g: Grid, width: char -> Width)
    requires t.Valid() && g.alternate.None?
    requires t.grid.alternate == Some(Stash(g.visible, g.cursor, g.top, g.bottom))
    requires t.grid.history == g.history && t.grid.cols == g.cols && t.grid.rows == g.rows
    ensures SamePrimary(g, Handle(t, ModeEvent(L), width).grid)
  {
    OneMode(t, false);
    assert Handle(t, ModeEvent(L), width) == PrivateMode(t, ALTERNATE_SCREEN_MODE, false);
  }

  lemma InterruptedDoesNotExit(m: Machine)
    ensures forall i :: 0 <= i < |PP.Interrupted(m)| ==> !Exits(PP.Interrupted(m)[i])
  {
  }

  /** The events of a bracket, in order. */
  lemma BracketEvents(m: Machine, body: seq<byte>)
    requires m.Valid() && m.Idle()
    ensures var inside := Run(m, ENTER).0;
            var (m', es) := Run(inside, body);
            Run(m, ENTER + body + EXIT).1
            == [ModeEvent(H)] + (es + PP.Interrupted(m')) + [ModeEvent(L)]
  {
    hide Run, PP.Interrupted, P.Join, PP.CsiBytes;
    ModeSequence(m, H);
    var (m1, es1) := Run(m, ENTER);
    var (m2, es2) := Run(m1, body);
    ModeSequence(m2, L);
    var (m3, es3) := Run(m2, EXIT);
    assert PP.Interrupted(m) == [] by { PP.IdleInterruptsNothing(m); }
    assert es1 == [ModeEvent(H)];
    PP.RunThen(m, ENTER, m1, es1, body, m2, es2);
    PP.RunThen(m, ENTER + body, m2, es1 + es2, EXIT, m3, es3);
    assert (es1 + es2) + es3 == es1 + (es2 + PP.Interrupted(m2)) + [ModeEvent(L)];
  }

  lemma BracketStates(t: TerminalState, es: seq<Event>, width: char -> Width)
    requires t.Valid() && t.grid.alternate.None? && forall i :: 0 <= i < |es| ==> !Exits(es[i])
    ensures SamePrimary(t.grid, HandleAll(t, [ModeEvent(H)] + es + [ModeEvent(L)], width).grid)
  {
    hide Handle, HandleAll, Exits, SamePrimary;
    var s1 := Handle(t, ModeEvent(H), width);
    EnterStashes(t, width);
    HandleOne(t, ModeEvent(H), width);
    HandleAllConcat(t, [ModeEvent(H)], es, width);
    var s2 := HandleAll(s1, es, width);
    HandleAllPreserve(s1, es, width);
    HandleOne(s2, ModeEvent(L), width);
    HandleAllConcat(t, [ModeEvent(H)] + es, [ModeEvent(L)], width);
    ExitRestores(s2, t.grid, width);
  }

  /** Entering the alternate screen, feeding any bytes that do not leave it, and leaving it
      restores the primary screen verbatim. The bytes may enter it again, may stop inside
      any sequence, and may save or restore cursors. */
  lemma BracketRestores(t: Terminal, body: seq<byte>, width: char -> Width)
    requires t.Valid() && t.parser.Idle() && t.state.grid.alternate.None?
    requires var es := Run(Run(t.parser, ENTER).0, body).1;
             forall i :: 0 <= i < |es| ==> !Exits(es[i])
    ensures SamePrimary(t.state.grid, Feed(t, ENTER + body + EXIT, width).state.grid)
  {
    hide Run, PP.Interrupted, P.Join, PP.CsiBytes, Exits, HandleAll, SamePrimary;
    BracketEvents(t.parser, body);
    var (m', es) := Run(Run(t.parser, ENTER).0, body);
    InterruptedDoesNotExit(m');
    BracketStates(t.state, es + PP.Interrupted(m'), width);
  }
}
