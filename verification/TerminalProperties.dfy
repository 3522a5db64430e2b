/** Whole runs of the terminal: over any bytes and any resizes the state stays valid and
    wide characters stay paired, and the alternate screen gives the primary one back. */
module TerminalProperties {
  import opened Common
  import opened Grids
  import opened GridPairing
  import opened Parser
  import opened Terminals
  import PP = ParserProperties

  /** However input is cut into calls, the terminal ends in the same state. */
  lemma FeedConcat(t: Terminal, a: seq<byte>, b: seq<byte>, width: char -> Width)
    requires CanFeed(t, a + b)
    ensures CanFeed(t, a) && CanFeed(Feed(t, a, width), b)
    ensures Feed(t, a + b, width) == Feed(Feed(t, a, width), b, width)
  {
    hide Run, HandleAll;
    PP.RunConcat(t.parser, a, b);
    var (m1, es1) := Run(t.parser, a);
    var (m2, es2) := Run(m1, b);
    HandleAllConcat(t.state, es1, es2, width);
  }

  // -------------------------------------------------------------------------
  // Wide characters
  // -------------------------------------------------------------------------

  lemma DispatchPaired(g: Grid, params: seq<u16>, action: byte)
    requires g.Sized() && PairedGrid(g)
    ensures PairedGrid(Dispatch(g, params, action))
  {
    hide PairedGrid, EraseBelow, EraseAbove, EraseAll, EraseLineRight, EraseLineLeft, EraseLineAll, EraseChars,
         Sgr, ScrollUpIn, ScrollDownIn;
    var r := Dispatch(g, params, action);
    if action == 'J' as int || action == 'K' as int || action == 'X' as int {
      ErasesPaired(g, ParamOr(params, 0, 1));
    } else if action == 'S' as int {
      ScrollUpPaired(g, ParamOr(params, 0, 1), g.top, g.bottom);
    } else if action == 'T' as int {
      ScrollDownPaired(g, ParamOr(params, 0, 1), g.top, g.bottom);
    } else {
      CursorKeepsPairing(g, r);
    }
  }

  lemma PrivateModePaired(t: TerminalState, number: u16, on: bool)
    requires t.Sized() && PairedGrid(t.grid)
    ensures PairedGrid(PrivateMode(t, number, on).grid)
  {
    hide PairedGrid, EnterAlternate, ExitAlternate;
    AlternatePaired(t.grid);
    var base := if number != ALTERNATE_SCREEN_MODE then t.grid
                else if on then EnterAlternate(t.grid) else ExitAlternate(t.grid);
    CursorKeepsPairing(base, PrivateMode(t, number, on).grid);
  }

  lemma {:induction false} PrivateModesPaired(t: TerminalState, numbers: seq<u16>, on: bool)
    requires t.Sized() && PairedGrid(t.grid)
    ensures PairedGrid(PrivateModes(t, numbers, on).grid)
    decreases numbers
  {
    hide PairedGrid, PrivateMode;
    if numbers != [] {
      PrivateModePaired(t, numbers[0], on);
      PrivateModesPaired(PrivateMode(t, numbers[0], on), numbers[1..], on);
    }
  }

  lemma ExecutePaired(t: TerminalState, b: byte)
    requires t.Sized() && PairedGrid(t.grid)
    ensures PairedGrid(Execute(t, b).grid)
  {
    hide PairedGrid, LineFeed;
    LineFeedPaired(t.grid);
    if !(0x0A <= b <= 0x0C) { CursorKeepsPairing(t.grid, Execute(t, b).grid); }
  }

  lemma EscDispatchPaired(t: TerminalState, intermediates: seq<byte>, action: byte)
    requires t.Sized() && (Restores(intermediates, action) ==> t.Valid()) && PairedGrid(t.grid)
    ensures PairedGrid(EscDispatch(t, intermediates, action).grid)
  {
    hide PairedGrid, LineFeed, ReverseIndex;
    LineFeedPaired(t.grid);
    var r := EscDispatch(t, intermediates, action).grid;
    if r != LineFeed(t.grid) && r != ReverseIndex(t.grid) { CursorKeepsPairing(t.grid, r); }
  }

  lemma HandlePaired(t: TerminalState, e: Event, width: char -> Width)
    requires t.Sized() && (RestoresCursor(e) ==> t.Valid()) && PairedGrid(t.grid)
    ensures PairedGrid(Handle(t, e, width).grid)
  {
    hide PairedGrid, WriteChar, Execute, EscDispatch, PrivateModes, Dispatch;
    match e
    case Printed(c) =>
      WriteCharPaired(t.grid, c, width(c));
      WriteCharPaired(t.grid, DecGlyph(c), width(DecGlyph(c)));
    case Executed(b) => ExecutePaired(t, b);
    case Csi(params, intermediates, action) =>
      DispatchPaired(t.grid, params, action);
      PrivateModesPaired(t, params, action == 'h' as int);
    case Esc(intermediates, action) => EscDispatchPaired(t, intermediates, action);
    case Osc(fields) =>
    case Dcs(_, _, _, _) =>
  }

  lemma {:induction false} HandleAllPaired(t: TerminalState, es: seq<Event>, width: char -> Width)
    requires CanHandle(t, es) && PairedGrid(t.grid)
    ensures PairedGrid(HandleAll(t, es, width).grid)
    decreases es
  {
    hide PairedGrid, Handle;
    if es != [] {
      HandlePaired(t, es[0], width);
      HandleAllPaired(Handle(t, es[0], width), es[1..], width);
    }
  }

  /** Any bytes at all keep wide characters paired. */
  lemma FeedKeepsPairing(t: Terminal, input: seq<byte>, width: char -> Width)
    requires CanFeed(t, input) && PairedGrid(t.state.grid)
    ensures PairedGrid(Feed(t, input, width).state.grid)
  {
    hide PairedGrid, Run, HandleAll;
    HandleAllPaired(t.state, Run(t.parser, input).1, width);
  }

  lemma NewIsPaired(cols: nat, rows: nat)
    requires cols > 0 && rows > 0
    ensures PairedGrid(NewTerminal(cols, rows).state.grid)
  {
    BlankRowsPaired(rows, cols);
  }

  // -------------------------------------------------------------------------
  // Runs
  // -------------------------------------------------------------------------

  datatype Step = Input(bytes: seq<byte>) | NewSize(cols: nat, rows: nat)

  /** A size the terminal can take: not empty, and with room for a saved cursor. */
  predicate CanResize(t: Terminal, cols: nat, rows: nat) {
    cols > 0 && rows > 0
    && var saved := t.state.grid.saved;
       saved.Some? ==> saved.value.col < cols && saved.value.row < rows
  }

  function ResizeTerminal(t: Terminal, cols: nat, rows: nat): (r: Terminal)
    requires t.Sized() && cols > 0 && rows > 0
    ensures r.Sized()
    ensures t.Valid() && CanResize(t, cols, rows) ==> r.Valid()
  {
    t.(state := t.state.(grid := Resize(t.state.grid, cols, rows)))
  }

  /** Any size but an empty one can be taken, and any bytes that restore no cursor that was
      saved off the screen. */
  ghost predicate CanTake(t: Terminal, step: Step) {
    match step
    case Input(bytes) => CanFeed(t, bytes)
    case NewSize(cols, rows) => cols > 0 && rows > 0
  }

  function Take(t: Terminal, step: Step, width: char -> Width): (r: Terminal)
    requires t.Sized() && CanTake(t, step)
    ensures r.Sized()
  {
    match step
    case Input(bytes) => Feed(t, bytes, width)
    case NewSize(cols, rows) => ResizeTerminal(t, cols, rows)
  }

  /** The terminal after each step is one the next step can be taken from. */
  ghost predicate Possible(t: Terminal, steps: seq<Step>, width: char -> Width)
    requires t.Sized()
    decreases steps
  {
    steps == [] || (CanTake(t, steps[0]) && Possible(Take(t, steps[0], width), steps[1..], width))
  }

  /** The state after any possible run; it is sized, so no operation of the run indexed
      outside the screen. */
  function TakeAll(t: Terminal, steps: seq<Step>, width: char -> Width): (r: Terminal)
    requires t.Sized() && Possible(t, steps, width)
    ensures r.Sized()
    decreases steps
  {
    if steps == [] then t else TakeAll(Take(t, steps[0], width), steps[1..], width)
  }

  /** A resize while a cursor is saved beyond the new size leaves a saved cursor outside the
      screen, where restoring it would put the cursor. */
  lemma ShrinkingPastSavedCursor(t: Terminal, cols: nat, rows: nat)
    requires t.Valid() && cols > 0 && rows > 0 && !CanResize(t, cols, rows)
    ensures var g := Resize(t.state.grid, cols, rows);
            !g.Valid() && g.saved.Some? && !g.InBounds(g.saved.value)
  {
  }

  /** Along a run the alternate screen is never cut through a pair. */
  ghost predicate Uncut(t: Terminal, steps: seq<Step>, width: char -> Width)
    requires t.Sized() && Possible(t, steps, width)
    decreases steps
  {
    steps == [] ||
    (&& (steps[0].NewSize? && t.state.grid.alternate.Some? ==>
           AllResizable(t.state.grid.visible, steps[0].cols, steps[0].rows)
           && AllResizable(t.state.grid.alternate.value.visible, steps[0].cols, steps[0].rows))
     && Uncut(Take(t, steps[0], width), steps[1..], width))
  }

  lemma {:induction false} RunKeepsPairing(t: Terminal, steps: seq<Step>, width: char -> Width)
    requires t.Sized() && PairedGrid(t.state.grid) && Possible(t, steps, width) && Uncut(t, steps, width)
    ensures PairedGrid(TakeAll(t, steps, width).state.grid)
    decreases steps
  {
    hide PairedGrid, Feed, Resize, AllResizable;
    if steps != [] {
      match steps[0] {
        case Input(bytes) => FeedKeepsPairing(t, bytes, width);
        case NewSize(cols, rows) => ResizePaired(t.state.grid, cols, rows);
      }
      RunKeepsPairing(Take(t, steps[0], width), steps[1..], width);
    }
  }

  /** From a new terminal, over any input and any resizes that do not cut the alternate
      screen, wide characters are paired. */
  lemma ReachableIsPaired(cols: nat, rows: nat, steps: seq<Step>, width: char -> Width)
    requires cols > 0 && rows > 0
    requires Possible(NewTerminal(cols, rows), steps, width) && Uncut(NewTerminal(cols, rows), steps, width)
    ensures PairedGrid(TakeAll(NewTerminal(cols, rows), steps, width).state.grid)
  {
    NewIsPaired(cols, rows);
    RunKeepsPairing(NewTerminal(cols, rows), steps, width);
  }
}
