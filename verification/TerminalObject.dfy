/** The terminal as objects: the state the parser's callbacks update, and the terminal that
    feeds bytes through the parser into it. */
module TerminalObject {
  import opened Common
  import opened Styles
  import opened Grids
  import opened GridObject
  import opened Parser
  import opened ParserObject
  import opened Terminals
  import Cells
  import TP = TerminalProperties
  import PP = ParserProperties

  class StateObject {
    const grid: GridBuffer
    var title: seq<byte>
    var modes: set<Mode>
    var charsetG0: Charset
    var charsetG1: Charset
    var activeCharset: nat

    ghost function State(): TerminalState
      reads this, grid, grid.scrollback
    {
      TerminalState(grid.State(), title, modes, charsetG0, charsetG1, activeCharset != 0)
    }

    ghost predicate Sized()
      reads this, grid, grid.scrollback
    {
      State().Sized()
    }

    ghost predicate Valid()
      reads this, grid, grid.scrollback
    {
      State().Valid()
    }

    constructor (cols: nat, rows: nat)
      requires cols > 0 && rows > 0
      ensures Valid() && State() == NewTerminal(cols, rows).state
      ensures fresh(grid) && fresh(grid.scrollback)
    {
      var g := new GridBuffer(cols, rows);
      grid := g;
      title := [];
      modes := g.modes;
      charsetG0, charsetG1 := Ascii, Ascii;
      activeCharset := 0;
    }

    // -----------------------------------------------------------------------
    // SGR
    // -----------------------------------------------------------------------

    /** The colour after a 38 or 48 at `i`, and the index of its last parameter. */
    static method ParseExtendedColor(params: seq<u16>, i: nat) returns (color: Option<Color>, j: nat)
      requires i < |params|
      ensures i <= j < |params| && (color, j - i + 1) == ExtendedColor(params[i..])
    {
      j := i;
      color := None;
      if i + 1 >= |params| {
        return;
      }
      var sub := params[i + 1];
      j := i + 1;
      if sub == 5 {
        if i + 2 < |params| {
          color := Some(Indexed(Clamp255(params[i + 2])));
          j := i + 2;
        }
      } else if sub == 2 {
        if i + 4 < |params| {
          color := Some(Rgb(Clamp255(params[i + 2]), Clamp255(params[i + 3]), Clamp255(params[i + 4])));
          j := i + 4;
        }
      }
    }

    method ApplySgr(params: seq<u16>)
      requires grid.Sized()
      modifies grid`cursor
      ensures grid.Sized() && grid.State() == Grids.SetStyle(old(grid.State()), Sgr(old(grid.cursor).style, params))
    {
      if params == [] {
        grid.SetStyle(PLAIN);
        return;
      }
      hide SgrCode, SetAttr, ClearAttr, SetForeground, SetBackground, ExtendedColor;
      ghost var g := grid.State();
      var i := 0;
      assert params[0..] == params;
      while i < |params|
        invariant i <= |params|
        invariant grid.Sized() && grid.State() == Grids.SetStyle(g, grid.cursor.style)
        invariant SgrCodes(grid.cursor.style, params[i..]) == SgrCodes(g.cursor.style, params)
      {
        ghost var rest := params[i..];
        var style := grid.cursor.style;
        var j := i;
        if params[i] == 38 || params[i] == 48 {
          var color;
          color, j := ParseExtendedColor(params, i);
          if color.Some? {
            style := if params[i] == 38 then SetForeground(style, color.value) else SetBackground(style, color.value);
          }
        } else {
          style := SgrCode(style, params[i]);
        }
        assert rest[j - i + 1..] == params[j + 1..];
        grid.SetStyle(style);
        i := j + 1;
      }
    }

    // -----------------------------------------------------------------------
    // Cursor, regions, modes
    // -----------------------------------------------------------------------

    method ApplyCursorMovement(params: seq<u16>, action: byte)
      requires grid.Sized()
      modifies grid`cursor
      ensures grid.Sized() && grid.State() == MoveCursor(old(grid.State()), params, action)
    {
      var n := ParamOr(params, 0, 1);
      var col, row := grid.cursor.col, grid.cursor.row;
      match action as char
      case 'A' => grid.SetCursor(col, SaturatingSub(row, n));
      case 'B' => grid.SetCursor(col, Min(row + n, grid.rows - 1));
      case 'C' => grid.SetCursor(Min(col + n, grid.cols - 1), row);
      case 'D' => grid.SetCursor(SaturatingSub(col, n), row);
      case 'E' => grid.SetCursor(0, Min(row + n, grid.rows - 1));
      case 'F' => grid.SetCursor(0, SaturatingSub(row, n));
      case 'G' => grid.SetCursor(Min(SaturatingSub(n, 1), grid.cols - 1), row);
      case 'H' => CursorPosition(params);
      case 'f' => CursorPosition(params);
      case 'd' => grid.SetCursor(col, Min(SaturatingSub(n, 1), grid.rows - 1));
      case _ =>
    }

    method CursorPosition(params: seq<u16>)
      requires grid.Sized()
      modifies grid`cursor
      ensures grid.Sized() && grid.State() == MoveCursor(old(grid.State()), params, 'H' as int)
    {
      var row1, col1 := ParamOr(params, 0, 1), ParamOr(params, 1, 1);
      var row := SaturatingSub(row1, 1);
      var col := Min(SaturatingSub(col1, 1), grid.cols - 1);
      grid.SetCursorCup(col, row);
    }

    method ApplyPrivateMode(number: u16, on: bool)
      requires Sized()
      modifies this`modes, grid
      ensures Sized() && State() == PrivateMode(old(State()), number, on)
    {
      hide Cells.HasWidth, Cells.BlankRows;
      if number == ALTERNATE_SCREEN_MODE {
        if on {
          grid.EnterAlternateScreen();
          modes := modes + {CursorVisible};
          modes := modes + {AlternateScreen};
        } else {
          grid.ExitAlternateScreen();
          modes := modes - {AlternateScreen};
          if grid.cursor.visible {
            modes := modes + {CursorVisible};
          } else {
            modes := modes - {CursorVisible};
          }
        }
        assert old(modes) + {CursorVisible} + {AlternateScreen} == old(modes) + {CursorVisible, AlternateScreen};
        grid.SetModes(modes);
        return;
      }
      var mode := ModeOf(number);
      if mode.None? {
        return;
      }
      modes := if on then modes + {mode.value} else modes - {mode.value};
      grid.SetModes(modes);
      if number == 6 {
        if on {
          grid.SetCursor(0, grid.regionTop);
        } else {
          grid.SetCursor(0, 0);
        }
      }
      if number == 7 && on {
        grid.cursor := grid.cursor.(wrapPending := false);
      }
    }

    method ApplyScrollRegion(params: seq<u16>, action: byte)
      requires grid.Sized() && action as char in {'r', 'S', 'T'}
      modifies grid, grid.scrollback
      ensures grid.Sized() && grid.State() == ScrollRegion(old(grid.State()), params, action)
    {
      hide ScrollUpIn, ScrollDownIn;
      if action == 'r' as int {
        var top1 := ParamOr(params, 0, 1);
        var bottom1 := ParamOr(params, 1, grid.rows % 0x1_0000);
        if top1 >= 1 && bottom1 <= grid.rows && top1 < bottom1 {
          grid.SetScrollRegion(top1 - 1, bottom1 - 1);
          grid.SetCursor(0, 0);
        }
      } else if action == 'S' as int {
        grid.ScrollUpInRegion(ParamOr(params, 0, 1), grid.regionTop, grid.regionBottom);
      } else {
        grid.ScrollDownInRegion(ParamOr(params, 0, 1), grid.regionTop, grid.regionBottom);
      }
    }

    method Tabulate(n: nat, forward: bool)
      requires grid.Sized()
      modifies grid`cursor
      ensures grid.Sized()
      ensures grid.State() == Grids.SetCursor(old(grid.State()),
                if forward then TabForward(grid.tabs, old(grid.cursor).col, n)
                else TabBackward(grid.tabs, old(grid.cursor).col, n),
                old(grid.cursor).row)
    {
      var row := grid.cursor.row;
      var col: nat := grid.cursor.col;
      ghost var start := col;
      var left := n;
      while left > 0
        invariant col < |grid.tabs|
        invariant forward ==> TabForward(grid.tabs, col, left) == TabForward(grid.tabs, start, n)
        invariant !forward ==> TabBackward(grid.tabs, col, left) == TabBackward(grid.tabs, start, n)
      {
        var next := if forward then NextStop(grid.tabs, col) else PrevStop(grid.tabs, col);
        if next == col {
          break;
        }
        col := next;
        left := left - 1;
      }
      grid.SetCursor(col, row);
    }

    // -----------------------------------------------------------------------
    // The parser's callbacks
    // -----------------------------------------------------------------------

    method Print(c: char, width: char -> Width)
      requires Sized()
      modifies grid, grid.scrollback
      ensures Sized() && State() == Terminals.Print(old(State()), c, width)
    {
      hide WriteChar;
      var active := if activeCharset == 0 then charsetG0 else charsetG1;
      var output := if active == DecSpecialGraphics then DecGlyph(c) else c;
      WriteCharKeepsModes(grid.State(), output, width(output));
      grid.WriteChar(output, width(output));
    }

    method Execute(b: byte)
      requires Sized()
      modifies this`activeCharset, grid, grid.scrollback
      ensures Sized() && State() == Terminals.Execute(old(State()), b)
    {
      hide Cells.HasWidth, LineFeed;
      if b == 0x08 {
        if grid.cursor.col > 0 {
          grid.SetCursor(grid.cursor.col - 1, grid.cursor.row);
        }
      } else if b == 0x09 {
        grid.SetCursor(NextStop(grid.tabs, grid.cursor.col), grid.cursor.row);
      } else if b == 0x0E {
        activeCharset := 1;
      } else if b == 0x0F {
        activeCharset := 0;
      } else if 0x0A <= b <= 0x0C {
        LineFeedKeepsModes(grid.State());
        grid.LineFeed();
      } else if b == 0x0D {
        grid.SetCursor(0, grid.cursor.row);
      }
    }

    method Csi(params: seq<u16>, intermediates: seq<byte>, action: byte)
      requires Sized()
      modifies this`modes, grid, grid.scrollback
      ensures Sized() && State() == CsiDispatch(old(State()), params, intermediates, action)
    {
      hide PrivateMode, Dispatch;
      if QUESTION_MARK in intermediates {
        if action == 'h' as int || action == 'l' as int {
          var on := action == 'h' as int;
          ghost var t := State();
          for i := 0 to |params|
            invariant Sized() && PrivateModes(State(), params[i..], on) == PrivateModes(t, params, on)
          {
            assert params[i..][1..] == params[i + 1..];
            ApplyPrivateMode(params[i], on);
          }
        }
        return;
      }
      DispatchKeepsModes(grid.State(), params, action);
      Control(params, action);
    }

    /** A control sequence without a private marker. */
    method Control(params: seq<u16>, action: byte)
      requires grid.Sized()
      modifies grid, grid.scrollback
      ensures grid.Sized() && grid.State() == Dispatch(old(grid.State()), params, action)
    {
      hide Sgr, MoveCursor, EraseBelow, EraseAbove, EraseAll, EraseChars, ScrollRegion, TabForward, TabBackward;
      if action == 'm' as int {
        ApplySgr(params);
      } else if IsMovement(action) {
        ApplyCursorMovement(params, action);
      } else if action == 'J' as int || action == 'K' as int || action == 'X' as int {
        Erase(params, action);
      } else if action == 'I' as int {
        Tabulate(ParamOr(params, 0, 1), true);
      } else if action == 'Z' as int {
        Tabulate(ParamOr(params, 0, 1), false);
      } else if action == 'g' as int {
        var p := FirstParam(params);
        if p == 0 {
          grid.SetTab(grid.cursor.col, false);
        } else if p == 3 {
          grid.ClearTabs();
        }
      } else if action == 'r' as int || action == 'S' as int || action == 'T' as int {
        ApplyScrollRegion(params, action);
      }
    }

    method Erase(params: seq<u16>, action: byte)
      requires grid.Sized() && action as char in {'J', 'K', 'X'}
      modifies grid`visible
      ensures grid.Sized()
      ensures grid.State() == if action == 'J' as int then EraseDisplay(old(grid.State()), FirstParam(params))
                              else if action == 'K' as int then EraseLine(old(grid.State()), FirstParam(params))
                              else EraseChars(old(grid.State()), ParamOr(params, 0, 1))
    {
      hide EraseBelow, EraseAbove, EraseAll, EraseRange, EraseChars;
      var p := FirstParam(params);
      if action == 'J' as int {
        if p == 0 { grid.EraseBelow(); } else if p == 1 { grid.EraseAbove(); } else if p == 2 { grid.EraseAll(); }
      } else if action == 'K' as int {
        if p == 0 {
          grid.EraseRange(grid.cursor.row, grid.cursor.col, grid.cols - 1);
        } else if p == 1 {
          grid.EraseRange(grid.cursor.row, 0, grid.cursor.col);
        } else if p == 2 {
          grid.EraseRange(grid.cursor.row, 0, grid.cols - 1);
        }
      } else {
        grid.EraseChars(ParamOr(params, 0, 1));
      }
    }

    method Esc(intermediates: seq<byte>, action: byte)
      requires Sized() && (Restores(intermediates, action) ==> Valid())
      modifies this`charsetG0, this`charsetG1, grid, grid.scrollback
      ensures Sized() && State() == EscDispatch(old(State()), intermediates, action)
    {
      hide LineFeed, ReverseIndex, Cells.HasWidth;
      var charset := if action == '0' as int then DecSpecialGraphics else Ascii;
      if intermediates != [] && intermediates[0] == '(' as int {
        charsetG0 := charset;
        return;
      }
      if intermediates != [] && intermediates[0] == ')' as int {
        charsetG1 := charset;
        return;
      }
      LineFeedKeepsModes(grid.State());
      if action == '7' as int {
        grid.SaveCursor();
      } else if action == '8' as int {
        grid.RestoreCursor();
      } else if action == 'H' as int {
        grid.SetTab(grid.cursor.col, true);
      } else if action == 'D' as int {
        grid.LineFeed();
      } else if action == 'M' as int {
        grid.ReverseIndex();
      }
    }

    method Osc(fields: seq<seq<byte>>)
      requires Sized()
      modifies this`title
      ensures Sized() && State() == OscDispatch(old(State()), fields)
    {
      var command := if fields == [] then [] else fields[0];
      if command == ['0' as int] || command == ['2' as int] {
        if |fields| > 1 {
          title := fields[1];
        }
      }
    }

    method HandleEvent(e: Event, width: char -> Width)
      requires Sized() && (RestoresCursor(e) ==> Valid())
      modifies this, grid, grid.scrollback
      ensures Sized() && State() == Handle(old(State()), e, width)
    {
      hide Terminals.Print, Terminals.Execute, CsiDispatch, EscDispatch, OscDispatch;
      match e
      case Printed(c) => Print(c, width);
      case Executed(b) => Execute(b);
      case Csi(params, intermediates, action) => Csi(params, intermediates, action);
      case Esc(intermediates, action) => Esc(intermediates, action);
      case Osc(fields) => Osc(fields);
      case Dcs(_, _, _, _) =>
    }
  }

  lemma LineFeedKeepsModes(g: Grid)
    requires g.Sized()
    ensures LineFeed(g).modes == g.modes && ReverseIndex(g).modes == g.modes
  {
  }

  class TerminalDevice {
    const parser: VteParser
    const state: StateObject
    const width: char -> Width

    ghost function Footprint(): set<object> {
      {this, parser, parser.params, parser.params.values, parser.intermediates, parser.utf8Buffer,
       state, state.grid, state.grid.scrollback}
    }

    ghost predicate Valid()
      reads Footprint()
    {
      parser.Valid() && state.Valid()
    }

    /** Enough to resize: a saved cursor may be off the screen. */
    ghost predicate Sized()
      reads Footprint()
    {
      parser.Valid() && state.Sized()
    }

    ghost function State(): Terminal
      requires Sized()
      reads Footprint()
    {
      Terminal(parser.State(), state.State())
    }

    constructor (cols: nat, rows: nat, width: char -> Width)
      requires cols > 0 && rows > 0
      ensures Valid() && State() == NewTerminal(cols, rows) && this.width == width
      ensures fresh(Footprint())
    {
      var p := new VteParser();
      parser := p;
      var s := new StateObject(cols, rows);
      state := s;
      this.width := width;
    }

    /** Feed bytes through the parser, performing each byte's callbacks before the next. */
    method Feed(input: seq<byte>)
      requires Sized() && CanFeed(State(), input)
      modifies Footprint()
      ensures Sized() && State() == Terminals.Feed(old(State()), input, width)
    {
      hide Terminals.Feed, Parser.ProcessByte, Handle, CanFeed;
      ghost var t := State();
      assert input[0..] == input;
      for i := 0 to |input|
        invariant Sized() && CanFeed(State(), input[i..])
        invariant Terminals.Feed(State(), input[i..], width) == Terminals.Feed(t, input, width)
      {
        ghost var before := State();
        assert input[i..] == [input[i]] + input[i + 1..];
        TP.FeedConcat(before, [input[i]], input[i + 1..], width);
        FeedOne(before, input[i], width);
        var es := parser.ProcessByte(input[i]);
        PerformAll(es);
      }
      assert input[|input|..] == [];
      FeedNothing(State(), width);
    }

    method PerformAll(es: seq<Event>)
      requires Sized() && CanHandle(state.State(), es)
      modifies state, state.grid, state.grid.scrollback
      ensures Sized() && state.State() == HandleAll(old(state.State()), es, width)
      ensures parser.State() == old(parser.State())
    {
      hide Handle;
      ghost var s := state.State();
      for i := 0 to |es|
        invariant Sized() && parser.State() == old(parser.State()) && CanHandle(state.State(), es[i..])
        invariant HandleAll(state.State(), es[i..], width) == HandleAll(s, es, width)
      {
        assert es[i..][1..] == es[i + 1..];
        state.HandleEvent(es[i], width);
      }
    }

    method Resize(cols: nat, rows: nat)
      requires Sized() && cols > 0 && rows > 0
      modifies Footprint()
      ensures Sized() && State() == TP.ResizeTerminal(old(State()), cols, rows)
      ensures old(Valid()) && TP.CanResize(old(State()), cols, rows) ==> Valid()
    {
      state.grid.Resize(cols, rows);
    }
  }

  lemma FeedNothing(t: Terminal, width: char -> Width)
    requires t.Sized()
    ensures CanFeed(t, []) && Terminals.Feed(t, [], width) == t
  {
  }

  lemma FeedOne(t: Terminal, b: byte, width: char -> Width)
    requires CanFeed(t, [b])
    ensures var (m, es) := Parser.ProcessByte(t.parser, b);
            CanHandle(t.state, es) && Terminals.Feed(t, [b], width) == Terminal(m, HandleAll(t.state, es, width))
  {
    hide Parser.ProcessByte, HandleAll;
    PP.RunOne(t.parser, b);
  }
}
