/** What the cursor and erase commands mean, and the laws they obey. */
module Commands {
  import opened Common
  import opened Cells
  import opened Grids
  import opened GridProperties
  import opened Terminals
  import S = Scrollback

  // -------------------------------------------------------------------------
  // Moving
  // -------------------------------------------------------------------------

  const UP: byte := 'A' as int
  const DOWN: byte := 'B' as int
  const RIGHT: byte := 'C' as int
  const LEFT: byte := 'D' as int

  predicate IsStep(action: byte) {
    UP <= action <= LEFT
  }

  function Opposite(action: byte): byte
    requires IsStep(action)
  {
    if action == UP then DOWN else if action == DOWN then UP else if action == RIGHT then LEFT else RIGHT
  }

  /** Where a step of `n` leads: column and row, kept on the screen. */
  function Stepped(g: Grid, action: byte, n: nat): (nat, nat)
    requires IsStep(action) && g.cursor.row < g.rows && g.cursor.col < g.cols
  {
    var (col, row) := (g.cursor.col, g.cursor.row);
    if action == UP then (col, SaturatingSub(row, n))
    else if action == DOWN then (col, Min(row + n, g.rows - 1))
    else if action == RIGHT then (Min(col + n, g.cols - 1), row)
    else (SaturatingSub(col, n), row)
  }

  lemma StepMoves(g: Grid, action: byte, n: u16)
    requires g.Sized() && IsStep(action) && n > 0
    ensures var (col, row) := Stepped(g, action, n);
            MoveCursor(g, [n], action) == g.(cursor := MoveTo(g.cursor, col, row))
  {
    hide HasWidth;
    assert ParamOr([n], 0, 1) == n as nat;
  }

  /** The steps of a command's list, one after the other. */
  function MoveAll(g: Grid, action: byte, ns: seq<u16>): (r: Grid)
    requires g.Sized()
    ensures r.Sized()
    decreases ns
  {
    if ns == [] then g else MoveAll(MoveCursor(g, [ns[0]], action), action, ns[1..])
  }

  predicate AllPositive(ns: seq<u16>) {
    forall i :: 0 <= i < |ns| ==> ns[i] > 0
  }

  function Total(ns: seq<u16>): nat {
    if ns == [] then 0 else ns[0] as nat + Total(ns[1..])
  }

  /** However many steps are taken in a direction, and whatever borders they hit, only their
      sum counts. */
  lemma {:induction false} StepsAdd(g: Grid, action: byte, ns: seq<u16>)
    requires g.Sized() && IsStep(action) && AllPositive(ns) && ns != []
    ensures var (col, row) := Stepped(g, action, Total(ns));
            MoveAll(g, action, ns) == g.(cursor := MoveTo(g.cursor, col, row))
    decreases ns
  {
    hide MoveCursor, HasWidth, Stepped;
    StepMoves(g, action, ns[0]);
    if |ns| > 1 {
      var g' := MoveCursor(g, [ns[0]], action);
      StepsAdd(g', action, ns[1..]);
      SteppedTwice(g, g', action, ns[0], Total(ns[1..]));
    }
  }

  lemma SteppedTwice(g: Grid, g': Grid, action: byte, a: nat, b: nat)
    requires g.Sized() && IsStep(action) && g'.cols == g.cols && g'.rows == g.rows
    requires var (col, row) := Stepped(g, action, a); g'.cursor == MoveTo(g.cursor, col, row)
    ensures Stepped(g', action, b) == Stepped(g, action, a + b)
  {
    hide HasWidth;
  }

  /** The cells left in a direction. */
  function RoomFor(g: Grid, action: byte): int
    requires IsStep(action)
  {
    if action == UP then g.cursor.row
    else if action == DOWN then g.rows - 1 - g.cursor.row
    else if action == RIGHT then g.cols - 1 - g.cursor.col
    else g.cursor.col
  }

  /** Steps are undone by opposite steps of the same sum exactly when they did not hit the
      border or began at the opposite border, and no wrap was pending, which any movement
      cancels. */
  lemma StepsUndoneIff(g: Grid, action: byte, there: seq<u16>, back: seq<u16>)
    requires g.Sized() && IsStep(action) && AllPositive(there) && AllPositive(back)
    requires there != [] && back != [] && Total(there) == Total(back)
    ensures MoveAll(MoveAll(g, action, there), Opposite(action), back) == g
            <==> (Total(there) <= RoomFor(g, action) || RoomFor(g, Opposite(action)) == 0) && !g.cursor.wrapPending
  {
    hide MoveAll, HasWidth, Total, AllPositive;
    StepsAdd(g, action, there);
    StepsAdd(MoveAll(g, action, there), Opposite(action), back);
    SomeSteps(there);
  }

  lemma SomeSteps(ns: seq<u16>)
    requires AllPositive(ns) && ns != []
    ensures Total(ns) > 0
  {
  }

  // -------------------------------------------------------------------------
  // Erasing
  // -------------------------------------------------------------------------

  /** The cell comes before the cursor in reading order. */
  predicate BeforeCursor(g: Grid, row: int, col: int) {
    row < g.cursor.row || (row == g.cursor.row && col < g.cursor.col)
  }

  predicate AtCursor(g: Grid, row: int, col: int) {
    row == g.cursor.row && col == g.cursor.col
  }

  /** The cell holds the first half of a wide character whose second half is under the cursor. */
  predicate LeadUnderCursor(g: Grid, row: int, col: int)
    requires g.Sized()
  {
    row == g.cursor.row && col + 1 == g.cursor.col && g.visible[g.cursor.row].cells[g.cursor.col].continuation
  }

  /** The cell holds the second half of a wide character whose first half is under the cursor. */
  predicate TailUnderCursor(g: Grid, row: int, col: int)
    requires g.Sized()
  {
    row == g.cursor.row && col == g.cursor.col + 1 && g.visible[g.cursor.row].cells[g.cursor.col].wide
  }

  /** Erasing below blanks the cursor's cell and every later one in reading order, and with
      them only the first half of a wide character cut at the cursor. */
  lemma ErasedBelow(g: Grid, row: nat, col: nat)
    requires g.Sized() && row < g.rows && col < g.cols
    ensures |g.visible[row].cells| == g.cols == |EraseBelow(g).visible[row].cells|
    ensures var r := EraseBelow(g);
            && r == g.(visible := r.visible) && r.visible[row].softWrapped == g.visible[row].softWrapped
            && r.visible[row].cells[col]
               == if BeforeCursor(g, row, col) && !LeadUnderCursor(g, row, col) then g.visible[row].cells[col]
                  else BLANK
  {
  }

  /** Erasing above blanks the cursor's cell and every earlier one in reading order, and with
      them only the second half of a wide character cut at the cursor. */
  lemma ErasedAbove(g: Grid, row: nat, col: nat)
    requires g.Sized() && row < g.rows && col < g.cols
    ensures |g.visible[row].cells| == g.cols == |EraseAbove(g).visible[row].cells|
    ensures var r := EraseAbove(g);
            && r == g.(visible := r.visible) && r.visible[row].softWrapped == g.visible[row].softWrapped
            && r.visible[row].cells[col]
               == if BeforeCursor(g, row, col) || AtCursor(g, row, col) || TailUnderCursor(g, row, col) then BLANK
                  else g.visible[row].cells[col]
  {
  }

  /** Erasing up to the cursor and from it on is erasing everything. */
  lemma EraseHalves(g: Grid)
    requires g.Sized()
    ensures EraseBelow(EraseAbove(g)) == EraseAll(g) == EraseAbove(EraseBelow(g))
  {
    var all, ab, ba := EraseAll(g), EraseBelow(EraseAbove(g)), EraseAbove(EraseBelow(g));
    forall i | 0 <= i < g.rows ensures ab.visible[i] == all.visible[i] == ba.visible[i] {
      ErasedBelow(g, i, 0);
      ErasedAbove(g, i, 0);
      ErasedBelow(EraseAbove(g), i, 0);
      ErasedAbove(EraseBelow(g), i, 0);
      forall c | 0 <= c < g.cols ensures ab.visible[i].cells[c] == BLANK == ba.visible[i].cells[c] {
        ErasedAbove(g, i, c);
        ErasedBelow(EraseAbove(g), i, c);
        ErasedBelow(g, i, c);
        ErasedAbove(EraseBelow(g), i, c);
      }
      assert ab.visible[i].cells == Repeat(BLANK, g.cols);
      assert ba.visible[i].cells == Repeat(BLANK, g.cols);
    }
  }

  /** The cells that a selective erase blanks: from the cursor on, up to it, all or none. */
  predicate Selects(g: Grid, p: nat, row: int, col: int)
    requires g.Sized()
  {
    match p
    case 0 => !BeforeCursor(g, row, col) || LeadUnderCursor(g, row, col)
    case 1 => BeforeCursor(g, row, col) || AtCursor(g, row, col) || TailUnderCursor(g, row, col)
    case 2 => true
    case _ => false
  }

  const ERASE_DISPLAY: byte := 'J' as int
  const ERASE_LINE: byte := 'K' as int

  /** ED: what each parameter blanks on the screen. */
  lemma DisplayErased(g: Grid, params: seq<u16>, row: nat, col: nat)
    requires g.Sized() && row < g.rows && col < g.cols
    ensures |g.visible[row].cells| == g.cols == |Dispatch(g, params, ERASE_DISPLAY).visible[row].cells|
    ensures var r := Dispatch(g, params, ERASE_DISPLAY);
            && r == g.(visible := r.visible) && r.visible[row].softWrapped == g.visible[row].softWrapped
            && r.visible[row].cells[col]
               == if Selects(g, if params == [] then 0 else params[0], row, col) then BLANK
                  else g.visible[row].cells[col]
  {
    hide EraseBelow, EraseAbove;
    ErasedBelow(g, row, col);
    ErasedAbove(g, row, col);
  }

  /** EL: the same within the cursor's row. */
  lemma LineErased(g: Grid, params: seq<u16>, row: nat, col: nat)
    requires g.Sized() && row < g.rows && col < g.cols
    ensures |g.visible[row].cells| == g.cols == |Dispatch(g, params, ERASE_LINE).visible[row].cells|
    ensures var r := Dispatch(g, params, ERASE_LINE);
            && r == g.(visible := r.visible) && r.visible[row].softWrapped == g.visible[row].softWrapped
            && r.visible[row].cells[col]
               == if row == g.cursor.row && Selects(g, if params == [] then 0 else params[0], row, col) then BLANK
                  else g.visible[row].cells[col]
  {
  }

  const ERASE_CHARS: byte := 'X' as int

  /** ECH: that many cells from the cursor on, and the halves of wide characters that stick out of
      them. */
  lemma CharsErased(g: Grid, n: u16, row: nat, col: nat)
    requires g.Sized() && n > 0 && row < g.rows && col < g.cols
    ensures |g.visible[row].cells| == g.cols == |Dispatch(g, [n], ERASE_CHARS).visible[row].cells|
    ensures var r := Dispatch(g, [n], ERASE_CHARS);
            var first, last := g.cursor.col, g.cursor.col + n as nat - 1;
            && r == g.(visible := r.visible) && r.visible[row].softWrapped == g.visible[row].softWrapped
            && r.visible[row].cells[col]
               == if row == g.cursor.row
                     && (first <= col <= last || LeadUnderCursor(g, row, col)
                         || (col == last + 1 && g.visible[row].cells[last].wide)) then BLANK
                  else g.visible[row].cells[col]
  {
    assert ParamOr([n], 0, 1) == n as nat;
  }

  // -------------------------------------------------------------------------
  // Positions
  // -------------------------------------------------------------------------

  const NEXT_LINE: byte := 'E' as int
  const PREVIOUS_LINE: byte := 'F' as int
  const COLUMN: byte := 'G' as int
  const POSITION: byte := 'H' as int
  const ROW: byte := 'd' as int
  const POSITION_TOO: byte := 'f' as int

  /** An absent count is one, and so is a count of zero. */
  lemma DefaultCounts(g: Grid, action: byte, row: u16)
    requires g.Sized()
    ensures MoveCursor(g, [], action) == MoveCursor(g, [0], action) == MoveCursor(g, [1], action)
    ensures MoveCursor(g, [row], POSITION) == MoveCursor(g, [row, 0], POSITION) == MoveCursor(g, [row, 1], POSITION)
    ensures MoveCursor(g, [row], POSITION_TOO) == MoveCursor(g, [row], POSITION)
  {
    hide Grid.Sized;
    assert ParamOr([], 0, 1) == ParamOr([0], 0, 1) == ParamOr([1], 0, 1) == 1;
    assert ParamOr([], 1, 1) == ParamOr([0], 1, 1) == ParamOr([1], 1, 1) == 1;
    assert ParamOr([row], 1, 1) == ParamOr([row, 0], 1, 1) == ParamOr([row, 1], 1, 1) == 1;
    assert ParamOr([row], 0, 1) == ParamOr([row, 0], 0, 1) == ParamOr([row, 1], 0, 1);
  }

  /** Next and previous line are steps down and up, and then the first column. */
  lemma LinesAreSteps(g: Grid, params: seq<u16>)
    requires g.Sized()
    ensures MoveCursor(g, params, NEXT_LINE) == MoveCursor(MoveCursor(g, params, DOWN), [1], COLUMN)
    ensures MoveCursor(g, params, PREVIOUS_LINE) == MoveCursor(MoveCursor(g, params, UP), [1], COLUMN)
  {
    hide HasWidth;
    assert ParamOr([1], 0, 1) == 1;
  }

  /** An absolute column is reached from the first one by steps to the right, an absolute row from
      the top by steps down. */
  lemma AbsolutesAreSteps(g: Grid, n: u16)
    requires g.Sized() && n > 0
    ensures MoveCursor(g, [1], COLUMN) == g.(cursor := MoveTo(g.cursor, 0, g.cursor.row))
    ensures MoveCursor(g, [1], ROW) == g.(cursor := MoveTo(g.cursor, g.cursor.col, 0))
    ensures n > 1 ==> MoveCursor(g, [n], COLUMN) == MoveCursor(MoveCursor(g, [1], COLUMN), [n - 1], RIGHT)
    ensures n > 1 ==> MoveCursor(g, [n], ROW) == MoveCursor(MoveCursor(g, [1], ROW), [n - 1], DOWN)
  {
    hide HasWidth;
    assert ParamOr([n], 0, 1) == n as nat && ParamOr([1], 0, 1) == 1;
    if n > 1 {
      assert ParamOr([n - 1], 0, 1) == n as nat - 1;
    }
  }

  /** A position is a column and a row; in origin mode the row counts from the top of the scroll
      region and does not leave it (ECMA-48, section 8.3.21). */
  lemma PositionIsColumnAndRow(g: Grid, row: u16, col: u16)
    requires g.Sized() && row > 0
    ensures var r, c := MoveCursor(g, [row, col], POSITION), MoveCursor(g, [col], COLUMN);
            && r == MoveCursor(g, [row, col], POSITION_TOO)
            && (Origin !in g.modes ==> r == MoveCursor(c, [row], ROW))
            && (Origin in g.modes ==> r == c.(cursor := c.cursor.(row := Min(g.top + row as nat - 1, g.bottom))))
  {
    hide HasWidth;
    assert ParamOr([row, col], 0, 1) == ParamOr([row], 0, 1) == row as nat;
    assert ParamOr([row, col], 1, 1) == ParamOr([col], 0, 1);
  }

  /** Carriage return is column 1; backspace is one step to the left, except that it does nothing,
      and cancels no pending wrap, in the first column. */
  lemma ControlsAreMoves(t: TerminalState)
    requires t.Sized()
    ensures Execute(t, 0x0D) == t.(grid := MoveCursor(t.grid, [1], COLUMN))
    ensures Execute(t, 0x08) == t.(grid := MoveCursor(t.grid, [1], LEFT))
            <==> t.grid.cursor.col > 0 || !t.grid.cursor.wrapPending
  {
    hide HasWidth;
    assert ParamOr([1], 0, 1) == 1;
  }

  // -------------------------------------------------------------------------
  // Index and scroll region
  // -------------------------------------------------------------------------

  const INDEX: byte := 'D' as int
  const REVERSE_INDEX: byte := 'M' as int
  const SCROLL_UP: byte := 'S' as int
  const SCROLL_DOWN: byte := 'T' as int
  const REGION: byte := 'r' as int

  /** Line feed, vertical tab, form feed and index are one. */
  lemma FeedsAreIndex(t: TerminalState)
    requires t.Valid()
    ensures Execute(t, 0x0A) == Execute(t, 0x0B) == Execute(t, 0x0C) == EscDispatch(t, [], INDEX)
    ensures EscDispatch(t, [], INDEX) == t.(grid := LineFeed(t.grid))
    ensures EscDispatch(t, [], REVERSE_INDEX) == t.(grid := ReverseIndex(t.grid))
  {
    hide LineFeed, ReverseIndex, HasWidth;
  }

  /** At the edge of the scroll region they scroll it by one row and cancel a pending wrap. */
  lemma IndexScrolls(g: Grid)
    requires g.Sized()
    ensures g.cursor.row == g.bottom ==> LineFeed(g) == Unparked(Dispatch(g, [1], SCROLL_UP))
    ensures g.cursor.row == g.top ==> ReverseIndex(g) == Unparked(Dispatch(g, [1], SCROLL_DOWN))
  {
    hide ScrolledUp, ScrolledDown, S.PushAll, HasWidth;
    assert ParamOr([1], 0, 1) == 1;
  }

  /** Away from the edges they are steps down and up. */
  lemma IndexSteps(g: Grid)
    requires g.Sized()
    ensures g.cursor.row != g.bottom && g.cursor.row + 1 < g.rows ==> LineFeed(g) == MoveCursor(g, [1], DOWN)
    ensures g.cursor.row != g.top && g.cursor.row > 0 ==> ReverseIndex(g) == MoveCursor(g, [1], UP)
  {
    hide HasWidth;
    assert ParamOr([1], 0, 1) == 1;
  }

  /** Scrolling a row away and a blank one back in changes nothing. */
  predicate ScrollsNothing(g: Grid)
    requires g.Sized()
  {
    && g.top == g.bottom && g.visible[g.top] == BlankRow(g.cols)
    && (Captures(g, g.top, g.bottom) ==> S.Push(g.history, BlankRow(g.cols)) == g.history)
  }

  /** Index and then reverse index give the screen back exactly when no wrap was pending and the
      cursor could go down without scrolling or leaving through the top of the region, or the
      region is one blank row. */
  lemma IndexUndoneIff(g: Grid)
    requires g.Sized()
    ensures ReverseIndex(LineFeed(g)) == g
            <==> !g.cursor.wrapPending
                 && if g.cursor.row == g.bottom then ScrollsNothing(g)
                    else g.cursor.row + 1 < g.rows && g.cursor.row + 1 != g.top
  {
    hide ScrolledUp, ScrolledDown, S.PushAll, S.Push, HasWidth, BlankRow;
    if g.cursor.row == g.bottom == g.top {
      OneRowUpAndDown(g);
    }
  }

  /** The same the other way round. */
  lemma ReverseIndexUndoneIff(g: Grid)
    requires g.Sized()
    ensures LineFeed(ReverseIndex(g)) == g
            <==> !g.cursor.wrapPending
                 && if g.cursor.row == g.top then ScrollsNothing(g)
                    else g.cursor.row > 0 && g.cursor.row - 1 != g.bottom
  {
    hide ScrolledUp, ScrolledDown, S.PushAll, S.Push, HasWidth, BlankRow;
    if g.cursor.row == g.bottom == g.top {
      OneRowDownAndUp(g);
    }
  }

  lemma PushOne(h: S.History, row: Row)
    ensures S.PushAll(h, [row]) == S.Push(h, row)
  {
    hide S.Push;
    assert [row][1..] == [];
  }

  lemma SameButOne(a: seq<Row>, b: seq<Row>, i: nat)
    requires |a| == |b| && i < |a| && forall j :: 0 <= j < |a| && j != i ==> a[j] == b[j]
    ensures a == b <==> a[i] == b[i]
  {
  }

  lemma OneRowUpAndDown(g: Grid)
    requires g.Sized() && g.top == g.bottom
    ensures var up := ScrollUpIn(g, 1, g.top, g.bottom);
            var r := ScrollDownIn(up, 1, g.top, g.bottom);
            r == g.(visible := r.visible, history := up.history)
            && (r.visible == g.visible && r.history == g.history <==> ScrollsNothing(g))
  {
    hide ScrolledUp, ScrolledDown, S.PushAll, S.Push, HasWidth, BlankRow;
    var up := ScrollUpIn(g, 1, g.top, g.bottom);
    var r := ScrollDownIn(up, 1, g.top, g.bottom);
    forall i | 0 <= i < g.rows
      ensures r.visible[i] == if i == g.top then BlankRow(g.cols) else g.visible[i]
    {
      UpThenDown(g.visible, g.cols, 1, g.top, g.bottom, i);
    }
    SameButOne(r.visible, g.visible, g.top);
    assert g.visible[g.top..g.top + 1] == [g.visible[g.top]];
    PushOne(g.history, g.visible[g.top]);
  }

  lemma OneRowDownAndUp(g: Grid)
    requires g.Sized() && g.top == g.bottom
    ensures var down := ScrollDownIn(g, 1, g.top, g.bottom);
            var r := ScrollUpIn(down, 1, g.top, g.bottom);
            r == g.(visible := r.visible, history := r.history)
            && (r.visible == g.visible && r.history == g.history <==> ScrollsNothing(g))
  {
    hide ScrolledUp, ScrolledDown, S.PushAll, S.Push, HasWidth, BlankRow;
    var down := ScrollDownIn(g, 1, g.top, g.bottom);
    var r := ScrollUpIn(down, 1, g.top, g.bottom);
    forall i | 0 <= i < g.rows
      ensures r.visible[i] == if i == g.top then BlankRow(g.cols) else g.visible[i]
    {
      DownThenUp(g.visible, g.cols, 1, g.top, g.bottom, i);
    }
    SameButOne(r.visible, g.visible, g.top);
    ScrolledDownAt(g.visible, g.cols, 1, g.top, g.bottom, g.top);
    assert down.visible[g.top..g.top + 1] == [BlankRow(g.cols)];
    PushOne(g.history, BlankRow(g.cols));
  }

  /** DECSTBM sets rows `top` to `bottom` as the region exactly when they are at least two rows of
      the screen, and homes the cursor; anything else is ignored. */
  lemma RegionIsSetIff(g: Grid, top: u16, bottom: u16)
    requires g.Sized() && top > 0 && bottom > 0
    ensures var r := Dispatch(g, [top, bottom], REGION);
            && (top < bottom && bottom as nat <= g.rows ==>
                  r == g.(top := top - 1, bottom := bottom - 1, cursor := MoveTo(g.cursor, 0, 0)))
            && (!(top < bottom && bottom as nat <= g.rows) ==> r == g)
    ensures g.rows <= 0xFFFF ==> Dispatch(g, [], REGION) == Dispatch(g, [1, g.rows], REGION)
  {
    hide HasWidth;
    assert ParamOr([top, bottom], 0, 1) == top as nat;
    assert ParamOr([top, bottom], 1, g.rows % 0x1_0000) == bottom as nat;
    if g.rows <= 0xFFFF {
      assert ParamOr([], 0, 1) == ParamOr([1, g.rows], 0, 1) == 1;
      assert ParamOr([], 1, g.rows % 0x1_0000) == ParamOr([1, g.rows], 1, g.rows % 0x1_0000) == g.rows;
    }
  }

  /** SU and SD move the rows of the region and no others, and fill up with blank ones. */
  lemma RegionScrolls(g: Grid, n: u16, i: nat)
    requires g.Sized() && n > 0 && i < g.rows
    ensures var up, down := Dispatch(g, [n], SCROLL_UP), Dispatch(g, [n], SCROLL_DOWN);
            && up == g.(visible := up.visible, history := up.history) && down == g.(visible := down.visible)
            && up.visible[i] == (if !(g.top <= i <= g.bottom) then g.visible[i]
                                 else if i + n as nat <= g.bottom then g.visible[i + n as nat]
                                 else BlankRow(g.cols))
            && down.visible[i] == (if !(g.top <= i <= g.bottom) then g.visible[i]
                                   else if g.top + n as nat <= i then g.visible[i - n as nat]
                                   else BlankRow(g.cols))
  {
    hide ScrolledUp, ScrolledDown, S.PushAll, HasWidth, BlankRow;
    assert ParamOr([n], 0, 1) == n as nat;
    var k := Min(n, g.bottom - g.top + 1);
    ScrolledUpAt(g.visible, g.cols, k, g.top, g.bottom, i);
    ScrolledDownAt(g.visible, g.cols, k, g.top, g.bottom, i);
  }

  // -------------------------------------------------------------------------
  // Tab stops
  // -------------------------------------------------------------------------

  /** A tab goes to the first stop behind the column, or to the last column. */
  lemma {:induction false} NextStopIsFirst(tabs: seq<bool>, col: nat)
    requires col < |tabs|
    ensures var c := NextStop(tabs, col);
            && (c == |tabs| - 1 || (c > col && tabs[c]))
            && forall k :: col < k < c ==> !tabs[k]
    decreases |tabs| - col
  {
    if col + 1 < |tabs| && !tabs[col + 1] {
      NextStopIsFirst(tabs, col + 1);
    }
  }

  /** A backward tab goes to the last stop before the column, or to the first column. */
  lemma {:induction false} PrevStopIsLast(tabs: seq<bool>, col: nat)
    requires col < |tabs|
    ensures var c := PrevStop(tabs, col);
            && (c == 0 || (c < col && tabs[c]))
            && forall k :: c < k < col ==> !tabs[k]
  {
    if col > 0 && !tabs[col - 1] {
      PrevStopIsLast(tabs, col - 1);
    }
  }

  /** CHT and CBT by one more than `n` are a tab behind those by `n`. */
  lemma {:induction false} TabsAdd(tabs: seq<bool>, col: nat, n: nat)
    requires col < |tabs|
    ensures TabForward(tabs, col, n + 1) == NextStop(tabs, TabForward(tabs, col, n))
    ensures TabBackward(tabs, col, n + 1) == PrevStop(tabs, TabBackward(tabs, col, n))
    decreases n
  {
    hide NextStop, PrevStop;
    if n > 0 {
      if NextStop(tabs, col) != col {
        TabsAdd(tabs, NextStop(tabs, col), n - 1);
      }
      if PrevStop(tabs, col) != col {
        TabsAdd(tabs, PrevStop(tabs, col), n - 1);
      }
    }
  }

  const FORWARD_TABS: byte := 'I' as int
  const BACKWARD_TABS: byte := 'Z' as int

  /** A count of tabs is that many tabs one after the other, and one is the control itself. */
  lemma TabsAreSteps(t: TerminalState, n: u16)
    requires t.Valid() && 0 < n < 0xFFFF
    ensures Execute(t, 0x09) == t.(grid := Dispatch(t.grid, [1], FORWARD_TABS))
    ensures Dispatch(t.grid, [n + 1], FORWARD_TABS)
         == Dispatch(Dispatch(t.grid, [n], FORWARD_TABS), [1], FORWARD_TABS)
    ensures Dispatch(t.grid, [n + 1], BACKWARD_TABS)
         == Dispatch(Dispatch(t.grid, [n], BACKWARD_TABS), [1], BACKWARD_TABS)
  {
    hide HasWidth, NextStop, PrevStop, TabForward, TabBackward;
    var g := t.grid;
    assert ParamOr([1], 0, 1) == 1 && ParamOr([n], 0, 1) == n as nat && ParamOr([n + 1], 0, 1) == n as nat + 1;
    OneTab(g.tabs, g.cursor.col);
    OneTab(g.tabs, TabForward(g.tabs, g.cursor.col, n));
    OneTab(g.tabs, TabBackward(g.tabs, g.cursor.col, n));
    TabsAdd(g.tabs, g.cursor.col, n);
  }

  lemma OneTab(tabs: seq<bool>, col: nat)
    requires col < |tabs|
    ensures TabForward(tabs, col, 1) == NextStop(tabs, col) && TabBackward(tabs, col, 1) == PrevStop(tabs, col)
  {
    hide NextStop, PrevStop;
  }

  /** The controls without a meaning here do nothing. */
  lemma OtherControlsAreIgnored(t: TerminalState, b: byte)
    requires t.Sized() && !(0x08 <= b <= 0x0F)
    ensures Execute(t, b) == t
  {
  }

  /** On a new screen there is a stop in every eighth column. */
  lemma TabOnNewGrid(cols: nat, col: nat)
    requires col < cols
    ensures var c := NextStop(DefaultTabs(cols), col);
            c == cols - 1 <= col + 8 || (c % 8 == 0 && col < c <= col + 8)
  {
    var tabs := DefaultTabs(cols);
    NextStopIsFirst(tabs, col);
    var next := col + 8 - col % 8;
    if next < cols {
      assert tabs[next];
    }
  }

  const SET_STOP: byte := 'H' as int
  const CLEAR_STOP: byte := 'g' as int

  /** HTS adds a stop under the cursor, and TBC removes that one or all; with any other parameter
      it does nothing. */
  lemma StopsSetAndCleared(t: TerminalState, other: u16)
    requires t.Valid() && other != 0 && other != 3
    ensures var g, marked := t.grid, EscDispatch(t, [], SET_STOP);
            && marked == t.(grid := g.(tabs := g.tabs[g.cursor.col := true]))
            && Dispatch(g, [], CLEAR_STOP) == Dispatch(g, [0], CLEAR_STOP)
               == g.(tabs := g.tabs[g.cursor.col := false])
            && Dispatch(g, [3], CLEAR_STOP) == g.(tabs := Repeat(false, g.cols))
            && Dispatch(g, [other], CLEAR_STOP) == g
  {
    hide HasWidth;
  }
}
