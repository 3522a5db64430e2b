/** What writing does at the edges: without auto-wrap, with a wide character in the last column, and
    with a character of no width behind another. */
module Writing {
  import opened Common
  import opened Cells
  import opened Grids
  import opened Parser
  import opened Terminals
  import S = Scrollback
  import Typing

  // -------------------------------------------------------------------------
  // Without auto-wrap
  // -------------------------------------------------------------------------

  /** The column the next narrow character goes to. */
  function NextColumn(g: Grid): nat
    requires g.Sized()
  {
    if g.cursor.wrapPending then g.cols - 1 else g.cursor.col
  }

  /** The two differ at most in the cells of one row and in the cursor's column. */
  predicate SameOutside(g: Grid, r: Grid)
    requires g.Sized() && r.Sized()
  {
    && r == g.(visible := r.visible, cursor := r.cursor)
    && r.cursor == g.cursor.(col := r.cursor.col, wrapPending := r.cursor.wrapPending)
    && (forall i :: 0 <= i < g.rows && i != g.cursor.row ==> r.visible[i] == g.visible[i])
    && r.visible[g.cursor.row].softWrapped == g.visible[g.cursor.row].softWrapped
  }

  lemma WrittenInPlace(g: Grid, c: char, w: nat)
    requires g.Sized() && AutoWrap !in g.modes && 1 <= w <= 2
    ensures SameOutside(g, WriteChar(g, c, w))
    ensures w == 1 ==> var r := WriteChar(g, c, w);
                       && r.visible[g.cursor.row].cells[NextColumn(g)] == Cell([c], g.cursor.style, false, false)
                       && NextColumn(r) == Min(NextColumn(g) + 1, g.cols - 1)
                       && (r.cursor.wrapPending <==> NextColumn(g) + 1 == g.cols)
  {
    hide ClearWideAt;
  }

  predicate AllNarrowText(s: string, width: char -> Width) {
    forall i :: 0 <= i < |s| ==> width(s[i]) == 1
  }

  /** With auto-wrap off a text stays in its row, however long: each character goes behind the one
      before, and in the last column over it, with a wrap pending. */
  lemma {:induction false} TextStaysInRow(t: TerminalState, s: string, width: char -> Width)
    requires t.Valid() && t.ActiveCharset() == Ascii && AutoWrap !in t.modes && AllNarrowText(s, width)
    ensures var r := HandleAll(t, Prints(s), width);
            && r == t.(grid := r.grid) && SameOutside(t.grid, r.grid)
            && NextColumn(r.grid) == Min(NextColumn(t.grid) + |s|, t.grid.cols - 1)
            && (s != [] ==>
                  && (r.grid.cursor.wrapPending <==> NextColumn(t.grid) + |s| >= t.grid.cols)
                  && r.grid.visible[t.grid.cursor.row].cells[Min(NextColumn(t.grid) + |s| - 1, t.grid.cols - 1)]
                  == Cell([s[|s| - 1]], t.grid.cursor.style, false, false))
    decreases s
  {
    hide WriteChar, Handle, HasWidth;
    if s != [] {
      Typing.PrintOne(t, s[0], width);
      WrittenInPlace(t.grid, s[0], 1);
      assert Prints(s)[1..] == Prints(s[1..]);
      TextStaysInRow(Handle(t, Printed(s[0]), width), s[1..], width);
    }
  }

  // -------------------------------------------------------------------------
  // Characters of no width
  // -------------------------------------------------------------------------

  /** A combining character written behind another joins it exactly when that one is narrow and did
      not go into the last column, or wide and did: it joins the cell to the left of the cursor,
      which otherwise is the second half of a wide character, or the cell before. */
  lemma CombiningJoinsIff(g: Grid, c: char, w: nat, mark: char)
    requires g.Sized() && !g.cursor.wrapPending && 1 <= w <= 2 && g.cursor.col + w <= g.cols
    ensures var row, col := g.cursor.row, g.cursor.col;
            var r := WriteChar(WriteChar(g, c, w), mark, 0);
            && |r.visible[row].cells| == g.cols
            && (r.visible[row].cells[col].grapheme == [c] + [mark] <==> (w == 1 <==> col + w < g.cols))
            && (r.visible[row].cells[col].grapheme != [c] + [mark] ==> r.visible[row].cells[col].grapheme == [c])
  {
    hide ClearWideAt;
    var once := WriteChar(g, c, w);
    assert once.visible[g.cursor.row].cells[g.cursor.col].grapheme == [c];
  }

  /** In the first column it joins the last cell of the row above, and in the corner none. */
  lemma CombiningInFirstColumn(g: Grid, mark: char)
    requires g.Sized() && g.cursor.col == 0
    ensures var row, last := g.cursor.row, g.cols - 1;
            if row == 0 then WriteChar(g, mark, 0) == g
            else
              var cells := g.visible[row - 1].cells;
              var joined := cells[last].(grapheme := cells[last].grapheme + [mark]);
              WriteChar(g, mark, 0)
              == g.(visible := g.visible[row - 1 := g.visible[row - 1].(cells := cells[last := joined])])
  {
  }

  // -------------------------------------------------------------------------
  // A wide character in the last column
  // -------------------------------------------------------------------------

  /** A wide character for which the last column is too narrow blanks that cell. If the cell is the
      second half of another wide character, this is left with its first half alone; otherwise
      every pair in the row stays whole. */
  lemma LastCellFilledIff(g: Grid)
    requires g.Sized() && g.cursor.col + 1 == g.cols && PerfectlyPaired(g.visible[g.cursor.row].cells)
    ensures PerfectlyPaired(FillLastCell(g).visible[g.cursor.row].cells)
            <==> !g.visible[g.cursor.row].cells[g.cursor.col].continuation
  {
    var cells, last := g.visible[g.cursor.row].cells, g.cursor.col;
    var r := FillLastCell(g).visible[g.cursor.row].cells;
    assert r == cells[last := BLANK];
    if cells[last].continuation {
      assert PairedAt(cells, last);
      assert r[last - 1].wide && !r[last].continuation;
    } else {
      forall i | 0 <= i < |r| ensures PairedAt(r, i) && (r[i].wide ==> i + 1 < |r| && r[i + 1].continuation) {
        assert PairedAt(cells, i);
      }
    }
  }

  // -------------------------------------------------------------------------
  // Wrapping
  // -------------------------------------------------------------------------

  /** A wrap is a new line from a row that is marked as continued, whatever the scroll region. */
  lemma WrapIsNewLine(g: Grid)
    requires g.Valid() && g.cursor.wrapPending && AutoWrap in g.modes
    ensures BeforeWrite(g) == Typing.NewLine(MarkSoftWrapped(g, g.cursor.row))
  {
    hide HasWidth, ScrolledUp, S.PushAll;
  }
}
