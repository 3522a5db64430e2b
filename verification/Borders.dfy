/** The border cells between panes: painting the window and listing its gaps. */
module Borders {
  import opened Common
  import opened Layouts
  import opened LayoutTiling

  datatype BorderCell = BorderCell(x: nat, y: nat, ch: char, active: bool)

  // -------------------------------------------------------------------------
  // Who owns a cell
  // -------------------------------------------------------------------------

  /** The pane painted last over the cell, or 0 for none. */
  function Owner(gs: seq<Geometry>, col: int, row: int): u32 {
    if gs == [] then 0 else
    var last := gs[|gs| - 1];
    if last.area.Contains(col, row) then last.paneId else Owner(gs[..|gs| - 1], col, row)
  }

  predicate InWindow(col: int, row: int, w: nat, h: nat) {
    0 <= col < w && 0 <= row < h
  }

  /** An in-window cell that no pane owns. */
  predicate IsGap(gs: seq<Geometry>, col: int, row: int, w: nat, h: nat) {
    InWindow(col, row, w, h) && Owner(gs, col, row) == 0
  }

  predicate OwnedBy(gs: seq<Geometry>, id: u32, col: int, row: int, w: nat, h: nat) {
    InWindow(col, row, w, h) && Owner(gs, col, row) == id
  }

  /** Some cell above, below, left or right of this one in the window is the pane's. */
  predicate Touches(gs: seq<Geometry>, id: u32, col: int, row: int, w: nat, h: nat) {
    || OwnedBy(gs, id, col, row - 1, w, h)
    || OwnedBy(gs, id, col, row + 1, w, h)
    || OwnedBy(gs, id, col - 1, row, w, h)
    || OwnedBy(gs, id, col + 1, row, w, h)
  }

  // -------------------------------------------------------------------------
  // Box-drawing characters
  // -------------------------------------------------------------------------

  datatype Side = Up | Down | Left | Right

  /** The sides on which a gap continues into another gap. */
  function Continues(gs: seq<Geometry>, col: int, row: int, w: nat, h: nat): set<Side> {
    (if IsGap(gs, col, row - 1, w, h) then {Up} else {})
    + (if IsGap(gs, col, row + 1, w, h) then {Down} else {})
    + (if IsGap(gs, col - 1, row, w, h) then {Left} else {})
    + (if IsGap(gs, col + 1, row, w, h) then {Right} else {})
  }

  const UP: bv8 := 1
  const DOWN: bv8 := 2
  const LEFT: bv8 := 4
  const RIGHT: bv8 := 8

  predicate Has(dirs: bv8, bit: bv8) {
    dirs & bit != 0
  }

  function Sides(dirs: bv8): set<Side> {
    (if Has(dirs, UP) then {Up} else {}) + (if Has(dirs, DOWN) then {Down} else {})
    + (if Has(dirs, LEFT) then {Left} else {}) + (if Has(dirs, RIGHT) then {Right} else {})
  }

  function BoxChar(dirs: bv8): char {
    match (Has(dirs, UP), Has(dirs, DOWN), Has(dirs, LEFT), Has(dirs, RIGHT))
    case (true, true, false, false) => '│'
    case (false, true, false, false) => '│'
    case (true, false, false, false) => '│'
    case (false, true, false, true) => '┌'
    case (false, true, true, false) => '┐'
    case (true, false, false, true) => '└'
    case (true, false, true, false) => '┘'
    case (true, true, false, true) => '├'
    case (true, true, true, false) => '┤'
    case (false, true, true, true) => '┬'
    case (true, false, true, true) => '┴'
    case (true, true, true, true) => '┼'
    case _ => '─'
  }

  /** The sides a box-drawing character reaches. */
  function Arms(ch: char): set<Side> {
    if ch == '│' then {Up, Down}
    else if ch == '─' then {Left, Right}
    else if ch == '┌' then {Down, Right}
    else if ch == '┐' then {Down, Left}
    else if ch == '└' then {Up, Right}
    else if ch == '┘' then {Up, Left}
    else if ch == '├' then {Up, Down, Right}
    else if ch == '┤' then {Up, Down, Left}
    else if ch == '┬' then {Down, Left, Right}
    else if ch == '┴' then {Up, Left, Right}
    else if ch == '┼' then {Up, Down, Left, Right}
    else {}
  }

  /** The sides a line is drawn to: all those it continues on; the end of a line is drawn
      straight through, and an isolated gap horizontally. */
  function Drawn(sides: set<Side>): set<Side> {
    if sides == {Up} || sides == {Down} then {Up, Down}
    else if sides == {Left} || sides == {Right} || sides == {} then {Left, Right}
    else sides
  }

  predicate Draws(ch: char, sides: set<Side>) {
    Arms(ch) == Drawn(sides)
  }

  lemma BoxCharDraws(dirs: bv8)
    ensures Draws(BoxChar(dirs), Sides(dirs))
    ensures Sides(dirs) <= Arms(BoxChar(dirs))
  {
    hide Has;
    var s := Sides(dirs);
    assert Up in s <==> Has(dirs, UP);
    assert Down in s <==> Has(dirs, DOWN);
    assert Left in s <==> Has(dirs, LEFT);
    assert Right in s <==> Has(dirs, RIGHT);
  }

  // -------------------------------------------------------------------------
  // The painted window
  // -------------------------------------------------------------------------

  function Index(col: int, row: int, w: nat): int {
    row * w + col
  }

  lemma IndexInRange(col: int, row: int, w: nat, h: nat)
    requires InWindow(col, row, w, h)
    ensures 0 <= Index(col, row, w) < w * h
  {
    assert row * w + w <= h * w by { assert (h - row - 1) * w >= 0; }
  }

  lemma RowsApart(b: int, d: int, w: nat)
    requires b < d
    ensures b * w + w <= d * w
  {
    assert (d - b - 1) * w >= 0;
  }

  lemma IndexInjective(a: int, b: int, c: int, d: int, w: nat)
    requires 0 <= a < w && 0 <= c < w && Index(a, b, w) == Index(c, d, w)
    ensures a == c && b == d
  {
    if b < d {
      RowsApart(b, d, w);
    } else if d < b {
      RowsApart(d, b, w);
    }
  }

  /** The cell at a position of a window's flat array. */
  function At(cells: seq<u32>, col: int, row: int, w: nat, h: nat): u32
    requires |cells| == w * h && InWindow(col, row, w, h)
  {
    IndexInRange(col, row, w, h);
    cells[Index(col, row, w)]
  }

  lemma WriteOne(before: seq<u32>, after: seq<u32>, x: int, y: int, id: u32, w: nat, h: nat, col: int, row: int)
    requires |before| == |after| == w * h && InWindow(x, y, w, h) && InWindow(col, row, w, h)
    requires 0 <= Index(x, y, w) < |before| && after == before[Index(x, y, w) := id]
    ensures At(after, col, row, w, h) == if col == x && row == y then id else At(before, col, row, w, h)
  {
    IndexInRange(col, row, w, h);
    if Index(col, row, w) == Index(x, y, w) {
      IndexInjective(col, row, x, y, w);
    }
  }

  /** `after` is `before` with the pane's id on the part of its area that comes, in
      row-major order, before the given position. */
  ghost predicate PaintedUpTo(before: seq<u32>, after: seq<u32>, g: Geometry, x: int, y: int, w: nat, h: nat)
    requires |before| == |after| == w * h
  {
    forall col, row :: InWindow(col, row, w, h) ==>
      At(after, col, row, w, h) ==
        if g.area.Contains(col, row) && Earlier(col, row, x, y) then g.paneId else At(before, col, row, w, h)
  }

  predicate Earlier(col: int, row: int, x: int, y: int) {
    row < y || (row == y && col < x)
  }

  lemma PaintMore(before: seq<u32>, mid: seq<u32>, after: seq<u32>, g: Geometry, x: int, y: int, w: nat, h: nat)
    requires |before| == |mid| == |after| == w * h && PaintedUpTo(before, mid, g, x, y, w, h)
    requires g.area.Contains(x, y)
    requires InWindow(x, y, w, h) ==> 0 <= Index(x, y, w) < |mid| && after == mid[Index(x, y, w) := g.paneId]
    requires !InWindow(x, y, w, h) ==> after == mid
    ensures PaintedUpTo(before, after, g, x + 1, y, w, h)
  {
    hide At, Index;
    forall col, row | InWindow(col, row, w, h)
      ensures At(after, col, row, w, h) ==
        if g.area.Contains(col, row) && Earlier(col, row, x + 1, y) then g.paneId else At(before, col, row, w, h)
    {
      if InWindow(x, y, w, h) {
        WriteOne(mid, after, x, y, g.paneId, w, h, col, row);
      }
    }
  }

  /** Paints one pane, clipped to the window. */
  method PaintPane(cells: array<u32>, g: Geometry, w: nat, h: nat)
    requires cells.Length == w * h
    modifies cells
    ensures PaintedUpTo(old(cells[..]), cells[..], g, 0, g.area.y + g.area.height, w, h)
  {
    hide At, Index, PaintedUpTo;
    ghost var before := cells[..];
    NothingPainted(before, g, w, h);
    for row := g.area.y to g.area.y + g.area.height
      invariant PaintedUpTo(before, cells[..], g, 0, row, w, h)
    {
      SkipToColumn(before, cells[..], g, row, w, h);
      for col := g.area.x to g.area.x + g.area.width
        invariant PaintedUpTo(before, cells[..], g, col, row, w, h)
      {
        ghost var mid := cells[..];
        if col < w && row < h {
          IndexInRange(col, row, w, h);
          cells[Index(col, row, w)] := g.paneId;
        }
        PaintMore(before, mid, cells[..], g, col, row, w, h);
      }
      RowPainted(before, cells[..], g, row, w, h);
    }
  }

  lemma NothingPainted(before: seq<u32>, g: Geometry, w: nat, h: nat)
    requires |before| == w * h
    ensures PaintedUpTo(before, before, g, 0, g.area.y, w, h)
  {
    hide At;
  }

  lemma SkipToColumn(before: seq<u32>, after: seq<u32>, g: Geometry, y: int, w: nat, h: nat)
    requires |before| == |after| == w * h && PaintedUpTo(before, after, g, 0, y, w, h)
    ensures PaintedUpTo(before, after, g, g.area.x, y, w, h)
  {
    hide At;
  }

  lemma RowPainted(before: seq<u32>, after: seq<u32>, g: Geometry, y: int, w: nat, h: nat)
    requires |before| == |after| == w * h && PaintedUpTo(before, after, g, g.area.x + g.area.width, y, w, h)
    ensures PaintedUpTo(before, after, g, 0, y + 1, w, h)
  {
    hide At;
  }

  /** The array holds every cell's owner. */
  ghost predicate Painted(cells: seq<u32>, gs: seq<Geometry>, w: nat, h: nat)
    requires |cells| == w * h
  {
    forall col, row :: InWindow(col, row, w, h) ==> At(cells, col, row, w, h) == Owner(gs, col, row)
  }

  lemma PaintedNext(before: seq<u32>, after: seq<u32>, gs: seq<Geometry>, n: nat, w: nat, h: nat)
    requires |before| == |after| == w * h && n < |gs| && Painted(before, gs[..n], w, h)
    requires PaintedUpTo(before, after, gs[n], 0, gs[n].area.y + gs[n].area.height, w, h)
    ensures Painted(after, gs[..n + 1], w, h)
  {
    hide At;
    assert gs[..n + 1][..n] == gs[..n];
  }

  lemma NothingOwned(cells: seq<u32>, w: nat, h: nat)
    requires |cells| == w * h && (forall i :: 0 <= i < |cells| ==> cells[i] == 0)
    ensures Painted(cells, [], w, h)
  {
    forall col, row | InWindow(col, row, w, h) ensures At(cells, col, row, w, h) == 0 {
      IndexInRange(col, row, w, h);
    }
  }

  method PaintPanes(gs: seq<Geometry>, w: nat, h: nat) returns (cells: array<u32>)
    ensures fresh(cells) && cells.Length == w * h && Painted(cells[..], gs, w, h)
  {
    hide PaintedUpTo, Painted, At, Owner;
    cells := new u32[w * h](_ => 0);
    NothingOwned(cells[..], w, h);
    assert gs[..0] == [];
    for n := 0 to |gs|
      invariant Painted(cells[..], gs[..n], w, h)
    {
      ghost var before := cells[..];
      PaintPane(cells, gs[n], w, h);
      PaintedNext(before, cells[..], gs, n, w, h);
    }
    assert gs[..|gs|] == gs;
  }

  // -------------------------------------------------------------------------
  // Listing the gaps
  // -------------------------------------------------------------------------

  /** The border cell that belongs at a gap. */
  predicate Correct(b: BorderCell, gs: seq<Geometry>, active: u32, w: nat, h: nat) {
    && IsGap(gs, b.x, b.y, w, h)
    && Draws(b.ch, Continues(gs, b.x, b.y, w, h))
    && (b.active <==> Touches(gs, active, b.x, b.y, w, h))
  }

  predicate Listed(bs: seq<BorderCell>, col: int, row: int) {
    exists i :: 0 <= i < |bs| && bs[i].x == col && bs[i].y == row
  }

  /** The list holds a correct border cell for each gap before the position, once each and
      in row-major order, and nothing else. */
  ghost predicate ListsGapsBefore(bs: seq<BorderCell>, gs: seq<Geometry>, active: u32, x: int, y: int, w: nat, h: nat) {
    && (forall i :: 0 <= i < |bs| ==> Correct(bs[i], gs, active, w, h) && Earlier(bs[i].x, bs[i].y, x, y))
    && (forall i, j :: 0 <= i < j < |bs| ==> Earlier(bs[i].x, bs[i].y, bs[j].x, bs[j].y))
    && (forall col, row :: IsGap(gs, col, row, w, h) && Earlier(col, row, x, y) ==> Listed(bs, col, row))
  }

  lemma ListOneMore(bs: seq<BorderCell>, b: BorderCell, gs: seq<Geometry>, active: u32, w: nat, h: nat)
    requires ListsGapsBefore(bs, gs, active, b.x, b.y, w, h) && Correct(b, gs, active, w, h)
    ensures ListsGapsBefore(bs + [b], gs, active, b.x + 1, b.y, w, h)
  {
    hide IsGap, Correct;
    var more := bs + [b];
    forall col, row | IsGap(gs, col, row, w, h) && Earlier(col, row, b.x + 1, b.y) ensures Listed(more, col, row) {
      if Earlier(col, row, b.x, b.y) {
        var i :| 0 <= i < |bs| && bs[i].x == col && bs[i].y == row;
        assert more[i] == bs[i];
      } else {
        assert more[|bs|] == b;
      }
    }
  }

  lemma SkipOwned(bs: seq<BorderCell>, gs: seq<Geometry>, active: u32, x: int, y: int, w: nat, h: nat)
    requires ListsGapsBefore(bs, gs, active, x, y, w, h) && !IsGap(gs, x, y, w, h)
    ensures ListsGapsBefore(bs, gs, active, x + 1, y, w, h)
  {
    hide IsGap, Correct, Listed;
  }

  lemma NextRow(bs: seq<BorderCell>, gs: seq<Geometry>, active: u32, y: int, w: nat, h: nat)
    requires ListsGapsBefore(bs, gs, active, w, y, w, h)
    ensures ListsGapsBefore(bs, gs, active, 0, y + 1, w, h)
  {
    hide Owner, Correct, Listed;
  }

  lemma EmptyList(gs: seq<Geometry>, active: u32, w: nat, h: nat)
    ensures ListsGapsBefore([], gs, active, 0, 0, w, h)
  {
    hide Owner, Correct, Listed;
  }

  function SetIf(bits: bv8, bit: bv8, condition: bool): bv8 {
    if condition then bits | bit else bits
  }

  lemma FourBits(up: bool, down: bool, left: bool, right: bool)
    ensures var bits := SetIf(SetIf(SetIf(SetIf(0, UP, up), DOWN, down), LEFT, left), RIGHT, right);
            (Has(bits, UP) <==> up) && (Has(bits, DOWN) <==> down)
            && (Has(bits, LEFT) <==> left) && (Has(bits, RIGHT) <==> right)
  {
  }

  /** The connectivity mask has a bit for each side on which the gap continues. */
  method FromNeighbours(cells: array<u32>, col: nat, row: nat, w: nat, h: nat, ghost gs: seq<Geometry>)
    returns (bits: bv8)
    requires cells.Length == w * h && Painted(cells[..], gs, w, h) && InWindow(col, row, w, h)
    ensures Sides(bits) == Continues(gs, col, row, w, h)
  {
    hide Index, Has, SetIf, Owner;
    bits := 0;
    var up := false;
    var down := false;
    var left := false;
    var right := false;
    if row > 0 {
      up := Vacant(cells, col, row - 1, w, h, gs);
    }
    if row + 1 < h {
      down := Vacant(cells, col, row + 1, w, h, gs);
    }
    if col > 0 {
      left := Vacant(cells, col - 1, row, w, h, gs);
    }
    if col + 1 < w {
      right := Vacant(cells, col + 1, row, w, h, gs);
    }
    bits := SetIf(SetIf(SetIf(SetIf(0, UP, up), DOWN, down), LEFT, left), RIGHT, right);
    FourBits(up, down, left, right);
  }

  method Vacant(cells: array<u32>, col: nat, row: nat, w: nat, h: nat, ghost gs: seq<Geometry>) returns (vacant: bool)
    requires cells.Length == w * h && Painted(cells[..], gs, w, h) && InWindow(col, row, w, h)
    ensures vacant <==> IsGap(gs, col, row, w, h)
  {
    IndexInRange(col, row, w, h);
    assert At(cells[..], col, row, w, h) == cells[Index(col, row, w)];
    return cells[Index(col, row, w)] == 0;
  }

  /** The array indices of the neighbours above, below, left and right, if in the window. */
  function CardinalNeighbours(col: nat, row: nat, w: nat, h: nat): seq<Option<int>> {
    [if row > 0 then Some(Index(col, row - 1, w)) else None,
     if row + 1 < h then Some(Index(col, row + 1, w)) else None,
     if col > 0 then Some(Index(col - 1, row, w)) else None,
     if col + 1 < w then Some(Index(col + 1, row, w)) else None]
  }

  predicate Holds(cells: seq<u32>, at: Option<int>, id: u32) {
    at.Some? && 0 <= at.value < |cells| && cells[at.value] == id
  }

  lemma HoldsWhatItOwns(cells: seq<u32>, gs: seq<Geometry>, id: u32, col: int, row: int, w: nat, h: nat)
    requires |cells| == w * h && Painted(cells, gs, w, h) && InWindow(col, row, w, h)
    ensures 0 <= Index(col, row, w) < |cells|
    ensures Holds(cells, Some(Index(col, row, w)), id) <==> OwnedBy(gs, id, col, row, w, h)
  {
    IndexInRange(col, row, w, h);
    assert At(cells, col, row, w, h) == cells[Index(col, row, w)];
  }

  lemma NeighboursTouch(cells: seq<u32>, gs: seq<Geometry>, id: u32, col: nat, row: nat, w: nat, h: nat)
    requires |cells| == w * h && Painted(cells, gs, w, h) && InWindow(col, row, w, h)
    ensures var ns := CardinalNeighbours(col, row, w, h);
            && (forall k :: 0 <= k < 4 && ns[k].Some? ==> 0 <= ns[k].value < |cells|)
            && ((|| Holds(cells, ns[0], id) || Holds(cells, ns[1], id)
                 || Holds(cells, ns[2], id) || Holds(cells, ns[3], id))
                <==> Touches(gs, id, col, row, w, h))
  {
    hide Painted, Index, Owner, Holds;
    var ns := CardinalNeighbours(col, row, w, h);
    if row > 0 { HoldsWhatItOwns(cells, gs, id, col, row - 1, w, h); } else { HoldsNothing(cells, id); }
    if row + 1 < h { HoldsWhatItOwns(cells, gs, id, col, row + 1, w, h); } else { HoldsNothing(cells, id); }
    if col > 0 { HoldsWhatItOwns(cells, gs, id, col - 1, row, w, h); } else { HoldsNothing(cells, id); }
    if col + 1 < w { HoldsWhatItOwns(cells, gs, id, col + 1, row, w, h); } else { HoldsNothing(cells, id); }
  }

  lemma HoldsNothing(cells: seq<u32>, id: u32)
    ensures !Holds(cells, None, id)
  {
  }

  method TouchesActive(cells: array<u32>, active: u32, col: nat, row: nat, w: nat, h: nat, ghost gs: seq<Geometry>)
    returns (touches: bool)
    requires cells.Length == w * h && Painted(cells[..], gs, w, h) && InWindow(col, row, w, h)
    ensures touches <==> Touches(gs, active, col, row, w, h)
  {
    hide Painted, Index, Touches;
    NeighboursTouch(cells[..], gs, active, col, row, w, h);
    var neighbours := CardinalNeighbours(col, row, w, h);
    touches := false;
    for k := 0 to |neighbours|
      invariant touches <==> exists i :: 0 <= i < k && Holds(cells[..], neighbours[i], active)
    {
      if neighbours[k].Some? && cells[neighbours[k].value] == active {
        assert Holds(cells[..], neighbours[k], active);
        touches := true;
      }
    }
  }

  /** With at least two panes, lists exactly the window's gaps, once each and in row-major
      order, each with a character that continues its lines and a flag that says whether it
      touches the active pane. */
  method ComputeBorders(gs: seq<Geometry>, active: u32, width: u16, height: u16) returns (borders: seq<BorderCell>)
    ensures |gs| <= 1 ==> borders == []
    ensures |gs| > 1 ==> ListsGapsBefore(borders, gs, active, 0, height, width, height)
  {
    hide ListsGapsBefore, Painted, Continues, Touches, Draws, Has, BoxChar, Owner;
    borders := [];
    if |gs| <= 1 {
      return;
    }
    var w: nat, h: nat := width, height;
    var cells := PaintPanes(gs, w, h);
    EmptyList(gs, active, w, h);
    for row := 0 to h
      invariant Painted(cells[..], gs, w, h)
      invariant ListsGapsBefore(borders, gs, active, 0, row, w, h)
    {
      for col := 0 to w
        invariant Painted(cells[..], gs, w, h)
        invariant ListsGapsBefore(borders, gs, active, col, row, w, h)
      {
        var vacant := Vacant(cells, col, row, w, h, gs);
        if vacant {
          var dirs := FromNeighbours(cells, col, row, w, h, gs);
          BoxCharDraws(dirs);
          var touches := TouchesActive(cells, active, col, row, w, h, gs);
          var cell := BorderCell(col, row, BoxChar(dirs), touches);
          ListOneMore(borders, cell, gs, active, w, h);
          borders := borders + [cell];
        } else {
          SkipOwned(borders, gs, active, col, row, w, h);
        }
      }
      NextRow(borders, gs, active, row, w, h);
    }
  }

  // -------------------------------------------------------------------------
  // Borders and layouts
  // -------------------------------------------------------------------------

  /** Among apart rectangles the owner of a cell is the one pane that covers it. */
  lemma {:induction false} OwnerIsTheCoveringPane(gs: seq<Geometry>, r: Rect, i: nat, col: int, row: int)
    requires Tiles(gs, r) && i < |gs| && gs[i].area.Contains(col, row)
    ensures Owner(gs, col, row) == gs[i].paneId
    decreases gs
  {
    var n := |gs| - 1;
    if i == n {
    } else {
      assert gs[i].area.Apart(gs[n].area);
      assert !gs[n].area.Contains(col, row);
      assert Tiles(gs[..n], r);
      OwnerIsTheCoveringPane(gs[..n], r, i, col, row);
    }
  }

  lemma {:induction false} NobodyOwnsUncovered(gs: seq<Geometry>, col: int, row: int)
    requires !Covered(gs, col, row)
    ensures Owner(gs, col, row) == 0
    decreases gs
  {
    if gs != [] {
      var n := |gs| - 1;
      assert !gs[n].area.Contains(col, row);
      forall i | 0 <= i < n ensures !gs[..n][i].area.Contains(col, row) {
        assert gs[..n][i] == gs[i];
      }
      NobodyOwnsUncovered(gs[..n], col, row);
    }
  }

  /** A cell of a fitting layout is a gap exactly when it is on a dividing line or in a pane
      that carries the id 0. */
  lemma GapsOfALayout(root: LayoutNode, r: Rect, col: int, row: int, w: nat, h: nat)
    requires Fits(root, r) && Small(r) && r == Rect(0, 0, w, h) && InWindow(col, row, w, h)
    ensures var gs := ResolveNode(root, r);
            IsGap(gs, col, row, w, h) <==>
              OnDivider(root, r, col, row)
              || (exists i :: 0 <= i < |gs| && gs[i].area.Contains(col, row) && gs[i].paneId == 0)
  {
    hide Fits, OnDivider, ResolveNode, Owner, Tiles;
    var gs := ResolveNode(root, r);
    FittingTiles(root, r);
    PanesAndDividersPartition(root, r, col, row);
    if Covered(gs, col, row) {
      var i :| 0 <= i < |gs| && gs[i].area.Contains(col, row);
      OwnerIsTheCoveringPane(gs, r, i, col, row);
      forall j | 0 <= j < |gs| && gs[j].area.Contains(col, row) ensures gs[j].paneId == gs[i].paneId {
        OwnerIsTheCoveringPane(gs, r, j, col, row);
      }
    } else {
      NobodyOwnsUncovered(gs, col, row);
    }
  }

  /** A complete list holds exactly the gaps. */
  lemma ListedIsGap(bs: seq<BorderCell>, gs: seq<Geometry>, active: u32, col: int, row: int, w: nat, h: nat)
    requires ListsGapsBefore(bs, gs, active, 0, h, w, h)
    ensures Listed(bs, col, row) <==> IsGap(gs, col, row, w, h)
  {
    hide Owner, Continues, Touches, Draws;
    if Listed(bs, col, row) {
      var i :| 0 <= i < |bs| && bs[i].x == col && bs[i].y == row;
      assert Correct(bs[i], gs, active, w, h);
    }
  }

  lemma {:induction false} OwnerIsAPane(gs: seq<Geometry>, col: int, row: int)
    requires Owner(gs, col, row) != 0
    ensures exists i :: 0 <= i < |gs| && gs[i].area.Contains(col, row) && gs[i].paneId == Owner(gs, col, row)
    decreases gs
  {
    var n := |gs| - 1;
    if !gs[n].area.Contains(col, row) {
      OwnerIsAPane(gs[..n], col, row);
      var i :| 0 <= i < n && gs[..n][i].area.Contains(col, row) && gs[..n][i].paneId == Owner(gs[..n], col, row);
      assert gs[i] == gs[..n][i];
    }
  }

  /** The borders complete the tiling: for any sound layout whose ids are not 0, the listed
      cells are exactly the cells of the dividing lines, which are exactly the window's
      cells in no pane. */
  lemma BordersCompleteTheTiling(l: Layout, bs: seq<BorderCell>, active: u32, col: int, row: int)
    requires Sound(l) && 0 !in LeafIds(l.root) && InWindow(col, row, l.width, l.height)
    requires ListsGapsBefore(bs, ResolveNode(l.root, l.Window()), active, 0, l.height, l.width, l.height)
    ensures Listed(bs, col, row) <==> OnDivider(l.root, l.Window(), col, row)
    ensures Listed(bs, col, row) <==> !Covered(ResolveNode(l.root, l.Window()), col, row)
  {
    hide Fits, OnDivider, ResolveNode, ListsGapsBefore, Listed, IsGap, LeafIds, Distinct;
    var gs := ResolveNode(l.root, l.Window());
    ListedIsGap(bs, gs, active, col, row, l.width, l.height);
    GapsOfALayout(l.root, l.Window(), col, row, l.width, l.height);
    PanesAndDividersPartition(l.root, l.Window(), col, row);
    ResolvesEveryLeaf(l.root, l.Window());
    forall i | 0 <= i < |gs| ensures gs[i].paneId != 0 {
      assert Ids(gs)[i] == gs[i].paneId;
      assert Ids(gs)[i] in LeafIds(l.root);
    }
  }

  lemma OwnedByIsInPane(gs: seq<Geometry>, r: Rect, i: nat, col: int, row: int, w: nat, h: nat)
    requires Tiles(gs, r) && r == Rect(0, 0, w, h) && i < |gs| && gs[i].paneId != 0
    requires forall j :: 0 <= j < |gs| && gs[j].paneId == gs[i].paneId ==> j == i
    ensures OwnedBy(gs, gs[i].paneId, col, row, w, h) <==> gs[i].area.Contains(col, row)
  {
    hide Owner;
    if gs[i].area.Contains(col, row) {
      OwnerIsTheCoveringPane(gs, r, i, col, row);
      assert gs[i].area.Inside(r);
    } else if OwnedBy(gs, gs[i].paneId, col, row, w, h) {
      OwnerIsAPane(gs, col, row);
    }
  }

  /** A border cell is flagged exactly when the cell above, below, left or right of it lies
      in the active pane's rectangle. */
  lemma FlagMeansNextToActivePane(gs: seq<Geometry>, r: Rect, bs: seq<BorderCell>, i: nat, k: nat, w: nat, h: nat)
    requires Tiles(gs, r) && r == Rect(0, 0, w, h) && i < |gs| && gs[i].paneId != 0
    requires forall j :: 0 <= j < |gs| && gs[j].paneId == gs[i].paneId ==> j == i
    requires ListsGapsBefore(bs, gs, gs[i].paneId, 0, h, w, h) && k < |bs|
    ensures bs[k].active <==>
              || gs[i].area.Contains(bs[k].x, bs[k].y - 1) || gs[i].area.Contains(bs[k].x, bs[k].y + 1)
              || gs[i].area.Contains(bs[k].x - 1, bs[k].y) || gs[i].area.Contains(bs[k].x + 1, bs[k].y)
  {
    assert Correct(bs[k], gs, gs[i].paneId, w, h);
    hide Tiles, OwnedBy, Draws, Continues, ListsGapsBefore, IsGap;
    OwnedByIsInPane(gs, r, i, bs[k].x, bs[k].y - 1, w, h);
    OwnedByIsInPane(gs, r, i, bs[k].x, bs[k].y + 1, w, h);
    OwnedByIsInPane(gs, r, i, bs[k].x - 1, bs[k].y, w, h);
    OwnedByIsInPane(gs, r, i, bs[k].x + 1, bs[k].y, w, h);
  }
}
