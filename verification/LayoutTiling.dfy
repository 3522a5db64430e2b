/** Resolved layouts tile the window, and every operation keeps them doing so. */
module LayoutTiling {
  import opened Common
  import opened Layouts

  // -------------------------------------------------------------------------
  // The clamped shares
  // -------------------------------------------------------------------------

  lemma ScaledBounded(n: nat, ratio: real)
    requires 0.0 <= ratio <= 1.0
    ensures 0.0 <= Scaled(n, ratio) <= n as real
  {
    assert n as real * (1.0 - ratio) >= 0.0;
  }

  lemma ScaledSum(u: nat, n: nat, ratio: real)
    ensures Scaled(u + n, ratio) == Scaled(u, ratio) + Scaled(n, ratio)
  {
  }

  lemma FloorBetween(x: real, y: real, n: nat)
    requires x >= 0.0 && 0.0 <= y <= n as real
    ensures Truncate(x) <= Truncate(x + y) <= Truncate(x) + n
  {
    assert (x + y).Floor <= x.Floor + n;
  }

  /** Growing the space by some cells grows the unclamped share by at most as many. */
  lemma UnclampedShareGrows(u: nat, v: nat, ratio: real)
    requires u <= v && 0.0 <= ratio <= 1.0
    ensures UnclampedShare(u, ratio) <= UnclampedShare(v, ratio) <= UnclampedShare(u, ratio) + (v - u)
  {
    hide Truncate, Scaled;
    var n: nat := v - u;
    ScaledBounded(n, ratio);
    ScaledBounded(u, ratio);
    ScaledSum(u, n, ratio);
    FloorBetween(Scaled(u, ratio), Scaled(n, ratio), n);
  }

  lemma ScaledUp(n: nat, ratio: real)
    requires ratio >= 1.0
    ensures Scaled(n, ratio) >= n as real
  {
    assert n as real * (ratio - 1.0) >= 0.0;
  }

  lemma ScaledDown(n: nat, ratio: real)
    requires ratio <= 0.0
    ensures Scaled(n, ratio) <= 0.0
  {
    assert n as real * (0.0 - ratio) >= 0.0;
  }

  lemma TruncateAbove(x: real, n: nat)
    requires x >= n as real && n < 0x1_0000
    ensures Truncate(x) >= n
  {
  }

  /** A ratio outside [0, 1] gives one side everything above the other's minimum. */
  lemma ExtremeShare(u: nat, ratio: real, least: nat)
    requires 2 * least <= u < 0x1_0000 && (ratio < 0.0 || ratio > 1.0)
    ensures FirstShare(u, ratio, least) == if ratio < 0.0 then least else u - least
  {
    hide Scaled;
    if ratio < 0.0 {
      ScaledDown(u, ratio);
    } else {
      ScaledUp(u, ratio);
      TruncateAbove(Scaled(u, ratio), u);
    }
  }

  /** Both shares are at least the minimum, add up, and grow with the space. */
  lemma SharesGrow(u: nat, v: nat, ratio: real, least: nat)
    requires 2 * least <= u <= v < 0x1_0000
    ensures var (a, b) := (FirstShare(u, ratio, least), FirstShare(v, ratio, least));
            && least <= a <= u - least && least <= b <= v - least
            && a <= b && u - a <= v - b
  {
    hide UnclampedShare;
    if 0.0 <= ratio <= 1.0 {
      UnclampedShareGrows(u, v, ratio);
    } else {
      ExtremeShare(u, ratio, least);
      ExtremeShare(v, ratio, least);
    }
  }

  predicate Small(r: Rect) {
    r.width < 0x1_0000 && r.height < 0x1_0000
  }

  /** A split with room gives its children adjacent areas of at least the minimum, with one
      line between them, that fill its own. */
  lemma PartsFill(direction: Direction, ratio: real, r: Rect)
    requires Roomy(direction, r) && Small(r)
    ensures var (a, b) := Parts(direction, ratio, r);
            && a.Inside(r) && b.Inside(r) && Small(a) && Small(b) && a.x == r.x && a.y == r.y
            && match direction {
                 case Vertical =>
                    a.width >= MIN_PANE_COLS && b.width >= MIN_PANE_COLS && a.height == b.height == r.height
                                  && b.x == a.x + a.width + 1 && b.x + b.width == r.x + r.width && b.y == r.y
                 case Horizontal =>
                    a.height >= MIN_PANE_ROWS && b.height >= MIN_PANE_ROWS && a.width == b.width == r.width
                                    && b.y == a.y + a.height + 1 && b.y + b.height == r.y + r.height && b.x == r.x
               }
  {
    hide FirstShare;
    match direction {
      case Vertical => SharesGrow(r.width - 1, r.width - 1, ratio, MIN_PANE_COLS);
      case Horizontal => SharesGrow(r.height - 1, r.height - 1, ratio, MIN_PANE_ROWS);
    }
  }

  lemma PartsGrow(direction: Direction, ratio: real, r: Rect, r': Rect)
    requires Roomy(direction, r) && r.width <= r'.width && r.height <= r'.height && Small(r')
    ensures var (a, b) := Parts(direction, ratio, r); var (a', b') := Parts(direction, ratio, r');
            a.width <= a'.width && a.height <= a'.height && b.width <= b'.width && b.height <= b'.height
  {
    hide FirstShare;
    match direction {
      case Vertical => SharesGrow(r.width - 1, r'.width - 1, ratio, MIN_PANE_COLS);
      case Horizontal => SharesGrow(r.height - 1, r'.height - 1, ratio, MIN_PANE_ROWS);
    }
  }

  /** A tree that fits an area fits every larger one, wherever it lies and whatever the
      ratios in it are. */
  lemma {:induction false} FitsGrows(node: LayoutNode, r: Rect, r': Rect)
    requires Fits(node, r) && r.width <= r'.width && r.height <= r'.height && Small(r')
    ensures Fits(node, r')
    decreases node
  {
    hide Parts;
    if node.Split? {
      PartsGrow(node.direction, node.ratio, r, r');
      PartsFill(node.direction, node.ratio, r');
      var (a, b) := Parts(node.direction, node.ratio, r);
      var (a', b') := Parts(node.direction, node.ratio, r');
      FitsGrows(node.first, a, a');
      FitsGrows(node.second, b, b');
    }
  }

  // -------------------------------------------------------------------------
  // Tiling
  // -------------------------------------------------------------------------

  /** The rectangles lie in the area, are of at least the minimum size, and any two have a
      whole column or row between them. */
  predicate Tiles(gs: seq<Geometry>, r: Rect) {
    && (forall i :: 0 <= i < |gs| ==>
          gs[i].area.Inside(r) && gs[i].area.width >= MIN_PANE_COLS && gs[i].area.height >= MIN_PANE_ROWS)
    && (forall i, j :: 0 <= i < j < |gs| ==> gs[i].area.Apart(gs[j].area))
  }

  function Ids(gs: seq<Geometry>): seq<PaneId> {
    seq(|gs|, i requires 0 <= i < |gs| => gs[i].paneId)
  }

  lemma IdsConcat(a: seq<Geometry>, b: seq<Geometry>)
    ensures Ids(a + b) == Ids(a) + Ids(b)
  {
  }

  lemma InsideApart(a: Rect, b: Rect, r: Rect, s: Rect)
    requires a.Inside(r) && b.Inside(s) && r.Apart(s)
    ensures a.Apart(b)
  {
  }

  lemma TilesConcat(a: seq<Geometry>, b: seq<Geometry>, ra: Rect, rb: Rect, r: Rect)
    requires Tiles(a, ra) && Tiles(b, rb) && ra.Inside(r) && rb.Inside(r) && ra.Apart(rb)
    ensures Tiles(a + b, r)
  {
    var gs := a + b;
    forall i | 0 <= i < |gs|
      ensures gs[i].area.Inside(r) && gs[i].area.width >= MIN_PANE_COLS && gs[i].area.height >= MIN_PANE_ROWS
    {
      assert gs[i] == if i < |a| then a[i] else b[i - |a|];
    }
    forall i, j | 0 <= i < j < |gs| ensures gs[i].area.Apart(gs[j].area) {
      if i < |a| <= j {
        InsideApart(a[i].area, b[j - |a|].area, ra, rb);
      } else if j < |a| {
        assert gs[i] == a[i] && gs[j] == a[j];
      } else {
        assert gs[i] == b[i - |a|] && gs[j] == b[j - |a|];
      }
    }
  }

  lemma OneTile(id: PaneId, r: Rect)
    requires r.width >= MIN_PANE_COLS && r.height >= MIN_PANE_ROWS
    ensures Tiles(ResolveNode(Pane(id), r), r)
  {
  }

  /** There is one rectangle for each leaf, in the order of the leaves, for any area. */
  lemma {:induction false} ResolvesEveryLeaf(node: LayoutNode, r: Rect)
    ensures Ids(ResolveNode(node, r)) == LeafIds(node)
    decreases node
  {
    hide Parts;
    if node.Split? {
      var (a, b) := Parts(node.direction, node.ratio, r);
      ResolvesEveryLeaf(node.first, a);
      ResolvesEveryLeaf(node.second, b);
      IdsConcat(ResolveNode(node.first, a), ResolveNode(node.second, b));
    }
  }

  /** A tree that fits resolves to rectangles that tile the area. */
  lemma {:induction false} FittingTiles(node: LayoutNode, r: Rect)
    requires Fits(node, r) && Small(r)
    ensures Tiles(ResolveNode(node, r), r)
    decreases node
  {
    hide Parts, Tiles;
    if node.Split? {
      var (a, b) := Parts(node.direction, node.ratio, r);
      PartsFill(node.direction, node.ratio, r);
      FittingTiles(node.first, a);
      FittingTiles(node.second, b);
      TilesConcat(ResolveNode(node.first, a), ResolveNode(node.second, b), a, b, r);
    } else {
      OneTile(node.id, r);
    }
  }

  /** The cells on the dividing line of some split. */
  predicate OnDivider(node: LayoutNode, r: Rect, col: int, row: int) {
    match node
    case Pane(_) => false
    case Split(direction, ratio, first, second) =>
      var (a, b) := Parts(direction, ratio, r);
      || (r.Contains(col, row) && !a.Contains(col, row) && !b.Contains(col, row))
      || OnDivider(first, a, col, row)
      || OnDivider(second, b, col, row)
  }

  predicate Covered(gs: seq<Geometry>, col: int, row: int) {
    exists i :: 0 <= i < |gs| && gs[i].area.Contains(col, row)
  }

  lemma CoveredConcat(a: seq<Geometry>, b: seq<Geometry>, col: int, row: int)
    ensures Covered(a + b, col, row) <==> Covered(a, col, row) || Covered(b, col, row)
  {
    var gs := a + b;
    if Covered(a, col, row) {
      var i :| 0 <= i < |a| && a[i].area.Contains(col, row);
      assert gs[i].area.Contains(col, row);
    }
    if Covered(b, col, row) {
      var i :| 0 <= i < |b| && b[i].area.Contains(col, row);
      assert gs[|a| + i].area.Contains(col, row);
    }
  }

  lemma OneCovers(id: PaneId, r: Rect, col: int, row: int)
    requires r.width >= MIN_PANE_COLS && r.height >= MIN_PANE_ROWS
    ensures Covered(ResolveNode(Pane(id), r), col, row) <==> r.Contains(col, row)
  {
    assert ResolveNode(Pane(id), r)[0].area == r;
  }

  lemma {:induction false} OnlyInside(node: LayoutNode, r: Rect, col: int, row: int)
    requires Fits(node, r) && Small(r) && !r.Contains(col, row)
    ensures !OnDivider(node, r, col, row) && !Covered(ResolveNode(node, r), col, row)
    decreases node
  {
    hide Parts, Covered;
    if node.Split? {
      var (a, b) := Parts(node.direction, node.ratio, r);
      PartsFill(node.direction, node.ratio, r);
      OnlyInside(node.first, a, col, row);
      OnlyInside(node.second, b, col, row);
      CoveredConcat(ResolveNode(node.first, a), ResolveNode(node.second, b), col, row);
    } else {
      OneCovers(node.id, r, col, row);
    }
  }

  /** Every cell of the area lies in a pane or on a dividing line, and never both. */
  lemma {:induction false} PanesAndDividersPartition(node: LayoutNode, r: Rect, col: int, row: int)
    requires Fits(node, r) && Small(r) && r.Contains(col, row)
    ensures OnDivider(node, r, col, row) <==> !Covered(ResolveNode(node, r), col, row)
    decreases node
  {
    hide Parts, Covered;
    if node.Split? {
      var (a, b) := Parts(node.direction, node.ratio, r);
      PartsFill(node.direction, node.ratio, r);
      CoveredConcat(ResolveNode(node.first, a), ResolveNode(node.second, b), col, row);
      if a.Contains(col, row) {
        PanesAndDividersPartition(node.first, a, col, row);
        OnlyInside(node.second, b, col, row);
      } else {
        OnlyInside(node.first, a, col, row);
        if b.Contains(col, row) {
          PanesAndDividersPartition(node.second, b, col, row);
        } else {
          OnlyInside(node.second, b, col, row);
        }
      }
    } else {
      OneCovers(node.id, r, col, row);
    }
  }

  lemma AtMostOnePane(gs: seq<Geometry>, r: Rect, i: nat, j: nat, col: int, row: int)
    requires Tiles(gs, r) && i < |gs| && j < |gs|
    ensures gs[i].area.Contains(col, row) && gs[j].area.Contains(col, row) ==> i == j
  {
    if i < j {
      assert gs[i].area.Apart(gs[j].area);
    } else if j < i {
      assert gs[j].area.Apart(gs[i].area);
    }
  }

  /** The cell lies in pane `i` and in no other. */
  predicate OnlyIn(gs: seq<Geometry>, i: nat, col: int, row: int)
    requires i < |gs|
  {
    forall j :: 0 <= j < |gs| ==> (gs[j].area.Contains(col, row) <==> j == i)
  }

  /** Every cell of the window has one place: it is on a dividing line, or in exactly one
      pane. */
  lemma EveryCellHasOnePlace(node: LayoutNode, r: Rect, col: int, row: int)
    requires Fits(node, r) && Small(r) && r.Contains(col, row)
    ensures var gs := ResolveNode(node, r);
            OnDivider(node, r, col, row) <==> !exists i :: 0 <= i < |gs| && OnlyIn(gs, i, col, row)
  {
    hide OnDivider, Fits, Small, Tiles;
    var gs := ResolveNode(node, r);
    PanesAndDividersPartition(node, r, col, row);
    FittingTiles(node, r);
    if Covered(gs, col, row) {
      var i :| 0 <= i < |gs| && gs[i].area.Contains(col, row);
      forall j | 0 <= j < |gs| ensures gs[j].area.Contains(col, row) <==> j == i {
        AtMostOnePane(gs, r, i, j, col, row);
      }
      assert OnlyIn(gs, i, col, row);
    } else if exists i :: 0 <= i < |gs| && OnlyIn(gs, i, col, row) {
      var i :| 0 <= i < |gs| && OnlyIn(gs, i, col, row);
      assert gs[i].area.Contains(col, row);
    }
  }

  // -------------------------------------------------------------------------
  // Splitting
  // -------------------------------------------------------------------------

  lemma {:induction false} FindConcat(a: seq<Geometry>, b: seq<Geometry>, id: PaneId)
    ensures Find(a + b, id) == if Find(a, id).Some? then Find(a, id) else Find(b, id)
  {
    if a == [] {
      assert a + b == b;
    } else {
      assert (a + b)[1..] == a[1..] + b;
      FindConcat(a[1..], b, id);
    }
  }

  lemma {:induction false} FindsLeaves(node: LayoutNode, r: Rect, id: PaneId)
    ensures Find(ResolveNode(node, r), id).Some? <==> id in LeafIds(node)
    decreases node
  {
    hide Parts;
    if node.Split? {
      var (a, b) := Parts(node.direction, node.ratio, r);
      FindsLeaves(node.first, a, id);
      FindsLeaves(node.second, b, id);
      FindConcat(ResolveNode(node.first, a), ResolveNode(node.second, b), id);
    } else {
      assert ResolveNode(node, r)[1..] == [];
    }
  }

  /** Splitting a pane leaves a tree that fits exactly when the pane's own rectangle has
      room for two panes. */
  lemma {:induction false} SplitFitsIffPaneHasRoom(node: LayoutNode, r: Rect, target: PaneId, direction: Direction,
                                                   ratio: real, newId: PaneId)
    requires Fits(node, r) && Small(r) && target in LeafIds(node)
    ensures var g := Find(ResolveNode(node, r), target);
            g.Some? && (Fits(WithSplit(node, target, direction, ratio, newId).value, r)
              <==> Roomy(direction, g.value.area))
    decreases node
  {
    hide Parts, Roomy;
    FindsLeaves(node, r, target);
    if node.Split? {
      var (a, b) := Parts(node.direction, node.ratio, r);
      PartsFill(node.direction, node.ratio, r);
      FindConcat(ResolveNode(node.first, a), ResolveNode(node.second, b), target);
      if target in LeafIds(node.first) {
        FindsLeaves(node.first, a, target);
        SplitFitsIffPaneHasRoom(node.first, a, target, direction, ratio, newId);
      } else {
        FindsLeaves(node.first, a, target);
        SplitFitsIffPaneHasRoom(node.second, b, target, direction, ratio, newId);
      }
    } else {
      SplitLeafFits(target, r, direction, ratio, newId);
      assert ResolveNode(node, r)[1..] == [];
      assert Find(ResolveNode(node, r), target).value.area == r;
    }
  }

  lemma SplitLeafFits(id: PaneId, r: Rect, direction: Direction, ratio: real, newId: PaneId)
    requires r.width >= MIN_PANE_COLS && r.height >= MIN_PANE_ROWS && Small(r)
    ensures Fits(Split(direction, ratio, Pane(id), Pane(newId)), r) <==> Roomy(direction, r)
  {
    hide Parts;
    if Roomy(direction, r) { PartsFill(direction, ratio, r); }
  }

  /** The validation accepts no area without room. */
  lemma CheckedAreaHasRoom(area: Rect, direction: Direction, ratio: real)
    requires CheckRoom(area, direction, ratio).None?
    ensures Roomy(direction, area)
  {
  }

  /** The share an accepted split asks for lies below the space exactly for ratios up to 1; a
      greater ratio passes because the second share wraps around. */
  lemma AcceptedShareIff(usable: nat, ratio: real, least: nat)
    requires 2 * least <= usable < 0x1_0000 && 0 < least
    requires least <= UnclampedShare(usable, ratio) && least <= WrappingSub(usable, UnclampedShare(usable, ratio))
    ensures UnclampedShare(usable, ratio) <= usable - least <==> ratio <= 1.0
  {
    if ratio < 0.0 {
      ScaledDown(usable, ratio);
    } else if ratio <= 1.0 {
      ScaledBounded(usable, ratio);
    } else {
      ScaledUp(usable, ratio);
      TruncateAbove(Scaled(usable, ratio), usable);
    }
  }

  /** An accepted split is realised as asked, the first child getting the share and not a
      clamped one, exactly when the ratio is at most 1. */
  lemma AcceptedRatioIsExactIff(area: Rect, direction: Direction, ratio: real)
    requires CheckRoom(area, direction, ratio).None? && Small(area)
    ensures var (a, b) := Parts(direction, ratio, area);
            match direction {
              case Vertical =>
                (a.width == UnclampedShare(area.width - 1, ratio) <==> ratio <= 1.0)
                && a.width + 1 + b.width == area.width
              case Horizontal =>
                (a.height == UnclampedShare(area.height - 1, ratio) <==> ratio <= 1.0)
                && a.height + 1 + b.height == area.height
            }
  {
    hide UnclampedShare, WrappingSub;
    match direction {
      case Vertical => AcceptedShareIff(area.width - 1, ratio, MIN_PANE_COLS);
      case Horizontal => AcceptedShareIff(area.height - 1, ratio, MIN_PANE_ROWS);
    }
  }

  lemma ResolvesLeaf(id: PaneId, r: Rect, other: PaneId)
    requires r.width >= MIN_PANE_COLS && r.height >= MIN_PANE_ROWS
    ensures Find(ResolveNode(Pane(id), r), other) == if other == id then Some(Geometry(id, r)) else None
  {
    assert ResolveNode(Pane(id), r)[1..] == [];
  }

  lemma SplitLeafPlaces(id: PaneId, r: Rect, direction: Direction, ratio: real, newId: PaneId, other: PaneId)
    requires r.width >= MIN_PANE_COLS && r.height >= MIN_PANE_ROWS && Small(r) && Roomy(direction, r) && newId != id
    ensures var (a, b) := Parts(direction, ratio, r);
            Find(ResolveNode(Split(direction, ratio, Pane(id), Pane(newId)), r), other)
            == if other == id then Some(Geometry(id, a)) else if other == newId then Some(Geometry(newId, b)) else None
  {
    PartsFill(direction, ratio, r);
    hide Parts;
    var (a, b) := Parts(direction, ratio, r);
    ResolvesLeaf(id, a, other);
    ResolvesLeaf(newId, b, other);
    FindConcat(ResolveNode(Pane(id), a), ResolveNode(Pane(newId), b), other);
  }

  /** A split divides the rectangle of its pane and leaves all others where they are. */
  lemma {:induction false} SplitPlaces(node: LayoutNode, r: Rect, target: PaneId, direction: Direction, ratio: real,
          newId: PaneId, other: PaneId)
    requires Fits(node, r) && Small(r) && target in LeafIds(node) && newId !in LeafIds(node)
    requires var g := Find(ResolveNode(node, r), target); g.Some? && Roomy(direction, g.value.area)
    ensures var before := ResolveNode(node, r);
            var after := ResolveNode(WithSplit(node, target, direction, ratio, newId).value, r);
            var (a, b) := Parts(direction, ratio, Find(before, target).value.area);
            Find(after, other)
            == if other == target then Some(Geometry(target, a))
               else if other == newId then Some(Geometry(newId, b))
               else Find(before, other)
    decreases node
  {
    hide Parts, Roomy;
    if node.Split? {
      var (p, q) := Parts(node.direction, node.ratio, r);
      PartsFill(node.direction, node.ratio, r);
      var first, second := ResolveNode(node.first, p), ResolveNode(node.second, q);
      FindConcat(first, second, target);
      FindConcat(first, second, other);
      FindsLeaves(node.first, p, target);
      FindsLeaves(node.first, p, other);
      if target in LeafIds(node.first) {
        var split := WithSplit(node.first, target, direction, ratio, newId).value;
        SplitPlaces(node.first, p, target, direction, ratio, newId, other);
        FindConcat(ResolveNode(split, p), second, other);
      } else {
        var split := WithSplit(node.second, target, direction, ratio, newId).value;
        SplitPlaces(node.second, q, target, direction, ratio, newId, other);
        FindConcat(first, ResolveNode(split, q), other);
      }
    } else {
      ResolvesLeaf(node.id, r, target);
      ResolvesLeaf(node.id, r, other);
      SplitLeafPlaces(node.id, r, direction, ratio, newId, other);
    }
  }

  /** The part of `n` cells that a ratio asks for, rounded down. */
  function Portion(n: int, ratio: real): int {
    (n as real * ratio).Floor
  }

  lemma ShareIsPortion(usable: nat, ratio: real)
    requires usable < 0xFFFF && ratio <= 1.0
    ensures UnclampedShare(usable, ratio) == Max(Portion(usable, ratio), 0) <= usable
  {
    if ratio >= 0.0 {
      ScaledBounded(usable, ratio);
    } else {
      ScaledDown(usable, ratio);
    }
  }

  /** The first part takes `size` columns, or rows, at the corner of `r`, and the second the rest
      behind one column, or row. */
  predicate Divides(direction: Direction, size: int, r: Rect, first: Rect, second: Rect) {
    && first.x == r.x && first.y == r.y
    && match direction {
         case Vertical =>
           && first.width == size && first.height == second.height == r.height
           && second.x == r.x + size + 1 && second.y == r.y && second.width == r.width - 1 - size
         case Horizontal =>
           && first.height == size && first.width == second.width == r.width
           && second.y == r.y + size + 1 && second.x == r.x && second.height == r.height - 1 - size
       }
  }

  function Extent(direction: Direction, r: Rect): nat {
    match direction
    case Vertical => r.width
    case Horizontal => r.height
  }

  lemma AcceptedParts(area: Rect, direction: Direction, ratio: real)
    requires CheckRoom(area, direction, ratio).None? && Small(area) && ratio <= 1.0
    ensures var (a, b) := Parts(direction, ratio, area);
            Divides(direction, Portion(Extent(direction, area) - 1, ratio), area, a, b)
  {
    CheckedAreaHasRoom(area, direction, ratio);
    AcceptedRatioIsExactIff(area, direction, ratio);
    PartsFill(direction, ratio, area);
    hide UnclampedShare, Portion, Parts;
    match direction {
      case Vertical => ShareIsPortion(area.width - 1, ratio);
      case Horizontal => ShareIsPortion(area.height - 1, ratio);
    }
  }

  function Least(direction: Direction): nat {
    match direction
    case Vertical => MIN_PANE_COLS
    case Horizontal => MIN_PANE_ROWS
  }

  /** For ratios up to 1 a split is accepted exactly when both parts of what is left beside the
      dividing line are of at least the minimum size; the error says whether any ratio would do. */
  lemma SplitAcceptedIff(area: Rect, direction: Direction, ratio: real)
    requires Small(area) && ratio <= 1.0
    ensures var error, usable := CheckRoom(area, direction, ratio), Extent(direction, area) - 1;
            var first := Portion(usable, ratio);
            && (error == Some(TooSmallToSplit) <==> usable < 2 * Least(direction))
            && (error.None? <==> usable >= 2 * Least(direction) && first >= Least(direction)
                                 && usable - first >= Least(direction))
  {
    hide UnclampedShare, Portion;
    var usable := Extent(direction, area) - 1;
    if usable >= 2 * Least(direction) {
      ShareIsPortion(usable, ratio);
    }
  }

  lemma FoundIsInside(gs: seq<Geometry>, r: Rect, id: PaneId)
    requires Tiles(gs, r) && Find(gs, id).Some?
    ensures Find(gs, id).value.area.Inside(r)
    decreases gs
  {
    if gs[0].paneId != id {
      assert Tiles(gs[1..], r);
      FoundIsInside(gs[1..], r, id);
    }
  }

  /** An accepted split of a sound layout leaves the target its part of the columns, or of the
      rows, rounded down, at its old corner, gives the new pane the rest behind one column or
      row, and moves no other pane. */
  lemma SplitRealizesRatio(l: Layout, target: PaneId, direction: Direction, ratio: real, newId: PaneId, other: PaneId)
    returns (first: Rect, second: Rect)
    requires Sound(l) && l.zoomed.None? && newId !in LeafIds(l.root) && ratio <= 1.0
    requires SplitPane(l, target, direction, ratio, newId).1.None?
    ensures var before := Resolve(l, l.Window());
            var l' := SplitPane(l, target, direction, ratio, newId).0;
            var after := Resolve(l', l'.Window());
            && l' == l.(root := l'.root) && Find(before, target).Some?
            && Find(after, target) == Some(Geometry(target, first))
            && Find(after, newId) == Some(Geometry(newId, second))
            && (other != target && other != newId ==> Find(after, other) == Find(before, other))
    ensures var r := Find(Resolve(l, l.Window()), target).value.area;
            Divides(direction, Portion(Extent(direction, r) - 1, ratio), r, first, second)
  {
    hide Fits, LeafIds, WithSplit, Distinct, CheckRoom, ResolveNode, Roomy, Parts, Divides, Tiles, Portion;
    var window := l.Window();
    FindsLeaves(l.root, window, target);
    FittingTiles(l.root, window);
    FoundIsInside(ResolveNode(l.root, window), window, target);
    var area := Find(ResolveNode(l.root, window), target).value.area;
    CheckedAreaHasRoom(area, direction, ratio);
    AcceptedParts(area, direction, ratio);
    var (a, b) := Parts(direction, ratio, area);
    first, second := a, b;
    SplitPlaces(l.root, window, target, direction, ratio, newId, target);
    SplitPlaces(l.root, window, target, direction, ratio, newId, newId);
    SplitPlaces(l.root, window, target, direction, ratio, newId, other);
  }

  /** `more` is `ids` with `id` inserted right after the `target` at `i`. */
  predicate InsertedAfter(ids: seq<PaneId>, more: seq<PaneId>, i: nat, target: PaneId, id: PaneId) {
    i < |ids| && ids[i] == target && more == ids[..i + 1] + [id] + ids[i + 1..]
  }

  lemma InsertInConcat(a: seq<PaneId>, b: seq<PaneId>, more: seq<PaneId>, i: nat, target: PaneId, id: PaneId)
    ensures InsertedAfter(a, more, i, target, id) ==> InsertedAfter(a + b, more + b, i, target, id)
    ensures InsertedAfter(b, more, i, target, id) ==> InsertedAfter(a + b, a + more, |a| + i, target, id)
  {
    if InsertedAfter(a, more, i, target, id) {
      assert (a + b)[..i + 1] == a[..i + 1] && (a + b)[i + 1..] == a[i + 1..] + b;
    }
    if InsertedAfter(b, more, i, target, id) {
      assert (a + b)[..|a| + i + 1] == a + b[..i + 1] && (a + b)[|a| + i + 1..] == b[i + 1..];
    }
  }

  lemma InsertIntoOne(id: PaneId, newId: PaneId)
    ensures InsertedAfter([id], [id] + [newId], 0, id, newId)
  {
  }

  /** A split inserts the new id right after the target's. */
  lemma {:induction false} SplitInsertsLeaf(node: LayoutNode, target: PaneId, direction: Direction, ratio: real,
          newId: PaneId)
    returns (i: nat)
    requires target in LeafIds(node)
    ensures InsertedAfter(LeafIds(node), LeafIds(WithSplit(node, target, direction, ratio, newId).value), i, target,
            newId)
    decreases node
  {
    hide InsertedAfter;
    if node.Pane? {
      i := 0;
      InsertIntoOne(target, newId);
    } else {
      var f, s := LeafIds(node.first), LeafIds(node.second);
      if target in f {
        i := SplitInsertsLeaf(node.first, target, direction, ratio, newId);
        InsertInConcat(f, s, LeafIds(WithSplit(node.first, target, direction, ratio, newId).value), i, target, newId);
      } else {
        var k := SplitInsertsLeaf(node.second, target, direction, ratio, newId);
        i := |f| + k;
        InsertInConcat(f, s, LeafIds(WithSplit(node.second, target, direction, ratio, newId).value), k, target, newId);
      }
    }
  }

  // -------------------------------------------------------------------------
  // Closing
  // -------------------------------------------------------------------------

  /** A closed pane's sibling takes over a larger area, so everything still fits. */
  lemma {:induction false} CloseKeepsFit(node: LayoutNode, r: Rect, target: PaneId)
    requires Fits(node, r) && Small(r) && Without(node, target).Some?
    ensures Fits(Without(node, target).value, r)
    decreases node
  {
    hide Parts;
    var (a, b) := Parts(node.direction, node.ratio, r);
    PartsFill(node.direction, node.ratio, r);
    if node.first == Pane(target) {
      FitsGrows(node.second, b, r);
    } else if node.second == Pane(target) {
      FitsGrows(node.first, a, r);
    } else if Without(node.first, target).Some? {
      CloseKeepsFit(node.first, a, target);
    } else {
      CloseKeepsFit(node.second, b, target);
    }
  }

  predicate Distinct(ids: seq<PaneId>) {
    forall i, j :: 0 <= i < j < |ids| ==> ids[i] != ids[j]
  }

  /** `less` is `ids` without the `target` at `i`. */
  predicate RemovedAt(ids: seq<PaneId>, less: seq<PaneId>, i: nat, target: PaneId) {
    i < |ids| && ids[i] == target && less == ids[..i] + ids[i + 1..]
  }

  lemma RemoveInConcat(a: seq<PaneId>, b: seq<PaneId>, less: seq<PaneId>, i: nat, target: PaneId)
    ensures RemovedAt(a, less, i, target) ==> RemovedAt(a + b, less + b, i, target)
    ensures RemovedAt(b, less, i, target) ==> RemovedAt(a + b, a + less, |a| + i, target)
  {
    if RemovedAt(a, less, i, target) {
      assert (a + b)[..i] == a[..i] && (a + b)[i + 1..] == a[i + 1..] + b;
    }
    if RemovedAt(b, less, i, target) {
      assert (a + b)[..|a| + i] == a + b[..i] && (a + b)[|a| + i + 1..] == b[i + 1..];
    }
  }

  lemma RemoveWhole(a: seq<PaneId>, b: seq<PaneId>, id: PaneId)
    ensures a == [id] ==> RemovedAt(a + b, b, 0, id)
    ensures b == [id] ==> RemovedAt(a + b, a, |a|, id)
  {
  }

  /** Closing removes one leaf with the given id and keeps the others in order. */
  lemma {:induction false} CloseRemovesLeaf(node: LayoutNode, target: PaneId) returns (i: nat)
    requires Without(node, target).Some?
    ensures RemovedAt(LeafIds(node), LeafIds(Without(node, target).value), i, target)
    decreases node
  {
    hide RemovedAt;
    var f, s := LeafIds(node.first), LeafIds(node.second);
    if node.first == Pane(target) || node.second == Pane(target) {
      i := if node.first == Pane(target) then 0 else |f|;
      RemoveWhole(f, s, target);
    } else if Without(node.first, target).Some? {
      i := CloseRemovesLeaf(node.first, target);
      RemoveInConcat(f, s, LeafIds(Without(node.first, target).value), i, target);
    } else {
      var k := CloseRemovesLeaf(node.second, target);
      i := |f| + k;
      RemoveInConcat(f, s, LeafIds(Without(node.second, target).value), k, target);
    }
  }

  /** Closing the pane that a split just made gives back the tree from before the split. */
  lemma {:induction false} CloseUndoesSplit(node: LayoutNode, target: PaneId, direction: Direction, ratio: real,
          newId: PaneId)
    requires target in LeafIds(node) && newId !in LeafIds(node)
    ensures Without(WithSplit(node, target, direction, ratio, newId).value, newId) == Some(node)
    decreases node
  {
    match node {
      case Pane(id) =>
      case Split(d, q, first, second) =>
        if target in LeafIds(first) {
          CloseUndoesSplit(first, target, direction, ratio, newId);
        } else {
          CloseUndoesSplit(second, target, direction, ratio, newId);
        }
    }
  }

  /** The active and the zoomed pane stay what they are unless it is they that are closed; then
      the first of the remaining panes becomes active, or none is zoomed. A refused close keeps the
      tree and the active pane, but unzooms a zoomed pane that is not in the tree. */
  lemma CloseKeepsFocus(l: Layout, id: PaneId)
    ensures var (l', error) := ClosePane(l, id);
            var gs := ResolveNode(l'.root, l'.Window());
            && l'.width == l.width && l'.height == l.height && gs != []
            && (error.Some? ==> l'.root == l.root)
            && l'.active == (if error.None? && l.active == id then gs[0].paneId else l.active)
            && l'.zoomed == (if l.zoomed == Some(id) && error != Some(LastPane) then None else l.zoomed)
    ensures var error := ClosePane(l, id).1;
            && (error == Some(LastPane) <==> l.root == Pane(id))
            && (error == Some(PaneNotFound(id)) <==> id !in LeafIds(l.root))
            && (error.None? <==> id in LeafIds(l.root) && l.root != Pane(id))
  {
    var l' := ClosePane(l, id).0;
    assert l.root == Pane(id) ==> LeafIds(l.root) == [id];
    hide ResolveNode, LeafIds, Without;
    var gs := ResolveNode(l'.root, l'.Window());
    ResolvesEveryLeaf(l'.root, l'.Window());
    var first := FirstLeaf(l'.root);
    assert first == Ids(gs)[0] == gs[0].paneId;
  }

  // -------------------------------------------------------------------------
  // Swapping
  // -------------------------------------------------------------------------

  function Renamed(gs: seq<Geometry>, a: PaneId, b: PaneId): seq<Geometry> {
    seq(|gs|, i requires 0 <= i < |gs| => gs[i].(paneId := SwapId(gs[i].paneId, a, b)))
  }

  /** Swapping exchanges the two panes' rectangles and moves nothing else. */
  lemma {:induction false} SwapExchangesRectangles(node: LayoutNode, r: Rect, a: PaneId, b: PaneId)
    ensures ResolveNode(Swapped(node, a, b), r) == Renamed(ResolveNode(node, r), a, b)
    ensures Fits(Swapped(node, a, b), r) <==> Fits(node, r)
    decreases node
  {
    hide Parts;
    if node.Split? {
      var (p, q) := Parts(node.direction, node.ratio, r);
      SwapExchangesRectangles(node.first, p, a, b);
      SwapExchangesRectangles(node.second, q, a, b);
    }
  }

  lemma {:induction false} SwapRenamesLeaves(node: LayoutNode, a: PaneId, b: PaneId)
    ensures |LeafIds(Swapped(node, a, b))| == |LeafIds(node)|
    ensures forall i :: 0 <= i < |LeafIds(node)| ==> LeafIds(Swapped(node, a, b))[i] == SwapId(LeafIds(node)[i], a, b)
    decreases node
  {
    if node.Split? {
      SwapRenamesLeaves(node.first, a, b);
      SwapRenamesLeaves(node.second, a, b);
    }
  }

  lemma {:induction false} FindRenamed(gs: seq<Geometry>, a: PaneId, b: PaneId, id: PaneId)
    ensures Find(Renamed(gs, a, b), SwapId(id, a, b))
         == if Find(gs, id).Some? then Some(Find(gs, id).value.(paneId := SwapId(id, a, b))) else None
    decreases gs
  {
    if gs != [] {
      assert Renamed(gs, a, b)[1..] == Renamed(gs[1..], a, b);
      FindRenamed(gs[1..], a, b, id);
    }
  }

  /** Two panes are swapped exactly when both exist: each gets the other's rectangle, every other
      pane keeps its own, and active pane, zoom and window stay. */
  lemma SwapMovesPanes(l: Layout, a: PaneId, b: PaneId, id: PaneId)
    ensures var (l', error) := SwapPanes(l, a, b);
            var before, after := ResolveNode(l.root, l.Window()), ResolveNode(l'.root, l'.Window());
            && (error.None? <==> a in LeafIds(l.root) && b in LeafIds(l.root))
            && l' == l.(root := l'.root) && (error.Some? ==> l' == l)
            && (error.None? && Find(before, id).Some? ==>
                  Find(after, SwapId(id, a, b)) == Some(Find(before, id).value.(paneId := SwapId(id, a, b))))
  {
    hide ResolveNode, LeafIds, Fits;
    SwapExchangesRectangles(l.root, l.Window(), a, b);
    FindRenamed(ResolveNode(l.root, l.Window()), a, b, id);
  }

  /** Swapping twice changes nothing. */
  lemma {:induction false} SwapTwice(node: LayoutNode, a: PaneId, b: PaneId)
    ensures Swapped(Swapped(node, a, b), a, b) == node
    decreases node
  {
    if node.Split? {
      SwapTwice(node.first, a, b);
      SwapTwice(node.second, a, b);
    }
  }

  // -------------------------------------------------------------------------
  // Whole runs
  // -------------------------------------------------------------------------

  datatype Op =
    | SplitOp(target: PaneId, direction: Direction, ratio: real, newId: PaneId)
    | CloseOp(id: PaneId)
    | SwapOp(a: PaneId, b: PaneId)
    | ZoomOp(id: PaneId)
    | UnzoomOp
    | GrowOp(width: u16, height: u16)

  /** Splits use a fresh id and are made while no pane is zoomed, and the window does not
      shrink. Any ratio may be asked for, and any pane may be named, existing or not. */
  predicate Allowed(l: Layout, op: Op) {
    match op
    case SplitOp(_, _, _, newId) => newId !in LeafIds(l.root) && l.zoomed.None?
    case GrowOp(width, height) => l.width <= width && l.height <= height
    case _ => true
  }

  function Perform(l: Layout, op: Op): Layout
    requires Allowed(l, op)
  {
    match op
    case SplitOp(target, direction, ratio, newId) => SplitPane(l, target, direction, ratio, newId).0
    case CloseOp(id) => ClosePane(l, id).0
    case SwapOp(a, b) => SwapPanes(l, a, b).0
    case ZoomOp(id) => l.(zoomed := Some(id))
    case UnzoomOp => l.(zoomed := None)
    case GrowOp(width, height) => l.(width := width, height := height)
  }

  predicate AllAllowed(l: Layout, ops: seq<Op>)
    decreases ops
  {
    ops != [] ==> Allowed(l, ops[0]) && AllAllowed(Perform(l, ops[0]), ops[1..])
  }

  function PerformAll(l: Layout, ops: seq<Op>): Layout
    requires AllAllowed(l, ops)
    decreases ops
  {
    if ops == [] then l else PerformAll(Perform(l, ops[0]), ops[1..])
  }

  /** What every run keeps. */
  predicate Sound(l: Layout) {
    Fits(l.root, l.Window()) && Distinct(LeafIds(l.root)) && l.active in LeafIds(l.root)
  }

  lemma InsertKeepsDistinct(ids: seq<PaneId>, more: seq<PaneId>, i: nat, target: PaneId, newId: PaneId)
    requires Distinct(ids) && newId !in ids && InsertedAfter(ids, more, i, target, newId)
    ensures Distinct(more) && (forall id :: id in ids ==> id in more)
  {
    forall j, k | 0 <= j < k < |more| ensures more[j] != more[k] {
      assert more[j] == if j <= i then ids[j] else if j == i + 1 then newId else ids[j - 1];
      assert more[k] == if k <= i then ids[k] else if k == i + 1 then newId else ids[k - 1];
    }
    forall id | id in ids ensures id in more {
      var j :| 0 <= j < |ids| && ids[j] == id;
      assert more[if j <= i then j else j + 1] == id;
    }
  }

  lemma RemoveKeepsDistinct(ids: seq<PaneId>, less: seq<PaneId>, i: nat, target: PaneId)
    requires Distinct(ids) && RemovedAt(ids, less, i, target)
    ensures Distinct(less) && (forall id :: id in less <==> id in ids && id != target)
  {
    forall j | 0 <= j < |less| ensures less[j] == ids[if j < i then j else j + 1] {
    }
    forall id | id in ids && id != target ensures id in less {
      var j :| 0 <= j < |ids| && ids[j] == id;
      assert less[if j < i then j else j - 1] == id;
    }
  }

  lemma SplitIsSound(l: Layout, target: PaneId, direction: Direction, ratio: real, newId: PaneId)
    requires Sound(l) && newId !in LeafIds(l.root) && l.zoomed.None?
    ensures Sound(SplitPane(l, target, direction, ratio, newId).0)
  {
    hide Fits, LeafIds, WithSplit, Distinct, CheckRoom, ResolveNode, Roomy;
    var (after, error) := SplitPane(l, target, direction, ratio, newId);
    if error.None? {
      FindsLeaves(l.root, l.Window(), target);
      var g := Find(ResolveNode(l.root, l.Window()), target).value;
      CheckedAreaHasRoom(g.area, direction, ratio);
      SplitFitsIffPaneHasRoom(l.root, l.Window(), target, direction, ratio, newId);
      var i := SplitInsertsLeaf(l.root, target, direction, ratio, newId);
      InsertKeepsDistinct(LeafIds(l.root), LeafIds(after.root), i, target, newId);
    }
  }

  lemma CloseIsSound(l: Layout, id: PaneId)
    requires Sound(l)
    ensures Sound(ClosePane(l, id).0)
  {
    hide Fits, LeafIds, Without, Distinct;
    var (after, error) := ClosePane(l, id);
    if error.None? {
      CloseKeepsFit(l.root, l.Window(), id);
      var i := CloseRemovesLeaf(l.root, id);
      RemoveKeepsDistinct(LeafIds(l.root), LeafIds(after.root), i, id);
      assert FirstLeaf(after.root) in LeafIds(after.root);
    }
  }

  lemma SwapIsSound(l: Layout, a: PaneId, b: PaneId)
    requires Sound(l)
    ensures Sound(SwapPanes(l, a, b).0)
  {
    hide Fits;
    var (after, error) := SwapPanes(l, a, b);
    if error.None? {
      SwapExchangesRectangles(l.root, l.Window(), a, b);
      SwapRenamesLeaves(l.root, a, b);
      var ids, renamed := LeafIds(l.root), LeafIds(after.root);
      var k :| 0 <= k < |ids| && ids[k] == SwapId(l.active, a, b);
      assert renamed[k] == l.active;
    }
  }

  lemma PerformIsSound(l: Layout, op: Op)
    requires Sound(l) && Allowed(l, op)
    ensures Sound(Perform(l, op))
  {
    hide Fits, LeafIds, Distinct, SplitPane, ClosePane, SwapPanes;
    match op {
      case SplitOp(target, direction, ratio, newId) => SplitIsSound(l, target, direction, ratio, newId);
      case CloseOp(id) => CloseIsSound(l, id);
      case SwapOp(a, b) => SwapIsSound(l, a, b);
      case GrowOp(width, height) => FitsGrows(l.root, l.Window(), Rect(0, 0, width, height));
      case _ =>
    }
  }

  /** Starting from one pane in a window of at least the minimum size, after any sequence of
      allowed operations, successful or refused, the tree resolves to one rectangle per leaf
      that tile the window. */
  lemma {:induction false} EveryRunTiles(l: Layout, ops: seq<Op>)
    requires Sound(l) && AllAllowed(l, ops)
    ensures var l' := PerformAll(l, ops);
            && Sound(l')
            && Tiles(ResolveNode(l'.root, l'.Window()), l'.Window())
            && Ids(ResolveNode(l'.root, l'.Window())) == LeafIds(l'.root)
    decreases ops
  {
    hide Perform, Tiles, ResolveNode, LeafIds, Allowed, Ids;
    if ops == [] {
      FittingTiles(l.root, l.Window());
      ResolvesEveryLeaf(l.root, l.Window());
    } else {
      PerformIsSound(l, ops[0]);
      EveryRunTiles(Perform(l, ops[0]), ops[1..]);
    }
  }

  lemma NewLayoutIsSound(id: PaneId, width: u16, height: u16)
    ensures Sound(NewLayout(id, width, height)) <==> width as nat >= MIN_PANE_COLS && height as nat >= MIN_PANE_ROWS
  {
    assert LeafIds(Pane(id)) == [id];
    assert id in [id];
  }

  // -------------------------------------------------------------------------
  // Splitting while zoomed
  // -------------------------------------------------------------------------

  /** While a pane is zoomed the validation measures the whole window instead of the pane's
      own rectangle: the split is accepted by the window's size, and it leaves a tree that
      fits exactly when the pane's own rectangle has room. */
  lemma ZoomedSplitFitsIff(l: Layout, direction: Direction, ratio: real, newId: PaneId)
    requires Sound(l) && l.zoomed.Some? && l.zoomed.value in LeafIds(l.root)
    requires CheckRoom(l.Window(), direction, ratio).None?
    ensures var (l', error) := SplitPane(l, l.zoomed.value, direction, ratio, newId);
            var g := Find(ResolveNode(l.root, l.Window()), l.zoomed.value);
            error.None? && g.Some? && (Fits(l'.root, l'.Window()) <==> Roomy(direction, g.value.area))
  {
    hide Fits, LeafIds, ResolveNode, Roomy, CheckRoom, WithSplit;
    var target := l.zoomed.value;
    SplitFitsIffPaneHasRoom(l.root, l.Window(), target, direction, ratio, newId);
    assert Resolve(l, l.Window())[0] == Geometry(target, l.Window());
  }

  /** A window of 20 columns, its two panes side by side: a zoomed pane of 9 columns is
      split though it has no room. */
  lemma ZoomedSplitCanOverflow()
    ensures exists l: Layout ::
      && Sound(l) && l.zoomed == Some(1)
      && (var (l', error) := SplitPane(l, 1, Vertical, 0.5, 3); error.None? && !Fits(l'.root, l'.Window()))
  {
    var root := Split(Vertical, 0.5, Pane(1), Pane(2));
    var l := Layout(root, 1, Some(1), 20, 10);
    var half := 19.0 * 0.5;
    assert half == 9.5 && half.Floor == 9;
    assert LeafIds(root) == [1, 2];
    assert 1 in LeafIds(root);
    assert FirstShare(19, 0.5, MIN_PANE_COLS) == 9;
    assert Parts(Vertical, 0.5, l.Window()).0 == Rect(0, 0, 9, 10);
    assert Sound(l);
    var gs := ResolveNode(root, l.Window());
    assert gs[0] == Geometry(1, Rect(0, 0, 9, 10));
    ZoomedSplitFitsIff(l, Vertical, 0.5, 3);
  }
}
