/** The binary layout tree: its resolution to rectangles and the operations on it. */
module Layouts {
  import opened Common

  /** The smallest content area of a pane. */
  const MIN_PANE_COLS: nat := 5
  const MIN_PANE_ROWS: nat := 2

  type PaneId = u32

  /** A vertical split places its children left and right, a horizontal one top and bottom. */
  datatype Direction = Horizontal | Vertical

  datatype LayoutNode =
    | Split(direction: Direction, ratio: real, first: LayoutNode, second: LayoutNode)
    | Pane(id: PaneId)

  datatype Rect = Rect(x: nat, y: nat, width: nat, height: nat) {
    predicate Contains(col: int, row: int) {
      x <= col < x + width && y <= row < y + height
    }

    predicate Inside(r: Rect) {
      r.x <= x && x + width <= r.x + r.width && r.y <= y && y + height <= r.y + r.height
    }

    /** At least one whole column or one whole row lies between the two. */
    predicate Apart(r: Rect) {
      x + width < r.x || r.x + r.width < x || y + height < r.y || r.y + r.height < y
    }
  }

  datatype Geometry = Geometry(paneId: PaneId, area: Rect)

  datatype LayoutError =
    | PaneNotFound(id: PaneId)
    | BelowMinimum(cols: nat, rows: nat)
    | TooSmallToSplit
    | LastPane
    | ParseError

  // -------------------------------------------------------------------------
  // Resolution
  // -------------------------------------------------------------------------

  /** The cast from a float to a 16-bit integer: towards zero, saturating. */
  function Truncate(x: real): nat {
    if x < 0.0 then 0 else if x >= 65535.0 then 65535 else x.Floor
  }

  function Scaled(n: nat, ratio: real): real {
    n as real * ratio
  }

  function UnclampedShare(usable: nat, ratio: real): nat {
    Truncate(Scaled(usable, ratio))
  }

  /** The share of `usable` cells that goes to the first child. */
  function FirstShare(usable: nat, ratio: real, least: nat): nat {
    Min(Max(UnclampedShare(usable, ratio), least), SaturatingSub(usable, least))
  }

  /** What the second child is given when the first takes `first`. */
  function SecondShare(usable: nat, first: nat, least: nat): nat {
    Max(SaturatingSub(usable, first), least)
  }

  /** The areas of the two children of a split; one line of cells lies between them. */
  function Parts(direction: Direction, ratio: real, r: Rect): (Rect, Rect) {
    match direction
    case Vertical =>
      var usable := SaturatingSub(r.width, 1);
      var width := FirstShare(usable, ratio, MIN_PANE_COLS);
      (Rect(r.x, r.y, width, r.height),
       Rect(r.x + width + 1, r.y, SecondShare(usable, width, MIN_PANE_COLS), r.height))
    case Horizontal =>
      var usable := SaturatingSub(r.height, 1);
      var height := FirstShare(usable, ratio, MIN_PANE_ROWS);
      (Rect(r.x, r.y, r.width, height),
       Rect(r.x, r.y + height + 1, r.width, SecondShare(usable, height, MIN_PANE_ROWS)))
  }

  function AtLeastMinimum(r: Rect): Rect {
    Rect(r.x, r.y, Max(r.width, MIN_PANE_COLS), Max(r.height, MIN_PANE_ROWS))
  }

  function ResolveNode(node: LayoutNode, r: Rect): seq<Geometry> {
    match node
    case Pane(id) => [Geometry(id, AtLeastMinimum(r))]
    case Split(direction, ratio, first, second) =>
      var (a, b) := Parts(direction, ratio, r);
      ResolveNode(first, a) + ResolveNode(second, b)
  }

  function LeafIds(node: LayoutNode): seq<PaneId> {
    match node
    case Pane(id) => [id]
    case Split(_, _, first, second) => LeafIds(first) + LeafIds(second)
  }

  /** Every pane gets at least the minimum area, and every split has room for both of its
      children and the line between them. */
  predicate Fits(node: LayoutNode, r: Rect) {
    match node
    case Pane(_) => r.width >= MIN_PANE_COLS && r.height >= MIN_PANE_ROWS
    case Split(direction, ratio, first, second) =>
      var (a, b) := Parts(direction, ratio, r);
      Roomy(direction, r) && Fits(first, a) && Fits(second, b)
  }

  predicate Roomy(direction: Direction, r: Rect) {
    match direction
    case Vertical => r.width > 2 * MIN_PANE_COLS
    case Horizontal => r.height > 2 * MIN_PANE_ROWS
  }

  /** The resolver walks the tree and appends to the list it is given. */
  method AppendGeometries(node: LayoutNode, r: Rect, out: seq<Geometry>) returns (result: seq<Geometry>)
    ensures result == out + ResolveNode(node, r)
    decreases node
  {
    match node {
      case Pane(id) =>
        result := out + [Geometry(id, AtLeastMinimum(r))];
      case Split(direction, ratio, first, second) =>
        var (a, b) := Parts(direction, ratio, r);
        result := AppendGeometries(first, a, out);
        result := AppendGeometries(second, b, result);
    }
  }

  method CollectIds(node: LayoutNode, out: seq<PaneId>) returns (result: seq<PaneId>)
    ensures result == out + LeafIds(node)
    decreases node
  {
    match node {
      case Pane(id) =>
        result := out + [id];
      case Split(_, _, first, second) =>
        result := CollectIds(first, out);
        result := CollectIds(second, result);
    }
  }

  // -------------------------------------------------------------------------
  // Editing the tree
  // -------------------------------------------------------------------------

  /** The tree with its first leaf `target` split in two; None when there is no such leaf. */
  function WithSplit(node: LayoutNode, target: PaneId, direction: Direction, ratio: real, newId: PaneId)
      : (r: Option<LayoutNode>)
    ensures r.None? <==> target !in LeafIds(node)
  {
    match node
    case Pane(id) => if id == target then Some(Split(direction, ratio, Pane(id), Pane(newId))) else None
    case Split(d, q, first, second) =>
      match WithSplit(first, target, direction, ratio, newId)
      case Some(f) => Some(Split(d, q, f, second))
      case None =>
        match WithSplit(second, target, direction, ratio, newId)
        case Some(s) => Some(Split(d, q, first, s))
        case None => None
  }

  /** The tree without the leaf `target`, whose sibling takes the place of their parent;
      None when `target` is not below a split. */
  function Without(node: LayoutNode, target: PaneId): (r: Option<LayoutNode>)
    ensures r.None? <==> node == Pane(target) || target !in LeafIds(node)
  {
    match node
    case Pane(_) => None
    case Split(d, q, first, second) =>
      if first == Pane(target) then Some(second)
      else if second == Pane(target) then Some(first)
      else
        match Without(first, target)
        case Some(f) => Some(Split(d, q, f, second))
        case None =>
          match Without(second, target)
          case Some(s) => Some(Split(d, q, first, s))
          case None => None
  }

  function SwapId(id: PaneId, a: PaneId, b: PaneId): PaneId {
    if id == a then b else if id == b then a else id
  }

  function Swapped(node: LayoutNode, a: PaneId, b: PaneId): LayoutNode {
    match node
    case Pane(id) => Pane(SwapId(id, a, b))
    case Split(d, q, first, second) => Split(d, q, Swapped(first, a, b), Swapped(second, a, b))
  }

  method ReplaceLeafWithSplit(node: LayoutNode, target: PaneId, direction: Direction, ratio: real, newId: PaneId)
    returns (after: LayoutNode, replaced: bool)
    ensures replaced <==> target in LeafIds(node)
    ensures replaced ==> WithSplit(node, target, direction, ratio, newId) == Some(after)
    ensures !replaced ==> after == node
    decreases node
  {
    match node {
      case Pane(id) =>
        if id == target {
          return Split(direction, ratio, Pane(id), Pane(newId)), true;
        }
        return node, false;
      case Split(d, q, first, second) =>
        var f, done := ReplaceLeafWithSplit(first, target, direction, ratio, newId);
        if done {
          return Split(d, q, f, second), true;
        }
        var s;
        s, done := ReplaceLeafWithSplit(second, target, direction, ratio, newId);
        return Split(d, q, f, s), done;
    }
  }

  /** What removing a leaf reports to the split above: its sibling, to be put in the
      split's place; that the removal is complete; or that there was nothing to remove. */
  datatype CloseResult = Replaced(sibling: LayoutNode) | Done | NotFound | Last

  /** The placeholder left where a sibling was moved out. */
  const MOVED_OUT: LayoutNode := Pane(0xFFFF_FFFF)

  method CloseLeaf(node: LayoutNode, target: PaneId) returns (after: LayoutNode, result: CloseResult)
    ensures result.Replaced? ==> Without(node, target) == Some(result.sibling)
    ensures result.Replaced? <==> node.Split? && (node.first == Pane(target) || node.second == Pane(target))
    ensures result.Done? ==> Without(node, target) == Some(after)
    ensures result.NotFound? <==> target !in LeafIds(node)
    ensures result.Last? <==> node == Pane(target)
    ensures result.NotFound? || result.Last? ==> after == node
    decreases node
  {
    match node {
      case Pane(id) =>
        return node, if id == target then Last else NotFound;
      case Split(d, q, first, second) =>
        if first == Pane(target) {
          return Split(d, q, first, MOVED_OUT), Replaced(second);
        }
        if second == Pane(target) {
          return Split(d, q, MOVED_OUT, second), Replaced(first);
        }
        var f, inFirst := CloseLeaf(first, target);
        match inFirst {
          case Replaced(sibling) => return Split(d, q, sibling, second), Done;
          case Done => return Split(d, q, f, second), Done;
          case Last => return node, Last;
          case NotFound =>
            var s, inSecond := CloseLeaf(second, target);
            match inSecond {
              case Replaced(sibling) => return Split(d, q, first, sibling), Done;
              case Done => return Split(d, q, first, s), Done;
              case NotFound => return node, NotFound;
              case Last => return node, Last;
            }
        }
    }
  }

  method SwapPaneIds(node: LayoutNode, a: PaneId, b: PaneId) returns (after: LayoutNode)
    ensures after == Swapped(node, a, b)
    decreases node
  {
    match node {
      case Pane(id) =>
        if id == a {
          return Pane(b);
        } else if id == b {
          return Pane(a);
        }
        return node;
      case Split(d, q, first, second) =>
        var f := SwapPaneIds(first, a, b);
        var s := SwapPaneIds(second, a, b);
        return Split(d, q, f, s);
    }
  }

  // -------------------------------------------------------------------------
  // The layout of a window
  // -------------------------------------------------------------------------

  /** The tree of a window with its active and zoomed panes and the window's size. */
  datatype Layout = Layout(root: LayoutNode, active: PaneId, zoomed: Option<PaneId>, width: u16, height: u16) {
    function Window(): Rect {
      Rect(0, 0, width, height)
    }
  }

  function NewLayout(id: PaneId, width: u16, height: u16): Layout {
    Layout(Pane(id), id, None, width, height)
  }

  /** A zoomed pane takes the whole window and hides the others. */
  function Resolve(l: Layout, window: Rect): seq<Geometry> {
    if l.zoomed.Some? then [Geometry(l.zoomed.value, window)] else ResolveNode(l.root, window)
  }

  function Find(gs: seq<Geometry>, id: PaneId): Option<Geometry> {
    if gs == [] then None
    else if gs[0].paneId == id then Some(gs[0])
    else Find(gs[1..], id)
  }

  /** Subtraction of 16-bit numbers, wrapping around below zero. */
  function WrappingSub(a: nat, b: nat): nat {
    (a - b) % 0x1_0000
  }

  /** Whether an area can be split; the shares are taken before any clamping. */
  function CheckRoom(area: Rect, direction: Direction, ratio: real): Option<LayoutError> {
    match direction
    case Vertical =>
      var usable := SaturatingSub(area.width, 1);
      if usable < 2 * MIN_PANE_COLS then Some(TooSmallToSplit) else
      var first := UnclampedShare(usable, ratio);
      if first < MIN_PANE_COLS then Some(BelowMinimum(first, area.height))
      else if WrappingSub(usable, first) < MIN_PANE_COLS then
        Some(BelowMinimum(WrappingSub(usable, first), area.height))
      else None
    case Horizontal =>
      var usable := SaturatingSub(area.height, 1);
      if usable < 2 * MIN_PANE_ROWS then Some(TooSmallToSplit) else
      var first := UnclampedShare(usable, ratio);
      if first < MIN_PANE_ROWS then Some(BelowMinimum(area.width, first))
      else if WrappingSub(usable, first) < MIN_PANE_ROWS then
        Some(BelowMinimum(area.width, WrappingSub(usable, first)))
      else None
  }

  function SplitError(l: Layout, target: PaneId, direction: Direction, ratio: real): Option<LayoutError> {
    match Find(Resolve(l, l.Window()), target)
    case None => Some(PaneNotFound(target))
    case Some(g) => CheckRoom(g.area, direction, ratio)
  }

  function SplitPane(l: Layout, target: PaneId, direction: Direction, ratio: real, newId: PaneId)
      : (Layout, Option<LayoutError>) {
    match SplitError(l, target, direction, ratio)
    case Some(error) => (l, Some(error))
    case None =>
      match WithSplit(l.root, target, direction, ratio, newId)
      case Some(root) => (l.(root := root), None)
      case None => (l, Some(PaneNotFound(target)))
  }

  function ClosePane(l: Layout, id: PaneId): (Layout, Option<LayoutError>) {
    if l.root == Pane(id) then (l, Some(LastPane)) else
    var unzoomed := if l.zoomed == Some(id) then l.(zoomed := None) else l;
    match Without(l.root, id)
    case None => (unzoomed, Some(PaneNotFound(id)))
    case Some(root) =>
      (unzoomed.(root := root, active := if l.active == id then FirstLeaf(root) else l.active), None)
  }

  function FirstLeaf(node: LayoutNode): (id: PaneId)
    ensures |LeafIds(node)| > 0 && id == LeafIds(node)[0]
  {
    match node
    case Pane(id) => id
    case Split(_, _, first, _) => FirstLeaf(first)
  }

  function SwapPanes(l: Layout, a: PaneId, b: PaneId): (Layout, Option<LayoutError>) {
    if a !in LeafIds(l.root) then (l, Some(PaneNotFound(a)))
    else if b !in LeafIds(l.root) then (l, Some(PaneNotFound(b)))
    else (l.(root := Swapped(l.root, a, b)), None)
  }
}
