/** The layout tree as an object that is edited in place. */
module LayoutObject {
  import opened Common
  import opened Layouts
  import opened LayoutTiling

  class LayoutTree {
    var root: LayoutNode
    var activePane: PaneId
    var zoomedPane: Option<PaneId>
    var windowWidth: u16
    var windowHeight: u16

    ghost function State(): Layout
      reads this
    {
      Layout(root, activePane, zoomedPane, windowWidth, windowHeight)
    }

    constructor (rootPane: PaneId)
      ensures State() == NewLayout(rootPane, 80, 24) && Sound(State())
    {
      root, activePane, zoomedPane, windowWidth, windowHeight := Pane(rootPane), rootPane, None, 80, 24;
      new;
      NewLayoutIsSound(rootPane, 80, 24);
    }

    constructor WithDimensions(rootPane: PaneId, width: u16, height: u16)
      ensures State() == NewLayout(rootPane, width, height)
    {
      root, activePane, zoomedPane, windowWidth, windowHeight := Pane(rootPane), rootPane, None, width, height;
    }

    method SetDimensions(width: u16, height: u16)
      modifies this
      ensures State() == old(State()).(width := width, height := height)
    {
      windowWidth, windowHeight := width, height;
    }

    method ResolveTree(width: u16, height: u16) returns (geometries: seq<Geometry>)
      ensures geometries == Resolve(State(), Rect(0, 0, width, height))
    {
      if zoomedPane.Some? {
        return [Geometry(zoomedPane.value, Rect(0, 0, width, height))];
      }
      geometries := AppendGeometries(root, Rect(0, 0, width, height), []);
    }

    method ValidateSplit(target: PaneId, direction: Direction, ratio: real) returns (error: Option<LayoutError>)
      ensures error == SplitError(State(), target, direction, ratio)
    {
      var geometries := ResolveTree(windowWidth, windowHeight);
      var i := 0;
      while i < |geometries| && geometries[i].paneId != target
        invariant 0 <= i <= |geometries|
        invariant Find(geometries, target) == Find(geometries[i..], target)
      {
        assert geometries[i..][1..] == geometries[i + 1..];
        i := i + 1;
      }
      if i == |geometries| {
        return Some(PaneNotFound(target));
      }
      assert Find(geometries[i..], target) == Some(geometries[i]);
      return CheckRoom(geometries[i].area, direction, ratio);
    }

    /** Splits the target, or reports why not and changes nothing. A sound layout stays
        sound when the new id is fresh and no pane is zoomed. */
    method SplitTarget(target: PaneId, direction: Direction, ratio: real, newId: PaneId)
      returns (error: Option<LayoutError>)
      modifies this
      ensures (State(), error) == SplitPane(old(State()), target, direction, ratio, newId)
      ensures old(Sound(State())) && old(zoomedPane).None? && newId !in LeafIds(old(root)) ==> Sound(State())
    {
      ghost var before := State();
      if Sound(before) && zoomedPane.None? && newId !in LeafIds(root) {
        SplitIsSound(before, target, direction, ratio, newId);
      }
      hide Sound, SplitError, WithSplit, LeafIds;
      error := ValidateSplit(target, direction, ratio);
      if error.None? {
        var after, replaced := ReplaceLeafWithSplit(root, target, direction, ratio, newId);
        root := after;
        if !replaced {
          error := Some(PaneNotFound(target));
        }
      }
    }

    /** Closes a pane, promoting its sibling. */
    method Close(id: PaneId) returns (error: Option<LayoutError>)
      modifies this
      ensures (State(), error) == ClosePane(old(State()), id)
      ensures old(Sound(State())) ==> Sound(State())
    {
      ghost var before := State();
      if Sound(before) {
        CloseIsSound(before, id);
      }
      hide Sound, Without, LeafIds;
      if root == Pane(id) {
        return Some(LastPane);
      }
      if zoomedPane == Some(id) {
        zoomedPane := None;
      }
      var after, result := CloseLeaf(root, id);
      match result {
        case Replaced(sibling) =>
          root := sibling;
          FixupActivePane(id);
          error := None;
        case Done =>
          root := after;
          FixupActivePane(id);
          error := None;
        case NotFound =>
          error := Some(PaneNotFound(id));
        case Last =>
          error := Some(LastPane);
      }
    }

    method FixupActivePane(closed: PaneId)
      modifies `activePane
      ensures activePane == if old(activePane) == closed then FirstLeaf(root) else old(activePane)
    {
      if activePane == closed {
        var ids := CollectIds(root, []);
        assert [] + LeafIds(root) == LeafIds(root) && FirstLeaf(root) in LeafIds(root);
        if |ids| > 0 {
          activePane := ids[0];
        }
      }
    }

    method Swap(a: PaneId, b: PaneId) returns (error: Option<LayoutError>)
      modifies this
      ensures (State(), error) == SwapPanes(old(State()), a, b)
      ensures old(Sound(State())) ==> Sound(State())
    {
      ghost var before := State();
      if Sound(before) {
        SwapIsSound(before, a, b);
      }
      hide Sound, LeafIds;
      var ids := CollectIds(root, []);
      assert [] + LeafIds(root) == LeafIds(root);
      if a !in ids {
        return Some(PaneNotFound(a));
      }
      if b !in ids {
        return Some(PaneNotFound(b));
      }
      root := SwapPaneIds(root, a, b);
      return None;
    }

    method Zoom(id: PaneId)
      modifies this
      ensures State() == old(State()).(zoomed := Some(id))
    {
      zoomedPane := Some(id);
    }

    method Unzoom()
      modifies this
      ensures State() == old(State()).(zoomed := None)
    {
      zoomedPane := None;
    }
  }
}
