/**
 * The engine state: the panel tree with its lookup tables (leaves by id,
 * splitters in pre-order, the drag selection), construction from a
 * description, and resize.
 */
module Engine {
  import opened Wrappers
  import opened Geometry
  import opened Panels
  import opened Resize
  import opened Parser

  /**
   * The state of one layout: the root panel, the path of each leaf by id,
   * the path of every splitter in the order it was built, and the indices
   * into that list of the splitters engaged in a drag.
   */
  datatype Layout = Layout(root: Panel, panels: map<int, Path>, splitters: seq<Path>, selected: seq<nat>)

  /** The tables describe the tree: leaves by id, splitters in pre-order, selected indices in range. */
  predicate Valid(l: Layout) {
    && l.panels == LeavesAt(ShapeOf(l.root), [])
    && l.splitters == SplitterPathsAt(ShapeOf(l.root), [])
    && forall k :: 0 <= k < |l.selected| ==> l.selected[k] < |l.splitters|
  }

  /** The ids of the leaves of a tree. */
  function Ids(s: Shape): set<int> {
    match s
    case LeafShape(id) => {id}
    case NodeShape(_, a, b) => Ids(a) + Ids(b)
  }

  lemma {:induction false} LeavesAtKeys(s: Shape, at: Path)
    ensures LeavesAt(s, at).Keys == Ids(s)
  {
    match s
    case LeafShape(_) =>
    case NodeShape(_, a, b) =>
      LeavesAtKeys(a, at + [First]);
      LeavesAtKeys(b, at + [Second]);
  }

  /** Every registered splitter path leads to a splitter node. */
  lemma SplitterPathValid(l: Layout, k: int)
    requires Valid(l) && 0 <= k < |l.splitters|
    ensures IsNodePath(ShapeOf(l.root), l.splitters[k])
  {
    SplitterPathsAreNodes(ShapeOf(l.root), []);
    assert l.splitters[k] in l.splitters;
    assert l.splitters[k][0..] == l.splitters[k];
  }

  /** Every registered leaf path leads to a leaf with that id. */
  lemma PanelPathValid(l: Layout, id: int)
    requires Valid(l) && id in l.panels
    ensures ValidPath(ShapeOf(l.root), l.panels[id])
    ensures At(l.root, l.panels[id]).Leaf? && At(l.root, l.panels[id]).id == id
  {
    LeavesAreLeaves(ShapeOf(l.root), []);
    assert l.panels[id][0..] == l.panels[id];
  }

  /** No splitter is registered twice, so an index names one node. */
  lemma SplittersDistinct(l: Layout)
    requires Valid(l)
    ensures forall k, m :: 0 <= k < m < |l.splitters| ==> l.splitters[k] != l.splitters[m]
  {
    SplitterPathsInPreorder(ShapeOf(l.root), []);
    forall k, m | 0 <= k < m < |l.splitters|
      ensures l.splitters[k] != l.splitters[m]
    {
      PreorderBeforeIsStrict(l.splitters[k], l.splitters[m]);
    }
  }

  /** The splitter node registered at index `k`. */
  function SplitterAt(l: Layout, k: int): (p: Panel)
    requires Valid(l) && 0 <= k < |l.splitters|
    ensures p.Node?
  {
    SplitterPathValid(l, k);
    At(l.root, l.splitters[k])
  }

  /**
   * Builds a layout from `description` inside `rect`, first moving the
   * outer edges in by a whole divider. On success the tables describe the
   * tree, nothing is selected, and the tree is laid out in the inset
   * rectangle with every divider within its panel when that rectangle is
   * not inverted.
   */
  function Init(description: string, rect: Rect): (r: Result<Layout, ParseError>)
    ensures r.Success? ==> Valid(r.value) && r.value.selected == []
    ensures r.Success? ==> LaidOut(r.value.root, ShrinkRect(rect, SplitterSize))
    ensures r.Success? && NonNegative(ShrinkRect(rect, SplitterSize)) ==>
      Fits(r.value.root, ShrinkRect(rect, SplitterSize))
    ensures |description| < 3 ==> r == Failure(TooShort)
    ensures r.Success? ==> WellBraced(description) && TagType(description[0]).Some?
  {
    match CreateLayout(description, ShrinkRect(rect, SplitterSize), [], Registry(map[], []))
    case Failure(e) => Failure(e)
    case Success((root, reg)) =>
      assert reg.panels == map[] + LeavesAt(ShapeOf(root), []);
      assert map[] + LeavesAt(ShapeOf(root), []) == LeavesAt(ShapeOf(root), []);
      assert reg.splitters == [] + SplitterPathsAt(ShapeOf(root), []);
      Success(Layout(root, reg.panels, reg.splitters, []))
  }

  /** The description of any tree builds a layout of exactly that tree's kinds and ids. */
  lemma InitDescribe(s: Shape, rect: Rect)
    requires NatIds(s)
    ensures Init(Describe(s), rect).Success?
    ensures ShapeOf(Init(Describe(s), rect).value.root) == s
  {
    ParseDescribe(s, ShrinkRect(rect, SplitterSize), [], Registry(map[], []));
  }

  /**
   * A single window `W{n}` fills the region less a divider of margin and
   * half a divider of inset, is registered under `n` at the root, and there
   * are no splitters.
   */
  lemma InitSingleWindow(id: nat, rect: Rect)
    ensures Init("W{" + DecimalString(id) + "}", rect) ==
      Success(Layout(Leaf(id, ShrinkRect(ShrinkRect(rect, SplitterSize), SplitterOffset)), map[id := []], [], []))
  {
    assert Describe(LeafShape(id)) == "W{" + DecimalString(id) + "}";
    InitDescribe(LeafShape(id), rect);
  }

  /**
   * Lays the tree out again in `rect` less a divider of margin. The tables,
   * the selection, kinds, ids and positions are untouched.
   */
  function Update(l: Layout, rect: Rect): (r: Layout)
    ensures r.panels == l.panels && r.splitters == l.splitters && r.selected == l.selected
    ensures Plan(r.root) == Plan(l.root)
    ensures LaidOut(r.root, ShrinkRect(rect, SplitterSize))
    ensures Valid(l) ==> Valid(r)
  {
    l.(root := UpdateLayout(l.root, ShrinkRect(rect, SplitterSize)))
  }

  /** Resizing twice to the same rectangle changes nothing the second time. */
  lemma UpdateIdempotent(l: Layout, rect: Rect)
    ensures Update(Update(l, rect), rect) == Update(l, rect)
  {
    UpdateLayoutIdempotent(l.root, ShrinkRect(rect, SplitterSize));
  }

  /** Resizing a freshly built layout to the rectangle it was built in changes nothing. */
  lemma UpdateAfterInit(description: string, rect: Rect)
    requires Init(description, rect).Success?
    ensures Update(Init(description, rect).value, rect) == Init(description, rect).value
  {
    var l := Init(description, rect).value;
    LaidOutIsFixpoint(l.root, ShrinkRect(rect, SplitterSize));
  }

  /** The rectangle of every leaf window, by id: the leaf the panel table finds for each id. */
  function PanelRects(l: Layout): (m: map<int, Rect>)
    requires Valid(l)
    ensures m.Keys == Ids(ShapeOf(l.root))
    ensures forall id :: id in m ==> m[id] in LeafRects(l.root)
    ensures forall id :: id in m ==>
      id in l.panels && ValidPath(ShapeOf(l.root), l.panels[id]) && At(l.root, l.panels[id]) == Leaf(id, m[id])
  {
    LeavesAtKeys(ShapeOf(l.root), []);
    var m := map id | id in l.panels :: (PanelPathValid(l, id); LeafRectAt(l.root, l.panels[id]));
    assert forall id :: id in m ==> ValidPath(ShapeOf(l.root), l.panels[id]) && At(l.root, l.panels[id]) == Leaf(id, m[id]) by {
      forall id | id in m
        ensures ValidPath(ShapeOf(l.root), l.panels[id]) && At(l.root, l.panels[id]) == Leaf(id, m[id])
      {
        PanelPathValid(l, id);
      }
    }
    m
  }

  /** The rectangle of the leaf at `q`, which is one of the tree's leaf rectangles. */
  function LeafRectAt(p: Panel, q: Path): (r: Rect)
    requires ValidPath(ShapeOf(p), q) && At(p, q).Leaf?
    ensures r == At(p, q).rect && r in LeafRects(p)
    decreases |q|
  {
    if |q| == 0 then p.rect
    else LeafRectAt(Child(p, q[0]), q[1..])
  }
}
