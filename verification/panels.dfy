/**
 * The panel tree: a strictly binary tree whose leaves are windows and whose
 * inner nodes are splitters, plus the paths by which the engine names nodes
 * in place of the non-owning pointers of its lookup tables.
 */
module Panels {
  import opened Geometry

  /** The three kinds of panel: a leaf window, or a splitter of one orientation. */
  datatype PanelType = Window | Splitter(orientation: Orientation)

  /** A splitter's divider: its hit rectangle and its offset from the panel's leading edge. */
  datatype SplitterProperties = SplitterProperties(rect: Rect, position: int)

  /**
   * A panel. A leaf carries its id and never children or a divider; a node
   * carries a divider and exactly two exclusively owned children, never an id.
   */
  datatype Panel =
    | Leaf(id: int, rect: Rect)
    | Node(orientation: Orientation, rect: Rect, splitter: SplitterProperties, first: Panel, second: Panel)
  {
    function Type(): PanelType {
      if Leaf? then Window else Splitter(orientation)
    }

    /** The divider position; a leaf's unused divider field stays 0. */
    function Position(): int {
      if Leaf? then 0 else splitter.position
    }
  }

  /** The topology of a tree: kinds and leaf ids, without any geometry. */
  datatype Shape = LeafShape(id: int) | NodeShape(orientation: Orientation, first: Shape, second: Shape)

  function ShapeOf(p: Panel): Shape {
    match p
    case Leaf(id, _) => LeafShape(id)
    case Node(o, _, _, a, b) => NodeShape(o, ShapeOf(a), ShapeOf(b))
  }

  const ZeroRect: Rect := Rect(0, 0, 0, 0)

  /** What survives a resize: kinds, ids and divider positions, every rectangle forgotten. */
  function Plan(p: Panel): Panel {
    match p
    case Leaf(id, _) => Leaf(id, ZeroRect)
    case Node(o, _, s, a, b) => Node(o, ZeroRect, SplitterProperties(ZeroRect, s.position), Plan(a), Plan(b))
  }

  /** What a drag keeps: kinds, ids and every rectangle, divider positions forgotten. */
  function Frame(p: Panel): Panel {
    match p
    case Leaf(_, _) => p
    case Node(o, r, s, a, b) => Node(o, r, SplitterProperties(s.rect, 0), Frame(a), Frame(b))
  }

  lemma PlanKeepsShape(p: Panel, q: Panel)
    requires Plan(p) == Plan(q)
    ensures ShapeOf(p) == ShapeOf(q)
  {
    if p.Node? {
      PlanKeepsShape(p.first, q.first);
      PlanKeepsShape(p.second, q.second);
    }
  }

  lemma FrameKeepsShape(p: Panel, q: Panel)
    requires Frame(p) == Frame(q)
    ensures ShapeOf(p) == ShapeOf(q)
  {
    if p.Node? {
      FrameKeepsShape(p.first, q.first);
      FrameKeepsShape(p.second, q.second);
    }
  }

  /** Which child a step of a path descends into. */
  datatype Side = First | Second

  /** A node's address: the sides taken from the root. */
  type Path = seq<Side>

  function ChildShape(s: Shape, side: Side): Shape
    requires s.NodeShape?
  {
    if side == First then s.first else s.second
  }

  function Child(p: Panel, side: Side): Panel
    requires p.Node?
  {
    if side == First then p.first else p.second
  }

  predicate ValidPath(s: Shape, q: Path)
    decreases |q|
  {
    |q| == 0 || (s.NodeShape? && ValidPath(ChildShape(s, q[0]), q[1..]))
  }

  function ShapeAt(s: Shape, q: Path): Shape
    requires ValidPath(s, q)
    decreases |q|
  {
    if |q| == 0 then s else ShapeAt(ChildShape(s, q[0]), q[1..])
  }

  /** `q` leads to a splitter node of `s`. */
  predicate IsNodePath(s: Shape, q: Path) {
    ValidPath(s, q) && ShapeAt(s, q).NodeShape?
  }

  /** The panel at `q`; its topology is the part of the tree's topology found there. */
  function At(p: Panel, q: Path): (r: Panel)
    requires ValidPath(ShapeOf(p), q)
    ensures ShapeOf(r) == ShapeAt(ShapeOf(p), q)
    decreases |q|
  {
    if |q| == 0 then p else At(Child(p, q[0]), q[1..])
  }

  /** The splitter nodes of a subtree rooted at `at`, parent before children, first child before second. */
  function SplitterPathsAt(s: Shape, at: Path): seq<Path> {
    match s
    case LeafShape(_) => []
    case NodeShape(_, a, b) => [at] + SplitterPathsAt(a, at + [First]) + SplitterPathsAt(b, at + [Second])
  }

  /** The leaves of a subtree rooted at `at` by id; of two leaves with one id the later one in pre-order wins. */
  function LeavesAt(s: Shape, at: Path): map<int, Path> {
    match s
    case LeafShape(id) => map[id := at]
    case NodeShape(_, a, b) => LeavesAt(a, at + [First]) + LeavesAt(b, at + [Second])
  }

  /** `q` starts with `at`. */
  predicate Extends(q: Path, at: Path) {
    |at| <= |q| && q[..|at|] == at
  }

  lemma ExtendsChild(q: Path, at: Path, side: Side)
    requires Extends(q, at + [side])
    ensures Extends(q, at)
    ensures q[|at|..] == [side] + q[|at| + 1..]
  {
    assert q[..|at|] == q[..|at| + 1][..|at|];
  }

  /** Every recorded splitter path lies under `at` and leads to a splitter node. */
  lemma {:induction false} SplitterPathsAreNodes(s: Shape, at: Path)
    ensures forall q :: q in SplitterPathsAt(s, at) ==> Extends(q, at) && IsNodePath(s, q[|at|..])
  {
    match s
    case LeafShape(_) =>
    case NodeShape(o, a, b) =>
      SplitterPathsAreNodes(a, at + [First]);
      SplitterPathsAreNodes(b, at + [Second]);
      forall q | q in SplitterPathsAt(s, at)
        ensures Extends(q, at) && IsNodePath(s, q[|at|..])
      {
        if q == at {
          assert q[|at|..] == [];
        } else if q in SplitterPathsAt(a, at + [First]) {
          ExtendsChild(q, at, First);
          assert ([First] + q[|at| + 1..])[1..] == q[|at| + 1..];
        } else {
          assert q in SplitterPathsAt(b, at + [Second]);
          ExtendsChild(q, at, Second);
          assert ([Second] + q[|at| + 1..])[1..] == q[|at| + 1..];
        }
      }
  }

  /** Every recorded leaf path lies under `at` and leads to a leaf carrying that id. */
  lemma {:induction false} LeavesAreLeaves(s: Shape, at: Path)
    ensures forall id :: id in LeavesAt(s, at) ==>
      Extends(LeavesAt(s, at)[id], at) &&
      ValidPath(s, LeavesAt(s, at)[id][|at|..]) &&
      ShapeAt(s, LeavesAt(s, at)[id][|at|..]) == LeafShape(id)
  {
    match s
    case LeafShape(_) =>
      assert at[|at|..] == [];
    case NodeShape(o, a, b) =>
      LeavesAreLeaves(a, at + [First]);
      LeavesAreLeaves(b, at + [Second]);
      forall id | id in LeavesAt(s, at)
        ensures Extends(LeavesAt(s, at)[id], at) &&
          ValidPath(s, LeavesAt(s, at)[id][|at|..]) &&
          ShapeAt(s, LeavesAt(s, at)[id][|at|..]) == LeafShape(id)
      {
        var q := LeavesAt(s, at)[id];
        if id in LeavesAt(b, at + [Second]) {
          ExtendsChild(q, at, Second);
          assert ([Second] + q[|at| + 1..])[1..] == q[|at| + 1..];
        } else {
          ExtendsChild(q, at, First);
          assert ([First] + q[|at| + 1..])[1..] == q[|at| + 1..];
        }
      }
  }

  /**
   * Pre-order: `p` comes before `q` when `p` is a proper ancestor of `q`, or
   * when they part ways with `p` in a first child and `q` in a second one.
   */
  predicate PreorderBefore(p: Path, q: Path) {
    (|p| < |q| && q[..|p|] == p) ||
    (exists i :: 0 <= i < |p| && i < |q| && p[..i] == q[..i] && p[i] == First && q[i] == Second)
  }

  lemma PreorderBeforeIsStrict(p: Path, q: Path)
    requires PreorderBefore(p, q)
    ensures p != q
  {
  }

  /** The recorded splitter list is strictly ordered by pre-order, so in particular it has no repeats. */
  lemma {:induction false} SplitterPathsInPreorder(s: Shape, at: Path)
    ensures forall k, l :: 0 <= k < l < |SplitterPathsAt(s, at)| ==>
      PreorderBefore(SplitterPathsAt(s, at)[k], SplitterPathsAt(s, at)[l])
  {
    match s
    case LeafShape(_) =>
    case NodeShape(o, a, b) =>
      var A := SplitterPathsAt(a, at + [First]);
      var B := SplitterPathsAt(b, at + [Second]);
      var S := SplitterPathsAt(s, at);
      assert S == [at] + A + B;
      SplitterPathsAreNodes(a, at + [First]);
      SplitterPathsAreNodes(b, at + [Second]);
      SplitterPathsInPreorder(a, at + [First]);
      SplitterPathsInPreorder(b, at + [Second]);
      forall k, l | 0 <= k < l < |S|
        ensures PreorderBefore(S[k], S[l])
      {
        var q := S[l];
        var inA := l <= |A|;
        if inA {
          assert q == A[l - 1] && q in A;
          ExtendsChild(q, at, First);
        } else {
          assert q == B[l - 1 - |A|] && q in B;
          ExtendsChild(q, at, Second);
        }
        if k == 0 {
          assert S[k] == at;
        } else {
          var p := S[k];
          if k <= |A| {
            assert p == A[k - 1] && p in A;
            if inA {
              assert PreorderBefore(A[k - 1], A[l - 1]);
            } else {
              ExtendsChild(p, at, First);
              var i := |at|;
              assert p[..i] == at == q[..i];
              assert p[i] == First && q[i] == Second;
            }
          } else {
            assert p == B[k - 1 - |A|];
            assert PreorderBefore(B[k - 1 - |A|], B[l - 1 - |A|]);
          }
        }
      }
  }

  /**
   * Sets the divider position of the splitter at `q`. Every rectangle, the
   * topology and every other position are left as they were.
   */
  function SetPosition(p: Panel, q: Path, position: int): (r: Panel)
    requires IsNodePath(ShapeOf(p), q)
    ensures Frame(r) == Frame(p)
    ensures ShapeOf(r) == ShapeOf(p)
    ensures At(r, q).Position() == position
    ensures forall q' :: ValidPath(ShapeOf(p), q') && q' != q ==> At(r, q').Position() == At(p, q').Position()
    decreases |q|
  {
    if |q| == 0 then
      p.(splitter := p.splitter.(position := position))
    else if q[0] == First then
      var r := p.(first := SetPosition(p.first, q[1..], position));
      assert forall q' :: ValidPath(ShapeOf(p), q') && q' != q && |q'| > 0 ==>
        At(r, q') == At(Child(r, q'[0]), q'[1..]);
      r
    else
      var r := p.(second := SetPosition(p.second, q[1..], position));
      assert forall q' :: ValidPath(ShapeOf(p), q') && q' != q && |q'| > 0 ==>
        At(r, q') == At(Child(r, q'[0]), q'[1..]);
      r
  }

  /** Descending one more step from a splitter node reaches one of its children. */
  lemma {:induction false} AtChild(p: Panel, q: Path, side: Side)
    requires IsNodePath(ShapeOf(p), q)
    ensures ValidPath(ShapeOf(p), q + [side])
    ensures At(p, q + [side]) == Child(At(p, q), side)
    decreases |q|
  {
    if |q| > 0 {
      assert (q + [side])[1..] == q[1..] + [side];
      AtChild(Child(p, q[0]), q[1..], side);
    }
  }

  /** Two trees with the same frame have the same frame at every path. */
  lemma {:induction false} FrameAt(p: Panel, p': Panel, q: Path)
    requires Frame(p) == Frame(p') && ValidPath(ShapeOf(p), q)
    ensures ValidPath(ShapeOf(p'), q)
    ensures Frame(At(p, q)) == Frame(At(p', q))
    decreases |q|
  {
    FrameKeepsShape(p, p');
    if |q| > 0 {
      FrameAt(Child(p, q[0]), Child(p', q[0]), q[1..]);
    }
  }

  /** Two trees with the same plan have the same plan at every path. */
  lemma {:induction false} PlanAt(p: Panel, p': Panel, q: Path)
    requires Plan(p) == Plan(p') && ValidPath(ShapeOf(p), q)
    ensures ValidPath(ShapeOf(p'), q)
    ensures Plan(At(p, q)) == Plan(At(p', q))
    decreases |q|
  {
    PlanKeepsShape(p, p');
    if |q| > 0 {
      PlanAt(Child(p, q[0]), Child(p', q[0]), q[1..]);
    }
  }
}
