/**
 * Dragging selected dividers: the range a divider may move in without
 * crossing a parallel neighbour or the region's edge, the clamped move
 * itself, and the rule that keeps a nested divider of the same kind in
 * place on screen.
 */
module Drag {
  import opened Geometry
  import opened Panels
  import opened Engine
  import opened Selection
  import opened Resize

  /** Where the range starts on either side: a divider and a half in from the region's edges. */
  const BoundaryMargin: int := SplitterSize + SplitterOffset

  /** The gap a dragged divider keeps from the ends of its range. */
  const SplitterPadding: int := SplitterSize * 2

  /** The pointer coordinate on the split axis of `o`. */
  function Coordinate(o: Orientation, x: int, y: int): int {
    if o == SplitterVertical then x else y
  }

  /** The absolute coordinate of the divider line of splitter `k`. */
  function DividerLine(l: Layout, k: int): int
    requires Valid(l) && 0 <= k < |l.splitters|
  {
    var s := SplitterAt(l, k);
    Leading(s.orientation, s.rect) + s.splitter.position
  }

  /**
   * Splitter `m` is a parallel neighbour of splitter `k`: another splitter of
   * the same kind whose divider band overlaps that of `k` along the divider.
   */
  predicate Collides(l: Layout, k: int, m: int)
    requires Valid(l) && 0 <= k < |l.splitters| && 0 <= m < |l.splitters|
  {
    var a := SplitterAt(l, k);
    var b := SplitterAt(l, m);
    var across := Across(a.orientation);
    && m != k
    && b.orientation == a.orientation
    && Leading(across, b.splitter.rect) < Trailing(across, a.splitter.rect)
    && Leading(across, a.splitter.rect) < Trailing(across, b.splitter.rect)
  }

  /** The edge of splitter `m`'s divider band that ends on the split axis of splitter `k`. */
  function FarEdge(l: Layout, k: int, m: int): int
    requires Valid(l) && 0 <= k < |l.splitters| && 0 <= m < |l.splitters|
  {
    Trailing(SplitterAt(l, k).orientation, SplitterAt(l, m).splitter.rect)
  }

  /** The edge of splitter `m`'s divider band that starts on the split axis of splitter `k`. */
  function NearEdge(l: Layout, k: int, m: int): int
    requires Valid(l) && 0 <= k < |l.splitters| && 0 <= m < |l.splitters|
  {
    Leading(SplitterAt(l, k).orientation, SplitterAt(l, m).splitter.rect)
  }

  /** A parallel neighbour lying wholly before the divider line of `k`. */
  predicate Behind(l: Layout, k: int, m: int)
    requires Valid(l) && 0 <= k < |l.splitters| && 0 <= m < |l.splitters|
  {
    Collides(l, k, m) && FarEdge(l, k, m) < DividerLine(l, k)
  }

  /** A parallel neighbour lying wholly after the divider line of `k`. */
  predicate Ahead(l: Layout, k: int, m: int)
    requires Valid(l) && 0 <= k < |l.splitters| && 0 <= m < |l.splitters|
  {
    Collides(l, k, m) && NearEdge(l, k, m) > DividerLine(l, k)
  }

  /**
   * The scan over splitters `m` onwards: the low end rises to the far edge
   * of every neighbour behind, the high end falls to the near edge of every
   * neighbour ahead, and each end is either where it started or one of those edges.
   */
  function BoundsFrom(l: Layout, k: int, m: nat, low: int, high: int): (b: (int, int))
    requires Valid(l) && 0 <= k < |l.splitters| && m <= |l.splitters|
    ensures low <= b.0 && b.1 <= high
    ensures forall j :: m <= j < |l.splitters| && Behind(l, k, j) ==> FarEdge(l, k, j) <= b.0
    ensures forall j :: m <= j < |l.splitters| && Ahead(l, k, j) ==> b.1 <= NearEdge(l, k, j)
    ensures b.0 == low || exists j :: m <= j < |l.splitters| && Behind(l, k, j) && b.0 == FarEdge(l, k, j)
    ensures b.1 == high || exists j :: m <= j < |l.splitters| && Ahead(l, k, j) && b.1 == NearEdge(l, k, j)
    decreases |l.splitters| - m
  {
    if m == |l.splitters| then (low, high)
    else
      var low' := if Behind(l, k, m) && FarEdge(l, k, m) > low then FarEdge(l, k, m) else low;
      var high' := if Ahead(l, k, m) && NearEdge(l, k, m) < high then NearEdge(l, k, m) else high;
      BoundsFrom(l, k, m + 1, low', high')
  }

  /**
   * The range the divider of splitter `k` may move in inside `window`: the
   * tightest of the region's margins and the bands of its parallel neighbours.
   */
  function SplitterBoundaries(l: Layout, k: int, window: Rect): (b: (int, int))
    requires Valid(l) && 0 <= k < |l.splitters|
    ensures BoundaryMargin <= b.0
    ensures b.1 <= Trailing(SplitterAt(l, k).orientation, window) - BoundaryMargin
    ensures forall j :: 0 <= j < |l.splitters| && Behind(l, k, j) ==> FarEdge(l, k, j) <= b.0
    ensures forall j :: 0 <= j < |l.splitters| && Ahead(l, k, j) ==> b.1 <= NearEdge(l, k, j)
    ensures b.0 == BoundaryMargin || exists j :: 0 <= j < |l.splitters| && Behind(l, k, j) && b.0 == FarEdge(l, k, j)
    ensures b.1 == Trailing(SplitterAt(l, k).orientation, window) - BoundaryMargin ||
      exists j :: 0 <= j < |l.splitters| && Ahead(l, k, j) && b.1 == NearEdge(l, k, j)
  {
    BoundsFrom(l, k, 0, BoundaryMargin, Trailing(SplitterAt(l, k).orientation, window) - BoundaryMargin)
  }

  /** `v` pulled into [lo, hi]; when the range is empty the low end wins. */
  function Clamp(v: int, lo: int, hi: int): (c: int)
    ensures lo <= c
    ensures lo <= hi ==> c <= hi
    ensures lo <= v <= hi ==> c == v
    ensures v < lo || hi < lo ==> c == lo
    ensures lo <= hi < v ==> c == hi
  {
    if v < hi then (if v < lo then lo else v)
    else if hi < lo then lo else hi
  }

  /** A splitter whose second child is a splitter of the same kind. */
  predicate LocksSecond(p: Panel) {
    p.Node? && p.second.Node? && p.second.orientation == p.orientation
  }

  /**
   * Sets the divider of the splitter at `q` to `position`; when its second
   * child splits the same way, that child's position takes up the
   * difference, so the sum of the two is unchanged. Nothing else changes.
   */
  function MoveDivider(p: Panel, q: Path, position: int): (r: Panel)
    requires IsNodePath(ShapeOf(p), q)
    ensures Frame(r) == Frame(p) && ShapeOf(r) == ShapeOf(p)
    ensures At(r, q).Node? && At(r, q).Position() == position
    ensures LocksSecond(At(p, q)) ==>
      At(r, q).Position() + At(r, q).second.Position() == At(p, q).Position() + At(p, q).second.Position()
    ensures forall q' :: ValidPath(ShapeOf(p), q') && q' != q && (LocksSecond(At(p, q)) ==> q' != q + [Second]) ==>
      At(r, q').Position() == At(p, q').Position()
  {
    var s := At(p, q);
    var r1 := SetPosition(p, q, position);
    AtChild(p, q, Second);
    AtChild(r1, q, Second);
    if LocksSecond(s) then
      assert q + [Second] != q;
      var r := SetPosition(r1, q + [Second], s.second.Position() + (s.Position() - position));
      AtChild(r, q, Second);
      r
    else
      r1
  }

  /** Splitter `m` is the second child of splitter `k` and shares its kind, so a drag of `k` moves it too. */
  predicate Nested(l: Layout, k: int, m: int)
    requires Valid(l) && 0 <= k < |l.splitters| && 0 <= m < |l.splitters|
  {
    LocksSecond(SplitterAt(l, k)) && l.splitters[m] == l.splitters[k] + [Second]
  }

  /**
   * Drags splitter `k` towards (x, y) inside `window`: its divider line goes
   * to the pointer coordinate clamped to its range less the padding, a
   * nested divider of the same kind keeps its place on screen, and every
   * rectangle is left for the next resize to refresh.
   */
  function MoveSplitter(l: Layout, k: int, x: int, y: int, window: Rect): (r: Layout)
    requires Valid(l) && 0 <= k < |l.splitters|
    ensures r.panels == l.panels && r.splitters == l.splitters && r.selected == l.selected
    ensures Valid(r)
    ensures Frame(r.root) == Frame(l.root)
    ensures var b := SplitterBoundaries(l, k, window);
      DividerLine(r, k) ==
        Clamp(Coordinate(SplitterAt(l, k).orientation, x, y), b.0 + SplitterPadding, b.1 - SplitterPadding)
    ensures DividerLine(r, k) >= BoundaryMargin + SplitterPadding
    ensures forall j :: 0 <= j < |l.splitters| && Behind(l, k, j) ==> DividerLine(r, k) >= FarEdge(l, k, j) + SplitterPadding
    ensures var b := SplitterBoundaries(l, k, window);
      b.0 + 2 * SplitterPadding <= b.1 ==>
        forall j :: 0 <= j < |l.splitters| && Ahead(l, k, j) ==> DividerLine(r, k) <= NearEdge(l, k, j) - SplitterPadding
    ensures LocksSecond(SplitterAt(l, k)) ==>
      SplitterAt(r, k).Position() + SplitterAt(r, k).second.Position() ==
      SplitterAt(l, k).Position() + SplitterAt(l, k).second.Position()
    ensures forall m :: 0 <= m < |l.splitters| && m != k && !Nested(l, k, m) ==>
      SplitterAt(r, m).Position() == SplitterAt(l, m).Position()
  {
    var s := SplitterAt(l, k);
    var q := l.splitters[k];
    SplitterPathValid(l, k);
    SplittersDistinct(l);
    var b := SplitterBoundaries(l, k, window);
    var line := Clamp(Coordinate(s.orientation, x, y), b.0 + SplitterPadding, b.1 - SplitterPadding);
    var root := MoveDivider(l.root, q, line - Leading(s.orientation, s.rect));
    var r := l.(root := root);
    FrameAt(l.root, root, q);
    forall m | 0 <= m < |l.splitters|
      ensures IsNodePath(ShapeOf(l.root), l.splitters[m])
    {
      SplitterPathValid(l, m);
    }
    forall m | 0 <= m < |l.splitters| && m != k
      ensures l.splitters[m] != q
    {
      if m < k {} else {}
    }
    r
  }

  /** Whether a drag of `k` carries `m` along depends only on the frame, which drags keep. */
  lemma NestedKeptByFrame(l: Layout, l': Layout, k: int, m: int)
    requires Valid(l) && Valid(l') && Frame(l'.root) == Frame(l.root) && l'.splitters == l.splitters
    requires 0 <= k < |l.splitters| && 0 <= m < |l.splitters|
    ensures Nested(l', k, m) == Nested(l, k, m)
  {
    SplitterPathValid(l, k);
    FrameAt(l.root, l'.root, l.splitters[k]);
  }

  /** No drag of a splitter in `ks` moves splitter `m`: it is none of them and no nested child of one. */
  predicate Untouched(l: Layout, ks: seq<nat>, m: int)
    requires Valid(l) && 0 <= m < |l.splitters|
    requires forall n :: 0 <= n < |ks| ==> ks[n] < |l.splitters|
  {
    forall n :: 0 <= n < |ks| ==> ks[n] != m && !Nested(l, ks[n], m)
  }

  /** A splitter untouched by `ks` stays untouched by the rest of `ks` once the first has been dragged. */
  lemma UntouchedAfterMove(l: Layout, l1: Layout, ks: seq<nat>)
    requires Valid(l) && Valid(l1) && Frame(l1.root) == Frame(l.root) && l1.splitters == l.splitters
    requires |ks| > 0 && forall n :: 0 <= n < |ks| ==> ks[n] < |l.splitters|
    ensures forall m :: 0 <= m < |l.splitters| && Untouched(l, ks, m) ==> Untouched(l1, ks[1..], m)
  {
    forall m | 0 <= m < |l.splitters| && Untouched(l, ks, m)
      ensures Untouched(l1, ks[1..], m)
    {
      forall n | 0 <= n < |ks| - 1
        ensures ks[1..][n] != m && !Nested(l1, ks[1..][n], m)
      {
        assert ks[1..][n] == ks[n + 1];
        NestedKeptByFrame(l, l1, ks[n + 1], m);
      }
    }
  }

  /** The divider of a splitter whose frame and position are kept is where it was. */
  lemma FrameKeepsSplitter(l: Layout, l': Layout, k: int)
    requires Valid(l) && Valid(l') && Frame(l'.root) == Frame(l.root) && l'.splitters == l.splitters
    requires 0 <= k < |l.splitters|
    ensures SplitterAt(l', k).orientation == SplitterAt(l, k).orientation
    ensures SplitterAt(l', k).rect == SplitterAt(l, k).rect
    ensures SplitterAt(l', k).Position() == SplitterAt(l, k).Position() ==> DividerLine(l', k) == DividerLine(l, k)
  {
    SplitterPathValid(l, k);
    FrameAt(l.root, l'.root, l.splitters[k]);
  }

  /** A splitter's second child comes after it in the splitter list, which is in pre-order. */
  lemma SecondChildComesLater(l: Layout, k: int, m: int)
    requires Valid(l) && 0 <= k < |l.splitters| && 0 <= m < |l.splitters|
    ensures l.splitters[m] == l.splitters[k] + [Second] ==> k < m
  {
    var p, q := l.splitters[m], l.splitters[k];
    if p == q + [Second] {
      SplitterPathsInPreorder(ShapeOf(l.root), []);
      assert forall i :: 0 <= i < |q| ==> p[i] == q[i];
      assert !PreorderBefore(p, q);
      assert p != q;
    }
  }

  /** When the drags go in increasing index order, no later drag moves the splitter of the first. */
  lemma LaterDragsLeaveFirst(l: Layout, ks: seq<nat>)
    requires Valid(l) && |ks| > 0 && forall n :: 0 <= n < |ks| ==> ks[n] < |l.splitters|
    requires Increasing(ks)
    ensures Untouched(l, ks[1..], ks[0])
  {
    forall n | 0 <= n < |ks| - 1
      ensures ks[1..][n] != ks[0] && !Nested(l, ks[1..][n], ks[0])
    {
      assert ks[1..][n] == ks[n + 1];
      SecondChildComesLater(l, ks[n + 1], ks[0]);
    }
  }

  /** The drag of splitter `k` from `l` put the divider line of `k` in `r` at the pointer clamped to its range less the padding. */
  predicate LandsFrom(l: Layout, k: int, x: int, y: int, window: Rect, r: Layout)
    requires Valid(l) && Valid(r) && r.splitters == l.splitters && 0 <= k < |l.splitters|
  {
    var b := SplitterBoundaries(l, k, window);
    DividerLine(r, k) ==
      Clamp(Coordinate(SplitterAt(l, k).orientation, x, y), b.0 + SplitterPadding, b.1 - SplitterPadding)
  }

  /** The first drag lands, and when the rest come later in pre-order none of them moves it again. */
  lemma FirstLands(l: Layout, ks: seq<nat>, x: int, y: int, window: Rect, l1: Layout, r: Layout)
    requires Valid(l) && |ks| > 0 && forall n :: 0 <= n < |ks| ==> ks[n] < |l.splitters|
    requires l1 == MoveSplitter(l, ks[0], x, y, window)
    requires Valid(r) && r.splitters == l.splitters && Frame(r.root) == Frame(l.root)
    requires Untouched(l1, ks[1..], ks[0]) ==> SplitterAt(r, ks[0]).Position() == SplitterAt(l1, ks[0]).Position()
    ensures Increasing(ks) ==> LandsFrom(l, ks[0], x, y, window, r)
  {
    if Increasing(ks) {
      LaterDragsLeaveFirst(l1, ks);
      FrameKeepsSplitter(l1, r, ks[0]);
    }
  }

  /**
   * Drags the splitters `ks` one after another, each from the state the
   * previous drag left. The tables, the selection and every rectangle are
   * kept, and so is the position of every splitter no drag touches. When
   * the drags go in increasing index order the first dragged divider ends
   * where its drag put it (`EveryDragLands` covers the others).
   */
  function MoveEach(l: Layout, ks: seq<nat>, x: int, y: int, window: Rect): (r: Layout)
    requires Valid(l) && forall n :: 0 <= n < |ks| ==> ks[n] < |l.splitters|
    ensures Valid(r)
    ensures r.panels == l.panels && r.splitters == l.splitters && r.selected == l.selected
    ensures Frame(r.root) == Frame(l.root)
    ensures forall m :: 0 <= m < |l.splitters| && Untouched(l, ks, m) ==>
      SplitterAt(r, m).Position() == SplitterAt(l, m).Position()
    ensures |ks| > 0 && Increasing(ks) ==> LandsFrom(l, ks[0], x, y, window, r)
    decreases |ks|
  {
    if |ks| == 0 then l
    else
      var l1 := MoveSplitter(l, ks[0], x, y, window);
      UntouchedAfterMove(l, l1, ks);
      var r := MoveEach(l1, ks[1..], x, y, window);
      FirstLands(l, ks, x, y, window, l1, r);
      r
  }

  /**
   * Drag `n` of `ks`, made from the state the first `n` drags left, put the
   * divider line of splitter `ks[n]` in `r` at the pointer coordinate clamped
   * to that state's range less the padding.
   */
  predicate Lands(l: Layout, ks: seq<nat>, x: int, y: int, window: Rect, r: Layout, n: int)
    requires Valid(l) && forall i :: 0 <= i < |ks| ==> ks[i] < |l.splitters|
    requires Valid(r) && r.splitters == l.splitters && 0 <= n < |ks|
  {
    LandsFrom(MoveEach(l, ks[..n], x, y, window), ks[n], x, y, window, r)
  }

  /**
   * When the drags go in increasing index order, every dragged divider ends
   * where its own drag put it: at the pointer clamped to the range it had
   * in the state the earlier drags left.
   */
  lemma {:induction false} EveryDragLands(l: Layout, ks: seq<nat>, x: int, y: int, window: Rect)
    requires Valid(l) && forall n :: 0 <= n < |ks| ==> ks[n] < |l.splitters|
    requires Increasing(ks)
    ensures forall n :: 0 <= n < |ks| ==> Lands(l, ks, x, y, window, MoveEach(l, ks, x, y, window), n)
    decreases |ks|
  {
    if |ks| > 0 {
      var l1 := MoveSplitter(l, ks[0], x, y, window);
      var r := MoveEach(l1, ks[1..], x, y, window);
      assert MoveEach(l, ks, x, y, window) == r;
      IncreasingTail(ks);
      EveryDragLands(l1, ks[1..], x, y, window);
      forall n | 0 <= n < |ks|
        ensures Lands(l, ks, x, y, window, r, n)
      {
        if n == 0 {
          assert ks[..0] == [];
          assert MoveEach(l, ks[..0], x, y, window) == l;
        } else {
          LaterLands(l, ks, x, y, window, l1, r, n);
        }
      }
    }
  }

  /** Drag `n` lands as it does among the drags that follow the first. */
  lemma LaterLands(l: Layout, ks: seq<nat>, x: int, y: int, window: Rect, l1: Layout, r: Layout, n: int)
    requires Valid(l) && forall i :: 0 <= i < |ks| ==> ks[i] < |l.splitters|
    requires 0 < n < |ks|
    requires l1 == MoveSplitter(l, ks[0], x, y, window)
    requires r == MoveEach(l1, ks[1..], x, y, window)
    ensures Lands(l1, ks[1..], x, y, window, r, n - 1) ==> Lands(l, ks, x, y, window, r, n)
  {
    assert ks[1..][n - 1] == ks[n];
    PrefixAfterFirst(l, ks, x, y, window, l1, n);
  }

  /** The first `n` drags are the first drag followed by the next `n - 1`. */
  lemma PrefixAfterFirst(l: Layout, ks: seq<nat>, x: int, y: int, window: Rect, l1: Layout, n: int)
    requires Valid(l) && forall i :: 0 <= i < |ks| ==> ks[i] < |l.splitters|
    requires 0 < n < |ks|
    requires l1 == MoveSplitter(l, ks[0], x, y, window)
    ensures MoveEach(l, ks[..n], x, y, window) == MoveEach(l1, ks[1..][..n - 1], x, y, window)
  {
    assert ks[..n][0] == ks[0] && ks[..n][1..] == ks[1..][..n - 1];
  }

  lemma IncreasingTail(ks: seq<nat>)
    requires |ks| > 0 && Increasing(ks)
    ensures Increasing(ks[1..])
  {
    forall i, j | 0 <= i < j < |ks| - 1
      ensures ks[1..][i] < ks[1..][j]
    {
      assert ks[1..][i] == ks[i + 1] && ks[1..][j] == ks[j + 1];
    }
  }

  /**
   * Drags every selected splitter towards (x, y) inside `window`, in
   * selection order; with nothing selected the layout is left as it is.
   * With the selection in increasing order, as a hit test makes it, the
   * first selected divider ends where its drag put it
   * (`SelectedDragsLand` covers the others).
   */
  function SplitterUpdateSelected(l: Layout, x: int, y: int, window: Rect): (r: Layout)
    requires Valid(l)
    ensures !HasSelected(l) ==> r == l
    ensures Valid(r)
    ensures r.panels == l.panels && r.splitters == l.splitters && r.selected == l.selected
    ensures Frame(r.root) == Frame(l.root)
    ensures forall m :: 0 <= m < |l.splitters| && Untouched(l, l.selected, m) ==>
      SplitterAt(r, m).Position() == SplitterAt(l, m).Position()
    ensures HasSelected(l) && Increasing(l.selected) ==> LandsFrom(l, l.selected[0], x, y, window, r)
  {
    if !HasSelected(l) then l else MoveEach(l, l.selected, x, y, window)
  }

  /** A drag after a saving hit test lands every selected divider where its own drag put it. */
  lemma SelectedDragsLand(l: Layout, x0: int, y0: int, x: int, y: int, window: Rect)
    requires Valid(l)
    ensures var s := Selection.SplitterSelect(l, x0, y0, true).1;
      forall n :: 0 <= n < |s.selected| ==> Lands(s, s.selected, x, y, window, SplitterUpdateSelected(s, x, y, window), n)
  {
    var s := Selection.SplitterSelect(l, x0, y0, true).1;
    EveryDragLands(s, s.selected, x, y, window);
  }

  /** With one splitter selected, the drag puts its divider line at the pointer clamped to its range. */
  lemma SingleSelectedDrag(l: Layout, x: int, y: int, window: Rect)
    requires Valid(l) && |l.selected| == 1
    ensures var k := l.selected[0];
      var b := SplitterBoundaries(l, k, window);
      DividerLine(SplitterUpdateSelected(l, x, y, window), k) ==
        Clamp(Coordinate(SplitterAt(l, k).orientation, x, y), b.0 + SplitterPadding, b.1 - SplitterPadding)
  {
    var l1 := MoveSplitter(l, l.selected[0], x, y, window);
    assert l.selected[1..] == [];
    assert MoveEach(l1, [], x, y, window) == l1;
    assert SplitterUpdateSelected(l, x, y, window) == l1;
  }

  /**
   * The clamp keeps a divider away from its neighbours but not inside its
   * panel: in a 20 x 20 region the single divider's range is empty, the low
   * end wins, and the position ends up past the panel's 8-pixel width.
   */
  lemma DragCanLeaveThePanel()
    ensures var panel := Rect(6, 6, 14, 14);
      var root := Node(SplitterVertical, panel, SplitterProperties(DividerRect(SplitterVertical, panel, 4), 4),
                       Leaf(1, ZeroRect), Leaf(2, ZeroRect));
      var l := Layout(root, map[1 := [First], 2 := [Second]], [[]], [0]);
      Valid(l) &&
      var r := SplitterUpdateSelected(l, 0, 0, Rect(0, 0, 20, 20));
      r.root.splitter.position == 15 && Extent(SplitterVertical, r.root.rect) == 8
  {
    var panel := Rect(6, 6, 14, 14);
    var root := Node(SplitterVertical, panel, SplitterProperties(DividerRect(SplitterVertical, panel, 4), 4),
                     Leaf(1, ZeroRect), Leaf(2, ZeroRect));
    var l := Layout(root, map[1 := [First], 2 := [Second]], [[]], [0]);
    assert [] + [First] == [First] && [] + [Second] == [Second];
    assert LeavesAt(ShapeOf(root), []) == map[1 := [First], 2 := [Second]];
    assert SplitterPathsAt(ShapeOf(root), []) == [[]];
    assert SplitterAt(l, 0) == root;
    assert SplitterBoundaries(l, 0, Rect(0, 0, 20, 20)) == (9, 11);
    SingleSelectedDrag(l, 0, 0, Rect(0, 0, 20, 20));
  }

  /** The two trees agree on the divider position of every strict ancestor of `q`. */
  predicate SameAlong(p: Panel, p': Panel, q: Path)
    decreases |q|
  {
    |q| == 0 ||
    (p.Node? && p'.Node? && p.Position() == p'.Position() && SameAlong(Child(p, q[0]), Child(p', q[0]), q[1..]))
  }

  lemma {:induction false} SameAlongTransitive(p1: Panel, p2: Panel, p3: Panel, q: Path)
    requires SameAlong(p1, p2, q) && SameAlong(p2, p3, q)
    ensures SameAlong(p1, p3, q)
    decreases |q|
  {
    if |q| > 0 {
      SameAlongTransitive(Child(p1, q[0]), Child(p2, q[0]), Child(p3, q[0]), q[1..]);
    }
  }

  /** Setting a position at `q` leaves every position above `q` alone. */
  lemma {:induction false} SetPositionKeepsAncestors(p: Panel, q: Path, v: int, q2: Path)
    requires IsNodePath(ShapeOf(p), q) && Extends(q, q2)
    ensures SameAlong(p, SetPosition(p, q, v), q2)
    decreases |q2|
  {
    if |q2| > 0 {
      assert q[0] == q[..|q2|][0] == q2[0];
      assert q[1..][..|q2| - 1] == q2[1..];
      SetPositionKeepsAncestors(Child(p, q[0]), q[1..], v, q2[1..]);
    }
  }

  /** A resize places the panel at `q` by the positions above it alone. */
  lemma {:induction false} RelayoutAlong(p: Panel, p': Panel, rect: Rect, q: Path)
    requires ShapeOf(p) == ShapeOf(p') && ValidPath(ShapeOf(p), q) && SameAlong(p, p', q)
    ensures At(UpdateLayout(p, rect), q).rect == At(UpdateLayout(p', rect), q).rect
    decreases |q|
  {
    if |q| > 0 {
      var halves := SplitRect(p.orientation, rect, p.Position());
      var h := if q[0] == First then halves.0 else halves.1;
      assert Child(UpdateLayout(p, rect), q[0]) == UpdateLayout(Child(p, q[0]), h);
      assert Child(UpdateLayout(p', rect), q[0]) == UpdateLayout(Child(p', q[0]), h);
      RelayoutAlong(Child(p, q[0]), Child(p', q[0]), h, q[1..]);
    }
  }

  /** Every splitter of a laid-out tree is laid out in its own rectangle. */
  lemma {:induction false} LaidOutAt(p: Panel, rect: Rect, q: Path)
    requires LaidOut(p, rect) && ValidPath(ShapeOf(p), q)
    ensures At(p, q).Node? ==> LaidOut(At(p, q), At(p, q).rect)
    decreases |q|
  {
    if |q| > 0 {
      var halves := SplitRect(p.orientation, rect, p.Position());
      LaidOutAt(Child(p, q[0]), if q[0] == First then halves.0 else halves.1, q[1..]);
    }
  }

  /**
   * The point of the lock rule: once the next resize has refreshed the
   * rectangles, a nested divider of the same kind is drawn exactly where it
   * was before its parent's divider was dragged.
   */
  lemma LockKeepsNestedDivider(p: Panel, rect: Rect, q: Path, position: int)
    requires LaidOut(p, rect) && IsNodePath(ShapeOf(p), q) && LocksSecond(At(p, q))
    ensures var p' := UpdateLayout(MoveDivider(p, q, position), rect);
      At(p', q).Node? && At(p', q).second.Node? &&
      Leading(At(p, q).orientation, At(p', q).second.rect) + At(p', q).second.Position() ==
      Leading(At(p, q).orientation, At(p, q).second.rect) + At(p, q).second.Position()
  {
    var s := At(p, q);
    var m := MoveDivider(p, q, position);
    var p' := UpdateLayout(m, rect);
    var m1 := SetPosition(p, q, position);
    AtChild(p, q, Second);
    AtChild(m1, q, Second);
    assert m == SetPosition(m1, q + [Second], s.second.Position() + (s.Position() - position));
    assert (q + [Second])[..|q|] == q;
    SetPositionKeepsAncestors(p, q, position, q);
    SetPositionKeepsAncestors(m1, q + [Second], s.second.Position() + (s.Position() - position), q);
    SameAlongTransitive(p, m1, m, q);
    RelayoutAlong(p, m, rect, q);
    LaidOutIsFixpoint(p, rect);
    LaidOutAt(p, rect, q);
    LaidOutAt(p', rect, q);
    FrameAt(p, m, q);
    PlanAt(p', m, q);
    var n' := At(p', q);
    assert n'.rect == s.rect;
    assert n'.orientation == s.orientation;
    assert n'.Position() + n'.second.Position() == s.Position() + s.second.Position();
    assert Leading(s.orientation, n'.second.rect) == Leading(s.orientation, s.rect) + n'.Position();
    assert Leading(s.orientation, s.second.rect) == Leading(s.orientation, s.rect) + s.Position();
  }
}
