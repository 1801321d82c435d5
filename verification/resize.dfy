/**
 * Resize propagation: recomputing every rectangle of the tree top-down from
 * a new outer rectangle while keeping each divider's pixel offset.
 */
module Resize {
  import opened Geometry
  import opened Panels

  /**
   * The geometry of `p` is exactly the one its divider positions give inside
   * `rect`: a leaf holds `rect` inset by half a divider, a node holds `rect`,
   * the divider band at its position, and children laid out in the two halves.
   */
  predicate LaidOut(p: Panel, rect: Rect) {
    match p
    case Leaf(_, r) => r == ShrinkRect(rect, SplitterOffset)
    case Node(o, r, s, a, b) =>
      var halves := SplitRect(o, rect, s.position);
      r == rect && s.rect == DividerRect(o, rect, s.position) &&
      LaidOut(a, halves.0) && LaidOut(b, halves.1)
  }

  /**
   * Lays the tree out in `rect` again. Kinds, ids and positions are kept
   * (only rectangles change), and the result is laid out in `rect`.
   */
  function UpdateLayout(p: Panel, rect: Rect): (r: Panel)
    ensures Plan(r) == Plan(p)
    ensures ShapeOf(r) == ShapeOf(p)
    ensures LaidOut(r, rect)
  {
    match p
    case Leaf(id, _) => Leaf(id, ShrinkRect(rect, SplitterOffset))
    case Node(o, _, s, a, b) =>
      var halves := SplitRect(o, rect, s.position);
      Node(o, rect, SplitterProperties(DividerRect(o, rect, s.position), s.position),
           UpdateLayout(a, halves.0), UpdateLayout(b, halves.1))
  }

  /** The new geometry depends only on what survives a resize: kinds, ids and positions. */
  lemma {:induction false} UpdateLayoutDependsOnPlan(p: Panel, q: Panel, rect: Rect)
    requires Plan(p) == Plan(q)
    ensures UpdateLayout(p, rect) == UpdateLayout(q, rect)
  {
    match p
    case Leaf(_, _) =>
    case Node(o, _, s, a, b) =>
      var halves := SplitRect(o, rect, s.position);
      UpdateLayoutDependsOnPlan(a, q.first, halves.0);
      UpdateLayoutDependsOnPlan(b, q.second, halves.1);
  }

  /** Resizing twice to the same rectangle gives the geometry of resizing once. */
  lemma UpdateLayoutIdempotent(p: Panel, rect: Rect)
    ensures UpdateLayout(UpdateLayout(p, rect), rect) == UpdateLayout(p, rect)
  {
    UpdateLayoutDependsOnPlan(UpdateLayout(p, rect), p, rect);
  }

  /** A tree is laid out in `rect` exactly when a resize to `rect` leaves it unchanged. */
  lemma {:induction false} LaidOutIsFixpoint(p: Panel, rect: Rect)
    ensures LaidOut(p, rect) <==> UpdateLayout(p, rect) == p
  {
    match p
    case Leaf(_, _) =>
    case Node(o, _, s, a, b) =>
      var halves := SplitRect(o, rect, s.position);
      LaidOutIsFixpoint(a, halves.0);
      LaidOutIsFixpoint(b, halves.1);
  }

  /** Every divider lies within its panel's extent on its split axis. */
  predicate Fits(p: Panel, rect: Rect) {
    match p
    case Leaf(_, _) => true
    case Node(o, _, s, a, b) =>
      var halves := SplitRect(o, rect, s.position);
      0 <= s.position <= Extent(o, rect) && Fits(a, halves.0) && Fits(b, halves.1)
  }

  /** The leaf rectangles in pre-order. */
  function LeafRects(p: Panel): seq<Rect> {
    match p
    case Leaf(_, r) => [r]
    case Node(_, _, _, a, b) => LeafRects(a) + LeafRects(b)
  }

  /**
   * When every divider lies within its panel, a resize places every window
   * inside the outer rectangle and no two windows overlap.
   */
  lemma {:induction false} LeavesInsideAndDisjoint(p: Panel, rect: Rect)
    requires Fits(p, rect)
    ensures forall k :: 0 <= k < |LeafRects(UpdateLayout(p, rect))| ==>
      Contained(LeafRects(UpdateLayout(p, rect))[k], rect)
    ensures forall k, l :: 0 <= k < l < |LeafRects(UpdateLayout(p, rect))| ==>
      Disjoint(LeafRects(UpdateLayout(p, rect))[k], LeafRects(UpdateLayout(p, rect))[l])
  {
    match p
    case Leaf(_, _) =>
    case Node(o, _, s, a, b) =>
      var halves := SplitRect(o, rect, s.position);
      LeavesInsideAndDisjoint(a, halves.0);
      LeavesInsideAndDisjoint(b, halves.1);
      var RA := LeafRects(UpdateLayout(a, halves.0));
      var RB := LeafRects(UpdateLayout(b, halves.1));
      var rs := LeafRects(UpdateLayout(p, rect));
      assert rs == RA + RB;
      forall k | 0 <= k < |rs|
        ensures Contained(rs[k], rect)
      {
        if k < |RA| {
          assert rs[k] == RA[k];
        } else {
          assert rs[k] == RB[k - |RA|];
        }
      }
      forall k, l | 0 <= k < l < |rs|
        ensures Disjoint(rs[k], rs[l])
      {
        if l < |RA| {
          assert rs[k] == RA[k] && rs[l] == RA[l];
        } else if k >= |RA| {
          assert rs[k] == RB[k - |RA|] && rs[l] == RB[l - |RA|];
        } else {
          assert rs[k] == RA[k] && rs[l] == RB[l - |RA|];
          HalvesApart(o, rect, s.position, rs[k], rs[l]);
        }
      }
  }

  /** Enlarging the outer rectangle (same top-left corner) keeps every divider within its panel. */
  lemma {:induction false} FitsWhenEnlarged(p: Panel, r: Rect, r': Rect)
    requires Fits(p, r)
    requires Grows(r, r')
    ensures Fits(p, r')
  {
    match p
    case Leaf(_, _) =>
    case Node(o, _, s, a, b) =>
      var halves := SplitRect(o, r, s.position);
      var halves' := SplitRect(o, r', s.position);
      assert Grows(halves.0, halves'.0);
      assert Grows(halves.1, halves'.1);
      FitsWhenEnlarged(a, halves.0, halves'.0);
      FitsWhenEnlarged(b, halves.1, halves'.1);
  }

  /**
   * Shrinking is not covered: positions are pixel offsets, so halving a
   * 1280 x 800 region that was split down the middle pushes the first
   * window past the new right edge.
   */
  lemma ShrinkingCanOverflow()
    ensures var big := Rect(6, 6, 1274, 794);
            var small := Rect(6, 6, 634, 394);
            var p := Node(SplitterVertical, big, SplitterProperties(DividerRect(SplitterVertical, big, 634), 634),
                          Leaf(1, ZeroRect), Leaf(2, ZeroRect));
            Fits(p, big) && !Fits(p, small) &&
            !Contained(LeafRects(UpdateLayout(p, small))[0], small)
  {
  }
}
