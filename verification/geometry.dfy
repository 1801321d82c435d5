/**
 * Integer rectangles, the fixed splitter metrics, and the three rectangle
 * helpers of the layout engine: moving edges inward, cutting a panel at its
 * divider, and building the divider's hit rectangle.
 */
module Geometry {

  /** A rectangle in the containing region's pixel space, with the Win32 RECT fields. */
  datatype Rect = Rect(left: int, top: int, right: int, bottom: int)

  /** Thickness of a divider in pixels. */
  const SplitterSize: int := 6

  /** Half the thickness: the inset of a leaf and the padding of a hit test. */
  const SplitterOffset: int := SplitterSize / 2

  /** A vertical splitter places its children left and right (split axis x); a horizontal one stacks them (split axis y). */
  datatype Orientation = SplitterVertical | SplitterHorizontal

  /** The other orientation: the axis along which a divider extends. */
  function Across(o: Orientation): Orientation {
    if o == SplitterVertical then SplitterHorizontal else SplitterVertical
  }

  /** The edge at which the split axis of `o` starts. */
  function Leading(o: Orientation, r: Rect): int {
    if o == SplitterVertical then r.left else r.top
  }

  /** The edge at which the split axis of `o` ends. */
  function Trailing(o: Orientation, r: Rect): int {
    if o == SplitterVertical then r.right else r.bottom
  }

  /** Width (vertical) or height (horizontal) of `r`. */
  function Extent(o: Orientation, r: Rect): int {
    Trailing(o, r) - Leading(o, r)
  }

  /** `inner` lies within `outer`, edges included. */
  predicate Contained(inner: Rect, outer: Rect) {
    outer.left <= inner.left && inner.right <= outer.right &&
    outer.top <= inner.top && inner.bottom <= outer.bottom
  }

  /** The two rectangles share no interior point (touching edges are allowed). */
  predicate Disjoint(a: Rect, b: Rect) {
    a.right <= b.left || b.right <= a.left || a.bottom <= b.top || b.bottom <= a.top
  }

  /** The point lies inside `r`, all four edges included, as the hit test compares. */
  predicate Inside(x: int, y: int, r: Rect) {
    r.left <= x <= r.right && r.top <= y <= r.bottom
  }

  /** `r'` has the same leading edges as `r` and is at least as large on both axes. */
  predicate Grows(r: Rect, r': Rect) {
    r'.left == r.left && r'.top == r.top && r.right <= r'.right && r.bottom <= r'.bottom
  }

  /** C++ `n / 2` on int: division truncating toward zero. */
  function Half(n: int): (h: int)
    ensures n >= 0 ==> 0 <= h <= n && (n - 2 * h == 0 || n - 2 * h == 1)
    ensures n < 0 ==> n <= h <= 0 && (2 * h - n == 0 || 2 * h - n == 1)
  {
    if n >= 0 then n / 2 else -((-n) / 2)
  }

  /** Moves every edge of `r` inward by `padding` (outward when it is negative). */
  function ShrinkRect(r: Rect, padding: int): (s: Rect)
    ensures Contained(s, r) <==> padding >= 0
    ensures Contained(r, s) <==> padding <= 0
    ensures Extent(SplitterVertical, s) == Extent(SplitterVertical, r) - 2 * padding
    ensures Extent(SplitterHorizontal, s) == Extent(SplitterHorizontal, r) - 2 * padding
  {
    Rect(r.left + padding, r.top + padding, r.right - padding, r.bottom - padding)
  }

  /**
   * Cuts `r` at `position` pixels from its leading edge on the split axis of
   * `o`. The two halves keep every other edge of `r` and meet at the cut.
   */
  function SplitRect(o: Orientation, r: Rect, position: int): (halves: (Rect, Rect))
    ensures Leading(o, halves.0) == Leading(o, r)
    ensures Trailing(o, halves.0) == Leading(o, halves.1) == Leading(o, r) + position
    ensures Trailing(o, halves.1) == Trailing(o, r)
    ensures Extent(o, halves.0) + Extent(o, halves.1) == Extent(o, r)
    ensures Leading(Across(o), halves.0) == Leading(Across(o), halves.1) == Leading(Across(o), r)
    ensures Trailing(Across(o), halves.0) == Trailing(Across(o), halves.1) == Trailing(Across(o), r)
    ensures 0 <= position <= Extent(o, r) ==> Contained(halves.0, r) && Contained(halves.1, r)
  {
    if o == SplitterVertical then
      (r.(right := r.left + position), r.(left := r.left + position))
    else
      (r.(bottom := r.top + position), r.(top := r.top + position))
  }

  /**
   * The divider's hit rectangle: `r` narrowed on the split axis to the band
   * of width SplitterSize centred on the divider line.
   */
  function DividerRect(o: Orientation, r: Rect, position: int): (d: Rect)
    ensures Extent(o, d) == SplitterSize
    ensures Leading(o, d) + SplitterOffset == Leading(o, r) + position
    ensures Leading(Across(o), d) == Leading(Across(o), r)
    ensures Trailing(Across(o), d) == Trailing(Across(o), r)
  {
    var pivot := Leading(o, r) + position;
    if o == SplitterVertical then
      r.(left := pivot - SplitterOffset, right := pivot + SplitterOffset)
    else
      r.(top := pivot - SplitterOffset, bottom := pivot + SplitterOffset)
  }

  /** Rectangles inside the two halves of a cut never overlap. */
  lemma HalvesApart(o: Orientation, r: Rect, position: int, a: Rect, b: Rect)
    requires Contained(a, SplitRect(o, r, position).0)
    requires Contained(b, SplitRect(o, r, position).1)
    ensures Disjoint(a, b)
  {
    var halves := SplitRect(o, r, position);
    if o == SplitterVertical {
      assert a.right <= halves.0.right == halves.1.left <= b.left;
    } else {
      assert a.bottom <= halves.0.bottom == halves.1.top <= b.top;
    }
  }

  /** Moving the edges back out by the same amount restores the rectangle. */
  lemma ShrinkRectInverse(r: Rect, padding: int)
    ensures ShrinkRect(ShrinkRect(r, padding), -padding) == r
  {
  }
}
