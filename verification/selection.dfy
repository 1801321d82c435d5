/**
 * Splitter selection: hit-testing every divider against a point, classifying
 * what was hit, and optionally keeping the hits as the drag set.
 */
module Selection {
  import opened Geometry
  import opened Panels
  import opened Engine

  /** What a point is over: no divider, only vertical ones, only horizontal ones, or both kinds. */
  datatype SelectType = None | Vertical | Horizontal | Both

  /** The splitter at index `k` is under (x, y): inside its divider band widened by half a divider on every side. */
  predicate Hit(l: Layout, k: int, x: int, y: int)
    requires Valid(l) && 0 <= k < |l.splitters|
  {
    Inside(x, y, ShrinkRect(SplitterAt(l, k).splitter.rect, -SplitterOffset))
  }

  /** Some splitter of orientation `o` is under (x, y). */
  predicate HitsKind(l: Layout, x: int, y: int, o: Orientation)
    requires Valid(l)
  {
    exists k :: 0 <= k < |l.splitters| && Hit(l, k, x, y) && SplitterAt(l, k).orientation == o
  }

  /** The indices from `i` on of the splitters under (x, y), in increasing order (`FindIndicesFromHits`). */
  function FindIndicesFrom(l: Layout, x: int, y: int, i: nat): (r: seq<nat>)
    requires Valid(l) && i <= |l.splitters|
    decreases |l.splitters| - i
  {
    if i == |l.splitters| then []
    else if Hit(l, i, x, y) then [i] + FindIndicesFrom(l, x, y, i + 1)
    else FindIndicesFrom(l, x, y, i + 1)
  }

  /** The scan from `i` lists, in increasing order, exactly the splitters from `i` on that are under (x, y). */
  lemma {:induction false} FindIndicesFromHits(l: Layout, x: int, y: int, i: nat)
    requires Valid(l) && i <= |l.splitters|
    ensures var r := FindIndicesFrom(l, x, y, i);
      && (forall n :: 0 <= n < |r| ==> i <= r[n] < |l.splitters| && Hit(l, r[n], x, y))
      && (forall k :: i <= k < |l.splitters| && Hit(l, k, x, y) ==> k in r)
      && (forall n, m :: 0 <= n < m < |r| ==> r[n] < r[m])
    decreases |l.splitters| - i
  {
    if i < |l.splitters| {
      FindIndicesFromHits(l, x, y, i + 1);
      var rest := FindIndicesFrom(l, x, y, i + 1);
      if Hit(l, i, x, y) {
        var r := [i] + rest;
        assert forall n :: 0 < n < |r| ==> r[n] == rest[n - 1];
        assert forall k :: k in rest ==> k in r;
      }
    }
  }

  /** The indices of all splitters under (x, y), in increasing order. */
  function SplitterFindIndices(l: Layout, x: int, y: int): (r: seq<nat>)
    requires Valid(l)
    ensures forall k :: k in r <==> 0 <= k < |l.splitters| && Hit(l, k, x, y)
    ensures forall n, m :: 0 <= n < m < |r| ==> r[n] < r[m]
  {
    var r := FindIndicesFrom(l, x, y, 0);
    FindIndicesFromHits(l, x, y, 0);
    assert forall k :: k in r ==> 0 <= k < |l.splitters| && Hit(l, k, x, y) by {
      forall k | k in r
        ensures 0 <= k < |l.splitters| && Hit(l, k, x, y)
      {
        var n :| 0 <= n < |r| && r[n] == k;
      }
    }
    r
  }

  /** The orientations of the splitters at indices `ks`. */
  function Orientations(l: Layout, ks: seq<nat>): (os: seq<Orientation>)
    requires Valid(l) && forall n :: 0 <= n < |ks| ==> ks[n] < |l.splitters|
    ensures |os| == |ks|
    ensures forall n :: 0 <= n < |ks| ==> os[n] == SplitterAt(l, ks[n]).orientation
  {
    seq(|ks|, n requires 0 <= n < |ks| => SplitterAt(l, ks[n]).orientation)
  }

  function SawVertical(t: SelectType): bool {
    t == Vertical || t == Both
  }

  function SawHorizontal(t: SelectType): bool {
    t == Horizontal || t == Both
  }

  /** The classification of a set of hits from which kinds it contains. */
  function Summary(vertical: bool, horizontal: bool): SelectType {
    if vertical && horizontal then Both
    else if vertical then Vertical
    else if horizontal then Horizontal
    else None
  }

  /** One step of the classification loop: combine what was seen with one more hit. */
  function Step(t: SelectType, o: Orientation): SelectType {
    if o == SplitterVertical then (if t == Horizontal then Both else Vertical)
    else (if t == Vertical then Both else Horizontal)
  }

  /**
   * The classification loop, which stops as soon as both kinds were seen:
   * the result records exactly which kinds occur among `t` and `os`.
   */
  function ClassifyFrom(os: seq<Orientation>, t: SelectType): (r: SelectType)
    requires t != Both
    ensures r == Summary(SawVertical(t) || SplitterVertical in os, SawHorizontal(t) || SplitterHorizontal in os)
  {
    if |os| == 0 then t
    else
      assert forall o :: o in os <==> o == os[0] || o in os[1..];
      var t' := Step(t, os[0]);
      if t' == Both then Both else ClassifyFrom(os[1..], t')
  }

  /** Some hit in `ks` has orientation `o`. */
  lemma KindAmongHits(l: Layout, x: int, y: int, o: Orientation, ks: seq<nat>)
    requires Valid(l)
    requires forall k :: k in ks <==> 0 <= k < |l.splitters| && Hit(l, k, x, y)
    requires forall n :: 0 <= n < |ks| ==> ks[n] < |l.splitters|
    ensures HitsKind(l, x, y, o) <==> o in Orientations(l, ks)
  {
    var os := Orientations(l, ks);
    if o in os {
      var n :| 0 <= n < |os| && os[n] == o;
      assert ks[n] in ks;
    }
    if HitsKind(l, x, y, o) {
      var k :| 0 <= k < |l.splitters| && Hit(l, k, x, y) && SplitterAt(l, k).orientation == o;
      var n :| 0 <= n < |ks| && ks[n] == k;
      assert os[n] == o;
    }
  }

  /** The kinds of splitter under (x, y). */
  function Classify(l: Layout, x: int, y: int): (t: SelectType)
    requires Valid(l)
    ensures t == Summary(HitsKind(l, x, y, SplitterVertical), HitsKind(l, x, y, SplitterHorizontal))
    ensures t == None <==> forall k :: 0 <= k < |l.splitters| ==> !Hit(l, k, x, y)
  {
    var found := SplitterFindIndices(l, x, y);
    assert forall n :: 0 <= n < |found| ==> found[n] in found;
    KindAmongHits(l, x, y, SplitterVertical, found);
    KindAmongHits(l, x, y, SplitterHorizontal, found);
    if |found| == 0 then None
    else
      assert found[0] in found;
      ClassifyFrom(Orientations(l, found), None)
  }

  /**
   * Hit-tests every splitter against (x, y) and classifies the hits. With
   * `save` the hits become the drag set; without it the drag set is left
   * empty (also discarding any earlier one).
   */
  function SplitterSelect(l: Layout, x: int, y: int, save: bool): (r: (SelectType, Layout))
    requires Valid(l)
    ensures r.0 == Summary(HitsKind(l, x, y, SplitterVertical), HitsKind(l, x, y, SplitterHorizontal))
    ensures r.0 == None <==> forall k :: 0 <= k < |l.splitters| ==> !Hit(l, k, x, y)
    ensures r.1.root == l.root && r.1.panels == l.panels && r.1.splitters == l.splitters
    ensures Valid(r.1)
    ensures !save ==> r.1.selected == []
    ensures save ==> (HasSelected(r.1) <==> r.0 != None)
    ensures save ==> forall k :: k in r.1.selected <==> 0 <= k < |l.splitters| && Hit(l, k, x, y)
    ensures save ==> r.1.selected == SplitterFindIndices(l, x, y) && Increasing(r.1.selected)
  {
    var found := SplitterFindIndices(l, x, y);
    var t := Classify(l, x, y);
    assert forall n :: 0 <= n < |found| ==> found[n] in found;
    if save then (t, l.(selected := found)) else (t, l.(selected := []))
  }

  /** The indices of a drag set appear in strictly increasing order: no repeats, list order. */
  predicate Increasing(ks: seq<nat>) {
    forall n, m :: 0 <= n < m < |ks| ==> ks[n] < ks[m]
  }

  /** A drag is in progress: some splitter is in the drag set. */
  function HasSelected(l: Layout): (b: bool)
    ensures b <==> exists k :: k in l.selected
  {
    assert |l.selected| > 0 ==> l.selected[0] in l.selected;
    |l.selected| > 0
  }

  /** Ends the drag: the selection is emptied and nothing else changes. */
  function SplitterClearSelected(l: Layout): (r: Layout)
    ensures !HasSelected(r)
    ensures r.root == l.root && r.panels == l.panels && r.splitters == l.splitters
    ensures Valid(l) ==> Valid(r)
  {
    l.(selected := [])
  }

  lemma ClearSelectedIdempotent(l: Layout)
    ensures SplitterClearSelected(SplitterClearSelected(l)) == SplitterClearSelected(l)
  {
  }
}
