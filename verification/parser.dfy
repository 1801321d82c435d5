/**
 * The layout description parser: a recursive descent over
 *   layout := "W{" id "}" | ("V" | "H") "{" layout ":" layout "}"
 * that builds the panel tree, assigns the initial geometry, and records
 * leaves by id and splitters in pre-order as it goes.
 */
module Parser {
  import opened Wrappers
  import opened Geometry
  import opened Panels
  import opened Resize

  /** Change of brace depth caused by one character. */
  function Delta(c: char): int {
    if c == '{' then 1 else if c == '}' then -1 else 0
  }

  /** Net brace count of `s`: opening braces minus closing braces. */
  function Depth(s: string): int
    decreases |s|
  {
    if |s| == 0 then 0 else Depth(s[..|s| - 1]) + Delta(s[|s| - 1])
  }

  lemma {:induction false} DepthAppend(a: string, b: string)
    ensures Depth(a + b) == Depth(a) + Depth(b)
    decreases |b|
  {
    if |b| == 0 {
      assert a + b == a;
    } else {
      assert (a + b)[..|a + b| - 1] == a + b[..|b| - 1];
      DepthAppend(a, b[..|b| - 1]);
    }
  }

  /** Position `j` holds a closing brace that brings the depth back to zero. */
  predicate IsPivot(s: string, j: int)
    requires 0 <= j < |s|
  {
    s[j] == '}' && Depth(s[..j + 1]) == 0
  }

  /**
   * The scan of the child splitter from index `i` with `depth` braces open:
   * the first pivot at or after `i`, if any.
   */
  function ClosingBrace(s: string, i: nat, depth: int): (r: Option<nat>)
    requires i <= |s| && depth == Depth(s[..i])
    ensures r.Some? ==> i <= r.value < |s| && IsPivot(s, r.value)
    ensures r.Some? ==> forall j :: i <= j < r.value ==> !IsPivot(s, j)
    ensures r.None? ==> forall j :: i <= j < |s| ==> !IsPivot(s, j)
    decreases |s| - i
  {
    if i == |s| then None
    else
      assert s[..i + 1][..i] == s[..i];
      if s[i] == '{' then ClosingBrace(s, i + 1, depth + 1)
      else if s[i] == '}' then
        if depth - 1 == 0 then Some(i) else ClosingBrace(s, i + 1, depth - 1)
      else ClosingBrace(s, i + 1, depth)
  }

  /**
   * Outcome of cutting a splitter's content into its two children: no
   * closing brace returns the depth to zero; the cut falls on the last
   * character, so the separator would lie past the end (where the string
   * library throws); or the two child strings.
   */
  datatype ChildSplit = NoClosingBrace | PastEnd | Cut(first: string, second: string)

  /**
   * Cuts `s` after the first closing brace that brings the brace depth back
   * to zero. The character after the cut is taken as the separator without
   * checking that it is ':'.
   */
  function SplitChildLayoutStrings(s: string): (r: ChildSplit)
    ensures r.NoClosingBrace? <==> forall j :: 0 <= j < |s| ==> !IsPivot(s, j)
    ensures r.PastEnd? <==> 0 < |s| && IsPivot(s, |s| - 1) && forall j :: 0 <= j < |s| - 1 ==> !IsPivot(s, j)
    ensures r.Cut? ==> 0 < |r.first| < |s| && s == r.first + [s[|r.first|]] + r.second
    ensures r.Cut? ==> r.first[|r.first| - 1] == '}' && Depth(r.first) == 0
    ensures r.Cut? ==> forall j :: 0 <= j < |r.first| - 1 ==> !IsPivot(s, j)
  {
    match ClosingBrace(s, 0, 0)
    case None => NoClosingBrace
    case Some(i) =>
      if i + 1 < |s| then
        assert s == s[..i + 1] + [s[i + 1]] + s[i + 2..];
        Cut(s[..i + 1], s[i + 2..])
      else PastEnd
  }

  predicate IsDigit(c: char) {
    '0' <= c <= '9'
  }

  predicate AllDigits(s: string) {
    forall k :: 0 <= k < |s| ==> IsDigit(s[k])
  }

  /** Value of a string of decimal digits. */
  function DecimalValue(s: string): nat
    requires AllDigits(s)
    decreases |s|
  {
    if |s| == 0 then 0
    else DecimalValue(s[..|s| - 1]) * 10 + (s[|s| - 1] as int - '0' as int)
  }

  /** The leaf id: a non-empty string of decimal digits and its value, or nothing. */
  function ParseId(s: string): (r: Option<nat>)
    ensures r.Some? <==> |s| > 0 && AllDigits(s)
  {
    if |s| > 0 && AllDigits(s) then Some(DecimalValue(s)) else None
  }

  /** Decimal notation of `n`, without leading zeros. */
  function DecimalString(n: nat): (s: string)
    ensures |s| > 0 && AllDigits(s)
  {
    if n < 10 then [('0' as int + n) as char]
    else DecimalString(n / 10) + [('0' as int + n % 10) as char]
  }

  lemma {:induction false} ParseIdRoundTrip(n: nat)
    ensures ParseId(DecimalString(n)) == Some(n)
  {
    var s := DecimalString(n);
    var last := ('0' as int + n % 10) as char;
    assert last as int - '0' as int == n % 10;
    if n >= 10 {
      ParseIdRoundTrip(n / 10);
      assert s[..|s| - 1] == DecimalString(n / 10);
      assert DecimalValue(s) == DecimalValue(DecimalString(n / 10)) * 10 + n % 10;
    } else {
      assert s[..|s| - 1] == [];
      assert DecimalValue(s) == n % 10;
    }
  }

  /** Why a description was rejected. */
  datatype ParseError =
    | TooShort               // fewer than the three characters of "T{}"
    | MissingBraces          // the second character is not '{' or the last is not '}'
    | EmptyContent           // nothing between the braces
    | UnknownTag(tag: char)  // the first character is not W, V or H
    | NoChildSplit           // no closing brace returns the depth to zero
    | BadId                  // the id is not a non-empty string of decimal digits
    | SecondChildOutOfRange  // the separator would lie past the end (the substring call throws)
  {
    /** The source reports these by an exception rather than by returning false. */
    predicate IsException() {
      BadId? || SecondChildOutOfRange?
    }
  }

  /** The lookup tables filled while parsing: leaves by id and splitters in visiting order. */
  datatype Registry = Registry(panels: map<int, Path>, splitters: seq<Path>)

  /** The panel kind a tag letter names. */
  function TagType(c: char): Option<PanelType> {
    if c == 'W' then Some(Window)
    else if c == 'V' then Some(Splitter(SplitterVertical))
    else if c == 'H' then Some(Splitter(SplitterHorizontal))
    else None
  }

  /** The description has a tag, a '{' at index 1, a '}' at the end and something in between. */
  predicate WellBraced(layout: string) {
    |layout| > 3 && layout[1] == '{' && layout[|layout| - 1] == '}'
  }

  /** The text between the outer braces. */
  function Content(layout: string): string
    requires WellBraced(layout)
  {
    layout[2..|layout| - 1]
  }

  /** Both extents of `r` are non-negative. */
  predicate NonNegative(r: Rect) {
    Extent(SplitterVertical, r) >= 0 && Extent(SplitterHorizontal, r) >= 0
  }

  /** What every successful build of the subtree at `at` inside `rect` promises. */
  predicate Built(tree: Panel, rect: Rect, at: Path, reg: Registry, reg': Registry) {
    && reg'.splitters == reg.splitters + SplitterPathsAt(ShapeOf(tree), at)
    && reg'.panels == reg.panels + LeavesAt(ShapeOf(tree), at)
    && LaidOut(tree, rect)
    && (NonNegative(rect) ==> Fits(tree, rect))
  }

  /**
   * Builds the subtree at path `at` from `layout` inside `rect`. A leaf
   * takes `rect` inset by half a divider and is registered under its id; a
   * splitter is built by CreateSplitter.
   */
  function CreateLayout(layout: string, rect: Rect, at: Path, reg: Registry): (r: Result<(Panel, Registry), ParseError>)
    decreases |layout|, 1
    ensures |layout| < 3 ==> r == Failure(TooShort)
    ensures |layout| >= 3 && (layout[1] != '{' || layout[|layout| - 1] != '}') ==> r == Failure(MissingBraces)
    ensures |layout| == 3 && layout[1] == '{' && layout[2] == '}' ==> r == Failure(EmptyContent)
    ensures WellBraced(layout) && TagType(layout[0]).None? ==> r == Failure(UnknownTag(layout[0]))
    ensures WellBraced(layout) && TagType(layout[0]) == Some(Window) && ParseId(Content(layout)).None? ==>
      r == Failure(BadId)
    ensures WellBraced(layout) && TagType(layout[0]).Some? && TagType(layout[0]).value.Splitter? ==>
      (SplitChildLayoutStrings(Content(layout)).NoClosingBrace? ==> r == Failure(NoChildSplit)) &&
      (SplitChildLayoutStrings(Content(layout)).PastEnd? ==> r == Failure(SecondChildOutOfRange))
    ensures r.Success? ==> WellBraced(layout) && TagType(layout[0]) == Some(r.value.0.Type())
    ensures r.Success? && r.value.0.Leaf? ==> ParseId(Content(layout)) == Some(r.value.0.id)
    ensures r.Success? && r.value.0.Node? ==>
      r.value.0.Position() == Half(Extent(r.value.0.orientation, rect))
    ensures r.Success? ==> Built(r.value.0, rect, at, reg, r.value.1)
  {
    if |layout| < 3 then Failure(TooShort)
    else if !(layout[1] == '{' && layout[|layout| - 1] == '}') then Failure(MissingBraces)
    else if |layout| - 3 <= 0 then Failure(EmptyContent)
    else
      var content := layout[2..|layout| - 1];
      match TagType(layout[0])
      case None => Failure(UnknownTag(layout[0]))
      case Some(Window) =>
        (match ParseId(content)
         case None => Failure(BadId)
         case Some(id) =>
           Success((Leaf(id, ShrinkRect(rect, SplitterOffset)), reg.(panels := reg.panels[id := at]))))
      case Some(Splitter(o)) => CreateSplitter(o, content, rect, at, reg)
  }

  /**
   * Builds a splitter node of orientation `o` with inner text `content`: its
   * divider starts in the middle of `rect`, the node is registered before its
   * children are built, and the two children are built in the halves of
   * `rect` cut at the divider.
   */
  function CreateSplitter(o: Orientation, content: string, rect: Rect, at: Path, reg: Registry): (r: Result<(Panel, Registry), ParseError>)
    decreases |content|, 2
    ensures SplitChildLayoutStrings(content).NoClosingBrace? ==> r == Failure(NoChildSplit)
    ensures SplitChildLayoutStrings(content).PastEnd? ==> r == Failure(SecondChildOutOfRange)
    ensures r.Success? ==> r.value.0.Node? && r.value.0.orientation == o
    ensures r.Success? ==> r.value.0.Position() == Half(Extent(o, rect))
    ensures r.Success? ==> Built(r.value.0, rect, at, reg, r.value.1)
  {
    var position := Half(Extent(o, rect));
    var reg1 := reg.(splitters := reg.splitters + [at]);
    var divider := SplitterProperties(DividerRect(o, rect, position), position);
    match SplitChildLayoutStrings(content)
    case NoClosingBrace => Failure(NoChildSplit)
    case PastEnd => Failure(SecondChildOutOfRange)
    case Cut(ch1, ch2) =>
      var halves := SplitRect(o, rect, position);
      match CreateLayout(ch1, halves.0, at + [First], reg1)
      case Failure(e) => Failure(e)
      case Success((c1, reg2)) =>
        match CreateLayout(ch2, halves.1, at + [Second], reg2)
        case Failure(e) => Failure(e)
        case Success((c2, reg3)) =>
          NodeBuilt(o, rect, at, reg, c1, reg2, c2, reg3);
          Success((Node(o, rect, divider, c1, c2), reg3))
  }

  /** A node whose children were built in the halves at its divider is itself built. */
  lemma NodeBuilt(o: Orientation, rect: Rect, at: Path, reg: Registry,
                  c1: Panel, reg2: Registry, c2: Panel, reg3: Registry)
    requires Built(c1, SplitRect(o, rect, Half(Extent(o, rect))).0, at + [First],
                   reg.(splitters := reg.splitters + [at]), reg2)
    requires Built(c2, SplitRect(o, rect, Half(Extent(o, rect))).1, at + [Second], reg2, reg3)
    ensures Built(Node(o, rect, SplitterProperties(DividerRect(o, rect, Half(Extent(o, rect))), Half(Extent(o, rect))), c1, c2),
                  rect, at, reg, reg3)
  {
    var position := Half(Extent(o, rect));
    var tree := Node(o, rect, SplitterProperties(DividerRect(o, rect, position), position), c1, c2);
    NodeRegistered(tree, at, reg, reg2, reg3);
    NodeLaidOut(tree, rect);
  }

  /** The tables after building both children are the node's own entry followed by theirs. */
  lemma NodeRegistered(tree: Panel, at: Path, reg: Registry, reg2: Registry, reg3: Registry)
    requires tree.Node?
    requires reg2.splitters == reg.splitters + [at] + SplitterPathsAt(ShapeOf(tree.first), at + [First])
    requires reg2.panels == reg.panels + LeavesAt(ShapeOf(tree.first), at + [First])
    requires reg3.splitters == reg2.splitters + SplitterPathsAt(ShapeOf(tree.second), at + [Second])
    requires reg3.panels == reg2.panels + LeavesAt(ShapeOf(tree.second), at + [Second])
    ensures reg3.splitters == reg.splitters + SplitterPathsAt(ShapeOf(tree), at)
    ensures reg3.panels == reg.panels + LeavesAt(ShapeOf(tree), at)
  {
    var L1 := LeavesAt(ShapeOf(tree.first), at + [First]);
    var L2 := LeavesAt(ShapeOf(tree.second), at + [Second]);
    var S1 := SplitterPathsAt(ShapeOf(tree.first), at + [First]);
    var S2 := SplitterPathsAt(ShapeOf(tree.second), at + [Second]);
    assert LeavesAt(ShapeOf(tree), at) == L1 + L2;
    MapOverrideAssociative(reg.panels, L1, L2);
    assert SplitterPathsAt(ShapeOf(tree), at) == [at] + S1 + S2;
    SeqAppendAssociative(reg.splitters, [at] + S1, S2);
    SeqAppendAssociative(reg.splitters, [at], S1);
  }

  lemma SeqAppendAssociative<T>(a: seq<T>, b: seq<T>, c: seq<T>)
    ensures (a + b) + c == a + (b + c)
  {
  }

  /** A node at its rectangle with its divider band and children laid out in the halves is laid out. */
  lemma NodeLaidOut(tree: Panel, rect: Rect)
    requires tree.Node? && tree.rect == rect
    requires tree.splitter.rect == DividerRect(tree.orientation, rect, tree.splitter.position)
    requires tree.splitter.position == Half(Extent(tree.orientation, rect))
    requires var halves := SplitRect(tree.orientation, rect, tree.splitter.position);
      LaidOut(tree.first, halves.0) && LaidOut(tree.second, halves.1) &&
      (NonNegative(halves.0) ==> Fits(tree.first, halves.0)) &&
      (NonNegative(halves.1) ==> Fits(tree.second, halves.1))
    ensures LaidOut(tree, rect)
    ensures NonNegative(rect) ==> Fits(tree, rect)
  {
    var halves := SplitRect(tree.orientation, rect, tree.splitter.position);
    if NonNegative(rect) {
      assert NonNegative(halves.0) && NonNegative(halves.1);
    }
  }

  lemma MapOverrideAssociative<K, V>(a: map<K, V>, b: map<K, V>, c: map<K, V>)
    ensures (a + b) + c == a + (b + c)
  {
  }

  /** Every leaf id is non-negative, as decimal notation needs. */
  predicate NatIds(s: Shape) {
    match s
    case LeafShape(id) => id >= 0
    case NodeShape(_, a, b) => NatIds(a) && NatIds(b)
  }

  /** The description of a tree in the layout grammar: the inverse of the parser. */
  function Describe(s: Shape): string
    requires NatIds(s)
  {
    match s
    case LeafShape(id) => "W{" + DecimalString(id) + "}"
    case NodeShape(o, a, b) =>
      [if o == SplitterVertical then 'V' else 'H'] + "{" + Describe(a) + [':'] + Describe(b) + "}"
  }

  /**
   * `d` is a tag followed by one bracketed group: every prefix is balanced or
   * has braces open, and the braces stay open from the '{' until the end.
   */
  predicate Framed(d: string) {
    && |d| >= 4 && d[0] != '}' && d[1] == '{' && d[|d| - 1] == '}' && Depth(d) == 0
    && (forall k :: 0 <= k <= |d| ==> Depth(d[..k]) >= 0)
    && (forall k :: 2 <= k < |d| ==> Depth(d[..k]) >= 1)
  }

  /** In a framed string only the last character is a pivot. */
  lemma FramedPivots(d: string)
    requires Framed(d)
    ensures IsPivot(d, |d| - 1)
    ensures forall j :: 0 <= j < |d| - 1 ==> !IsPivot(d, j)
  {
    assert d[..|d|] == d;
    forall j | 0 <= j < |d| - 1
      ensures !IsPivot(d, j)
    {
      if j > 0 {
        assert Depth(d[..j + 1]) >= 1;
      }
    }
  }

  /** The child splitter cuts a framed first child off exactly, whatever follows the separator. */
  lemma FramedSplit(da: string, db: string)
    requires Framed(da)
    ensures SplitChildLayoutStrings(da + [':'] + db) == Cut(da, db)
  {
    var s := da + [':'] + db;
    FramedPivots(da);
    forall j | 0 <= j < |da|
      ensures IsPivot(s, j) == IsPivot(da, j)
    {
      assert s[..j + 1] == da[..j + 1];
    }
    var r := SplitChildLayoutStrings(s);
    assert IsPivot(s, |da| - 1);
    assert r.Cut?;
    var n := |r.first|;
    assert s[..n] == r.first;
    assert IsPivot(s, n - 1);
    assert n == |da|;
    assert r.first == da;
    assert r.second == s[|da| + 1..] == db;
  }

  lemma {:induction false} DigitsDepth(s: string)
    requires AllDigits(s)
    ensures Depth(s) == 0
    decreases |s|
  {
    if |s| > 0 {
      DigitsDepth(s[..|s| - 1]);
    }
  }

  lemma LeafFramed(D: string)
    requires |D| > 0 && AllDigits(D)
    ensures Framed("W{" + D + "}")
  {
    var d := "W{" + D + "}";
    DigitsDepth(D);
    forall k | 0 <= k <= |d|
      ensures Depth(d[..k]) >= 0
      ensures 2 <= k < |d| ==> Depth(d[..k]) >= 1
    {
      if k >= 2 && k < |d| {
        assert d[..k] == "W{" + D[..k - 2];
        assert AllDigits(D[..k - 2]);
        DigitsDepth(D[..k - 2]);
        DepthAppend("W{", D[..k - 2]);
      } else if k == |d| {
        assert d[..k] == d == ("W{" + D) + "}";
        DepthAppend("W{", D);
        DepthAppend("W{" + D, "}");
      } else if k == 1 {
        assert d[..1] == [] + [d[0]];
      }
    }
    assert d == ("W{" + D) + "}";
    DepthAppend("W{", D);
    DepthAppend("W{" + D, "}");
    assert Depth("W{") == 1 && Depth("}") == -1;
  }

  /** Two framed children around a separator: balanced overall and never more closing than opening braces. */
  lemma InnerBalanced(A: string, B: string)
    requires Framed(A) && Framed(B)
    ensures Depth(A + [':'] + B) == 0
    ensures forall m :: 0 <= m <= |A + [':'] + B| ==> Depth((A + [':'] + B)[..m]) >= 0
  {
    var inner := A + [':'] + B;
    DepthAppend(A, [':']);
    DepthAppend(A + [':'], B);
    forall m | 0 <= m <= |inner|
      ensures Depth(inner[..m]) >= 0
    {
      if m <= |A| {
        assert inner[..m] == A[..m];
      } else {
        assert inner[..m] == (A + [':']) + B[..m - |A| - 1];
        DepthAppend(A + [':'], B[..m - |A| - 1]);
      }
    }
  }

  /** A tag and '{' before a balanced text never closed early keep at least one brace open. */
  lemma OpenedPrefixes(t: char, inner: string)
    requires Delta(t) == 0
    requires forall m :: 0 <= m <= |inner| ==> Depth(inner[..m]) >= 0
    ensures forall k :: 2 <= k <= |[t, '{'] + inner| ==> Depth(([t, '{'] + inner)[..k]) >= 1
  {
    var d := [t, '{'] + inner;
    assert [t, '{'][..1] == [t] && [t][..0] == [];
    assert Depth([t]) == 0;
    assert Depth([t, '{']) == 1;
    forall k | 2 <= k <= |d|
      ensures Depth(d[..k]) >= 1
    {
      assert d[..k] == [t, '{'] + inner[..k - 2];
      DepthAppend([t, '{'], inner[..k - 2]);
    }
  }

  lemma NodeFramed(t: char, A: string, B: string)
    requires Delta(t) == 0 && Framed(A) && Framed(B)
    ensures Framed([t] + "{" + A + [':'] + B + "}")
  {
    var inner := A + [':'] + B;
    var e := [t, '{'] + inner;
    var d := [t] + "{" + A + [':'] + B + "}";
    assert d == e + "}";
    InnerBalanced(A, B);
    OpenedPrefixes(t, inner);
    DepthAppend([t, '{'], inner);
    DepthAppend(e, "}");
    assert [t, '{'][..1] == [t] && Depth([t, '{']) == 1 && Depth("}") == -1;
    forall k | 0 <= k <= |d|
      ensures Depth(d[..k]) >= 0
      ensures 2 <= k < |d| ==> Depth(d[..k]) >= 1
    {
      if k < |d| {
        assert d[..k] == e[..k];
        if k == 1 {
          assert d[..1] == [] + [t];
        }
      } else {
        assert d[..k] == d;
      }
    }
  }

  /** The description of every tree is a tag followed by one bracketed group. */
  lemma {:induction false} DescribeFramed(s: Shape)
    requires NatIds(s)
    ensures Framed(Describe(s))
  {
    match s
    case LeafShape(id) =>
      LeafFramed(DecimalString(id));
    case NodeShape(o, a, b) =>
      DescribeFramed(a);
      DescribeFramed(b);
      NodeFramed(if o == SplitterVertical then 'V' else 'H', Describe(a), Describe(b));
  }

  /** A well-braced description with a splitter tag is built by the splitter branch. */
  lemma SplitterTag(d: string, o: Orientation, rect: Rect, at: Path, reg: Registry)
    requires WellBraced(d) && TagType(d[0]) == Some(Splitter(o))
    ensures CreateLayout(d, rect, at, reg) == CreateSplitter(o, Content(d), rect, at, reg)
  {
  }

  /** When the content splits into two parts that both build, the splitter is the node of the two results. */
  lemma SplitterOfParts(o: Orientation, da: string, db: string, rect: Rect, at: Path, reg: Registry,
                        c1: Panel, reg2: Registry, c2: Panel, reg3: Registry)
    requires SplitChildLayoutStrings(da + [':'] + db) == Cut(da, db)
    requires CreateLayout(da, SplitRect(o, rect, Half(Extent(o, rect))).0, at + [First],
                          reg.(splitters := reg.splitters + [at])) == Success((c1, reg2))
    requires CreateLayout(db, SplitRect(o, rect, Half(Extent(o, rect))).1, at + [Second], reg2) == Success((c2, reg3))
    ensures CreateSplitter(o, da + [':'] + db, rect, at, reg) ==
      Success((Node(o, rect, SplitterProperties(DividerRect(o, rect, Half(Extent(o, rect))), Half(Extent(o, rect))), c1, c2), reg3))
  {
  }

  /** Parsing the description of any tree succeeds and rebuilds that tree's kinds and ids. */
  lemma {:induction false} ParseDescribe(s: Shape, rect: Rect, at: Path, reg: Registry)
    requires NatIds(s)
    ensures CreateLayout(Describe(s), rect, at, reg).Success?
    ensures ShapeOf(CreateLayout(Describe(s), rect, at, reg).value.0) == s
    decreases s
  {
    var d := Describe(s);
    DescribeFramed(s);
    match s
    case LeafShape(id) =>
      assert Content(d) == DecimalString(id);
      ParseIdRoundTrip(id);
    case NodeShape(o, a, b) =>
      var da := Describe(a);
      var db := Describe(b);
      assert Content(d) == da + [':'] + db;
      assert TagType(d[0]) == Some(Splitter(o));
      SplitterTag(d, o, rect, at, reg);
      DescribeFramed(a);
      FramedSplit(da, db);
      var halves := SplitRect(o, rect, Half(Extent(o, rect)));
      var reg1 := reg.(splitters := reg.splitters + [at]);
      ParseDescribe(a, halves.0, at + [First], reg1);
      var r1 := CreateLayout(da, halves.0, at + [First], reg1).value;
      ParseDescribe(b, halves.1, at + [Second], r1.1);
      var r2 := CreateLayout(db, halves.1, at + [Second], r1.1).value;
      SplitterOfParts(o, da, db, rect, at, reg, r1.0, r1.1, r2.0, r2.1);
  }
}
