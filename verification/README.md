# Splitter window layout engine, modelled in Dafny

This project models the layout engine of a small Win32 program. The program
divides a window's client area into panels, separated by dividers the user
can drag. A short description such as `V{H{W{1}:W{2}}:W{3}}` fixes the panel
tree. `W{n}` is a leaf window with id `n`. `V{a:b}` is a vertical splitter:
`a` sits left of the divider and `b` right of it. `H{a:b}` is a horizontal
splitter, with `a` above `b`.

The engine offers these operations:

- It parses the description into a strictly binary tree. While it does so,
  it records each leaf by id and each splitter in pre-order.
- It lays the tree out again when the region is resized. Each divider keeps
  its pixel offset from its panel's leading edge.
- It hit-tests every divider against the pointer. It classifies the hits as
  none, vertical, horizontal or both, and can keep them as the drag set.
- It drags the selected dividers. Each new divider line is clamped between
  the region's margins and the nearest parallel neighbours, less a 12-pixel
  padding.

The model is functional. A `Panel` is an immutable datatype:
`Leaf(id, rect)` or `Node(orientation, rect, splitter, first, second)`. The
engine state is a `Layout` record, threaded explicitly through each
operation. Nodes are named by paths of `First`/`Second` steps. In the C++
source, the lookup tables hold raw pointers instead. Three projections of a
tree carry most of the contracts:

- `ShapeOf` keeps only kinds and ids.
- `Plan` keeps kinds, ids and divider positions. This is what a resize keeps.
- `Frame` keeps kinds, ids and every rectangle. This is what a drag keeps.

`Engine.Valid` ties the tables to the tree:

- the leaf table equals the leaves of the tree;
- the splitter list equals the tree's splitters in pre-order;
- every selected index is in range.

Each state-changing operation is shown to preserve it.

The modules follow the source:

| file | module | contents |
|---|---|---|
| `geometry.dfy` | `Geometry` | rectangles, the divider constants, `shrink_rect`, `split_layout_rect`, `update_splitter_rects`, C++ truncating division |
| `panels.dfy` | `Panels` | `Panel_type`, `Splitter_properties`, `Panel`, paths, the pre-order splitter list, the leaf table |
| `parser.dfy` | `Parser` | `split_child_layout_strings`, `create_layout`, the leaf id, a printer that inverts the parser |
| `resize.dfy` | `Resize` | `update_layout` and what it guarantees about the windows it places |
| `engine.dfy` | `Engine` | the engine state, `init`, `update`, `panels()` |
| `selection.dfy` | `Selection` | `Select_type`, `splitter_find_indices`, `splitter_select`, `splitter_has_selected`, `splitter_clear_selected` |
| `drag.dfy` | `Drag` | `get_splitter_boundaries`, `splitter_update_selected`, the lock rule |
| `wrappers.dfy` | `Wrappers` | `Option` and `Result` |

`splitter_has_selected` is `Selection.HasSelected`. It appears in the
contracts of `Selection.SplitterSelect`, `Selection.SplitterClearSelected` and
`Drag.SplitterUpdateSelected`.

## Model

| member | source | states |
|---|---|---|
| Geometry.Half | src/Layout.cpp:131-136 | C++ `/ 2` on int, which truncates toward zero. For a non-negative extent the result lies between 0 and the extent and is exact or short by one; for a negative extent the result lies between the extent and 0. |
| Geometry.ShrinkRect | src/Layout.cpp:56-63 | The result lies inside the rectangle exactly when the padding is non-negative, and encloses it exactly when the padding is non-positive. Each extent shrinks by twice the padding. |
| Geometry.ShrinkRectInverse | src/Layout.cpp:56-63 | Shrinking by `p` and then by `-p` gives back the original rectangle. |
| Geometry.SplitRect | src/Layout.cpp:65-78 | The two halves partition the panel on its split axis. They meet at leading edge + position, their extents sum to the panel's, and every other edge is the panel's. Both halves lie inside the panel when 0 <= position <= extent. |
| Geometry.DividerRect | src/Layout.cpp:80-97 | The divider hit rectangle is 6 pixels wide on the split axis and centred on the divider line. Across that axis it spans the whole panel. |
| Geometry.HalvesApart | src/Layout.cpp:65-78 | Any rectangle inside the first half and any rectangle inside the second half share no interior point. |
| Panels.SplitterPathsInPreorder | src/Layout.cpp:142-167 | Each splitter is recorded before its children are built, so the list is strictly ordered: an ancestor comes before its descendants, and a first subtree before a second one. |
| Panels.SplitterPathsAreNodes | src/Layout.cpp:142 | Every recorded splitter path leads to a splitter node. |
| Panels.LeavesAreLeaves | src/Layout.cpp:124-125 | Every registered leaf path leads to a leaf that carries that id. |
| Panels.SetPosition | src/Layout.cpp:314 | Assigning one divider position changes no rectangle, no kind and no id. The node at the path gets the new position and every other node keeps its position. |
| Parser.ClosingBrace | src/Layout.cpp:36-53 | The brace-depth scan finds the first closing brace that returns the depth to zero, or reports that none does. |
| Parser.SplitChildLayoutStrings | src/Layout.cpp:34-54 | Reports no split exactly when no closing brace returns the depth to zero. A cut on the last character (the separator would lie past the end) is reported separately. Otherwise: the input is child 1, then one unchecked separator character, then child 2. Child 1 ends in that `}`, has net brace count 0, and contains no earlier such brace. |
| Parser.FramedSplit | src/Layout.cpp:34-54 | For a first child in the grammar, the split recovers exactly that child and whatever follows the separator. |
| Parser.ParseId | src/Layout.cpp:122 | A leaf id is parsed exactly when the content is a non-empty string of decimal digits. |
| Parser.ParseIdRoundTrip | src/Layout.cpp:122 | Parsing the decimal notation of `n` gives `n`. |
| Parser.CreateLayout | src/Layout.cpp:99-169 | Each rejection appears with its cause: length below 3, missing braces, empty content, an unknown tag, no child split, a bad id, or a separator past the end. On success: the tag names the built panel's kind, and a leaf's id is the parsed content. A node's divider starts at half its extent (truncating). Leaves and splitters are registered, and the subtree is laid out in the rectangle. When that rectangle is not inverted, every divider lies inside its panel. |
| Parser.CreateSplitter | src/Layout.cpp:129-168 | The splitter branch of the parser: the node has the tag's orientation and starts at half its extent. A content with no split, or with the separator past the end, is rejected. On success the node precedes its subtrees in the splitter list. |
| Parser.NodeBuilt | src/Layout.cpp:142-168 | A node whose two children were built in the halves at its divider is registered, in pre-order, and laid out. |
| Parser.ParseDescribe | src/Layout.cpp:99-169 | The parser accepts the description of every tree with non-negative ids and rebuilds exactly that tree's kinds and ids. |
| Resize.UpdateLayout | src/Layout.cpp:171-197 | A resize keeps kinds, ids and every divider position. The result is laid out in the new rectangle: leaves inset by 3, nodes at the rectangle with the divider band at their position, and children in the two halves. It never fails on a tree. |
| Resize.UpdateLayoutDependsOnPlan | src/Layout.cpp:171-197 | The new geometry depends only on kinds, ids and positions, not on the old rectangles. |
| Resize.UpdateLayoutIdempotent | src/Layout.cpp:171-197 | A second resize to the same rectangle gives identical geometry. |
| Resize.LaidOutIsFixpoint | src/Layout.cpp:171-197 | A tree is laid out in a rectangle exactly when a resize to that rectangle leaves it unchanged. |
| Resize.LeavesInsideAndDisjoint | src/Layout.cpp:171-197 | When every divider lies within its panel, the resize places every window inside the outer rectangle, and no two windows overlap. |
| Resize.FitsWhenEnlarged | src/Layout.cpp:171-197 | Enlarging the region (same top-left corner) keeps every divider within its panel. |
| Resize.ShrinkingCanOverflow | src/Layout.cpp:171-197 | Shrinking is not covered. A 1280 x 800 region split down the middle and halved leaves the first window past the new right edge. |
| Engine.Init | src/Layout.cpp:199-201 | Builds from the region less a 6-pixel margin. On success the tables describe the tree and nothing is selected. The tree is laid out in the inset region. When that region is not inverted, every divider lies inside its panel. A description shorter than 3 characters is rejected. |
| Engine.InitDescribe | src/Layout.cpp:199-201 | Initialising from the description of any tree succeeds and yields that tree. |
| Engine.InitSingleWindow | src/Layout.cpp:120-126 | `W{n}` in any region yields one window, inset 9 pixels on every side (the 6-pixel margin plus the 3-pixel leaf inset). It is registered under `n` at the root, and there are no splitters and no selection. |
| Engine.Update | src/Layout.cpp:203-205 | A resize lays the tree out in the region less a 6-pixel margin. It keeps the tables, the selection, kinds, ids and positions, and preserves `Valid`. |
| Engine.UpdateIdempotent | src/Layout.cpp:203-205 | Two resizes to the same region leave the same state as one. |
| Engine.UpdateAfterInit | src/Layout.cpp:199-205 | Resizing a freshly built layout to its own region changes nothing. |
| Engine.SplittersDistinct | src/Layout.h:85 | No splitter is listed twice, so an index names exactly one node. |
| Engine.SplitterPathValid | src/Layout.h:85 | Every entry of the splitter list names a splitter node of the tree. |
| Engine.PanelPathValid | src/Layout.h:83 | Every entry of the leaf table names a leaf that carries that id. |
| Engine.LeavesAtKeys | src/Layout.h:83 | The leaf table has an entry for exactly the ids that occur in the tree. |
| Engine.PanelRects | src/Layout.h:73 | The read-only view of the leaf table has one rectangle per id in the tree. For each id, the leaf table's path leads to the leaf with that id, and that leaf's rectangle is the one given. |
| Selection.FindIndicesFromHits | src/Layout.cpp:207-217 | The scan from index `i` returns, in increasing order, exactly the indices from `i` on of splitters whose padded hit rectangle holds the point. |
| Selection.SplitterFindIndices | src/Layout.cpp:207-217 | An index is found exactly when the point lies inside that divider's hit rectangle widened by 3 on every side, edges included. The indices are strictly increasing. |
| Selection.ClassifyFrom | src/Layout.cpp:223-237 | The classification loop, with its early exit on Both, records exactly which kinds occur among the hits. |
| Selection.Classify | src/Layout.cpp:219-243 | The kind of the hits is None, Vertical, Horizontal or Both, according to which orientations occur among the splitters under the point. None means no splitter is under it. |
| Selection.SplitterSelect | src/Layout.cpp:219-243 | Returns that classification. With `save` off, the selection ends empty. With `save` on, the selection holds exactly the splitters under the point, once each, in increasing index order, as the hit test lists them. It is non-empty exactly when the result is not None. Tree and tables are untouched. |
| Selection.HasSelected | src/Layout.cpp:245-247 | A drag is in progress exactly when some splitter index is in the drag set. |
| Selection.SplitterClearSelected | src/Layout.cpp:323-325 | Ending a drag empties the selection and changes nothing else. |
| Selection.ClearSelectedIdempotent | src/Layout.cpp:323-325 | Clearing twice is clearing once. |
| Drag.BoundsFrom | src/Layout.cpp:260-294 | `low` only rises and `high` only falls. Only parallel neighbours whose bands overlap across the divider move them: each neighbour wholly behind the divider line raises `low` to at least its far edge, and each one wholly ahead lowers `high` to at most its near edge. Each end is its start value or one of those edges. |
| Drag.SplitterBoundaries | src/Layout.cpp:249-296 | The range starts at 9 and at the region's trailing edge less 9. It is the tightest range that clears every overlapping parallel neighbour. |
| Drag.Clamp | src/Layout.cpp:314 | The pointer coordinate is pulled into `[lo, hi]`. The low end wins when the range is empty. |
| Drag.MoveDivider | src/Layout.cpp:313-318 | Sets one divider position. If the second child splits the same way, the sum of the two positions is preserved. No rectangle changes, and no other position changes. |
| Drag.MoveSplitter | src/Layout.cpp:303-319 | The new divider line is the pointer coordinate clamped to the range less 12 at each end. So it stays 12 pixels past every neighbour behind it, never below coordinate 21, and, when the range has room, 12 short of every neighbour ahead. The lock rule preserves parent + child position. Rectangles, tables, the selection and all other positions are kept. |
| Drag.MoveEach | src/Layout.cpp:303-320 | Dragging a sequence of splitters keeps the tables, the selection and every rectangle. It also keeps the position of every splitter that is neither dragged nor carried by the lock rule. When the indices increase, the first divider ends at the pointer clamped to its range less the padding. |
| Drag.SecondChildComesLater | src/Layout.cpp:142-167 | A splitter's second child is listed after it, because the list is in pre-order. So a drag only carries splitters with a higher index along. |
| Drag.LaterDragsLeaveFirst | src/Layout.cpp:303-320 | When the indices increase, no later drag of the loop moves the first dragged splitter. It is not dragged again and not carried by a later lock. |
| Drag.EveryDragLands | src/Layout.cpp:303-320 | When the indices increase, every dragged divider ends where its own iteration put it: at the pointer clamped, less the padding, to the range computed from the state the earlier iterations left. |
| Drag.SplitterUpdateSelected | src/Layout.cpp:298-321 | Does nothing when nothing is selected. Otherwise it drags the selected splitters in order, keeping the tables, the selection, every rectangle and every untouched position. With the selection in increasing order, the first selected divider ends at the pointer clamped to its range less the padding. |
| Drag.SelectedDragsLand | src/Layout.cpp:298-321 | After a hit test that keeps its hits, a drag lands every selected divider at the pointer clamped to the range it had when its turn came. |
| Drag.SingleSelectedDrag | src/Layout.cpp:298-321 | With one splitter selected, its divider line ends at the pointer clamped to its range. |
| Drag.DragCanLeaveThePanel | src/Layout.cpp:298-321 | In a 20 x 20 region the range is empty and the low end wins. The divider ends 15 pixels into an 8-pixel panel, so the drag does not keep positions within their panel. |
| Drag.RelayoutAlong | src/Layout.cpp:171-197 | Where a resize places a panel depends only on the positions of the dividers above it. |
| Drag.LaidOutAt | src/Layout.cpp:171-197 | Every splitter of a laid-out tree is itself laid out in its own rectangle. |
| Drag.LockKeepsNestedDivider | src/Layout.cpp:313-318 | After the next resize, a nested divider of the same kind is drawn exactly where it was before its parent was dragged. |

## Left out

- `src/Application.cpp`, `src/Application.h` and `src/Main.cpp` are the Win32 shell and the message loop. They are not part of this model. The shell calls the engine in a fixed order: select with the drag set kept on button-down, drag then resize on pointer motion, clear on button-up. The shell's resize after each drag refreshes the divider hit rectangles, which the drag itself leaves stale.
- Parser.ParseId: accepts exactly the non-empty strings of decimal digits, of any length, as unbounded ids. The source's `std::stoi` also skips leading white space, accepts a sign and ignores trailing characters. Those inputs are rejected here as `BadId`, and negative ids cannot be written. `std::stoi` throws `out_of_range` on a digit string past the `int` range. The model accepts such a string as a large id instead of rejecting it.
- Exceptions are modelled as error values. When the id content is not a digit string, the result is `BadId`. This covers the contents on which `std::stoi` throws `invalid_argument`. When the second substring call starts past the end, the result is `SecondChildOutOfRange`. `ParseError.IsException` marks the two.
- A rejected description yields no state. The source leaves a partly built tree and partly filled tables behind, which the shell never uses after `init` fails.
- Debug-build assertions are modelled with their release-build effect. A repeated leaf id overwrites the earlier table entry, so the later leaf in pre-order wins. An empty second child is rejected by the child's own length check.
- `init` is modelled on a fresh engine. A second `init` on the same object would append to the existing tables; the shell calls it once.
- The `false` returns of `split_layout_rect` and `update_layout` cannot happen. A `Panel` is either a leaf or a node with an orientation, so `UpdateLayout` is total.
- The default-constructed `Panel` (a window with id 0 and zero geometry) only exists before parsing fills it in. The model builds each panel complete.
- Coordinates are unbounded integers. The source's 32-bit `LONG`/`int` overflow is not modelled.
- The unused constant `k_layout_child_wnd_class` is not modelled.

## Behaviour of the code worth knowing

- A drag does not keep a divider within its panel. It clamps only between the region's margins and the parallel neighbours (`Drag.DragCanLeaveThePanel`).
- A resize does not keep dividers within their panels either, because positions are pixel offsets. A 1280 x 800 layout split down the middle and resized to 640 x 400 puts its first window past the new right edge (`Resize.ShrinkingCanOverflow`).
- A drag leaves every divider hit rectangle as it was (`Drag.MoveSplitter` keeps every rectangle). The shell's resize after the drag refreshes them.
- The lock rule shifts a nested divider's position by the opposite of its parent's change. After the next resize the nested divider is drawn where it was (`Drag.LockKeepsNestedDivider`).
