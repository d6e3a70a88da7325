# uchoose adventure editor — a Dafny model

This project models the core of uchoose, an editor for branching stories. A
story is a graph: nodes are situations, each with a position, a title and a
body text, and arcs are choices, each with a label and a destination index.

The model has two parts.

* **The graph store** (`AdventureMap` in adventure_map.h) is in
  `adventure_map.dfy`, module `AdventureMaps`. It holds a node sequence and an
  unconstrained `state` cursor. An arc whose destination is not a valid node
  index is a *terminal* choice. That is a convention, not an error; the painter
  tests `dest < size()` to tell the cases apart (`Terminal`). The central operation
  is `Erase`. It removes one node and then rewrites every remaining node's
  arc list in place. Arcs into the removed node are deleted, and every other
  arc at or past the removed index is decremented. `Erase` is proved equal to the
  function `Erased`, and the lemmas beside `Erased` prove what this means:
  * surviving nodes shift down by one;
  * surviving arcs keep their order and payload;
  * arcs still resolve to the same node, and terminal arcs stay terminal.
* **The editor window** (`MainWindow` in mainwindow.h / mainwindow.cpp, without
  Qt) is in `geometry.dfy` (module `Geometry`: points, rectangles
  `boundingRect`/`inflate`/`intersects`, the radius test) and `mainwindow.dfy`
  (module `MainWindows`). `MainWindow` is a class with these fields:
  * the graph store;
  * the selection, as node indices;
  * the drag session: an active flag standing for `drag_timer_id != 0`,
    `dragStart`, `dragStop` and `dragInfo`;
  * the rectangle-select session: an active flag for `select_timer_id != 0`
    and its two corners.

  Its methods are the hit test, `performSelect`, the four drag methods, the
  four select methods, the editor's effect and the mouse and timer dispatch.
  `Valid()` is the window invariant. It says that selection and drag entries
  name existing nodes, each at most once. It also says that during a drag
  every node stands at its position from when the drag began
  (the ghost field `dragBase`), with the captured nodes moved by the
  current pointer displacement. This invariant is what makes `CancelDrag`
  restore every position exactly.

Coordinates are integers, so restoring positions and testing rectangle
containment are exact. The accessors `size()`, `operator[]` and `state()` are
`Size`, `Get` (its precondition is the caller's obligation to stay in range,
since it does no bounds check) and `State`.

The model follows the code as written:
* `_mid_drag` and `_mid_select` have no "session active" guard (they only skip
  an unchanged pointer), and `MidDrag`/`MidSelect` keep it that way.
* Dragging a node that is not selected clears the selection
  (mainwindow.cpp:249).
* `performSelect(rect, true)` only appends nodes that are not selected yet
  (mainwindow.cpp:125), although the doc comment at mainwindow.h:86-87 speaks
  of toggling.
* `erase` does no bounds check, so `Erase` requires an index in range.

The window's sample map (mainwindow.cpp:46-61) reuses one node record for both
pushes. The second node ("second") therefore inherits the first node's arc to
index 1. Erasing node 0 leaves "second" with that arc renumbered to 0, a
self-loop, not an empty arc list (`SampleEraseFirst`).

## Model

| member | source | states |
|---|---|---|
| AdventureMaps.Terminal | mainwindow.cpp:146-147 | an arc is terminal exactly when its destination is not one of the node indices 0 .. size - 1, the painter's `arc.dest < map.size()` test negated |
| AdventureMaps.ShiftDest | adventure_map.h:119 | a kept destination below the removed index is unchanged; one above it is decremented by exactly one |
| AdventureMaps.EraseArcs | adventure_map.h:107-122 | the rewritten arc list is shorter by exactly the number of arcs that led to the removed node |
| AdventureMaps.Erased | adventure_map.h:92-124 | erase leaves one node fewer; node j != index moves to ShiftDest(j) with its payload intact and its arc list rewritten |
| AdventureMaps.EraseArcsAt | adventure_map.h:107-122 | a surviving arc at position p lands at p minus the number of deleted arcs before it, with the same payload and its destination renumbered |
| AdventureMaps.CountAppend | adventure_map.h:107-122 | the count of arcs into the removed node adds up over concatenated arc lists |
| AdventureMaps.EraseArcsOrder | adventure_map.h:107-122 | surviving arcs keep their relative order within the list |
| AdventureMaps.EraseArcsOrigin | adventure_map.h:110-115 | every arc erase keeps came from an arc whose destination was not the removed node, so no arc into the removed node survives |
| AdventureMaps.EraseArcsBelow | adventure_map.h:119 | an arc list whose destinations are all below the removed index is left unchanged |
| AdventureMaps.EraseResolvesArcs | adventure_map.h:92-124 | a kept arc resolves after erase to the same node payload as before; it is terminal afterwards exactly when it was terminal before |
| AdventureMaps.EraseAfterPushBack | adventure_map.h:83-124 | erasing the node just appended gives back the old nodes when no old arc was terminal |
| AdventureMaps.PushBackResolution | adventure_map.h:83-85 | appending renumbers nothing: arcs that resolved still resolve to the same node; a terminal arc whose destination equals the old size now names the new node; the rest stay terminal |
| AdventureMaps.AdventureMap.constructor | adventure_map.h:50-51 | a new map has no nodes |
| AdventureMaps.AdventureMap.Size | adventure_map.h:59-60 | size() is the number of nodes |
| AdventureMaps.AdventureMap.State | adventure_map.h:57 | state() returns the cursor |
| AdventureMaps.AdventureMap.SetState | adventure_map.h:55-56 | the cursor setter sets only the cursor, and state() then returns the value set |
| AdventureMaps.AdventureMap.Get | adventure_map.h:62-64 | operator[] returns node k, the same node the bounds-checked at(k) finds, with staying in range left to the caller |
| AdventureMaps.AdventureMap.At | adventure_map.h:66-68 | at(k) fails with out_of_range exactly when k >= size(), and otherwise returns node k |
| AdventureMaps.AdventureMap.PushBack | adventure_map.h:83-85 | push_back appends the node at index old size; existing nodes and the cursor are untouched |
| AdventureMaps.AdventureMap.Erase | adventure_map.h:95-124 | the in-place node removal and arc-list loop leave exactly Erased(old nodes, index); the cursor is untouched |
| Geometry.Intersects | mainwindow.cpp:86-90 | containment is closed on all four edges; a rectangle with negative width or height contains no point |
| Geometry.BoundingRect | mainwindow.cpp:75-79 | the rectangle's edges are the coordinate-wise min and max of the two points, its extent is non-negative, and it contains both points |
| Geometry.BoundingRectContains | mainwindow.cpp:86-90 | a point is in boundingRect(a, b) iff each coordinate lies between those of a and b, edges included |
| Geometry.BoundingRectSmallest | mainwindow.h:74-75 | any rectangle containing both points contains every point of their bounding rectangle |
| Geometry.Inflate | mainwindow.cpp:80-84 | every edge moves outward by the padding |
| Geometry.InflateGrows | mainwindow.h:76-77 | a non-negative padding keeps every contained point |
| Geometry.InflateAdds | mainwindow.cpp:80-84 | two successive inflations equal one by the sum of the paddings, for paddings of any sign |
| MainWindows.FirstHitIsFirst | mainwindow.cpp:92-111 | the hit index is the lowest node within the radius (squared-distance test), or the node count when no node qualifies |
| MainWindows.MainWindow.OverNode | mainwindow.cpp:92-111 | the loop returns exactly that first-hit index (the end iterator as the node count) |
| MainWindows.AppendHitsExtends | mainwindow.cpp:119-126 | the loop keeps the selection it starts from as a prefix; it appends only in-rectangle nodes that were absent, and nothing else |
| MainWindows.AppendHitsDistinct | mainwindow.cpp:125 | the absence guard keeps a duplicate-free selection duplicate-free |
| MainWindows.AppendHitsAscending | mainwindow.cpp:119-126 | whatever the selection the loop starts from, the nodes it appends after it are in ascending index order |
| MainWindows.AppendHitsSaturated | mainwindow.cpp:119-126 | when every in-rectangle node is already selected, the loop appends nothing |
| MainWindows.SelectReplace | mainwindow.cpp:113-127 | performSelect(rect, false) leaves exactly the nodes whose position is in rect, ascending, whatever the old selection |
| MainWindows.SelectModify | mainwindow.cpp:116-126 | performSelect(rect, true) keeps the old selection as a prefix and appends only absent in-rectangle nodes, in ascending index order; a duplicate-free selection stays duplicate-free |
| MainWindows.SelectModifyIdempotent | mainwindow.cpp:116-126 | repeating performSelect(rect, true) changes nothing further |
| MainWindows.MainWindow.PerformSelect | mainwindow.cpp:113-130 | the clearing and appending loop leaves exactly SelectInRect(old selection, positions, rect, add) and keeps the window invariant |
| MainWindows.MovePoints | mainwindow.cpp:271-272 | the repositioning loop changes positions only, never how many nodes there are |
| MainWindows.CapturedPrefix | mainwindow.cpp:271 | the entries up to i+1 capture those up to i plus entry i's node |
| MainWindows.MovePointsOutside | mainwindow.cpp:271-272 | a node no drag entry names keeps its position |
| MainWindows.MovePointsCaptured | mainwindow.cpp:268-272 | with distinct captured nodes, each lands at its origin plus the displacement (group move by one shared displacement) |
| MainWindows.MovePointsForgets | mainwindow.cpp:271-272 | captured positions do not depend on where the nodes stood before |
| MainWindows.MovePointsOverwrite | mainwindow.cpp:260-277 | a later repositioning with the same entries overrides an earlier one |
| MainWindows.MovePointsAtRest | mainwindow.cpp:291-295 | a zero displacement puts every captured node back at its recorded origin |
| MainWindows.Edited | mainwindow.cpp:361-366 | an accepted editor replaces that node's title and text only; a rejected one changes nothing; positions and arcs are untouched |
| MainWindows.SampleEraseFirst | mainwindow.cpp:46-61 | erasing node 0 of the sample map leaves the single node "second", whose inherited arc now points to 0 |
| MainWindows.MainWindow.constructor | mainwindow.cpp:38-62 | the window starts with the two-node sample map, an empty selection and no session in progress |
| MainWindows.MainWindow.BeginDrag | mainwindow.cpp:228-259 | no-op during a drag; otherwise both drag points are m, and drag_info holds (selection[i], position) for each selected node in order when the node is selected, else the selection is cleared and drag_info is [(node, position)] |
| MainWindows.MainWindow.MidDrag | mainwindow.cpp:260-277 | nothing changes for an unchanged pointer; otherwise drag_stop becomes m, every captured node is at origin plus (m - drag_start), and every other node and every title, text and arc is untouched |
| MainWindows.MainWindow.EndDrag | mainwindow.cpp:278-290 | ends an active drag with the captured nodes at origin plus (m - drag_start); no-op when no drag is active |
| MainWindows.MainWindow.CancelDrag | mainwindow.cpp:291-295 | ends an active drag with every position equal to its value when the drag began, after any number of moves; no-op when no drag is active |
| MainWindows.MainWindow.BeginSelect | mainwindow.cpp:297-309 | no-op during a selection; otherwise both corners are m and the session is active |
| MainWindows.MainWindow.MidSelect | mainwindow.cpp:310-320 | the sweeping corner becomes m |
| MainWindows.MainWindow.EndSelect | mainwindow.cpp:321-337 | ends an active selection by applying performSelect(boundingRect(select_start, m), ctrl); no-op when inactive |
| MainWindows.MainWindow.CancelSelect | mainwindow.cpp:338-350 | ends the selection session without changing the selection |
| MainWindows.MainWindow.PromptEditor | mainwindow.cpp:352-371 | the node's title and text are overwritten only when the editor is accepted |
| MainWindows.MainWindow.MousePress | mainwindow.cpp:373-388 | a left press over a node begins a drag of it (group drag if it is selected) and leaves the selection session alone; during a drag it changes nothing; a left press over the background begins a rectangle selection, keeps the corners of one in progress and leaves the drag and the selection alone; other buttons change nothing |
| MainWindows.MainWindow.MouseRelease | mainwindow.cpp:389-401 | a left release ends the drag (drag_stop and the final repositioning at the pointer), then the selection (over the rectangle to the pointer), whichever were active; titles, texts and arcs are untouched, and nothing moves when no drag was active |
| MainWindows.MainWindow.MouseDoubleClick | mainwindow.cpp:403-419 | a left double click cancels any drag, restoring positions, then edits only the node under the pointer |
| MainWindows.MainWindow.TimerEvent | mainwindow.cpp:421-429 | a drag-timer tick during a drag leaves every node at its drag-start position moved by the cursor displacement; a select-timer tick moves the sweeping corner; a drag tick leaves the select corner, titles, texts and arcs alone and a select tick leaves drag_stop and every node alone; a tick of an inactive session changes nothing |

## Left out

- Painting (`paintEvent`, `paintNode`, `paintArc`, mainwindow.cpp:138-220): Qt rendering, square roots and float normalisation. Only the terminal test `arc.dest < map.size()` is kept, as `Terminal`.
- The node editor dialog (nodeeditor.cpp, nodeeditor.h): widget code and a blocking `exec()`. Its outcome is a parameter (`EditorResult`).
- Timers: `startTimer`/`killTimer` become the active flags, and a timer that fails to start (id 0) is not modelled. `DragSleepTime` and `SelectSleepTime` are not part of this model.
- `QCursor::pos()` with `mapFromGlobal` becomes the `cursor` parameter. `QApplication::keyboardModifiers()` becomes the `ctrl` parameter.
- Floating-point `QPointF`/`QRectF`/`qreal`: coordinates and padding are integers, so float rounding is not modelled.
- `NodeRadius` is not defined in the shown files. It is a constructor parameter of the window.
- Display side effects: `update()`, `setWindowTitle` in `performSelect` and `e->accept()`.
- `emplace_back` builds the node in place. Its effect on the node sequence is that of `PushBack`, so it is not modelled separately.
- `begin`/`end`/`cbegin`/`cend`: iterators are node indices, and the end iterator is the node count.
- Declared but never defined or used in the shown code: `performSelect(Map_t::iterator, bool)`, `openMainContext`, `background_context_add_node`, `drag_moved`, `context_point`, `background_context`.
- Iterator invalidation: no shown code erases or appends while `selection` or `drag_info` are live. The window never changes the node count, so there is no renumbering contract for them.
- The generated `ui` object and the destructor.
