/** The editor window of mainwindow.h / mainwindow.cpp without its Qt parts:
    hit-testing, rectangle selection, the node-drag session, the
    rectangle-select session and the mouse/timer dispatch between them.
    Timers become an "active" flag per session and a timer tick becomes a call
    with the cursor position; node iterators become indices into the graph. */
module MainWindows {
  import opened AdventureMaps
  import opened Geometry

  datatype NodePayload = NodePayload(point: Point, title: string, text: string)
  datatype ArcPayload = ArcPayload(text: string)
  type MapNode = Node<NodePayload, ArcPayload>

  /** One dragged node and where it stood when the drag began. */
  datatype DragInfo = DragInfo(node: nat, origin: Point)

  datatype Button = LeftButton | OtherButton

  /** Which of the two session timers a timer event comes from. */
  datatype TimerSource = DragTimer | SelectTimer

  /** How the node editor dialog was closed, with its fields on acceptance. */
  datatype EditorResult = Rejected | Accepted(title: string, text: string)

  predicate Distinct(s: seq<nat>)
  {
    forall i, j :: 0 <= i < j < |s| ==> s[i] != s[j]
  }

  predicate Ascending(s: seq<nat>)
  {
    forall i, j :: 0 <= i < j < |s| ==> s[i] < s[j]
  }

  /** The position of every node, by index. */
  function Points(nodes: seq<MapNode>): (pts: seq<Point>)
    ensures |pts| == |nodes|
    ensures forall k :: 0 <= k < |nodes| ==> pts[k] == nodes[k].data.point
  {
    seq(|nodes|, k requires 0 <= k < |nodes| => nodes[k].data.point)
  }

  /** Two node sequences that agree on everything except the positions. */
  predicate SameButPoints(a: seq<MapNode>, b: seq<MapNode>)
  {
    && |a| == |b|
    && forall k :: 0 <= k < |a| ==>
         a[k].arcs == b[k].arcs && a[k].data.title == b[k].data.title && a[k].data.text == b[k].data.text
  }

  // ---------------------------------------------------------------------
  // Hit-testing (overNode)
  // ---------------------------------------------------------------------

  /** The index overNode reaches when it starts scanning at `from`: the first
      node at or after `from` within `radius` of `p`, or `|pts|` (the end
      iterator) if there is none. */
  function FirstHit(pts: seq<Point>, p: Point, radius: int, from: nat): (k: nat)
    requires from <= |pts|
    decreases |pts| - from
  {
    if from == |pts| then from
    else if Within(pts[from], p, radius) then from
    else FirstHit(pts, p, radius, from + 1)
  }

  /** FirstHit is the lowest-index node containing the point, or the end. */
  lemma {:induction false} FirstHitIsFirst(pts: seq<Point>, p: Point, radius: int, from: nat)
    requires from <= |pts|
    ensures var k := FirstHit(pts, p, radius, from);
            && from <= k <= |pts|
            && (k < |pts| ==> Within(pts[k], p, radius))
            && (forall j :: from <= j < k ==> !Within(pts[j], p, radius))
    decreases |pts| - from
  {
    if from < |pts| && !Within(pts[from], p, radius) {
      FirstHitIsFirst(pts, p, radius, from + 1);
    }
  }

  // ---------------------------------------------------------------------
  // Rectangle selection (performSelect)
  // ---------------------------------------------------------------------

  /** The loop of performSelect from node `k` on: each node whose position lies
      in `rect` is appended unless it is already selected. */
  function AppendHits(sel: seq<nat>, pts: seq<Point>, rect: Rect, k: nat): seq<nat>
    requires k <= |pts|
    decreases |pts| - k
  {
    if k == |pts| then sel
    else AppendHits(if Intersects(rect, pts[k]) && k !in sel then sel + [k] else sel, pts, rect, k + 1)
  }

  /** The selection performSelect(rect, add) leaves: without `add` it starts
      from an empty selection, with `add` from the current one. */
  function SelectInRect(sel: seq<nat>, pts: seq<Point>, rect: Rect, add: bool): seq<nat>
  {
    AppendHits(if add then sel else [], pts, rect, 0)
  }

  lemma {:induction false} AppendHitsExtends(sel: seq<nat>, pts: seq<Point>, rect: Rect, k: nat)
    requires k <= |pts|
    ensures var r := AppendHits(sel, pts, rect, k);
            && sel <= r
            && (forall i :: |sel| <= i < |r| ==> r[i] !in sel && k <= r[i] < |pts| && Intersects(rect, pts[r[i]]))
            && (forall x :: x in r <==> x in sel || (k <= x < |pts| && Intersects(rect, pts[x])))
    decreases |pts| - k
  {
    if k < |pts| {
      var next := if Intersects(rect, pts[k]) && k !in sel then sel + [k] else sel;
      AppendHitsExtends(next, pts, rect, k + 1);
      var r := AppendHits(next, pts, rect, k + 1);
      assert r == AppendHits(sel, pts, rect, k);
      forall i | |sel| <= i < |r|
        ensures r[i] !in sel && k <= r[i] < |pts| && Intersects(rect, pts[r[i]])
      {
        if i < |next| {
          assert r[i] == next[i] == k;
        }
      }
    }
  }

  lemma {:induction false} AppendHitsDistinct(sel: seq<nat>, pts: seq<Point>, rect: Rect, k: nat)
    requires k <= |pts| && Distinct(sel)
    ensures Distinct(AppendHits(sel, pts, rect, k))
    decreases |pts| - k
  {
    if k < |pts| {
      var next := if Intersects(rect, pts[k]) && k !in sel then sel + [k] else sel;
      AppendHitsDistinct(next, pts, rect, k + 1);
    }
  }

  /** Whatever the selection it starts from, the loop appends nodes in
      ascending index order. */
  lemma {:induction false} AppendHitsAscending(sel: seq<nat>, pts: seq<Point>, rect: Rect, k: nat)
    requires k <= |pts|
    ensures var r := AppendHits(sel, pts, rect, k);
            forall i, j :: |sel| <= i < j < |r| ==> r[i] < r[j]
    decreases |pts| - k
  {
    if k < |pts| {
      var next := if Intersects(rect, pts[k]) && k !in sel then sel + [k] else sel;
      AppendHitsAscending(next, pts, rect, k + 1);
      AppendHitsExtends(next, pts, rect, k + 1);
      var r := AppendHits(next, pts, rect, k + 1);
      assert r == AppendHits(sel, pts, rect, k);
      forall i, j | |sel| <= i < j < |r| ensures r[i] < r[j] {
        if i < |next| {
          assert r[i] == next[i] == k;
        }
      }
    }
  }

  /** When every node in the rectangle from `k` on is already selected, the
      loop appends nothing. */
  lemma {:induction false} AppendHitsSaturated(sel: seq<nat>, pts: seq<Point>, rect: Rect, k: nat)
    requires k <= |pts|
    requires forall x :: k <= x < |pts| && Intersects(rect, pts[x]) ==> x in sel
    ensures AppendHits(sel, pts, rect, k) == sel
    decreases |pts| - k
  {
    if k < |pts| {
      AppendHitsSaturated(sel, pts, rect, k + 1);
    }
  }

  /** performSelect(rect, false): the indices of the nodes in the rectangle,
      each once, in ascending order, whatever was selected before. */
  lemma SelectReplace(sel: seq<nat>, pts: seq<Point>, rect: Rect)
    ensures var r := SelectInRect(sel, pts, rect, false);
            && Ascending(r)
            && (forall x :: x in r <==> 0 <= x < |pts| && Intersects(rect, pts[x]))
  {
    AppendHitsExtends([], pts, rect, 0);
    AppendHitsAscending([], pts, rect, 0);
  }

  /** performSelect(rect, true): the old selection stays as a prefix; what
      follows are nodes in the rectangle that were not selected, in ascending
      order, so a duplicate-free selection stays duplicate-free. */
  lemma SelectModify(sel: seq<nat>, pts: seq<Point>, rect: Rect)
    ensures var r := SelectInRect(sel, pts, rect, true);
            && sel <= r
            && (forall i :: |sel| <= i < |r| ==> r[i] !in sel && r[i] < |pts| && Intersects(rect, pts[r[i]]))
            && (forall i, j :: |sel| <= i < j < |r| ==> r[i] < r[j])
            && (forall x :: x in r <==> x in sel || (0 <= x < |pts| && Intersects(rect, pts[x])))
            && (Distinct(sel) ==> Distinct(r))
  {
    AppendHitsExtends(sel, pts, rect, 0);
    AppendHitsAscending(sel, pts, rect, 0);
    if Distinct(sel) {
      AppendHitsDistinct(sel, pts, rect, 0);
    }
  }

  /** Repeating performSelect(rect, true) changes nothing more. */
  lemma SelectModifyIdempotent(sel: seq<nat>, pts: seq<Point>, rect: Rect)
    ensures SelectInRect(SelectInRect(sel, pts, rect, true), pts, rect, true) == SelectInRect(sel, pts, rect, true)
  {
    var r := SelectInRect(sel, pts, rect, true);
    AppendHitsExtends(sel, pts, rect, 0);
    AppendHitsSaturated(r, pts, rect, 0);
  }

  // ---------------------------------------------------------------------
  // Dragging (_begin_drag / _mid_drag)
  // ---------------------------------------------------------------------

  /** The nodes a drag has captured, in drag_info order. */
  function Captured(info: seq<DragInfo>): (r: seq<nat>)
    ensures |r| == |info|
    ensures forall i :: 0 <= i < |info| ==> r[i] == info[i].node
  {
    seq(|info|, i requires 0 <= i < |info| => info[i].node)
  }

  predicate InRange(info: seq<DragInfo>, size: nat)
  {
    forall i :: 0 <= i < |info| ==> info[i].node < size
  }

  /** The repositioning loop of _mid_drag over the positions: each captured
      node, in order, is set to its origin plus the displacement `d`. */
  function MovePoints(pts: seq<Point>, info: seq<DragInfo>, d: Point): (r: seq<Point>)
    requires InRange(info, |pts|)
    ensures |r| == |pts|
    decreases |info|
  {
    if info == [] then pts
    else
      var last := info[|info| - 1];
      MovePoints(pts, info[..|info| - 1], d)[last.node := Add(last.origin, d)]
  }

  lemma CapturedPrefix(info: seq<DragInfo>, i: nat)
    requires i < |info|
    ensures Captured(info[..i + 1]) == Captured(info[..i]) + [info[i].node]
  {
  }

  /** A node no drag entry names keeps its position. */
  lemma {:induction false} MovePointsOutside(pts: seq<Point>, info: seq<DragInfo>, d: Point, k: nat)
    requires InRange(info, |pts|) && k < |pts| && k !in Captured(info)
    ensures MovePoints(pts, info, d)[k] == pts[k]
    decreases |info|
  {
    if info != [] {
      CapturedPrefix(info, |info| - 1);
      assert info[..|info| - 1 + 1] == info;
      MovePointsOutside(pts, info[..|info| - 1], d, k);
    }
  }

  /** With distinct captured nodes, each lands on its own origin plus `d`. */
  lemma {:induction false} MovePointsCaptured(pts: seq<Point>, info: seq<DragInfo>, d: Point, j: nat)
    requires InRange(info, |pts|) && Distinct(Captured(info)) && j < |info|
    ensures MovePoints(pts, info, d)[info[j].node] == Add(info[j].origin, d)
    decreases |info|
  {
    var n := |info| - 1;
    if j < n {
      assert Captured(info)[j] != Captured(info)[n];
      assert Captured(info[..n]) == Captured(info)[..n];
      MovePointsCaptured(pts, info[..n], d, j);
    }
  }

  /** The positions of captured nodes do not depend on where they stood. */
  lemma {:induction false} MovePointsForgets(pts: seq<Point>, qts: seq<Point>, info: seq<DragInfo>, d: Point, k: nat)
    requires |pts| == |qts| && InRange(info, |pts|) && k in Captured(info)
    ensures MovePoints(pts, info, d)[k] == MovePoints(qts, info, d)[k]
    decreases |info|
  {
    var n := |info| - 1;
    if k != info[n].node {
      CapturedPrefix(info, n);
      assert info[..n + 1] == info;
      MovePointsForgets(pts, qts, info[..n], d, k);
    }
  }

  /** A second repositioning with the same drag entries overrides the first:
      the positions depend only on the latest displacement. */
  lemma MovePointsOverwrite(pts: seq<Point>, info: seq<DragInfo>, d1: Point, d2: Point)
    requires InRange(info, |pts|)
    ensures MovePoints(MovePoints(pts, info, d1), info, d2) == MovePoints(pts, info, d2)
  {
    var once := MovePoints(pts, info, d1);
    forall k | 0 <= k < |pts|
      ensures MovePoints(once, info, d2)[k] == MovePoints(pts, info, d2)[k]
    {
      if k in Captured(info) {
        MovePointsForgets(once, pts, info, d2, k);
      } else {
        MovePointsOutside(once, info, d2, k);
        MovePointsOutside(pts, info, d1, k);
        MovePointsOutside(pts, info, d2, k);
      }
    }
  }

  /** A zero displacement puts every node back where its drag entry says it
      started. */
  lemma {:induction false} MovePointsAtRest(pts: seq<Point>, info: seq<DragInfo>)
    requires InRange(info, |pts|)
    requires forall i :: 0 <= i < |info| ==> info[i].origin == pts[info[i].node]
    ensures MovePoints(pts, info, Point(0, 0)) == pts
    decreases |info|
  {
    if info != [] {
      MovePointsAtRest(pts, info[..|info| - 1]);
    }
  }

  // ---------------------------------------------------------------------
  // The node editor's effect (prompt_editor)
  // ---------------------------------------------------------------------

  /** The nodes after the editor for node `k` closes: on acceptance its title
      and text are replaced; nothing else changes. */
  function Edited(nodes: seq<MapNode>, k: nat, dialog: EditorResult): (r: seq<MapNode>)
    requires k < |nodes|
    ensures |r| == |nodes| && Points(r) == Points(nodes)
    ensures forall j :: 0 <= j < |nodes| && j != k ==> r[j] == nodes[j]
    ensures r[k].arcs == nodes[k].arcs
    ensures dialog.Rejected? ==> r == nodes
    ensures dialog.Accepted? ==> r[k].data.title == dialog.title && r[k].data.text == dialog.text
  {
    match dialog
    case Rejected => nodes
    case Accepted(title, text) => nodes[k := nodes[k].(data := nodes[k].data.(title := title, text := text))]
  }

  // ---------------------------------------------------------------------
  // The sample map the window starts with
  // ---------------------------------------------------------------------

  /** The window's initial graph. The node record is reused for the second
      push, so the second node inherits the first node's arc to index 1. */
  function SampleNodes(): seq<MapNode>
  {
    var arc := Arc(ArcPayload("choice 1"), 1);
    [ Node(NodePayload(Point(50, 50), "first", "hello this is bob"), [arc]),
      Node(NodePayload(Point(200, 80), "second", "hello this is fred"), [arc]) ]
  }

  /** Erasing node 0 of the sample leaves the single node "second", whose arc
      now points at its own new index 0. */
  lemma SampleEraseFirst()
    ensures Erased(SampleNodes(), 0) ==
              [Node(NodePayload(Point(200, 80), "second", "hello this is fred"), [Arc(ArcPayload("choice 1"), 0)])]
  {
    var arc := Arc(ArcPayload("choice 1"), 1);
    assert EraseArcs([arc], 0) == [Arc(ArcPayload("choice 1"), 0)];
  }

  // ---------------------------------------------------------------------
  // The window
  // ---------------------------------------------------------------------

  class MainWindow {
    /** The window's `map` member. */
    const graph: AdventureMap<NodePayload, ArcPayload>
    /** The radius of a drawn node, a compile-time constant of the window. */
    const nodeRadius: nat

    /** drag_timer_id != 0 */
    var dragActive: bool
    var dragStart: Point
    var dragStop: Point
    var dragInfo: seq<DragInfo>
    /** The node positions when the current drag began. */
    ghost var dragBase: seq<Point>

    /** select_timer_id != 0 */
    var selectActive: bool
    var selectStart: Point
    var selectStop: Point

    var selection: seq<nat>

    /** The selection and the drag entries name existing nodes, each once;
        during a drag every node stands where its drag-start position, moved
        by the current displacement for the captured ones, puts it. */
    ghost predicate Valid()
      reads this, graph
    {
      && (forall i :: 0 <= i < |selection| ==> selection[i] < |graph.nodes|)
      && Distinct(selection)
      && InRange(dragInfo, |graph.nodes|)
      && Distinct(Captured(dragInfo))
      && (dragActive ==>
            && |dragBase| == |graph.nodes|
            && (forall i :: 0 <= i < |dragInfo| ==> dragInfo[i].origin == dragBase[dragInfo[i].node])
            && Points(graph.nodes) == MovePoints(dragBase, dragInfo, Sub(dragStop, dragStart)))
    }

    /** The window with its sample map and no session in progress. */
    constructor (nodeRadius: nat)
      ensures Valid() && fresh(graph)
      ensures this.nodeRadius == nodeRadius && graph.nodes == SampleNodes()
      ensures !dragActive && !selectActive && selection == [] && dragInfo == []
    {
      this.nodeRadius := nodeRadius;
      graph := new AdventureMap();
      dragActive, dragStart, dragStop, dragInfo := false, Point(0, 0), Point(0, 0), [];
      dragBase := [];
      selectActive, selectStart, selectStop := false, Point(0, 0), Point(0, 0);
      selection := [];
      new;
      var arc := Arc(ArcPayload("choice 1"), 1);
      var node := Node(NodePayload(Point(50, 50), "first", "hello this is bob"), [arc]);
      graph.PushBack(node);
      node := node.(data := NodePayload(Point(200, 80), "second", "hello this is fred"));
      graph.PushBack(node);
    }

    /** overNode: the first node within nodeRadius of `p`, or |nodes| if none. */
    method OverNode(p: Point) returns (k: nat)
      ensures k == FirstHit(Points(graph.nodes), p, nodeRadius, 0)
    {
      var sqrRadius := nodeRadius * nodeRadius;
      k := 0;
      while k < |graph.nodes|
        invariant k <= |graph.nodes|
        invariant FirstHit(Points(graph.nodes), p, nodeRadius, k) == FirstHit(Points(graph.nodes), p, nodeRadius, 0)
      {
        var d := Sub(p, graph.nodes[k].data.point);
        if d.x * d.x + d.y * d.y <= sqrRadius {
          break;
        }
        k := k + 1;
      }
    }

    /** performSelect(rect, add). */
    method PerformSelect(rect: Rect, add: bool)
      requires Valid()
      modifies this`selection
      ensures Valid()
      ensures selection == SelectInRect(old(selection), Points(graph.nodes), rect, add)
    {
      if !add {
        selection := [];
      }
      var k := 0;
      while k < |graph.nodes|
        invariant k <= |graph.nodes| && Valid()
        invariant AppendHits(selection, Points(graph.nodes), rect, k) == SelectInRect(old(selection), Points(graph.nodes), rect, add)
      {
        if Intersects(rect, graph.nodes[k].data.point) {
          if k !in selection {
            selection := selection + [k];
          }
        }
        k := k + 1;
      }
    }

    /** _begin_drag: ignored during a drag; otherwise captures the whole
        selection if `node` is selected, else clears the selection and
        captures `node` alone. */
    method BeginDrag(node: nat, m: Point)
      requires Valid() && node < |graph.nodes|
      modifies this`dragActive, this`dragStart, this`dragStop, this`dragInfo, this`dragBase, this`selection
      ensures Valid() && dragActive
      ensures old(dragActive) ==> unchanged(this)
      ensures !old(dragActive) ==> dragStart == m && dragStop == m && dragBase == Points(graph.nodes)
      ensures !old(dragActive) && node in old(selection) ==>
                && selection == old(selection)
                && |dragInfo| == |selection|
                && forall i :: 0 <= i < |selection| ==> dragInfo[i] == DragInfo(selection[i], graph.nodes[selection[i]].data.point)
      ensures !old(dragActive) && node !in old(selection) ==>
                selection == [] && dragInfo == [DragInfo(node, graph.nodes[node].data.point)]
    {
      if !dragActive {
        dragStart := m;
        dragStop := m;
        if node in selection {
          var info: seq<DragInfo> := [];
          var i := 0;
          while i < |selection|
            invariant i <= |selection| && |info| == i
            invariant forall j :: 0 <= j < i ==> info[j] == DragInfo(selection[j], graph.nodes[selection[j]].data.point)
          {
            info := info + [DragInfo(selection[i], graph.nodes[selection[i]].data.point)];
            i := i + 1;
          }
          dragInfo := info;
          assert Captured(dragInfo) == selection;
        } else {
          selection := [];
          dragInfo := [DragInfo(node, graph.nodes[node].data.point)];
        }
        dragBase := Points(graph.nodes);
        dragActive := true;
        MovePointsAtRest(dragBase, dragInfo);
        assert Sub(dragStop, dragStart) == Point(0, 0);
      }
    }

    /** _mid_drag: when the pointer moved, every captured node is placed at its
        origin plus the pointer's displacement since the drag began. */
    method MidDrag(m: Point)
      requires Valid()
      modifies this`dragStop, graph`nodes
      ensures Valid()
      ensures dragStop == m
      ensures old(dragStop) == m ==> graph.nodes == old(graph.nodes)
      ensures old(dragStop) != m ==>
                && Points(graph.nodes) == MovePoints(Points(old(graph.nodes)), dragInfo, Sub(m, dragStart))
                && forall i :: 0 <= i < |dragInfo| ==>
                     graph.nodes[dragInfo[i].node].data.point == Add(dragInfo[i].origin, Sub(m, dragStart))
      ensures forall k :: 0 <= k < |graph.nodes| && k !in Captured(dragInfo) ==> graph.nodes[k] == old(graph.nodes[k])
      ensures SameButPoints(old(graph.nodes), graph.nodes)
    {
      if dragStop != m {
        ghost var before := Points(graph.nodes);
        ghost var oldStop := dragStop;
        dragStop := m;
        var dr := Sub(m, dragStart);
        var i := 0;
        while i < |dragInfo|
          invariant i <= |dragInfo| && dragStop == m
          invariant SameButPoints(old(graph.nodes), graph.nodes)
          invariant Points(graph.nodes) == MovePoints(before, dragInfo[..i], dr)
          invariant forall k :: 0 <= k < |graph.nodes| && k !in Captured(dragInfo[..i]) ==> graph.nodes[k] == old(graph.nodes[k])
        {
          var n := dragInfo[i].node;
          CapturedPrefix(dragInfo, i);
          assert dragInfo[..i + 1][..i] == dragInfo[..i];
          graph.nodes := graph.nodes[n := graph.nodes[n].(data := graph.nodes[n].data.(point := Add(dragInfo[i].origin, dr)))];
          i := i + 1;
        }
        assert dragInfo[..i] == dragInfo;
        forall j | 0 <= j < |dragInfo|
          ensures graph.nodes[dragInfo[j].node].data.point == Add(dragInfo[j].origin, dr)
        {
          MovePointsCaptured(before, dragInfo, dr, j);
        }
        if dragActive {
          MovePointsOverwrite(dragBase, dragInfo, Sub(oldStop, dragStart), dr);
        }
      }
    }

    /** _end_drag: ends an active drag with a final repositioning to `m`. */
    method EndDrag(m: Point)
      requires Valid()
      modifies this`dragActive, this`dragStop, graph`nodes
      ensures Valid() && !dragActive
      ensures !old(dragActive) ==> dragStop == old(dragStop) && graph.nodes == old(graph.nodes)
      ensures old(dragActive) ==>
                && dragStop == m
                && Points(graph.nodes) == MovePoints(dragBase, dragInfo, Sub(m, dragStart))
                && forall i :: 0 <= i < |dragInfo| ==>
                     graph.nodes[dragInfo[i].node].data.point == Add(dragInfo[i].origin, Sub(m, dragStart))
      ensures forall k :: 0 <= k < |graph.nodes| && k !in Captured(dragInfo) ==> graph.nodes[k] == old(graph.nodes[k])
      ensures SameButPoints(old(graph.nodes), graph.nodes)
    {
      if dragActive {
        ghost var oldStop := dragStop;
        dragActive := false;
        MidDrag(m);
        if oldStop != m {
          MovePointsOverwrite(dragBase, dragInfo, Sub(oldStop, dragStart), Sub(m, dragStart));
        }
        forall j | 0 <= j < |dragInfo|
          ensures graph.nodes[dragInfo[j].node].data.point == Add(dragInfo[j].origin, Sub(m, dragStart))
        {
          MovePointsCaptured(dragBase, dragInfo, Sub(m, dragStart), j);
        }
      }
    }

    /** _cancel_drag: ends an active drag with every captured node back at its
        position from when the drag began. */
    method CancelDrag()
      requires Valid()
      modifies this`dragActive, this`dragStop, graph`nodes
      ensures Valid() && !dragActive
      ensures !old(dragActive) ==> dragStop == old(dragStop) && graph.nodes == old(graph.nodes)
      ensures old(dragActive) ==>
                && Points(graph.nodes) == dragBase
                && forall i :: 0 <= i < |dragInfo| ==> graph.nodes[dragInfo[i].node].data.point == dragInfo[i].origin
      ensures SameButPoints(old(graph.nodes), graph.nodes)
    {
      ghost var wasActive := dragActive;
      EndDrag(dragStart);
      if wasActive {
        assert Sub(dragStart, dragStart) == Point(0, 0);
        MovePointsAtRest(dragBase, dragInfo);
      }
    }

    /** _begin_select: ignored during a selection; otherwise both corners
        start at `m`. */
    method BeginSelect(m: Point)
      requires Valid()
      modifies this`selectActive, this`selectStart, this`selectStop
      ensures Valid() && selectActive
      ensures old(selectActive) ==> selectStart == old(selectStart) && selectStop == old(selectStop)
      ensures !old(selectActive) ==> selectStart == m && selectStop == m
    {
      if !selectActive {
        selectStart := m;
        selectStop := m;
        selectActive := true;
      }
    }

    /** _mid_select: moves the sweeping corner. */
    method MidSelect(m: Point)
      requires Valid()
      modifies this`selectStop
      ensures Valid() && selectStop == m
    {
      if selectStop != m {
        selectStop := m;
      }
    }

    /** _end_select: ends an active selection by selecting over the rectangle
        from the start corner to `m`, adding to the selection when `ctrl`. */
    method EndSelect(m: Point, ctrl: bool)
      requires Valid()
      modifies this`selectActive, this`selection
      ensures Valid() && !selectActive
      ensures old(selectActive) ==>
                selection == SelectInRect(old(selection), Points(graph.nodes), BoundingRect(selectStart, m), ctrl)
      ensures !old(selectActive) ==> selection == old(selection)
    {
      if selectActive {
        selectActive := false;
        PerformSelect(BoundingRect(selectStart, m), ctrl);
      }
    }

    /** _cancel_select: ends a selection, leaving the selection as it was. */
    method CancelSelect()
      requires Valid()
      modifies this`selectActive
      ensures Valid() && !selectActive
    {
      if selectActive {
        selectActive := false;
      }
    }

    /** prompt_editor, with the dialog's outcome as a parameter. */
    method PromptEditor(node: nat, dialog: EditorResult)
      requires Valid() && node < |graph.nodes|
      modifies graph`nodes
      ensures Valid()
      ensures graph.nodes == Edited(old(graph.nodes), node, dialog)
    {
      if dialog.Accepted? {
        graph.nodes := graph.nodes[node := graph.nodes[node].(data := graph.nodes[node].data.(title := dialog.title, text := dialog.text))];
      }
    }

    /** mousePressEvent: a left press over a node begins a drag of it, a left
        press over the background begins a rectangle selection. */
    method MousePress(button: Button, p: Point)
      requires Valid()
      modifies this`dragActive, this`dragStart, this`dragStop, this`dragInfo, this`dragBase, this`selection
      modifies this`selectActive, this`selectStart, this`selectStop
      ensures Valid()
      ensures button == OtherButton ==> unchanged(this)
      ensures button == LeftButton && FirstHit(Points(graph.nodes), p, nodeRadius, 0) < |graph.nodes| ==>
                && dragActive
                && selectActive == old(selectActive) && selectStart == old(selectStart) && selectStop == old(selectStop)
                && (!old(dragActive) ==>
                      var k := FirstHit(Points(graph.nodes), p, nodeRadius, 0);
                      && dragStart == p && dragStop == p
                      && selection == (if k in old(selection) then old(selection) else [])
                      && Captured(dragInfo) == (if k in old(selection) then old(selection) else [k])
                      && forall i :: 0 <= i < |dragInfo| ==> dragInfo[i].origin == graph.nodes[dragInfo[i].node].data.point)
                && (old(dragActive) ==>
                      && selection == old(selection) && dragInfo == old(dragInfo)
                      && dragStart == old(dragStart) && dragStop == old(dragStop) && dragBase == old(dragBase))
      ensures button == LeftButton && FirstHit(Points(graph.nodes), p, nodeRadius, 0) == |graph.nodes| ==>
                && selectActive
                && dragActive == old(dragActive) && dragInfo == old(dragInfo) && selection == old(selection)
                && dragStart == old(dragStart) && dragStop == old(dragStop) && dragBase == old(dragBase)
                && (!old(selectActive) ==> selectStart == p && selectStop == p)
                && (old(selectActive) ==> selectStart == old(selectStart) && selectStop == old(selectStop))
    {
      if button == LeftButton {
        FirstHitIsFirst(Points(graph.nodes), p, nodeRadius, 0);
        var node := OverNode(p);
        if node < |graph.nodes| {
          BeginDrag(node, p);
          if !old(dragActive) {
            assert Captured(dragInfo) == (if node in old(selection) then old(selection) else [node]);
          }
        } else {
          BeginSelect(p);
        }
      }
    }

    /** mouseReleaseEvent: a left release ends the drag, then the selection,
        whichever are in progress; `ctrl` is the Control modifier state. */
    method MouseRelease(button: Button, p: Point, ctrl: bool)
      requires Valid()
      modifies this`dragActive, this`dragStop, graph`nodes, this`selectActive, this`selection
      ensures Valid()
      ensures button == OtherButton ==> unchanged(this) && graph.nodes == old(graph.nodes)
      ensures button == LeftButton ==>
                && !dragActive && !selectActive
                && SameButPoints(old(graph.nodes), graph.nodes)
                && (old(dragActive) ==> dragStop == p && Points(graph.nodes) == MovePoints(dragBase, dragInfo, Sub(p, dragStart)))
                && (!old(dragActive) ==> dragStop == old(dragStop) && graph.nodes == old(graph.nodes))
                && (old(selectActive) ==>
                      selection == SelectInRect(old(selection), Points(graph.nodes), BoundingRect(selectStart, p), ctrl))
                && (!old(selectActive) ==> selection == old(selection))
    {
      if button == LeftButton {
        if dragActive {
          EndDrag(p);
        }
        if selectActive {
          EndSelect(p, ctrl);
        }
      }
    }

    /** mouseDoubleClickEvent: a left double click cancels any drag, then opens
        the editor on the node under the pointer, if any. */
    method MouseDoubleClick(button: Button, p: Point, dialog: EditorResult)
      requires Valid()
      modifies this`dragActive, this`dragStop, graph`nodes
      ensures Valid()
      ensures button == OtherButton ==> unchanged(this) && graph.nodes == old(graph.nodes)
      ensures button == LeftButton ==>
                && !dragActive
                && (old(dragActive) ==> Points(graph.nodes) == dragBase)
                && (!old(dragActive) ==> Points(graph.nodes) == Points(old(graph.nodes)))
                && |graph.nodes| == old(|graph.nodes|)
                && (forall j :: 0 <= j < |graph.nodes| ==> graph.nodes[j].arcs == old(graph.nodes[j].arcs))
                && var k := FirstHit(Points(graph.nodes), p, nodeRadius, 0);
                   && (forall j :: 0 <= j < |graph.nodes| && j != k ==>
                         graph.nodes[j].data.title == old(graph.nodes[j].data.title) &&
                         graph.nodes[j].data.text == old(graph.nodes[j].data.text))
                   && (k < |graph.nodes| && dialog.Rejected? ==>
                         graph.nodes[k].data.title == old(graph.nodes[k].data.title) &&
                         graph.nodes[k].data.text == old(graph.nodes[k].data.text))
                   && (k < |graph.nodes| && dialog.Accepted? ==>
                         graph.nodes[k].data.title == dialog.title && graph.nodes[k].data.text == dialog.text)
    {
      if button == LeftButton {
        CancelDrag();
        var node := OverNode(p);
        if node < |graph.nodes| {
          PromptEditor(node, dialog);
        }
      }
    }

    /** timerEvent: a tick of the drag timer feeds the drag, a tick of the
        select timer feeds the selection; a killed timer no longer matches. */
    method TimerEvent(source: TimerSource, cursor: Point)
      requires Valid()
      modifies this`dragStop, graph`nodes, this`selectStop
      ensures Valid()
      ensures source == DragTimer && dragActive ==>
                && dragStop == cursor && Points(graph.nodes) == MovePoints(dragBase, dragInfo, Sub(cursor, dragStart))
                && selectStop == old(selectStop) && SameButPoints(old(graph.nodes), graph.nodes)
      ensures source == SelectTimer && selectActive ==>
                selectStop == cursor && dragStop == old(dragStop) && graph.nodes == old(graph.nodes)
      ensures !(source == DragTimer && dragActive) && !(source == SelectTimer && selectActive) ==>
                unchanged(this) && graph.nodes == old(graph.nodes)
    {
      if source == DragTimer && dragActive {
        MidDrag(cursor);
      } else if source == SelectTimer && selectActive {
        MidSelect(cursor);
      }
    }
  }
}
