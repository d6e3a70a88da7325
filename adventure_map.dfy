/** The adventure graph store of adventure_map.h: a sequence of nodes
    (situations), each with an ordered list of arcs (choices), plus an
    unconstrained "current state" cursor. A node's identity is its index; an
    arc whose destination is not a valid index is a terminal choice. */
module AdventureMaps {

  /** One choice: a payload and the index of the node it leads to. */
  datatype Arc<ArcPayload> = Arc(data: ArcPayload, dest: nat)

  /** One situation: a payload and its outgoing choices, in order. */
  datatype Node<NodePayload, ArcPayload> = Node(data: NodePayload, arcs: seq<Arc<ArcPayload>>)

  /** The outcome of the bounds-checked accessor `at`. */
  datatype Lookup<T> = Found(value: T) | OutOfRange

  /** An arc is terminal when its destination is not one of the node indices
      0 .. size - 1 of a map of the given size. */
  predicate Terminal<A>(arc: Arc<A>, size: nat): (t: bool)
    ensures !t <==> arc.dest in seq(size, k => k)
  {
    assert arc.dest < size ==> seq(size, k => k)[arc.dest] == arc.dest;
    arc.dest >= size
  }

  /** The index a surviving position takes once position `index` is removed:
      the decrement `erase` applies to every `dest >= index` it keeps. */
  function ShiftDest(dest: nat, index: nat): (r: nat)
    requires dest != index
    ensures dest < index ==> r == dest
    ensures dest > index ==> r + 1 == dest
  {
    if dest >= index then dest - 1 else dest
  }

  /** An arc as it is kept by `erase`: same payload, renumbered destination. */
  function Renumbered<A>(arc: Arc<A>, index: nat): Arc<A>
    requires arc.dest != index
  {
    arc.(dest := ShiftDest(arc.dest, index))
  }

  /** The number of arcs leading to node `index`. */
  function Count<A>(arcs: seq<Arc<A>>, index: nat): (c: nat)
    ensures c <= |arcs|
  {
    if arcs == [] then 0
    else (if arcs[0].dest == index then 1 else 0) + Count(arcs[1..], index)
  }

  /** What the inner loop of `erase` leaves of one node's arc list: the arcs
      into `index` are deleted, every other arc is renumbered. */
  function EraseArcs<A>(arcs: seq<Arc<A>>, index: nat): (r: seq<Arc<A>>)
    ensures |r| == |arcs| - Count(arcs, index)
  {
    if arcs == [] then []
    else if arcs[0].dest == index then EraseArcs(arcs[1..], index)
    else [Renumbered(arcs[0], index)] + EraseArcs(arcs[1..], index)
  }

  /** The node sequence after `erase(index)`: node `index` is gone, every node
      after it moves down by one, and every remaining arc list is rewritten by
      EraseArcs. */
  function Erased<N, A>(nodes: seq<Node<N, A>>, index: nat): (r: seq<Node<N, A>>)
    requires index < |nodes|
    ensures |r| == |nodes| - 1
    ensures forall j :: 0 <= j < |nodes| && j != index ==>
              r[ShiftDest(j, index)] == nodes[j].(arcs := EraseArcs(nodes[j].arcs, index))
  {
    var rest := nodes[..index] + nodes[index + 1..];
    seq(|rest|, k requires 0 <= k < |rest| => rest[k].(arcs := EraseArcs(rest[k].arcs, index)))
  }

  /** A surviving arc at position `p` of its list lands at position
      `p - Count(arcs[..p], index)`: it loses one place per deleted arc before
      it, keeps its payload, and has its destination renumbered. */
  lemma {:induction false} EraseArcsAt<A>(arcs: seq<Arc<A>>, index: nat, p: nat)
    requires p < |arcs| && arcs[p].dest != index
    ensures Count(arcs[..p], index) <= p
    ensures p - Count(arcs[..p], index) < |EraseArcs(arcs, index)|
    ensures EraseArcs(arcs, index)[p - Count(arcs[..p], index)] == Renumbered(arcs[p], index)
  {
    if p > 0 {
      assert arcs[..p][1..] == arcs[1..][..p - 1];
      EraseArcsAt(arcs[1..], index, p - 1);
    }
  }

  lemma {:induction false} CountAppend<A>(a: seq<Arc<A>>, b: seq<Arc<A>>, index: nat)
    ensures Count(a + b, index) == Count(a, index) + Count(b, index)
  {
    if a != [] {
      assert (a + b)[1..] == a[1..] + b;
      CountAppend(a[1..], b, index);
    } else {
      assert a + b == b;
    }
  }

  /** Surviving arcs keep their relative order. */
  lemma EraseArcsOrder<A>(arcs: seq<Arc<A>>, index: nat, p: nat, q: nat)
    requires p < q < |arcs| && arcs[p].dest != index && arcs[q].dest != index
    ensures p - Count(arcs[..p], index) < q - Count(arcs[..q], index)
  {
    assert arcs[..q] == arcs[..p] + arcs[p..q];
    CountAppend(arcs[..p], arcs[p..q], index);
    assert arcs[p..q][1..] == arcs[p + 1..q];
  }

  /** Every arc `erase` keeps comes from an arc that did not lead to the
      removed node: arcs into the removed node are all deleted. */
  lemma {:induction false} EraseArcsOrigin<A>(arcs: seq<Arc<A>>, index: nat, a: Arc<A>)
    requires a in EraseArcs(arcs, index)
    ensures exists p :: 0 <= p < |arcs| && arcs[p].dest != index && a == Renumbered(arcs[p], index)
  {
    if arcs[0].dest != index && a == Renumbered(arcs[0], index) {
    } else {
      EraseArcsOrigin(arcs[1..], index, a);
      var p :| 0 <= p < |arcs[1..]| && arcs[1..][p].dest != index && a == Renumbered(arcs[1..][p], index);
      assert arcs[p + 1] == arcs[1..][p];
    }
  }

  /** An arc list with no arc at or beyond `index` is left as it is. */
  lemma {:induction false} EraseArcsBelow<A>(arcs: seq<Arc<A>>, index: nat)
    requires forall p :: 0 <= p < |arcs| ==> arcs[p].dest < index
    ensures EraseArcs(arcs, index) == arcs
  {
    if arcs != [] {
      EraseArcsBelow(arcs[1..], index);
    }
  }

  /** Identity preservation: a kept arc of a kept node still resolves to the
      same node payload when it did resolve before, is still terminal when it
      was terminal, and is terminal now only if it was before. */
  lemma EraseResolvesArcs<N, A>(nodes: seq<Node<N, A>>, index: nat, j: nat, p: nat)
    requires index < |nodes| && j < |nodes| && j != index
    requires p < |nodes[j].arcs| && nodes[j].arcs[p].dest != index
    ensures var arcs := nodes[j].arcs;
            var after := Erased(nodes, index)[ShiftDest(j, index)].arcs;
            var q := p - Count(arcs[..p], index);
            && q < |after|
            && after[q].data == arcs[p].data
            && (Terminal(after[q], |nodes| - 1) <==> Terminal(arcs[p], |nodes|))
            && (!Terminal(arcs[p], |nodes|) ==>
                  Erased(nodes, index)[after[q].dest].data == nodes[arcs[p].dest].data)
  {
    EraseArcsAt(nodes[j].arcs, index, p);
  }

  /** `push_back` then `erase` of the new node gives back the old nodes when
      no old arc is terminal. */
  lemma EraseAfterPushBack<N, A>(nodes: seq<Node<N, A>>, n: Node<N, A>)
    requires forall j, p :: 0 <= j < |nodes| && 0 <= p < |nodes[j].arcs| ==> nodes[j].arcs[p].dest < |nodes|
    ensures Erased(nodes + [n], |nodes|) == nodes
  {
    var r := Erased(nodes + [n], |nodes|);
    forall j | 0 <= j < |nodes| ensures r[j] == nodes[j] {
      assert (nodes + [n])[j] == nodes[j];
      EraseArcsBelow(nodes[j].arcs, |nodes|);
    }
  }

  /** Appending a node renumbers nothing: an arc that resolved still resolves
      to the same node, and an arc past the old end stays terminal unless its
      destination is exactly the old size, which now names the new node. */
  lemma PushBackResolution<N, A>(nodes: seq<Node<N, A>>, n: Node<N, A>, arc: Arc<A>)
    ensures !Terminal(arc, |nodes|) ==> (nodes + [n])[arc.dest] == nodes[arc.dest]
    ensures arc.dest == |nodes| ==> (nodes + [n])[arc.dest] == n
    ensures arc.dest > |nodes| <==> Terminal(arc, |nodes + [n]|)
  {
  }

  /** The graph store. Iterators are modelled as indices into `nodes`. */
  class AdventureMap<NodePayload, ArcPayload> {
    var nodes: seq<Node<NodePayload, ArcPayload>>
    var state: nat

    /** An empty map; the cursor is left indeterminate, as the defaulted
        constructor leaves it. */
    constructor ()
      ensures nodes == []
    {
      nodes := [];
    }

    function Size(): (n: nat)
      reads this
      ensures n == |nodes|
    {
      |nodes|
    }

    function State(): (s: nat)
      reads this
      ensures s == state
    {
      state
    }

    /** The cursor's setter (the non-const `state()` reference). */
    method SetState(s: nat)
      modifies this`state
      ensures state == s && State() == s
    {
      state := s;
    }

    /** `operator[]`: unchecked, so the caller must stay in range. */
    function Get(index: nat): (n: Node<NodePayload, ArcPayload>)
      requires index < |nodes|
      reads this
      ensures n == nodes[index] && At(index) == Found(n)
    {
      nodes[index]
    }

    /** `at`: bounds-checked, failing exactly when `index >= size()`. */
    function At(index: nat): (r: Lookup<Node<NodePayload, ArcPayload>>)
      reads this
      ensures r.OutOfRange? <==> index >= |nodes|
      ensures r.Found? ==> index < |nodes| && r.value == nodes[index]
    {
      if index < |nodes| then Found(nodes[index]) else OutOfRange
    }

    /** Appends a node; no existing node or arc is touched. */
    method PushBack(n: Node<NodePayload, ArcPayload>)
      modifies this`nodes
      ensures nodes == old(nodes) + [n]
      ensures |nodes| == old(|nodes|) + 1 && nodes[old(|nodes|)] == n
    {
      nodes := nodes + [n];
    }

    /** Removes node `index` (no bounds checking) and rewrites every remaining
        node's arcs in place; the cursor is not touched. */
    method Erase(index: nat)
      requires index < |nodes|
      modifies this`nodes
      ensures nodes == Erased(old(nodes), index)
    {
      ghost var rest := nodes[..index] + nodes[index + 1..];
      nodes := nodes[..index] + nodes[index + 1..];
      var k := 0;
      while k < |nodes|
        invariant |nodes| == |rest| && k <= |nodes|
        invariant forall m :: 0 <= m < k ==> nodes[m] == rest[m].(arcs := EraseArcs(rest[m].arcs, index))
        invariant forall m :: k <= m < |nodes| ==> nodes[m] == rest[m]
      {
        var arcs := nodes[k].arcs;
        var i := 0;
        while i < |arcs|
          invariant i <= |arcs|
          invariant arcs[..i] + EraseArcs(arcs[i..], index) == EraseArcs(rest[k].arcs, index)
          decreases |arcs| - i
        {
          if arcs[i].dest == index {
            assert arcs[i..][1..] == arcs[i + 1..];
            arcs := arcs[..i] + arcs[i + 1..];
          } else {
            assert arcs[i..][1..] == arcs[i + 1..];
            if arcs[i].dest >= index {
              arcs := arcs[i := arcs[i].(dest := arcs[i].dest - 1)];
            }
            assert arcs[..i + 1] == arcs[..i] + [arcs[i]];
            i := i + 1;
          }
        }
        nodes := nodes[k := nodes[k].(arcs := arcs)];
        k := k + 1;
      }
    }
  }
}
