/**
 * `findNeighbors` of `Node<T>` (NodeManager.cs): for every neighbour slot not
 * already holding a node at this node's level, search from the manager's
 * top-level nodes at the probe point one node width beyond the centre, store
 * the answer, and when it is at this node's level link it back.
 */
module Neighbors {
  import opened Wrappers
  import opened Vectors
  import opened Geometry
  import opened Arena
  import opened Search
  import opened NeighborLog

  /** Store `s` in neighbour slot `i` of `id`; every other slot of every node is as before. */
  function SetNeighbor<T>(t: Tree<T>, id: NodeId, i: nat, s: Option<NodeId>): (r: Tree<T>)
    requires Wf(t) && id in t.nodes && i < 6
    requires s.Some? ==> s.value in t.nodes && s.value != id
    ensures Wf(r) && NeighborsOnly(t, r)
    ensures NeighborAt(r, id, i) == s
    ensures forall x, m :: x != id || m != i ==> NeighborAt(r, x, m) == NeighborAt(t, x, m)
  {
    LinkWf(t.nodes, t.nextId, t.maxLOD, id, i, s);
    t.(nodes := t.nodes[id := t.nodes[id].(neighborNodes := t.nodes[id].neighborNodes[i := s])])
  }

  /** One turn of the loop, for slot `i`: skip a slot holding a node at `id`'s level, search otherwise. */
  function FindSlot<T>(t: Tree<T>, tops: seq<Option<NodeId>>, id: NodeId, i: nat): (r: Tree<T>)
    requires Wf(t) && TopsIn(t, tops) && id in t.nodes && i < 6
    ensures Wf(r) && NeighborsOnly(t, r) && SlotsTouched(t, r, id, i)
    ensures SlotDone(t, r, tops, id, i)
  {
    var n := t.nodes[id];
    assert Local(n, t.maxLOD) && Links(t.nodes, id);
    var s := n.neighborNodes[i];
    if s.Some? && t.nodes[s.value].lod == n.lod then t
    else Probe(t, tops, id, i)
  }

  /** Search for the probe point of slot `i`, store the answer, and link it back when it is at `id`'s level. */
  function Probe<T>(t: Tree<T>, tops: seq<Option<NodeId>>, id: NodeId, i: nat): (r: Tree<T>)
    requires Wf(t) && TopsIn(t, tops) && id in t.nodes && i < 6
    ensures Wf(r) && NeighborsOnly(t, r) && SlotsTouched(t, r, id, i)
    ensures Local(t.nodes[id], t.maxLOD)
    ensures var q := r.nodes[id].neighborNodes[i];
            && Found(r, tops, id, i, q)
            && (q.Some? && r.nodes[q.value].lod == r.nodes[id].lod ==> r.nodes[q.value].neighborNodes[OppositeNeighbor[i]] == Some(id))
  {
    var n := t.nodes[id];
    assert Local(n, t.maxLOD);
    var q := ManagerSearch(t, tops, SearchPos(n.position, n.lod, i), n.lod);
    SearchPosOutside(n.position, n.lod, i);
    var r := Store(t, id, i, q);
    FoundKept(t, r, tops, id, i, q);
    r
  }

  /**
   * Store `q` in slot `i` of `id` and, when `q` is at `id`'s level, `id` in
   * the opposite slot of `q`.
   */
  function Store<T>(t: Tree<T>, id: NodeId, i: nat, q: Option<NodeId>): (r: Tree<T>)
    requires Wf(t) && id in t.nodes && i < 6
    requires q.Some? ==> q.value in t.nodes && q.value != id
    ensures Wf(r) && NeighborsOnly(t, r) && SlotsTouched(t, r, id, i)
    ensures Local(r.nodes[id], r.maxLOD) && r.nodes[id].neighborNodes[i] == q
    ensures q.Some? ==> q.value in r.nodes && r.nodes[q.value].lod == t.nodes[q.value].lod
    ensures r.nodes[id].lod == t.nodes[id].lod
    ensures q.Some? && t.nodes[q.value].lod == t.nodes[id].lod ==> NeighborAt(r, q.value, OppositeNeighbor[i]) == Some(id)
  {
    var t1 := SetNeighbor(t, id, i, q);
    OppositeInvolution(i);
    var r := if q.Some? && t.nodes[q.value].lod == t.nodes[id].lod then SetNeighbor(t1, q.value, OppositeNeighbor[i], Some(id)) else t1;
    NeighborsOnlyTrans(t, t1, r);
    assert r.nodes[id] == t.nodes[id].(neighborNodes := r.nodes[id].neighborNodes);
    assert Local(r.nodes[id], r.maxLOD);
    assert q.Some? ==> r.nodes[q.value] == t.nodes[q.value].(neighborNodes := r.nodes[q.value].neighborNodes);
    r
  }

  /** The loop over slots `i..5`. */
  function FindFrom<T>(t: Tree<T>, tops: seq<Option<NodeId>>, id: NodeId, i: nat): (r: Tree<T>)
    requires Wf(t) && TopsIn(t, tops) && id in t.nodes && i <= 6
    ensures Wf(r) && NeighborsOnly(t, r) && TouchedFrom(t, r, id, i)
    ensures forall k :: i <= k < 6 ==> SlotDone(t, r, tops, id, k)
    decreases 6 - i
  {
    if i == 6 then t
    else
      var t1 := FindSlot(t, tops, id, i);
      var r := FindFrom(t1, tops, id, i + 1);
      TurnsCompose(t, t1, r, tops, id, i);
      r
  }

  /** Turn `i` followed by turns `i + 1..5` does what turns `i..5` promise. */
  lemma TurnsCompose<T>(t: Tree<T>, t1: Tree<T>, r: Tree<T>, tops: seq<Option<NodeId>>, id: NodeId, i: nat)
    requires Wf(t) && Wf(t1) && id in t.nodes && i < 6
    requires NeighborsOnly(t, t1) && SlotsTouched(t, t1, id, i) && SlotDone(t, t1, tops, id, i)
    requires NeighborsOnly(t1, r) && TouchedFrom(t1, r, id, i + 1)
    requires forall k :: i + 1 <= k < 6 ==> SlotDone(t1, r, tops, id, k)
    ensures NeighborsOnly(t, r) && TouchedFrom(t, r, id, i)
    ensures forall k :: i <= k < 6 ==> SlotDone(t, r, tops, id, k)
  {
    NeighborsOnlyTrans(t, t1, r);
    TurnSurvives(t, t1, r, tops, id, i);
    LaterTurnsRebase(t, t1, r, tops, id, i);
    TouchedCompose(t, t1, r, id, i);
  }

  /** Turn `i`'s outcome survives turns `i + 1..5`, which write neither its slot nor the slots opposite to it. */
  lemma TurnSurvives<T>(t: Tree<T>, t1: Tree<T>, r: Tree<T>, tops: seq<Option<NodeId>>, id: NodeId, i: nat)
    requires Wf(t) && Wf(t1) && id in t.nodes && i < 6
    requires NeighborsOnly(t, t1) && SlotDone(t, t1, tops, id, i)
    requires NeighborsOnly(t1, r) && TouchedFrom(t1, r, id, i + 1)
    ensures SlotDone(t, r, tops, id, i)
  {
    OppositeInvolution(i);
    SlotDoneFramed(t, t1, r, tops, id, i);
  }

  /** The outcomes of turns `i + 1..5`, read against the tree turn `i` left, hold against the tree before it. */
  lemma LaterTurnsRebase<T>(t: Tree<T>, t1: Tree<T>, r: Tree<T>, tops: seq<Option<NodeId>>, id: NodeId, i: nat)
    requires Wf(t) && Wf(t1) && id in t.nodes && i < 6
    requires NeighborsOnly(t, t1) && SlotsTouched(t, t1, id, i) && NeighborsOnly(t1, r)
    requires forall k :: i + 1 <= k < 6 ==> SlotDone(t1, r, tops, id, k)
    ensures forall k :: i + 1 <= k < 6 ==> SlotDone(t, r, tops, id, k)
  {
    forall k | i + 1 <= k < 6
      ensures SlotDone(t, r, tops, id, k)
    {
      SlotDoneRebase(t, t1, r, tops, id, k);
    }
  }

  /**
   * `findNeighbors`: every neighbour slot of `id` either keeps the node at
   * `id`'s level it held, or holds the answer of a search for its probe
   * point, linked back when that answer is at `id`'s level.  Only neighbour
   * slots change.
   */
  function FindNeighbors<T>(t: Tree<T>, tops: seq<Option<NodeId>>, id: NodeId): (r: Tree<T>)
    requires Wf(t) && TopsIn(t, tops) && id in t.nodes
    ensures Wf(r) && NeighborsOnly(t, r)
    ensures forall k :: 0 <= k < 6 ==> SlotDone(t, r, tops, id, k)
  {
    FindFrom(t, tops, id, 0)
  }
}
