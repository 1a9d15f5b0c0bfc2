/**
 * `Node<T>.SearchNodeCreate` and `NodeManager<T>.SearchNodeContainingDensity`
 * (NodeManager.cs): collect, into a list of eight entries, nodes at the
 * searched level whose padded box holds a point, subdividing leaves on the
 * way down so that the searched level exists.
 */
module SearchCreate {
  import opened Wrappers
  import opened Vectors
  import opened Arena
  import opened LevelFrames
  import opened Search
  import opened ViewUpdate
  import opened Hits

  /** Leaves subdivide, after which every slot of a node above level 0 holds a child. */
  function Open<T>(t: Tree<T>, id: NodeId): (r: Tree<T>)
    requires Wf(t) && Shaped(t) && id in t.nodes && t.nodes[id].lod > 0
    ensures ViewFrame(t, r, t.nodes[id].lod) && id in r.nodes
    ensures AllSome(r.nodes[id].subNodes)
  {
    var r := Sprout(t, id);
    BottomLevelMeans(t.nodes, id);
    assert Local(t.nodes[id], t.maxLOD);
    assert !IsBottomLevel(t.nodes, id) ==> forall j :: 0 <= j < 8 ==> !SlotVacant(t.nodes, id, j);
    r
  }

  /**
   * `SearchNodeCreate`: nothing unless the padded box holds the point; at the
   * searched level the node is stored in the first empty entry; above it the
   * node subdivides if it is a leaf and every child is searched in slot
   * order.  The searched level must lie between 0 and the node's level:
   * below that the source dereferences an empty slot of a level-0 node.
   */
  function SearchNodeCreate<T>(t: Tree<T>, id: NodeId, p: V3, searchLOD: int, list: seq<Option<NodeId>>)
    : (r: (Tree<T>, seq<Option<NodeId>>))
    requires Wf(t) && Shaped(t) && id in t.nodes && 0 <= searchLOD <= t.nodes[id].lod
    ensures ViewFrame(t, r.0, t.nodes[id].lod)
    ensures Collected(list, r.1, r.0, p, searchLOD)
    ensures !Padded(t.nodes, id, p) ==> r == (t, list)
    ensures Padded(t.nodes, id, p) && t.nodes[id].lod == searchLOD ==> r == (t, AddFirstFree(list, id))
    decreases t.nodes[id].lod, 1, 0
  {
    ViewFrameRefl(t, t.nodes[id].lod);
    if !Padded(t.nodes, id, p) then (t, list)
    else if t.nodes[id].lod == searchLOD then
      AddFirstFreeMeans(list, id);
      (t, AddFirstFree(list, id))
    else
      SearchBelow(t, id, p, searchLOD, list)
  }

  /** Above the searched level: subdivide a leaf, then search every child in slot order. */
  function SearchBelow<T>(t: Tree<T>, id: NodeId, p: V3, searchLOD: int, list: seq<Option<NodeId>>)
    : (r: (Tree<T>, seq<Option<NodeId>>))
    requires Wf(t) && Shaped(t) && id in t.nodes && 0 <= searchLOD < t.nodes[id].lod
    ensures ViewFrame(t, r.0, t.nodes[id].lod)
    ensures Collected(list, r.1, r.0, p, searchLOD)
    decreases t.nodes[id].lod, 0, 9, 0
  {
    var t1 := Open(t, id);
    var r := CreateFrom(t1, id, p, searchLOD, list, 0);
    ViewFrameWiden(t1, r.0, t.nodes[id].lod - 1, t.nodes[id].lod);
    ViewFrameTrans(t, t1, r.0, t.nodes[id].lod);
    r
  }

  /** The loop over slots `i..7` of `SearchNodeCreate`, every slot holding a child. */
  function CreateFrom<T>(t: Tree<T>, id: NodeId, p: V3, searchLOD: int, list: seq<Option<NodeId>>, i: nat)
    : (r: (Tree<T>, seq<Option<NodeId>>))
    requires Wf(t) && Shaped(t) && id in t.nodes && 0 <= searchLOD < t.nodes[id].lod && i <= 8
    requires AllSome(t.nodes[id].subNodes)
    ensures ViewFrame(t, r.0, t.nodes[id].lod - 1)
    ensures Collected(list, r.1, r.0, p, searchLOD)
    decreases t.nodes[id].lod, 0, 8 - i, 1
  {
    if i == 8 then
      ViewFrameRefl(t, t.nodes[id].lod - 1);
      (t, list)
    else
      var r1 := CreateSlot(t, id, p, searchLOD, list, i);
      var r := CreateFrom(r1.0, id, p, searchLOD, r1.1, i + 1);
      ViewFrameTrans(t, r1.0, r.0, t.nodes[id].lod - 1);
      CollectedTrans(list, r1.1, r.1, r1.0, r.0, p, searchLOD);
      r
  }

  /** One turn of that loop: search from the child in slot `i`. */
  function CreateSlot<T>(t: Tree<T>, id: NodeId, p: V3, searchLOD: int, list: seq<Option<NodeId>>, i: nat)
    : (r: (Tree<T>, seq<Option<NodeId>>))
    requires Wf(t) && Shaped(t) && id in t.nodes && 0 <= searchLOD < t.nodes[id].lod && i < 8
    requires AllSome(t.nodes[id].subNodes)
    ensures ViewFrame(t, r.0, t.nodes[id].lod - 1)
    ensures Collected(list, r.1, r.0, p, searchLOD)
    ensures id in r.0.nodes && r.0.nodes[id].lod == t.nodes[id].lod
    ensures AllSome(r.0.nodes[id].subNodes)
    decreases t.nodes[id].lod, 0, 8 - i, 0
  {
    assert Local(t.nodes[id], t.maxLOD) && Links(t.nodes, id);
    assert ChildAt(t.nodes, t.nodes[id], i);
    var r := SearchNodeCreate(t, t.nodes[id].subNodes[i].value, p, searchLOD, list);
    assert Kept(t.nodes[id], r.0.nodes[id]);
    r
  }

  /** Every top-level reference resolves to a node at or above the searched level. */
  predicate TopsAbove<T>(t: Tree<T>, tops: seq<Option<NodeId>>, searchLOD: int)
  {
    forall k :: 0 <= k < |tops| && tops[k].Some? ==> tops[k].value in t.nodes && searchLOD <= t.nodes[tops[k].value].lod
  }

  /** Eight empty entries. */
  const NoHits: seq<Option<NodeId>> := [None, None, None, None, None, None, None, None]

  /**
   * `SearchNodeContainingDensity`: run `SearchNodeCreate` from every
   * top-level node in index order into one list of eight entries, initially
   * empty.  Every entry ends empty or holding a node at the searched level
   * whose padded box holds the point.
   */
  function SearchContainingDensity<T>(t: Tree<T>, tops: seq<Option<NodeId>>, p: V3, searchLOD: int)
    : (r: (Tree<T>, seq<Option<NodeId>>))
    requires Wf(t) && Shaped(t) && 0 <= searchLOD && TopsAbove(t, tops, searchLOD)
    ensures Wf(r.0) && Shaped(r.0) && Evolves(t, r.0)
    ensures |r.1| == 8
    ensures forall k :: 0 <= k < 8 && r.1[k].Some? ==>
              r.1[k].value in r.0.nodes && r.0.nodes[r.1[k].value].lod == searchLOD && Padded(r.0.nodes, r.1[k].value, p)
  {
    ContainingFrom(t, tops, p, searchLOD, NoHits, 0)
  }

  /** The loop over top-level indices `k..26`. */
  function ContainingFrom<T>(t: Tree<T>, tops: seq<Option<NodeId>>, p: V3, searchLOD: int, list: seq<Option<NodeId>>, k: nat)
    : (r: (Tree<T>, seq<Option<NodeId>>))
    requires Wf(t) && Shaped(t) && 0 <= searchLOD && TopsAbove(t, tops, searchLOD) && k <= |tops|
    ensures Wf(r.0) && Shaped(r.0) && Evolves(t, r.0)
    ensures Collected(list, r.1, r.0, p, searchLOD)
    decreases |tops| - k
  {
    if k == |tops| then
      (t, list)
    else
      var r1 := if tops[k].Some? then SearchNodeCreate(t, tops[k].value, p, searchLOD, list) else (t, list);
      assert TopsAbove(r1.0, tops, searchLOD) by {
        forall j | 0 <= j < |tops| && tops[j].Some?
          ensures tops[j].value in r1.0.nodes && searchLOD <= r1.0.nodes[tops[j].value].lod
        {
          assert Kept(t.nodes[tops[j].value], r1.0.nodes[tops[j].value]);
        }
      }
      var r := ContainingFrom(r1.0, tops, p, searchLOD, r1.1, k + 1);
      EvolvesTrans(t, r1.0, r.0);
      CollectedTrans(list, r1.1, r.1, r1.0, r.0, p, searchLOD);
      r
  }
}
