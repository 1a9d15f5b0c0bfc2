/**
 * Point search over the octree (NodeManager.cs): `Node<T>.SearchNode`, which
 * descends through children whose tight box holds the point and climbs to the
 * parent when the node's padded box does not, and `NodeManager<T>.SearchNode`,
 * which starts from the first top-level node whose tight box holds it.
 * Searching creates nothing.
 */
module Search {
  import opened Wrappers
  import opened Vectors
  import opened Geometry
  import opened Arena

  /** The tight box of `id` holds `p`. */
  predicate Tight<T>(nodes: map<NodeId, Node<T>>, id: NodeId, p: V3)
    requires id in nodes
  {
    nodes[id].lod <= MaxLevel && ContainsPoint(nodes[id].position, nodes[id].lod, p)
  }

  /** The density box of `id` (the tight box padded by one voxel) holds `p`. */
  predicate Padded<T>(nodes: map<NodeId, Node<T>>, id: NodeId, p: V3)
    requires id in nodes
  {
    nodes[id].lod <= MaxLevel && ContainsDensityPoint(nodes[id].position, nodes[id].lod, p)
  }

  lemma TightPadded<T>(nodes: map<NodeId, Node<T>>, id: NodeId, p: V3)
    requires id in nodes && Tight(nodes, id, p)
    ensures Padded(nodes, id, p)
  {
    TightInsideDensity(nodes[id].position, nodes[id].lod, p);
  }

  /** The child in the first of slots `i..7` whose tight box holds `p`, if any. */
  function FirstHolding<T>(t: Tree<T>, id: NodeId, p: V3, i: nat): (r: Option<NodeId>)
    requires Wf(t) && id in t.nodes && i <= 8
    ensures r.Some? ==> exists j :: i <= j < 8 && t.nodes[id].subNodes[j] == r
    ensures r.Some? ==> r.value in t.nodes && t.nodes[r.value].lod + 1 == t.nodes[id].lod && Tight(t.nodes, r.value, p)
    ensures r.None? ==> forall j :: i <= j < 8 && t.nodes[id].subNodes[j].Some? ==>
              t.nodes[id].subNodes[j].value in t.nodes && !Tight(t.nodes, t.nodes[id].subNodes[j].value, p)
    decreases 8 - i
  {
    assert Local(t.nodes[id], t.maxLOD) && Links(t.nodes, id);
    if i == 8 then None
    else
      assert ChildAt(t.nodes, t.nodes[id], i);
      var s := t.nodes[id].subNodes[i];
      if s.Some? && Tight(t.nodes, s.value, p) then s
      else FirstHolding(t, id, p, i + 1)
  }

  /** A node with a child in every slot passes a point of its tight box on to a child. */
  lemma CoveredByChild<T>(t: Tree<T>, id: NodeId, p: V3)
    requires Wf(t) && id in t.nodes
    ensures Tight(t.nodes, id, p) && !IsBottomLevel(t.nodes, id) ==> FirstHolding(t, id, p, 0).Some?
  {
    if Tight(t.nodes, id, p) && !IsBottomLevel(t.nodes, id) {
      BottomLevelMeans(t.nodes, id);
      assert Local(t.nodes[id], t.maxLOD) && Links(t.nodes, id);
      assert !SlotVacant(t.nodes, id, 0) && ChildAt(t.nodes, t.nodes[id], 0);
      var n := t.nodes[id];
      var i := ChildHolding(n.position, n.lod, p);
      assert !SlotVacant(t.nodes, id, i) && ChildAt(t.nodes, n, i);
    }
  }

  /**
   * The descent of `Node<T>.SearchNode` once the node's padded box holds the
   * point: stop at the searched level or at a leaf, otherwise continue into
   * the first child whose tight box holds the point, or stop if there is none.
   */
  function Descend<T>(t: Tree<T>, id: NodeId, p: V3, searchLOD: int): (r: NodeId)
    requires Wf(t) && id in t.nodes
    ensures r in t.nodes && t.nodes[r].lod <= t.nodes[id].lod
    ensures r == id || Tight(t.nodes, r, p)
    ensures Tight(t.nodes, id, p) ==> Tight(t.nodes, r, p) && (t.nodes[r].lod == searchLOD || IsBottomLevel(t.nodes, r))
    ensures Padded(t.nodes, id, p) ==> Padded(t.nodes, r, p)
    ensures searchLOD <= t.nodes[id].lod ==> searchLOD <= t.nodes[r].lod
    decreases t.nodes[id].lod
  {
    if t.nodes[id].lod == searchLOD || IsBottomLevel(t.nodes, id) then id
    else
      var c := FirstHolding(t, id, p, 0);
      CoveredByChild(t, id, p);
      if c.None? then
        id
      else
        TightPadded(t.nodes, c.value, p);
        Descend(t, c.value, p, searchLOD)
  }

  /** Every top-level reference resolves. */
  predicate TopsIn<T>(t: Tree<T>, tops: seq<Option<NodeId>>)
  {
    forall k :: 0 <= k < |tops| && tops[k].Some? ==> tops[k].value in t.nodes
  }

  /** The measure shared by the two searches: climbing only while the padded box misses, then at most one restart. */
  function Rank<T>(t: Tree<T>, id: NodeId, p: V3): (r: (nat, nat))
    requires Wf(t) && id in t.nodes
  {
    assert Local(t.nodes[id], t.maxLOD);
    (if Padded(t.nodes, id, p) then 0 else 1, MaxLevel - t.nodes[id].lod)
  }

  /**
   * `Node<T>.SearchNode`: descend if the padded box holds the point, else
   * retry from the parent, else from the manager's top-level nodes.
   */
  function NodeSearch<T>(t: Tree<T>, tops: seq<Option<NodeId>>, id: NodeId, p: V3, searchLOD: int): (r: Option<NodeId>)
    requires Wf(t) && id in t.nodes && TopsIn(t, tops)
    ensures r.Some? ==> r.value in t.nodes && Padded(t.nodes, r.value, p)
    ensures Padded(t.nodes, id, p) ==> r == Some(Descend(t, id, p, searchLOD))
    decreases Rank(t, id, p).0, Rank(t, id, p).1, 0
  {
    if Padded(t.nodes, id, p) then
      Some(Descend(t, id, p, searchLOD))
    else
      var q := Parent(t, id);
      if q.Some? then NodeSearch(t, tops, q.value, p, searchLOD)
      else ManagerSearchFrom(t, tops, p, searchLOD, 0)
  }

  /** `NodeManager<T>.SearchNode` from top-level index `k` on (index `9x + 3y + z`). */
  function ManagerSearchFrom<T>(t: Tree<T>, tops: seq<Option<NodeId>>, p: V3, searchLOD: int, k: nat): (r: Option<NodeId>)
    requires Wf(t) && TopsIn(t, tops) && k <= |tops|
    ensures r.Some? ==> r.value in t.nodes && Tight(t.nodes, r.value, p)
    ensures r.Some? ==> t.nodes[r.value].lod == searchLOD || IsBottomLevel(t.nodes, r.value)
    ensures r.None? <==> forall j :: k <= j < |tops| && tops[j].Some? ==> !Tight(t.nodes, tops[j].value, p)
    ensures r.Some? && (forall j :: k <= j < |tops| && tops[j].Some? ==> searchLOD <= t.nodes[tops[j].value].lod) ==>
              searchLOD <= t.nodes[r.value].lod
    decreases 0, MaxLevel + 1, |tops| - k
  {
    if k == |tops| then None
    else if tops[k].Some? && Tight(t.nodes, tops[k].value, p) then
      TightPadded(t.nodes, tops[k].value, p);
      NodeSearch(t, tops, tops[k].value, p, searchLOD)
    else
      ManagerSearchFrom(t, tops, p, searchLOD, k + 1)
  }

  /**
   * `NodeManager<T>.SearchNode`: nothing iff no top-level node's tight box
   * holds the point; otherwise a node whose tight box holds it, at the
   * searched level or a leaf, and no finer than the searched level when no
   * top-level node is.
   */
  function ManagerSearch<T>(t: Tree<T>, tops: seq<Option<NodeId>>, p: V3, searchLOD: int): (r: Option<NodeId>)
    requires Wf(t) && TopsIn(t, tops)
    ensures r.None? <==> forall j :: 0 <= j < |tops| && tops[j].Some? ==> !Tight(t.nodes, tops[j].value, p)
    ensures r.Some? ==> r.value in t.nodes && Tight(t.nodes, r.value, p)
    ensures r.Some? ==> t.nodes[r.value].lod == searchLOD || IsBottomLevel(t.nodes, r.value)
    ensures r.Some? && (forall j :: 0 <= j < |tops| && tops[j].Some? ==> searchLOD <= t.nodes[tops[j].value].lod) ==>
              searchLOD <= t.nodes[r.value].lod
  {
    ManagerSearchFrom(t, tops, p, searchLOD, 0)
  }
}
