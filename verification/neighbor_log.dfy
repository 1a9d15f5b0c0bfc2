/**
 * What `findNeighbors` of `Node<T>` (NodeManager.cs) may change and what each
 * turn of its loop leaves behind: only neighbour slots move, and a slot it
 * fills holds a node other than the searching one whose tight box holds the
 * probe point one node width beyond the centre.
 */
module NeighborLog {
  import opened Wrappers
  import opened Vectors
  import opened Geometry
  import opened Arena
  import opened Search
  import opened LevelFrames

  /** `r` is `t` with at most neighbour slots changed; every node keeps six of them. */
  ghost predicate NeighborsOnly<T>(t: Tree<T>, r: Tree<T>)
  {
    && r == t.(nodes := r.nodes)
    && r.nodes.Keys == t.nodes.Keys
    && forall x :: x in t.nodes ==>
         && r.nodes[x] == t.nodes[x].(neighborNodes := r.nodes[x].neighborNodes)
         && |r.nodes[x].neighborNodes| == |t.nodes[x].neighborNodes|
  }

  lemma NeighborsOnlyTrans<T>(a: Tree<T>, b: Tree<T>, c: Tree<T>)
    requires NeighborsOnly(a, b) && NeighborsOnly(b, c)
    ensures NeighborsOnly(a, c)
  {
    forall x | x in a.nodes
      ensures c.nodes[x] == a.nodes[x].(neighborNodes := c.nodes[x].neighborNodes)
    {
      assert b.nodes[x] == a.nodes[x].(neighborNodes := b.nodes[x].neighborNodes);
    }
  }

  /** Neighbour slot `m` of node `x`, empty for a missing node or slot. */
  function NeighborAt<T>(t: Tree<T>, x: NodeId, m: nat): Option<NodeId>
  {
    if x in t.nodes && m < |t.nodes[x].neighborNodes| then t.nodes[x].neighborNodes[m] else None
  }

  /**
   * Only neighbour slot `i` of `id` and slot `OppositeNeighbor[i]` of other
   * nodes may differ between `t` and `r`.
   */
  ghost predicate SlotsTouched<T>(t: Tree<T>, r: Tree<T>, id: NodeId, i: nat)
    requires i < 6
  {
    forall x, m :: 0 <= m < 6 && (x == id ==> m != i) && (x != id ==> m != OppositeNeighbor[i]) ==>
      NeighborAt(r, x, m) == NeighborAt(t, x, m)
  }

  /** The probe point of neighbour slot `i`: one node width from the centre along the slot's axis. */
  function SearchPos(position: V3, lod: nat, i: nat): V3
    requires lod <= MaxLevel && i < 6
  {
    Add(Center(position, lod), Scale(NeighborMask[i], Width(lod)))
  }

  /** A node's own tight box never holds one of its probe points. */
  lemma SearchPosOutside(position: V3, lod: nat, i: nat)
    requires lod <= MaxLevel && i < 6
    ensures !ContainsPoint(position, lod, SearchPos(position, lod, i))
  {
    WidthPositive(lod);
  }

  /**
   * `s` is what a search from the top-level nodes for the probe point of
   * slot `i`, at `id`'s level, may answer: nothing when no top-level tight box
   * holds the point, otherwise another node whose tight box holds it, at
   * `id`'s level or a leaf.
   */
  ghost predicate Found<T>(t: Tree<T>, tops: seq<Option<NodeId>>, id: NodeId, i: nat, s: Option<NodeId>)
    requires id in t.nodes && i < 6 && t.nodes[id].lod <= MaxLevel
  {
    var n := t.nodes[id];
    var p := SearchPos(n.position, n.lod, i);
    && (s.None? ==> forall j :: 0 <= j < |tops| && tops[j].Some? && tops[j].value in t.nodes ==> !Tight(t.nodes, tops[j].value, p))
    && (s.Some? ==> && s.value in t.nodes && s.value != id && Tight(t.nodes, s.value, p)
                    && (t.nodes[s.value].lod == n.lod || IsBottomLevel(t.nodes, s.value)))
  }

  /** Changing neighbour slots changes no search answer. */
  lemma FoundKept<T>(t: Tree<T>, r: Tree<T>, tops: seq<Option<NodeId>>, id: NodeId, i: nat, s: Option<NodeId>)
    requires Wf(t) && NeighborsOnly(t, r) && id in t.nodes && i < 6 && t.nodes[id].lod <= MaxLevel
    requires Found(t, tops, id, i, s)
    ensures Found(r, tops, id, i, s)
  {
    assert r.nodes[id] == t.nodes[id].(neighborNodes := r.nodes[id].neighborNodes);
    if s.Some? {
      var x := s.value;
      assert r.nodes[x] == t.nodes[x].(neighborNodes := r.nodes[x].neighborNodes);
      forall y | y in t.nodes
        ensures r.nodes[y].disposed == t.nodes[y].disposed
      {
        assert r.nodes[y] == t.nodes[y].(neighborNodes := r.nodes[y].neighborNodes);
      }
      LeafTestKept(t, r, x);
    }
    forall j | 0 <= j < |tops| && tops[j].Some? && tops[j].value in t.nodes
      ensures r.nodes[tops[j].value].lod == t.nodes[tops[j].value].lod
      ensures r.nodes[tops[j].value].position == t.nodes[tops[j].value].position
    {
      assert r.nodes[tops[j].value] == t.nodes[tops[j].value].(neighborNodes := r.nodes[tops[j].value].neighborNodes);
    }
  }

  /**
   * The outcome of turn `k` of `findNeighbors` on `id`, read in the tree `r`
   * after the loop, where `t` is the tree before it: a slot that held a node
   * at `id`'s level is unchanged; any other slot holds a search answer, and
   * when that answer is at `id`'s level its opposite slot points back at `id`.
   */
  ghost predicate SlotDone<T>(t: Tree<T>, r: Tree<T>, tops: seq<Option<NodeId>>, id: NodeId, k: nat)
    requires Wf(t) && NeighborsOnly(t, r) && id in t.nodes && k < 6
  {
    assert Local(t.nodes[id], t.maxLOD);
    var s := t.nodes[id].neighborNodes[k];
    var s2 := r.nodes[id].neighborNodes[k];
    if s.Some? && s.value in t.nodes && t.nodes[s.value].lod == t.nodes[id].lod then s2 == s
    else
      && Found(r, tops, id, k, s2)
      && (s2.Some? && r.nodes[s2.value].lod == r.nodes[id].lod ==>
            r.nodes[s2.value].neighborNodes[OppositeNeighbor[k]] == Some(id))
  }

  /**
   * Turns `i..5` write only slots `i..5` of `id` and, of other nodes, only
   * the slots opposite to those.
   */
  ghost predicate TouchedFrom<T>(t: Tree<T>, r: Tree<T>, id: NodeId, i: nat)
  {
    forall x, m :: 0 <= m < 6 && (x == id ==> m < i) && (x != id ==> OppositeNeighbor[m] < i) ==>
      NeighborAt(r, x, m) == NeighborAt(t, x, m)
  }

  /** What a turn left behind survives later writes that miss its slot and its opposite slots. */
  lemma SlotDoneFramed<T>(t: Tree<T>, r1: Tree<T>, r2: Tree<T>, tops: seq<Option<NodeId>>, id: NodeId, k: nat)
    requires Wf(t) && Wf(r1) && NeighborsOnly(t, r1) && NeighborsOnly(r1, r2) && id in t.nodes && k < 6
    requires SlotDone(t, r1, tops, id, k)
    requires NeighborAt(r2, id, k) == NeighborAt(r1, id, k)
    requires forall x :: x != id ==> NeighborAt(r2, x, OppositeNeighbor[k]) == NeighborAt(r1, x, OppositeNeighbor[k])
    ensures NeighborsOnly(t, r2) && SlotDone(t, r2, tops, id, k)
  {
    NeighborsOnlyTrans(t, r1, r2);
    assert Local(t.nodes[id], t.maxLOD);
    var s := t.nodes[id].neighborNodes[k];
    var s2 := r1.nodes[id].neighborNodes[k];
    if !(s.Some? && s.value in t.nodes && t.nodes[s.value].lod == t.nodes[id].lod) {
      assert r1.nodes[id] == t.nodes[id].(neighborNodes := r1.nodes[id].neighborNodes);
      FoundKept(r1, r2, tops, id, k, s2);
      if s2.Some? {
        assert Local(r1.nodes[s2.value], r1.maxLOD);
        assert NeighborAt(r2, s2.value, OppositeNeighbor[k]) == NeighborAt(r1, s2.value, OppositeNeighbor[k]);
      }
    }
  }

  /**
   * A turn's outcome, stated against the tree after an earlier turn for
   * another slot, holds against the tree before it: that turn left this
   * slot of `id` and every level alone.
   */
  lemma SlotDoneRebase<T>(t: Tree<T>, t1: Tree<T>, r: Tree<T>, tops: seq<Option<NodeId>>, id: NodeId, k: nat)
    requires Wf(t) && Wf(t1) && NeighborsOnly(t, t1) && NeighborsOnly(t1, r) && id in t.nodes && k < 6
    requires NeighborAt(t1, id, k) == NeighborAt(t, id, k)
    requires SlotDone(t1, r, tops, id, k)
    ensures NeighborsOnly(t, r) && SlotDone(t, r, tops, id, k)
  {
    NeighborsOnlyTrans(t, t1, r);
    assert Local(t.nodes[id], t.maxLOD);
    var s := t.nodes[id].neighborNodes[k];
    if s.Some? && s.value in t.nodes {
      assert t1.nodes[s.value] == t.nodes[s.value].(neighborNodes := t1.nodes[s.value].neighborNodes);
    }
    assert t1.nodes[id] == t.nodes[id].(neighborNodes := t1.nodes[id].neighborNodes);
  }

  /** Turn `i`'s writes followed by those of turns `i + 1..5` are those of turns `i..5`. */
  lemma TouchedCompose<T>(t: Tree<T>, t1: Tree<T>, r: Tree<T>, id: NodeId, i: nat)
    requires i < 6 && SlotsTouched(t, t1, id, i) && TouchedFrom(t1, r, id, i + 1)
    ensures TouchedFrom(t, r, id, i)
  {
    forall x, m | 0 <= m < 6 && (x == id ==> m < i) && (x != id ==> OppositeNeighbor[m] < i)
      ensures NeighborAt(r, x, m) == NeighborAt(t, x, m)
    {
      OppositeInvolution(m);
      assert NeighborAt(t1, x, m) == NeighborAt(t, x, m);
    }
  }

  /** Storing `s` in neighbour slot `i` of `id` keeps the arena well formed when `s` names another node. */
  lemma LinkWf<T>(nodes: map<NodeId, Node<T>>, nextId: NodeId, maxLOD: nat, id: NodeId, i: nat, s: Option<NodeId>)
    requires NodesWf(nodes, nextId, maxLOD) && id in nodes && i < 6
    requires s.Some? ==> s.value in nodes && s.value != id
    ensures Local(nodes[id], maxLOD)
    ensures NodesWf(nodes[id := nodes[id].(neighborNodes := nodes[id].neighborNodes[i := s])], nextId, maxLOD)
  {
    var m := nodes[id := nodes[id].(neighborNodes := nodes[id].neighborNodes[i := s])];
    forall x | x in m
      ensures GridOk(m, x)
    {
      assert GridOk(nodes, x);
    }
    forall x | x in m
      ensures Links(m, x)
    {
      assert Links(nodes, x);
      forall j | 0 <= j < 8
        ensures ChildAt(m, m[x], j)
      {
        assert ChildAt(nodes, nodes[x], j);
      }
    }
  }
}
