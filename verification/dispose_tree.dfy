/**
 * What `Dispose` of `Node<T>` (NodeManager.cs) does to a whole subtree: every
 * node reachable through child slots ends disposed, no node outside the
 * subtree changes its disposed flag, and each level's node counter drops by
 * the number of nodes of that level it released.  Child slots may share a
 * node, so the arena is walked as a graph: a node already disposed is
 * skipped, which is sound as long as disposed nodes keep no children.
 */
module DisposeTree {
  import opened Wrappers
  import opened Geometry
  import opened Arena
  import opened DisposeLog
  import opened Disposal
  import opened Lineages

  /** Every disposed node has empty child slots, as `Dispose` leaves it. */
  ghost predicate Settled<T>(nodes: map<NodeId, Node<T>>)
  {
    forall x :: x in nodes && nodes[x].disposed ==> AllNone(nodes[x].subNodes)
  }

  /** `Settled` for the nodes below level `l`. */
  ghost predicate SettledBelow<T>(nodes: map<NodeId, Node<T>>, l: int)
  {
    forall x :: x in nodes && nodes[x].disposed && nodes[x].lod < l ==> AllNone(nodes[x].subNodes)
  }

  /** Every node of `s` is in `b` and disposed there. */
  ghost predicate AllDisposed<T>(b: map<NodeId, Node<T>>, s: set<NodeId>)
  {
    forall y :: y in s ==> y in b && b[y].disposed
  }

  /**
   * Same identifiers, levels and permanence; each child slot is kept or
   * emptied, and a disposed node stays disposed.
   */
  ghost predicate Pruned<T>(a: map<NodeId, Node<T>>, b: map<NodeId, Node<T>>)
  {
    && a.Keys == b.Keys
    && forall x :: x in a ==>
         && b[x].lod == a[x].lod
         && (a[x].disposed ==> b[x].disposed) && b[x].permanent == a[x].permanent
         && |b[x].subNodes| == |a[x].subNodes|
         && forall j :: 0 <= j < |a[x].subNodes| ==> b[x].subNodes[j] == a[x].subNodes[j] || b[x].subNodes[j].None?
  }

  /** Every node below level `l` whose child slots changed has its whole former subtree disposed. */
  ghost predicate Swept<T>(a: map<NodeId, Node<T>>, b: map<NodeId, Node<T>>, l: int)
  {
    forall x :: x in a && x in b && a[x].lod < l && b[x].subNodes != a[x].subNodes ==> AllDisposed(b, Subtree(a, x))
  }

  /** A node disposed between `a` and `b` has empty child slots in `b`. */
  ghost predicate FreshSettled<T>(a: map<NodeId, Node<T>>, b: map<NodeId, Node<T>>)
  {
    forall x :: x in a && x in b && b[x].disposed && !a[x].disposed ==> AllNone(b[x].subNodes)
  }

  /** The nodes of level `l` that were live and not permanent in `a` and are disposed in `b`. */
  ghost function Gone<T>(a: map<NodeId, Node<T>>, b: map<NodeId, Node<T>>, l: int): set<NodeId>
  {
    set x | x in a && x in b && a[x].lod == l && !a[x].disposed && !a[x].permanent && b[x].disposed
  }

  /** Every level's counter dropped by the number of nodes of that level gone between `a` and `b`. */
  ghost predicate Counted<T>(a: Tree<T>, b: Tree<T>)
  {
    && |b.nodeCount| == |a.nodeCount|
    && forall l :: 0 <= l < |a.nodeCount| ==> b.nodeCount[l] == a.nodeCount[l] - |Gone(a.nodes, b.nodes, l)|
  }

  /* ---------- subtrees under pruning ---------- */

  /** A node with empty child slots is its own subtree. */
  lemma {:induction false} LeafSubtree<T>(nodes: map<NodeId, Node<T>>, id: NodeId)
    requires id in nodes && AllNone(nodes[id].subNodes)
    ensures Subtree(nodes, id) == {id}
  {
    LeafBelow(nodes, id, 0);
  }

  lemma {:induction false} LeafBelow<T>(nodes: map<NodeId, Node<T>>, id: NodeId, i: nat)
    requires id in nodes && AllNone(nodes[id].subNodes)
    ensures Below(nodes, id, i) == {}
    decreases 8 - i
  {
    if i < 8 && i < |nodes[id].subNodes| {
      LeafBelow(nodes, id, i + 1);
    }
  }

  /** Emptying child slots only shrinks subtrees. */
  lemma {:induction false} SubtreeShrinks<T>(a: map<NodeId, Node<T>>, b: map<NodeId, Node<T>>, x: NodeId)
    requires Pruned(a, b)
    ensures Subtree(b, x) <= Subtree(a, x)
    decreases if x in a then a[x].lod else 0, 1, 0
  {
    if x in a {
      BelowShrinks(a, b, x, 0);
    }
  }

  lemma {:induction false} BelowShrinks<T>(a: map<NodeId, Node<T>>, b: map<NodeId, Node<T>>, x: NodeId, i: nat)
    requires Pruned(a, b) && x in a
    ensures Below(b, x, i) <= Below(a, x, i)
    decreases a[x].lod, 0, 8 - i
  {
    if i < 8 && i < |a[x].subNodes| {
      var s := b[x].subNodes[i];
      if s.Some? && s.value in b && b[s.value].lod < b[x].lod {
        assert s == a[x].subNodes[i];
        SubtreeShrinks(a, b, s.value);
      }
      BelowShrinks(a, b, x, i + 1);
    }
  }

  /** Under `Swept`, every node of a former subtree is still in it or disposed. */
  lemma {:induction false} SubtreeCovered<T>(a: map<NodeId, Node<T>>, b: map<NodeId, Node<T>>, l: int, x: NodeId)
    requires Pruned(a, b) && Swept(a, b, l) && x in a && a[x].lod < l
    ensures forall y :: y in Subtree(a, x) ==> y in Subtree(b, x) || (y in b && b[y].disposed)
    decreases a[x].lod, 1, 0
  {
    if b[x].subNodes == a[x].subNodes {
      BelowCovered(a, b, l, x, 0);
    }
  }

  lemma {:induction false} BelowCovered<T>(a: map<NodeId, Node<T>>, b: map<NodeId, Node<T>>, l: int, x: NodeId, i: nat)
    requires Pruned(a, b) && Swept(a, b, l) && x in a && a[x].lod <= l
    requires forall j :: i <= j < |a[x].subNodes| ==> b[x].subNodes[j] == a[x].subNodes[j]
    ensures forall y :: y in Below(a, x, i) ==> y in Below(b, x, i) || (y in b && b[y].disposed)
    decreases a[x].lod, 0, 8 - i
  {
    if i < 8 && i < |a[x].subNodes| {
      var s := a[x].subNodes[i];
      if s.Some? && s.value in a && a[s.value].lod < a[x].lod {
        SubtreeCovered(a, b, l, s.value);
      }
      BelowCovered(a, b, l, x, i + 1);
    }
  }

  lemma PrunedTrans<T>(a: map<NodeId, Node<T>>, b: map<NodeId, Node<T>>, c: map<NodeId, Node<T>>)
    requires Pruned(a, b) && Pruned(b, c)
    ensures Pruned(a, c)
  {
    forall x | x in a
      ensures forall j :: 0 <= j < |a[x].subNodes| ==> c[x].subNodes[j] == a[x].subNodes[j] || c[x].subNodes[j].None?
    {
      assert |b[x].subNodes| == |a[x].subNodes|;
    }
  }

  lemma SweptTrans<T>(a: map<NodeId, Node<T>>, b: map<NodeId, Node<T>>, c: map<NodeId, Node<T>>, l: int)
    requires Pruned(a, b) && Pruned(b, c) && Swept(a, b, l) && Swept(b, c, l)
    ensures Swept(a, c, l)
  {
    forall x | x in a && x in c && a[x].lod < l && c[x].subNodes != a[x].subNodes
      ensures AllDisposed(c, Subtree(a, x))
    {
      if b[x].subNodes == a[x].subNodes {
        SubtreeCovered(a, b, l, x);
      }
    }
  }

  lemma FreshTrans<T>(a: map<NodeId, Node<T>>, b: map<NodeId, Node<T>>, c: map<NodeId, Node<T>>)
    requires Pruned(a, b) && Pruned(b, c) && FreshSettled(a, b) && FreshSettled(b, c)
    ensures FreshSettled(a, c)
  {
    forall x | x in a && x in c && c[x].disposed && !a[x].disposed
      ensures AllNone(c[x].subNodes)
    {
      if b[x].disposed {
        assert AllNone(b[x].subNodes);
      }
    }
  }

  lemma SettledCarry<T>(a: map<NodeId, Node<T>>, b: map<NodeId, Node<T>>, l: int)
    requires Pruned(a, b) && SettledBelow(a, l) && FreshSettled(a, b)
    ensures SettledBelow(b, l)
  {
    forall x | x in b && b[x].disposed && b[x].lod < l
      ensures AllNone(b[x].subNodes)
    {
      if a[x].disposed {
        assert AllNone(a[x].subNodes);
      }
    }
  }

  /** A pruning that settles what it disposes keeps every disposed node childless. */
  lemma SettledKept<T>(a: map<NodeId, Node<T>>, b: map<NodeId, Node<T>>)
    requires Pruned(a, b) && Settled(a) && FreshSettled(a, b)
    ensures Settled(b)
  {
    forall x | x in b && b[x].disposed
      ensures AllNone(b[x].subNodes)
    {
      if a[x].disposed {
        assert AllNone(a[x].subNodes);
      }
    }
  }

  /**
   * When exactly the nodes of `s` end disposed and nothing else changes its
   * flag, what is gone at level `l` is the live, non-permanent part of `s`
   * at that level.
   */
  lemma GoneIsReleased<T>(a: map<NodeId, Node<T>>, b: map<NodeId, Node<T>>, s: set<NodeId>, l: int)
    requires a.Keys == b.Keys && s <= a.Keys && AllDisposed(b, s)
    requires forall x :: x in a && x !in s ==> b[x].disposed == a[x].disposed
    ensures Gone(a, b, l) == set x | x in a && x in s && a[x].lod == l && !a[x].disposed && !a[x].permanent
  {
  }

  /** Gone nodes add up along a chain of prunings that keep permanence. */
  lemma GoneTrans<T>(a: map<NodeId, Node<T>>, b: map<NodeId, Node<T>>, c: map<NodeId, Node<T>>, l: int)
    requires Pruned(a, b) && Pruned(b, c)
    ensures Gone(a, c, l) == Gone(a, b, l) + Gone(b, c, l)
    ensures Gone(a, b, l) * Gone(b, c, l) == {}
    ensures |Gone(a, c, l)| == |Gone(a, b, l)| + |Gone(b, c, l)|
  {
    assert Gone(a, c, l) == Gone(a, b, l) + Gone(b, c, l);
  }

  /** Emptying one slot of a node at level `l` after a sweep below `l` keeps the sweep. */
  lemma ClearKeepsSweep<T>(a: map<NodeId, Node<T>>, b: map<NodeId, Node<T>>, d: map<NodeId, Node<T>>, id: NodeId, l: int)
    requires id in a && id in b && id in d && a[id].lod == l && d[id].disposed == b[id].disposed == a[id].disposed
    requires d.Keys == b.Keys && forall x :: x in b && x != id ==> d[x] == b[x]
    requires Swept(a, b, l) && FreshSettled(a, b)
    ensures Swept(a, d, l) && FreshSettled(a, d)
    ensures forall s :: AllDisposed(b, s) ==> AllDisposed(d, s)
  {
    forall s | AllDisposed(b, s)
      ensures AllDisposed(d, s)
    {
      forall y | y in s
        ensures y in d && d[y].disposed
      {
        if y != id {
          assert d[y] == b[y];
        }
      }
    }
  }

  /**
   * `Dispose` of a live node at level `l`, put together: marked disposed in
   * `b`, its child loop sweeping into `c`, its release keeping slots and
   * flags in `d`.
   */
  lemma TeardownSweeps<T>(a: map<NodeId, Node<T>>, b: map<NodeId, Node<T>>, c: map<NodeId, Node<T>>, d: map<NodeId, Node<T>>,
                          id: NodeId, l: int)
    requires id in a && a[id].lod == l && b == a[id := a[id].(disposed := true)]
    requires Pruned(b, c) && Swept(b, c, l) && FreshSettled(b, c) && AllDisposed(c, Below(b, id, 0))
    requires forall x :: x in b && x != id && b[x].lod >= l ==> c[x].subNodes == b[x].subNodes
    requires c.Keys == d.Keys && forall x :: x in c ==> d[x].subNodes == c[x].subNodes && d[x].disposed == c[x].disposed
    requires AllNone(c[id].subNodes)
    ensures AllDisposed(d, Subtree(a, id)) && Swept(a, d, l + 1) && FreshSettled(a, d)
  {
    TeardownCovers(a, b, c, d, id);
    TeardownSwept(a, b, c, d, id, l);
    TeardownFresh(a, b, c, d, id);
  }

  lemma TeardownFresh<T>(a: map<NodeId, Node<T>>, b: map<NodeId, Node<T>>, c: map<NodeId, Node<T>>, d: map<NodeId, Node<T>>, id: NodeId)
    requires id in a && b == a[id := a[id].(disposed := true)]
    requires Pruned(b, c) && FreshSettled(b, c) && AllNone(c[id].subNodes)
    requires c.Keys == d.Keys && forall x :: x in c ==> d[x].subNodes == c[x].subNodes && d[x].disposed == c[x].disposed
    ensures FreshSettled(a, d)
  {
    forall x | x in a && x in d && d[x].disposed && !a[x].disposed && x != id
      ensures AllNone(d[x].subNodes)
    {
      assert b[x] == a[x];
    }
  }

  lemma TeardownCovers<T>(a: map<NodeId, Node<T>>, b: map<NodeId, Node<T>>, c: map<NodeId, Node<T>>, d: map<NodeId, Node<T>>, id: NodeId)
    requires id in a && b == a[id := a[id].(disposed := true)]
    requires Pruned(b, c) && AllDisposed(c, Below(b, id, 0))
    requires c.Keys == d.Keys && forall x :: x in c ==> d[x].disposed == c[x].disposed
    ensures AllDisposed(d, Subtree(a, id))
  {
    assert SameShape(a, b);
    BelowShape(a, b, id, 0);
  }

  lemma TeardownSwept<T>(a: map<NodeId, Node<T>>, b: map<NodeId, Node<T>>, c: map<NodeId, Node<T>>, d: map<NodeId, Node<T>>,
                         id: NodeId, l: int)
    requires id in a && a[id].lod == l && b == a[id := a[id].(disposed := true)]
    requires b.Keys == c.Keys && Swept(b, c, l) && AllDisposed(d, Subtree(a, id))
    requires forall x :: x in b && x != id && b[x].lod >= l ==> c[x].subNodes == b[x].subNodes
    requires c.Keys == d.Keys && forall x :: x in c ==> d[x].subNodes == c[x].subNodes && d[x].disposed == c[x].disposed
    ensures Swept(a, d, l + 1)
  {
    assert SameShape(a, b);
    forall x | x in a && x in d && a[x].lod < l + 1 && d[x].subNodes != a[x].subNodes && x != id
      ensures AllDisposed(d, Subtree(a, x))
    {
      assert b[x] == a[x];
      SubtreeShape(a, b, x);
      assert AllDisposed(c, Subtree(b, x));
    }
  }

  /** Marking a node at level `l` disposed keeps every disposed node below `l` settled. */
  lemma MarkSettled<T>(a: map<NodeId, Node<T>>, id: NodeId, l: int)
    requires id in a && a[id].lod == l && SettledBelow(a, l + 1)
    ensures SettledBelow(a[id := a[id].(disposed := true)], l)
  {
  }

  /** One slot of the child loop, then the rest of it, put together. */
  lemma ChildrenCompose<T>(a: map<NodeId, Node<T>>, b: map<NodeId, Node<T>>, d: map<NodeId, Node<T>>, id: NodeId, i: nat, l: int)
    requires id in a && a[id].lod == l && i < 8 && |a[id].subNodes| == 8
    requires Pruned(a, b) && Pruned(b, d) && Swept(a, b, l) && Swept(b, d, l)
    requires FreshSettled(a, b) && FreshSettled(b, d)
    requires forall j :: i < j < 8 ==> b[id].subNodes[j] == a[id].subNodes[j]
    requires AllDisposed(b, SlotTree(a, id, i)) && AllDisposed(d, Below(b, id, i + 1))
    ensures AllDisposed(d, Below(a, id, i)) && Swept(a, d, l) && FreshSettled(a, d)
  {
    BelowCovered(a, b, l, id, i + 1);
    SweptTrans(a, b, d, l);
    FreshTrans(a, b, d);
  }

  /** No disposed flag changed: nothing is gone. */
  lemma GoneNone<T>(a: map<NodeId, Node<T>>, b: map<NodeId, Node<T>>, l: int)
    requires a.Keys == b.Keys && forall x :: x in a ==> b[x].disposed == a[x].disposed
    ensures Gone(a, b, l) == {}
  {
  }

  lemma CountedTrans<T>(a: Tree<T>, b: Tree<T>, c: Tree<T>)
    requires Pruned(a.nodes, b.nodes) && Pruned(b.nodes, c.nodes) && Counted(a, b) && Counted(b, c)
    ensures Counted(a, c)
  {
    forall l | 0 <= l < |a.nodeCount|
      ensures c.nodeCount[l] == a.nodeCount[l] - |Gone(a.nodes, c.nodes, l)|
    {
      GoneTrans(a.nodes, b.nodes, c.nodes, l);
    }
  }

  /** A step that changes no disposed flag and no counter is counted. */
  lemma CountedQuiet<T>(a: Tree<T>, b: Tree<T>)
    requires a.nodes.Keys == b.nodes.Keys && forall x :: x in a.nodes ==> b.nodes[x].disposed == a.nodes[x].disposed
    requires b.nodeCount == a.nodeCount
    ensures Counted(a, b)
  {
    forall l | 0 <= l < |a.nodeCount|
      ensures b.nodeCount[l] == a.nodeCount[l] - |Gone(a.nodes, b.nodes, l)|
    {
      GoneNone(a.nodes, b.nodes, l);
    }
  }

  /**
   * Marking `id` disposed first, then a step that releases nodes and a step
   * that changes no flag: what is gone overall is what the middle step
   * released, and `id` itself when it was live and not permanent.
   */
  lemma GoneAround<T>(a: map<NodeId, Node<T>>, b: map<NodeId, Node<T>>, c: map<NodeId, Node<T>>, d: map<NodeId, Node<T>>,
                      id: NodeId, k: int)
    requires id in a && !a[id].disposed && b == a[id := a[id].(disposed := true)]
    requires Pruned(b, c) && c.Keys == d.Keys && forall x :: x in c ==> d[x].disposed == c[x].disposed
    ensures id !in Gone(b, c, k)
    ensures Gone(a, d, k) == Gone(b, c, k) + (if k == a[id].lod && !a[id].permanent then {id} else {})
  {
    var own: set<NodeId> := if k == a[id].lod && !a[id].permanent then {id} else {};
    forall x | x in Gone(a, d, k)
      ensures x in Gone(b, c, k) + own
    {
      if x != id {
        assert x in b && b[x] == a[x];
      }
    }
    forall x | x in Gone(b, c, k) + own
      ensures x in Gone(a, d, k)
    {
      assert x in b && x in c;
    }
  }

  /** The set sizes of `GoneAround`. */
  lemma GoneAroundSize<T>(a: map<NodeId, Node<T>>, b: map<NodeId, Node<T>>, c: map<NodeId, Node<T>>, d: map<NodeId, Node<T>>,
                          id: NodeId, k: int)
    requires id in a && !a[id].disposed && b == a[id := a[id].(disposed := true)]
    requires Pruned(b, c) && c.Keys == d.Keys && forall x :: x in c ==> d[x].disposed == c[x].disposed
    ensures |Gone(a, d, k)| == |Gone(b, c, k)| + (if k == a[id].lod && !a[id].permanent then 1 else 0)
  {
    GoneAround(a, b, c, d, id, k);
  }

  /**
   * `Dispose` of a live node, counted: the child loop's releases, and the
   * node's own unless it is permanent.
   */
  lemma TeardownCount<T>(t: Tree<T>, t1: Tree<T>, t2: Tree<T>, r: Tree<T>, id: NodeId)
    requires id in t.nodes && !t.nodes[id].disposed && t1.nodes == t.nodes[id := t.nodes[id].(disposed := true)]
    requires t1.nodeCount == t.nodeCount && Pruned(t1.nodes, t2.nodes) && Counted(t1, t2)
    requires t2.nodes.Keys == r.nodes.Keys && forall x :: x in t2.nodes ==> r.nodes[x].disposed == t2.nodes[x].disposed
    requires Bumped(t2.nodeCount, r.nodeCount, t.nodes[id].lod, if t.nodes[id].permanent then 0 else -1)
    ensures Counted(t, r)
  {
    forall k | 0 <= k < |t.nodeCount|
      ensures r.nodeCount[k] == t.nodeCount[k] - |Gone(t.nodes, r.nodes, k)|
    {
      GoneAroundSize(t.nodes, t1.nodes, t2.nodes, r.nodes, id, k);
    }
  }

  /* ---------- the three calls of `Dispose` ---------- */

  /** The pruning facts every disposal call gives. */
  lemma FrameToPruned<T>(t: Tree<T>, r: Tree<T>, id: NodeId)
    requires Wf(t) && id in t.nodes && DisposeFrame(t, r, id)
    requires forall j :: 0 <= j < 8 ==> r.nodes[id].subNodes[j] == t.nodes[id].subNodes[j] || r.nodes[id].subNodes[j].None?
    ensures Pruned(t.nodes, r.nodes)
  {
    forall x | x in t.nodes
      ensures |r.nodes[x].subNodes| == |t.nodes[x].subNodes|
    {
      assert Local(t.nodes[x], t.maxLOD) && Local(r.nodes[x], r.maxLOD);
      assert Kept(t.nodes[x], r.nodes[x]);
    }
  }

  /** `Finish` changes no node's child slots and no disposed flag. */
  lemma FinishKeeps<T>(t: Tree<T>, id: NodeId)
    requires Wf(t) && id in t.nodes
    ensures Finish(t, id).nodes.Keys == t.nodes.Keys
    ensures forall x :: x in t.nodes ==>
              Finish(t, id).nodes[x].subNodes == t.nodes[x].subNodes && Finish(t, id).nodes[x].disposed == t.nodes[x].disposed
  {
    if !t.nodes[id].permanent {
      var r := Release(t, id);
      assert Finish(t, id) == r;
      forall x | x in t.nodes && x != id
        ensures r.nodes[x].subNodes == t.nodes[x].subNodes && r.nodes[x].disposed == t.nodes[x].disposed
      {
        assert OnlyNeighbors(t.nodes[x], r.nodes[x]);
      }
    }
  }

  /** `Dispose` of a node never refills or disturbs a child slot. */
  lemma DisposePrunes<T>(t: Tree<T>, id: NodeId)
    requires Wf(t) && id in t.nodes
    ensures Pruned(t.nodes, Dispose(t, id).nodes)
  {
    var r := Dispose(t, id);
    if !t.nodes[id].disposed {
      assert AllNone(r.nodes[id].subNodes) && Local(r.nodes[id], r.maxLOD);
    }
    FrameToPruned(t, r, id);
  }

  /** The child loop of `Dispose` from slot `i` keeps or empties each slot. */
  lemma ChildrenPrune<T>(t: Tree<T>, id: NodeId, i: nat)
    requires Wf(t) && id in t.nodes && i <= 8
    ensures Pruned(t.nodes, DisposeChildren(t, id, i).nodes)
  {
    FrameToPruned(t, DisposeChildren(t, id, i), id);
  }

  /** One slot of the child loop keeps or empties each slot. */
  lemma DropPrunes<T>(t: Tree<T>, id: NodeId, i: nat)
    requires Wf(t) && id in t.nodes && i < 8
    ensures Pruned(t.nodes, DropChild(t, id, i).nodes)
  {
    FrameToPruned(t, DropChild(t, id, i), id);
  }

  /** Eight slots emptied from slot `i` on have only empty slots from `i` on. */
  lemma EmptiedFrom(s: seq<Option<NodeId>>, s0: seq<Option<NodeId>>, i: nat)
    requires |s| == 8 && |s0| == 8
    requires forall j :: 0 <= j < 8 ==> s[j] == (if j < i then s0[j] else None)
    ensures forall j :: i <= j < |s| ==> s[j].None?
  {
  }

  /** `Dispose` of a live node is its three steps. */
  lemma TeardownSteps<T>(t: Tree<T>, id: NodeId)
    requires Wf(t) && id in t.nodes && !t.nodes[id].disposed
    ensures Dispose(t, id) == Finish(DisposeChildren(MarkDisposed(t, id), id, 0), id)
  {
    var t1 := MarkDisposed(t, id);
    var t2 := DisposeChildren(t1, id, 0);
    var r := Finish(t2, id);
    assert Dispose(t, id) == Teardown(t, id) == r;
  }

  /** Flipping a disposed flag keeps the shape. */
  lemma FlagShape<T>(a: map<NodeId, Node<T>>, id: NodeId)
    requires id in a
    ensures SameShape(a, a[id := a[id].(disposed := true)])
  {
  }

  /** One more round of the child loop. */
  lemma ChildrenUnfold<T>(t: Tree<T>, id: NodeId, i: nat)
    requires Wf(t) && id in t.nodes && i < 8
    ensures DisposeChildren(t, id, i) == DisposeChildren(DropChild(t, id, i), id, i + 1)
    ensures forall j :: i < j < 8 ==> DropChild(t, id, i).nodes[id].subNodes[j] == t.nodes[id].subNodes[j]
    ensures |t.nodes[id].subNodes| == 8
  {
    assert Local(t.nodes[id], t.maxLOD);
  }

  /** Marking changes only the node's own disposed flag. */
  lemma MarkOnly<T>(t: Tree<T>, id: NodeId)
    requires Wf(t) && id in t.nodes
    ensures MarkDisposed(t, id).nodes == t.nodes[id := t.nodes[id].(disposed := true)]
  {
  }

  /** The child loop empties every slot of the node. */
  lemma ChildrenEmpty<T>(t: Tree<T>, id: NodeId)
    requires Wf(t) && id in t.nodes
    ensures t.nodes.Keys == DisposeChildren(t, id, 0).nodes.Keys
    ensures AllNone(DisposeChildren(t, id, 0).nodes[id].subNodes)
  {
    var r := DisposeChildren(t, id, 0);
    assert Local(r.nodes[id], r.maxLOD) && Local(t.nodes[id], t.maxLOD);
    EmptiedFrom(r.nodes[id].subNodes, t.nodes[id].subNodes, 0);
  }

  /** The child loop touches no other node's slots at the node's level or above. */
  lemma ChildrenAbove<T>(t: Tree<T>, id: NodeId)
    requires Wf(t) && id in t.nodes
    ensures var r := DisposeChildren(t, id, 0);
            forall x :: x in t.nodes && x != id && t.nodes[x].lod >= t.nodes[id].lod ==> r.nodes[x].subNodes == t.nodes[x].subNodes
  {
    var r := DisposeChildren(t, id, 0);
    assert forall x :: x in t.nodes && x != id && t.nodes[x].lod >= t.nodes[id].lod ==> OnlyNeighbors(t.nodes[x], r.nodes[x]);
  }

  /** Sweeping: disposing a node disposes its whole subtree, and a node loses children only once its subtree is gone. */
  lemma {:induction false} DisposeSweeps<T>(t: Tree<T>, id: NodeId)
    requires Wf(t) && id in t.nodes && SettledBelow(t.nodes, t.nodes[id].lod + 1)
    ensures var r := Dispose(t, id);
            && AllDisposed(r.nodes, Subtree(t.nodes, id))
            && Swept(t.nodes, r.nodes, t.nodes[id].lod + 1)
            && FreshSettled(t.nodes, r.nodes)
    decreases t.nodes[id].lod, 2, 0, 0
  {
    if t.nodes[id].disposed {
      LeafSubtree(t.nodes, id);
    } else {
      assert Dispose(t, id) == Teardown(t, id);
      TeardownSweep(t, id);
    }
  }

  lemma {:induction false} TeardownSweep<T>(t: Tree<T>, id: NodeId)
    requires Wf(t) && id in t.nodes && SettledBelow(t.nodes, t.nodes[id].lod + 1)
    ensures var r := Teardown(t, id);
            && AllDisposed(r.nodes, Subtree(t.nodes, id))
            && Swept(t.nodes, r.nodes, t.nodes[id].lod + 1)
            && FreshSettled(t.nodes, r.nodes)
    decreases t.nodes[id].lod, 1, 0, 0
  {
    var t1 := MarkDisposed(t, id);
    var t2 := DisposeChildren(t1, id, 0);
    assert Strip(t, id) == t2;
    MarkOnly(t, id);
    MarkSettled(t.nodes, id, t.nodes[id].lod);
    ChildrenEmpty(t1, id);
    ChildrenAbove(t1, id);
    FinishKeeps(t2, id);
    ChildrenPrune(t1, id, 0);
    ChildrenSweep(t1, id, 0);
    TeardownSweeps(t.nodes, t1.nodes, t2.nodes, Finish(t2, id).nodes, id, t.nodes[id].lod);
  }

  lemma {:induction false} ChildrenSweep<T>(t: Tree<T>, id: NodeId, i: nat)
    requires Wf(t) && id in t.nodes && i <= 8 && SettledBelow(t.nodes, t.nodes[id].lod)
    ensures var r := DisposeChildren(t, id, i);
            && AllDisposed(r.nodes, Below(t.nodes, id, i))
            && Swept(t.nodes, r.nodes, t.nodes[id].lod)
            && FreshSettled(t.nodes, r.nodes)
    decreases t.nodes[id].lod, 0, 8 - i, 1
  {
    if i < 8 {
      var l := t.nodes[id].lod;
      var t1 := DropChild(t, id, i);
      var r := DisposeChildren(t1, id, i + 1);
      ChildrenUnfold(t, id, i);
      DropPrunes(t, id, i);
      ChildrenPrune(t1, id, i + 1);
      DropSweeps(t, id, i);
      SettledCarry(t.nodes, t1.nodes, l);
      ChildrenSweep(t1, id, i + 1);
      ChildrenCompose(t.nodes, t1.nodes, r.nodes, id, i, l);
    }
  }

  lemma {:induction false} DropSweeps<T>(t: Tree<T>, id: NodeId, i: nat)
    requires Wf(t) && id in t.nodes && i < 8 && SettledBelow(t.nodes, t.nodes[id].lod)
    ensures var r := DropChild(t, id, i);
            && AllDisposed(r.nodes, SlotTree(t.nodes, id, i))
            && Swept(t.nodes, r.nodes, t.nodes[id].lod)
            && FreshSettled(t.nodes, r.nodes)
    decreases t.nodes[id].lod, 0, 8 - i, 0
  {
    assert Links(t.nodes, id) && ChildAt(t.nodes, t.nodes[id], i);
    if t.nodes[id].subNodes[i].Some? {
      var c := t.nodes[id].subNodes[i].value;
      var t1 := Dispose(t, c);
      var r := ClearSlot(t1, id, i);
      assert DropChild(t, id, i) == r;
      DisposeSweeps(t, c);
      assert OnlyNeighbors(t.nodes[id], t1.nodes[id]);
      ClearKeepsSweep(t.nodes, t1.nodes, r.nodes, id, t.nodes[id].lod);
    }
  }

  /** Touching: `Dispose` changes the disposed flag of no node outside the subtree. */
  lemma {:induction false} DisposeTouches<T>(t: Tree<T>, id: NodeId)
    requires Wf(t) && id in t.nodes
    ensures var r := Dispose(t, id);
            forall x :: x in t.nodes && x !in Subtree(t.nodes, id) ==> r.nodes[x].disposed == t.nodes[x].disposed
    decreases t.nodes[id].lod, 1, 0, 0
  {
    if !t.nodes[id].disposed {
      TeardownSteps(t, id);
      var t1 := MarkDisposed(t, id);
      MarkOnly(t, id);
      FinishKeeps(DisposeChildren(t1, id, 0), id);
      FlagShape(t.nodes, id);
      BelowShape(t.nodes, t1.nodes, id, 0);
      ChildrenTouch(t1, id, 0);
    }
  }

  lemma {:induction false} ChildrenTouch<T>(t: Tree<T>, id: NodeId, i: nat)
    requires Wf(t) && id in t.nodes && i <= 8
    ensures var r := DisposeChildren(t, id, i);
            forall x :: x in t.nodes && x != id && x !in Below(t.nodes, id, i) ==> r.nodes[x].disposed == t.nodes[x].disposed
    decreases t.nodes[id].lod, 0, 8 - i, 1
  {
    if i < 8 {
      var t1 := DropChild(t, id, i);
      var r := DisposeChildren(t1, id, i + 1);
      ChildrenUnfold(t, id, i);
      DropPrunes(t, id, i);
      DropTouch(t, id, i);
      ChildrenTouch(t1, id, i + 1);
      BelowShrinks(t.nodes, t1.nodes, id, i + 1);
    }
  }

  lemma {:induction false} DropTouch<T>(t: Tree<T>, id: NodeId, i: nat)
    requires Wf(t) && id in t.nodes && i < 8
    ensures var r := DropChild(t, id, i);
            forall x :: x in t.nodes && x != id && x !in SlotTree(t.nodes, id, i) ==> r.nodes[x].disposed == t.nodes[x].disposed
    decreases t.nodes[id].lod, 0, 8 - i, 0
  {
    assert Links(t.nodes, id) && ChildAt(t.nodes, t.nodes[id], i);
    if t.nodes[id].subNodes[i].Some? {
      var c := t.nodes[id].subNodes[i].value;
      var t1 := Dispose(t, c);
      var r := ClearSlot(t1, id, i);
      assert DropChild(t, id, i) == r;
      DisposeTouches(t, c);
    }
  }

  /** Emptying a slot prunes and releases nothing. */
  lemma ClearCounted<T>(t: Tree<T>, id: NodeId, i: nat)
    requires Wf(t) && id in t.nodes && i < 8
    ensures Pruned(t.nodes, ClearSlot(t, id, i).nodes) && Counted(t, ClearSlot(t, id, i))
  {
    var r := ClearSlot(t, id, i);
    FrameToPruned(t, r, id);
    CountedQuiet(t, r);
  }

  /** Counting: `Dispose` lowers each level's counter by the nodes of that level it released. */
  lemma {:induction false} DisposeCounts<T>(t: Tree<T>, id: NodeId)
    requires Wf(t) && id in t.nodes
    ensures Counted(t, Dispose(t, id))
    decreases t.nodes[id].lod, 2, 0, 0
  {
    if t.nodes[id].disposed {
      CountedQuiet(t, t);
    } else {
      TeardownSteps(t, id);
      TeardownCounts(t, id);
    }
  }

  lemma {:induction false} TeardownCounts<T>(t: Tree<T>, id: NodeId)
    requires Wf(t) && id in t.nodes && !t.nodes[id].disposed
    ensures Counted(t, Finish(DisposeChildren(MarkDisposed(t, id), id, 0), id))
    decreases t.nodes[id].lod, 1, 0, 0
  {
    var t1 := MarkDisposed(t, id);
    var t2 := DisposeChildren(t1, id, 0);
    MarkOnly(t, id);
    FinishKeeps(t2, id);
    ChildrenPrune(t1, id, 0);
    ChildrenCounts(t1, id, 0);
    TeardownCount(t, t1, t2, Finish(t2, id), id);
  }

  lemma {:induction false} ChildrenCounts<T>(t: Tree<T>, id: NodeId, i: nat)
    requires Wf(t) && id in t.nodes && i <= 8
    ensures Counted(t, DisposeChildren(t, id, i))
    decreases t.nodes[id].lod, 0, 8 - i, 1
  {
    if i < 8 {
      var t1 := DropChild(t, id, i);
      ChildrenUnfold(t, id, i);
      DropPrunes(t, id, i);
      ChildrenPrune(t1, id, i + 1);
      DropCounts(t, id, i);
      ChildrenCounts(t1, id, i + 1);
      CountedTrans(t, t1, DisposeChildren(t1, id, i + 1));
    } else {
      CountedQuiet(t, t);
    }
  }

  lemma {:induction false} DropCounts<T>(t: Tree<T>, id: NodeId, i: nat)
    requires Wf(t) && id in t.nodes && i < 8
    ensures Counted(t, DropChild(t, id, i))
    decreases t.nodes[id].lod, 0, 8 - i, 0
  {
    assert Links(t.nodes, id) && ChildAt(t.nodes, t.nodes[id], i);
    if t.nodes[id].subNodes[i].Some? {
      var c := t.nodes[id].subNodes[i].value;
      var t1 := Dispose(t, c);
      var r := ClearSlot(t1, id, i);
      assert DropChild(t, id, i) == r;
      DisposeCounts(t, c);
      DisposePrunes(t, c);
      ClearCounted(t1, id, i);
      CountedTrans(t, t1, r);
    } else {
      CountedQuiet(t, t);
    }
  }

  /** The nodes of the subtree of `id` at level `l` that disposing it releases. */
  ghost function ReleasedAt<T>(t: Tree<T>, id: NodeId, l: int): set<NodeId>
  {
    set x | x in t.nodes && x in Subtree(t.nodes, id) && t.nodes[x].lod == l && Released(t, x)
  }

  /**
   * `Dispose` on a whole subtree.  No node outside the subtree of `id`
   * changes its disposed flag.  When disposed nodes keep no children, as
   * every operation of the model leaves them, every node of the subtree ends
   * disposed, disposed nodes still keep no children, and each level's
   * counter drops by exactly the live, non-permanent nodes of the subtree at
   * that level.
   */
  lemma DisposeSubtree<T>(t: Tree<T>, id: NodeId)
    requires Wf(t) && id in t.nodes
    ensures var r := Dispose(t, id);
            forall x :: x in t.nodes && x !in Subtree(t.nodes, id) ==> r.nodes[x].disposed == t.nodes[x].disposed
    ensures Settled(t.nodes) ==>
              var r := Dispose(t, id);
              && Settled(r.nodes)
              && (forall x :: x in Subtree(t.nodes, id) ==> x in r.nodes && r.nodes[x].disposed)
              && |r.nodeCount| == |t.nodeCount|
              && forall l :: 0 <= l < |t.nodeCount| ==> r.nodeCount[l] == t.nodeCount[l] - |ReleasedAt(t, id, l)|
  {
    var r := Dispose(t, id);
    DisposeTouches(t, id);
    if Settled(t.nodes) {
      DisposeSweeps(t, id);
      DisposePrunes(t, id);
      SettledKept(t.nodes, r.nodes);
      DisposeCounts(t, id);
      SubtreeInArena(t.nodes, id);
      forall l | 0 <= l < |t.nodeCount|
        ensures r.nodeCount[l] == t.nodeCount[l] - |ReleasedAt(t, id, l)|
      {
        GoneIsReleased(t.nodes, r.nodes, Subtree(t.nodes, id), l);
        assert Gone(t.nodes, r.nodes, l) == ReleasedAt(t, id, l);
      }
    }
  }
}
