/**
 * Completeness of `Node<T>.SearchNodeCreate` and
 * `NodeManager<T>.SearchNodeContainingDensity` (NodeManager.cs): a node
 * whose tight box holds the point has, at the searched level, a descendant
 * whose box holds it too, subdividing where needed; so when the list still
 * has an empty entry the search stores a node in it.
 */
module SearchFound {
  import opened Wrappers
  import opened Vectors
  import opened Geometry
  import opened Arena
  import opened LevelFrames
  import opened Search
  import opened Hits
  import opened SearchCreate

  /** Entries once filled stay filled, so a list that has changed stays changed. */
  lemma ChangedStays<T>(a: seq<Option<NodeId>>, b: seq<Option<NodeId>>, c: seq<Option<NodeId>>,
                        t1: Tree<T>, t2: Tree<T>, p: V3, searchLOD: int)
    requires Collected(a, b, t1, p, searchLOD) && Collected(b, c, t2, p, searchLOD) && b != a
    ensures c != a
  {
    var k :| 0 <= k < |a| && b[k] != a[k];
    assert c[k] == b[k];
  }

  /** A node with a child in every slot passes a point of its tight box to the child in slot `ChildHolding`. */
  lemma TightSlot<T>(t: Tree<T>, id: NodeId, p: V3)
    requires Wf(t) && id in t.nodes && t.nodes[id].lod > 0 && Tight(t.nodes, id, p)
    requires AllSome(t.nodes[id].subNodes)
    ensures var n := t.nodes[id];
            var j := ChildHolding(n.position, n.lod, p);
            && j < |n.subNodes| && n.subNodes[j].Some? && n.subNodes[j].value in t.nodes
            && Tight(t.nodes, n.subNodes[j].value, p)
  {
    var n := t.nodes[id];
    var j := ChildHolding(n.position, n.lod, p);
    assert Local(n, t.maxLOD) && Links(t.nodes, id);
    assert ChildAt(t.nodes, n, j);
  }

  /**
   * `SearchNodeCreate` from a node whose tight box holds the point, with an
   * empty entry left, stores a node in the list.
   */
  lemma {:induction false} SearchFinds<T>(t: Tree<T>, id: NodeId, p: V3, searchLOD: int, list: seq<Option<NodeId>>)
    requires Wf(t) && Shaped(t) && id in t.nodes && 0 <= searchLOD <= t.nodes[id].lod
    requires Tight(t.nodes, id, p) && FirstFree(list, 0).Some?
    ensures SearchNodeCreate(t, id, p, searchLOD, list).1 != list
    decreases t.nodes[id].lod, 1, 0
  {
    TightPadded(t.nodes, id, p);
    if t.nodes[id].lod == searchLOD {
      AddFirstFreeMeans(list, id);
      assert list[FirstFree(list, 0).value].None?;
    } else {
      assert SearchNodeCreate(t, id, p, searchLOD, list) == SearchBelow(t, id, p, searchLOD, list);
      BelowFinds(t, id, p, searchLOD, list);
    }
  }

  lemma {:induction false} BelowFinds<T>(t: Tree<T>, id: NodeId, p: V3, searchLOD: int, list: seq<Option<NodeId>>)
    requires Wf(t) && Shaped(t) && id in t.nodes && 0 <= searchLOD < t.nodes[id].lod
    requires Tight(t.nodes, id, p) && FirstFree(list, 0).Some?
    ensures SearchBelow(t, id, p, searchLOD, list).1 != list
    decreases t.nodes[id].lod, 0, 9, 0
  {
    var t1 := Open(t, id);
    assert Kept(t.nodes[id], t1.nodes[id]);
    TightSlot(t1, id, p);
    var n := t1.nodes[id];
    FromFinds(t1, id, p, searchLOD, list, 0, ChildHolding(n.position, n.lod, p));
  }

  lemma {:induction false} FromFinds<T>(t: Tree<T>, id: NodeId, p: V3, searchLOD: int, list: seq<Option<NodeId>>, i: nat, j: nat)
    requires Wf(t) && Shaped(t) && id in t.nodes && 0 <= searchLOD < t.nodes[id].lod && i <= j < 8
    requires AllSome(t.nodes[id].subNodes) && FirstFree(list, 0).Some?
    requires t.nodes[id].subNodes[j].value in t.nodes && Tight(t.nodes, t.nodes[id].subNodes[j].value, p)
    ensures CreateFrom(t, id, p, searchLOD, list, i).1 != list
    decreases t.nodes[id].lod, 0, 8 - i, 1
  {
    var r1 := CreateSlot(t, id, p, searchLOD, list, i);
    var r := CreateFrom(r1.0, id, p, searchLOD, r1.1, i + 1);
    assert CreateFrom(t, id, p, searchLOD, list, i) == r;
    if i == j {
      SlotFinds(t, id, p, searchLOD, list, i);
      ChangedStays(list, r1.1, r.1, r1.0, r.0, p, searchLOD);
    } else if r1.1 != list {
      ChangedStays(list, r1.1, r.1, r1.0, r.0, p, searchLOD);
    } else {
      var c := t.nodes[id].subNodes[j].value;
      assert r1.0.nodes[id].subNodes == t.nodes[id].subNodes;
      assert Kept(t.nodes[c], r1.0.nodes[c]);
      FromFinds(r1.0, id, p, searchLOD, list, i + 1, j);
    }
  }

  lemma {:induction false} SlotFinds<T>(t: Tree<T>, id: NodeId, p: V3, searchLOD: int, list: seq<Option<NodeId>>, i: nat)
    requires Wf(t) && Shaped(t) && id in t.nodes && 0 <= searchLOD < t.nodes[id].lod && i < 8
    requires AllSome(t.nodes[id].subNodes) && FirstFree(list, 0).Some?
    requires t.nodes[id].subNodes[i].value in t.nodes && Tight(t.nodes, t.nodes[id].subNodes[i].value, p)
    ensures CreateSlot(t, id, p, searchLOD, list, i).1 != list
    decreases t.nodes[id].lod, 0, 8 - i, 0
  {
    assert Local(t.nodes[id], t.maxLOD) && Links(t.nodes, id);
    assert ChildAt(t.nodes, t.nodes[id], i);
    SearchFinds(t, t.nodes[id].subNodes[i].value, p, searchLOD, list);
  }

  /**
   * `SearchNodeContainingDensity`: when some top-level node's tight box
   * holds the point, some entry of the result holds a node.
   */
  lemma ContainingFinds<T>(t: Tree<T>, tops: seq<Option<NodeId>>, p: V3, searchLOD: int, k0: nat)
    requires Wf(t) && Shaped(t) && 0 <= searchLOD && TopsAbove(t, tops, searchLOD)
    requires k0 < |tops| && tops[k0].Some? && tops[k0].value in t.nodes && Tight(t.nodes, tops[k0].value, p)
    ensures exists e :: 0 <= e < 8 && SearchContainingDensity(t, tops, p, searchLOD).1[e].Some?
  {
    assert FirstFree(NoHits, 0) == Some(0);
    FromTopsFinds(t, tops, p, searchLOD, NoHits, 0, k0);
    var r := SearchContainingDensity(t, tops, p, searchLOD);
    var e :| 0 <= e < 8 && r.1[e] != NoHits[e];
    assert r.1[e].Some?;
  }

  /** The loop over top-level indices `k..`, reaching index `k0` with an empty entry left, stores a node. */
  lemma {:induction false} FromTopsFinds<T>(t: Tree<T>, tops: seq<Option<NodeId>>, p: V3, searchLOD: int,
                                            list: seq<Option<NodeId>>, k: nat, k0: nat)
    requires Wf(t) && Shaped(t) && 0 <= searchLOD && TopsAbove(t, tops, searchLOD) && k <= k0 < |tops|
    requires tops[k0].Some? && tops[k0].value in t.nodes && Tight(t.nodes, tops[k0].value, p)
    requires FirstFree(list, 0).Some?
    ensures ContainingFrom(t, tops, p, searchLOD, list, k).1 != list
    decreases |tops| - k
  {
    var r1 := if tops[k].Some? then SearchNodeCreate(t, tops[k].value, p, searchLOD, list) else (t, list);
    var r := ContainingFrom(t, tops, p, searchLOD, list, k);
    var rest := ContainingFrom(r1.0, tops, p, searchLOD, r1.1, k + 1);
    assert TopsAbove(r1.0, tops, searchLOD) by {
      forall j | 0 <= j < |tops| && tops[j].Some?
        ensures tops[j].value in r1.0.nodes && searchLOD <= r1.0.nodes[tops[j].value].lod
      {
        assert Kept(t.nodes[tops[j].value], r1.0.nodes[tops[j].value]);
      }
    }
    assert r == rest;
    if k == k0 {
      SearchFinds(t, tops[k].value, p, searchLOD, list);
      ChangedStays(list, r1.1, r.1, r1.0, r.0, p, searchLOD);
    } else if r1.1 != list {
      ChangedStays(list, r1.1, r.1, r1.0, r.0, p, searchLOD);
    } else {
      assert Kept(t.nodes[tops[k0].value], r1.0.nodes[tops[k0].value]);
      FromTopsFinds(r1.0, tops, p, searchLOD, list, k + 1, k0);
    }
  }
}
