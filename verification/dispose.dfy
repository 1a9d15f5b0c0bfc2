/**
 * `Dispose` of `Node<T>` (NodeManager.cs): the node is marked disposed and
 * its children are disposed and unhooked slot by slot.  Unless the node is
 * permanent it is then uncounted, loses its mesh, has its parent re-run
 * `RenderCheck`, is unlinked from its neighbours and has its voxel data
 * released by the controller; a permanent node only has its render object
 * hidden.
 */
module Disposal {
  import opened Wrappers
  import opened Geometry
  import opened Arena
  import opened Render
  import opened DisposeLog

  /** Node `y` empties its neighbour slot `side`; nothing else changes. */
  function Forget<T>(t: Tree<T>, y: NodeId, side: nat): (r: Tree<T>)
    requires Wf(t) && y in t.nodes && side < 6
    ensures Wf(r) && Evolves(t, r) && r.nodes.Keys == t.nodes.Keys && r.nextId == t.nextId
    ensures r.nodeCount == t.nodeCount && r.events == t.events
    ensures forall x :: x in t.nodes ==> OnlyNeighbors(t.nodes[x], r.nodes[x])
    ensures forall x :: x in t.nodes && x != y ==> r.nodes[x] == t.nodes[x]
    ensures r.nodes[y].neighborNodes[side].None?
  {
    var m := t.nodes[y];
    var m1 := m.(neighborNodes := m.neighborNodes[side := None]);
    ReplaceNode(t.nodes, t.nextId, t.maxLOD, y, m1);
    SetNode(t, y, m1)
  }

  /** One more slot of the unlinking loop: the slot just handled joins the ones handled after it. */
  lemma UnlinkStep<T>(t: Tree<T>, t1: Tree<T>, r: Tree<T>, id: NodeId, k: nat)
    requires Wf(t) && id in t.nodes && k < 6
    requires t1.nodes.Keys == t.nodes.Keys && t1.nodes[id] == t.nodes[id]
    requires t.nodes[id].neighborNodes[k].Some? ==>
               var y := t.nodes[id].neighborNodes[k].value;
               && y in t1.nodes && OppositeNeighbor[k] < |t1.nodes[y].neighborNodes|
               && t1.nodes[y].neighborNodes[OppositeNeighbor[k]].None?
    requires r.nodes.Keys == t1.nodes.Keys
    requires forall x :: x in t1.nodes ==> OnlyNeighbors(t1.nodes[x], r.nodes[x])
    requires ForgetsFrom(t1.nodes, r.nodes, id, k + 1)
    ensures ForgetsFrom(t.nodes, r.nodes, id, k)
  {
    var n := t.nodes[id];
    assert Local(n, t.maxLOD);
    forall j | k <= j < 6 && n.neighborNodes[j].Some?
      ensures var y := n.neighborNodes[j].value;
              y in r.nodes && OppositeNeighbor[j] < |r.nodes[y].neighborNodes| && r.nodes[y].neighborNodes[OppositeNeighbor[j]].None?
    {
      var y := n.neighborNodes[j].value;
      OppositeInvolution(j);
      if j == k {
        assert OnlyNeighbors(t1.nodes[y], r.nodes[y]);
      } else {
        assert t1.nodes[id].neighborNodes[j] == n.neighborNodes[j];
      }
    }
  }

  /**
   * The unlinking loop of `Dispose` from slot `k` on: each neighbour of `id`
   * empties its slot on the opposite side.
   */
  function Unlink<T>(t: Tree<T>, id: NodeId, k: nat): (r: Tree<T>)
    requires Wf(t) && id in t.nodes && k <= 6
    ensures Wf(r) && Evolves(t, r) && r.nodes.Keys == t.nodes.Keys && r.nextId == t.nextId
    ensures r.nodeCount == t.nodeCount && r.events == t.events
    ensures forall x :: x in t.nodes ==> OnlyNeighbors(t.nodes[x], r.nodes[x])
    ensures r.nodes[id] == t.nodes[id]
    ensures ForgetsFrom(t.nodes, r.nodes, id, k)
    decreases 6 - k
  {
    if k == 6 then t
    else
      var s := t.nodes[id].neighborNodes[k];
      assert Links(t.nodes, id);
      OppositeInvolution(k);
      var t1 := if s.None? then t else Forget(t, s.value, OppositeNeighbor[k]);
      var r := Unlink(t1, id, k + 1);
      OnlyNeighborsTrans(t.nodes, t1.nodes, r.nodes);
      EvolvesTrans(t, t1, r);
      UnlinkStep(t, t1, r, id, k);
      r
  }

  /** The call `RenderCheck` makes for the parent of `id`, if there is a parent. */
  function ParentVerdict<T>(t: Tree<T>, id: NodeId): (e: seq<Event>)
    requires Wf(t) && id in t.nodes
    ensures NoReleases(e, 0, |e|)
  {
    if Parent(t, id).Some? then Verdict(t.nodes, Parent(t, id).value) else []
  }

  /** One node fewer counted at `id`'s level, `id`'s mesh dropped, and its parent's `RenderCheck`. */
  function Retire<T>(t: Tree<T>, id: NodeId): (r: Tree<T>)
    requires Wf(t) && id in t.nodes
    ensures Wf(r) && Evolves(t, r) && r.nextId == t.nextId
    ensures r.nodes == t.nodes[id := t.nodes[id].(hasMesh := false)]
    ensures Bumped(t.nodeCount, r.nodeCount, t.nodes[id].lod, -1)
    ensures r.events == t.events + ParentVerdict(t, id)
  {
    var n := t.nodes[id];
    var n1 := n.(hasMesh := false);
    ReplaceNode(t.nodes, t.nextId, t.maxLOD, id, n1);
    LeafTestFrame(t.nodes, id, n1);
    var t1 := t.(nodes := t.nodes[id := n1], nodeCount := Bump(t.nodeCount, n.lod, -1));
    assert Parent(t1, id) == Parent(t, id);
    assert ParentVerdict(t1, id) == ParentVerdict(t, id);
    t1.(events := t1.events + ParentVerdict(t1, id))
  }

  /**
   * The tail of `Dispose` for a node that is not permanent: one node fewer
   * counted at its level, its mesh dropped, its parent's `RenderCheck`, its
   * neighbours unlinked and its voxel data released.
   */
  function Release<T>(t: Tree<T>, id: NodeId): (r: Tree<T>)
    requires Wf(t) && id in t.nodes
    ensures Wf(r) && Evolves(t, r) && r.nodes.Keys == t.nodes.Keys && r.nextId == t.nextId
    ensures Bumped(t.nodeCount, r.nodeCount, t.nodes[id].lod, -1)
    ensures forall x :: x in t.nodes && x != id ==> OnlyNeighbors(t.nodes[x], r.nodes[x])
    ensures r.nodes[id] == t.nodes[id].(hasMesh := false)
    ensures ForgetsFrom(r.nodes, r.nodes, id, 0)
    ensures r.events == t.events + ParentVerdict(t, id) + [DisposeVoxelData(id)]
  {
    var t1 := Retire(t, id);
    assert t1.nodes.Keys == t.nodes.Keys;
    var t2 := Unlink(t1, id, 0);
    var r := Emit(t2, DisposeVoxelData(id));
    EvolvesTrans(t1, t2, r);
    EvolvesTrans(t, t1, r);
    ReleaseFrame(t.nodes, t.nodes[id].(hasMesh := false), r.nodes, id);
    r
  }

  /** Child slot `i` of `id` emptied; nothing else changes. */
  function ClearSlot<T>(t: Tree<T>, id: NodeId, i: nat): (r: Tree<T>)
    requires Wf(t) && id in t.nodes && i < 8
    ensures DisposeFrame(t, r, id)
    ensures r.nodes[id] == t.nodes[id].(subNodes := t.nodes[id].subNodes[i := None])
    ensures forall x :: x in t.nodes && x != id ==> r.nodes[x] == t.nodes[x]
    ensures r.nodeCount == t.nodeCount && r.events == t.events
  {
    var n := t.nodes[id];
    var n1 := n.(subNodes := n.subNodes[i := None]);
    ReplaceNode(t.nodes, t.nextId, t.maxLOD, id, n1);
    EditFrame(t, id, n1);
    SetNode(t, id, n1)
  }

  /**
   * One slot of the child loop of `Dispose`: a child in slot `i` is
   * disposed, then the slot is emptied.
   */
  function DropChild<T>(t: Tree<T>, id: NodeId, i: nat): (r: Tree<T>)
    requires Wf(t) && id in t.nodes && i < 8
    ensures DisposeFrame(t, r, id)
    ensures r.nodes[id].subNodes == t.nodes[id].subNodes[i := None]
    ensures r.nodes[id].disposed == t.nodes[id].disposed && r.nodes[id].hasMesh == t.nodes[id].hasMesh
    ensures t.nodes[id].subNodes[i].Some? ==>
              t.nodes[id].subNodes[i].value in r.nodes && r.nodes[t.nodes[id].subNodes[i].value].disposed
    ensures CountsFrom(t.nodeCount, r.nodeCount, t.nodes[id].lod)
    decreases t.nodes[id].lod, 0, 8 - i, 0
  {
    assert Links(t.nodes, id) && ChildAt(t.nodes, t.nodes[id], i);
    if t.nodes[id].subNodes[i].None? then
      assert t.nodes[id].subNodes[i := None] == t.nodes[id].subNodes;
      DisposeFrameQuiet(t, id, DisposeVoxelData(id));
      t
    else
      var c := t.nodes[id].subNodes[i].value;
      var t1 := Dispose(t, c);
      DisposeFrameLift(t, t1, c, id);
      var r := ClearSlot(t1, id, i);
      DisposeFrameTrans(t, t1, r, id);
      r
  }

  /**
   * The child loop of `Dispose` from slot `i` on: every child is disposed and
   * its slot emptied.
   */
  function DisposeChildren<T>(t: Tree<T>, id: NodeId, i: nat): (r: Tree<T>)
    requires Wf(t) && id in t.nodes && i <= 8
    ensures DisposeFrame(t, r, id)
    ensures r.nodes[id].disposed == t.nodes[id].disposed && r.nodes[id].hasMesh == t.nodes[id].hasMesh
    ensures forall j :: 0 <= j < 8 ==> r.nodes[id].subNodes[j] == (if j < i then t.nodes[id].subNodes[j] else None)
    ensures forall j :: i <= j < 8 && t.nodes[id].subNodes[j].Some? ==>
              t.nodes[id].subNodes[j].value in r.nodes && r.nodes[t.nodes[id].subNodes[j].value].disposed
    ensures CountsFrom(t.nodeCount, r.nodeCount, t.nodes[id].lod)
    decreases t.nodes[id].lod, 0, 8 - i, 1
  {
    if i == 8 then
      assert Local(t.nodes[id], t.maxLOD);
      t
    else
      assert Local(t.nodes[id], t.maxLOD);
      var t1 := DropChild(t, id, i);
      var r := DisposeChildren(t1, id, i + 1);
      DisposeFrameTrans(t, t1, r, id);
      assert Local(r.nodes[id], r.maxLOD);
      ChildrenStep(t.nodes, t1.nodes, r.nodes, id, i);
      r
  }

  /** One more slot of the child loop: slot `i` joins the emptied slots, and its child the disposed ones. */
  lemma ChildrenStep<T>(a: map<NodeId, Node<T>>, b: map<NodeId, Node<T>>, c: map<NodeId, Node<T>>, id: NodeId, i: nat)
    requires id in a && id in b && id in c && i < 8 && |a[id].subNodes| == 8 && |c[id].subNodes| == 8
    requires b[id].subNodes == a[id].subNodes[i := None]
    requires a[id].subNodes[i].Some? ==> a[id].subNodes[i].value in b && b[a[id].subNodes[i].value].disposed
    requires forall x :: x in b && b[x].disposed ==> x in c && c[x].disposed
    requires forall j :: 0 <= j < 8 ==> c[id].subNodes[j] == (if j < i + 1 then b[id].subNodes[j] else None)
    requires forall j :: i + 1 <= j < 8 && b[id].subNodes[j].Some? ==> b[id].subNodes[j].value in c && c[b[id].subNodes[j].value].disposed
    ensures forall j :: 0 <= j < 8 ==> c[id].subNodes[j] == (if j < i then a[id].subNodes[j] else None)
    ensures forall j :: i <= j < 8 && a[id].subNodes[j].Some? ==> a[id].subNodes[j].value in c && c[a[id].subNodes[j].value].disposed
  {
    forall j | i <= j < 8 && a[id].subNodes[j].Some?
      ensures a[id].subNodes[j].value in c && c[a[id].subNodes[j].value].disposed
    {
      if j > i {
        assert b[id].subNodes[j] == a[id].subNodes[j];
      }
    }
  }

  /** `id` marked disposed; nothing else changes. */
  function MarkDisposed<T>(t: Tree<T>, id: NodeId): (r: Tree<T>)
    requires Wf(t) && id in t.nodes
    ensures DisposeFrame(t, r, id)
    ensures r.nodes[id] == t.nodes[id].(disposed := true)
    ensures r.nodeCount == t.nodeCount && r.events == t.events
  {
    var n1 := t.nodes[id].(disposed := true);
    ReplaceNode(t.nodes, t.nextId, t.maxLOD, id, n1);
    EditFrame(t, id, n1);
    SetNode(t, id, n1)
  }

  /**
   * What `Dispose` does after the child loop: a permanent node only has its
   * render object hidden, any other node is released.  Only a release
   * releases voxel data, and it is the last call.
   */
  function Finish<T>(t: Tree<T>, id: NodeId): (r: Tree<T>)
    requires Wf(t) && id in t.nodes
    ensures DisposeFrame(t, r, id)
    ensures r.nodes[id] == if t.nodes[id].permanent then t.nodes[id] else t.nodes[id].(hasMesh := false)
    ensures Bumped(t.nodeCount, r.nodeCount, t.nodes[id].lod, if t.nodes[id].permanent then 0 else -1)
    ensures !t.nodes[id].permanent ==> ForgetsFrom(r.nodes, r.nodes, id, 0)
    ensures !t.nodes[id].permanent ==> |r.events| > |t.events| && r.events[|r.events| - 1] == DisposeVoxelData(id)
    ensures NoReleases(r.events, |t.events|, |r.events| - (if t.nodes[id].permanent then 0 else 1))
  {
    var n := t.nodes[id];
    if n.permanent then
      DisposeFrameQuiet(t, id, SetRenderState(id, false));
      if n.hasChunk then Emit(t, SetRenderState(id, false)) else t
    else
      var r := Release(t, id);
      ReleaseWithinFrame(t, r, id);
      r
  }

  /** `id` marked disposed and its child loop run. */
  function Strip<T>(t: Tree<T>, id: NodeId): (r: Tree<T>)
    requires Wf(t) && id in t.nodes
    ensures DisposeFrame(t, r, id)
    ensures r.nodes[id].lod == t.nodes[id].lod && r.nodes[id].permanent == t.nodes[id].permanent
    ensures r.nodes[id].hasMesh == t.nodes[id].hasMesh
    ensures r.nodes[id].disposed && AllNone(r.nodes[id].subNodes)
    ensures CountsFrom(t.nodeCount, r.nodeCount, t.nodes[id].lod)
    decreases t.nodes[id].lod, 1, 0, 0
  {
    var t1 := MarkDisposed(t, id);
    var r := DisposeChildren(t1, id, 0);
    DisposeFrameTrans(t, t1, r, id);
    assert Local(r.nodes[id], r.maxLOD);
    r
  }

  /** `Dispose` of a live node. */
  function Teardown<T>(t: Tree<T>, id: NodeId): (r: Tree<T>)
    requires Wf(t) && id in t.nodes
    ensures DisposeFrame(t, r, id)
    ensures r.nodes[id].disposed && AllNone(r.nodes[id].subNodes)
    ensures CountsFrom(t.nodeCount, r.nodeCount, t.nodes[id].lod + 1)
    ensures r.nodeCount[t.nodes[id].lod] == t.nodeCount[t.nodes[id].lod] - (if t.nodes[id].permanent then 0 else 1)
    ensures r.nodes[id].hasMesh == (t.nodes[id].hasMesh && t.nodes[id].permanent)
    ensures !t.nodes[id].permanent ==> ForgetsFrom(r.nodes, r.nodes, id, 0)
    decreases t.nodes[id].lod, 2, 0, 0
  {
    var t2 := Strip(t, id);
    var r := Finish(t2, id);
    DisposeFrameTrans(t, t2, r, id);
    CountsBump(t.nodeCount, t2.nodeCount, r.nodeCount, t.nodes[id].lod, if t.nodes[id].permanent then 0 else -1);
    r
  }

  /**
   * `Dispose`.  A disposed node is left alone, child slots included.
   * Otherwise the node ends disposed with every child slot empty; it is
   * uncounted and loses its mesh only if it is not permanent, and then every
   * neighbour it still links to no longer links back.  `DisposeTrail` states
   * what the log records.
   */
  function Dispose<T>(t: Tree<T>, id: NodeId): (r: Tree<T>)
    requires Wf(t) && id in t.nodes
    ensures DisposeFrame(t, r, id)
    ensures t.nodes[id].disposed ==> r == t
    ensures r.nodes[id].disposed
    ensures !t.nodes[id].disposed ==> AllNone(r.nodes[id].subNodes)
    ensures CountsFrom(t.nodeCount, r.nodeCount, t.nodes[id].lod + 1)
    ensures r.nodeCount[t.nodes[id].lod] == t.nodeCount[t.nodes[id].lod] - (if Released(t, id) then 1 else 0)
    ensures r.nodes[id].hasMesh == (t.nodes[id].hasMesh && !Released(t, id))
    ensures Released(t, id) ==> ForgetsFrom(r.nodes, r.nodes, id, 0)
    decreases t.nodes[id].lod, 3, 0, 0
  {
    if t.nodes[id].disposed then
      DisposeFrameQuiet(t, id, DisposeVoxelData(id));
      t
    else
      Teardown(t, id)
  }

  /** The log of one slot of the child loop releases only nodes below `id`. */
  lemma {:induction false} DropChildTrail<T>(t: Tree<T>, id: NodeId, i: nat)
    requires Wf(t) && id in t.nodes && i < 8
    ensures ReleasesBelow(DropChild(t, id, i).events, |t.events|, |DropChild(t, id, i).events|, t.nodes, t.nodes[id].lod)
    decreases t.nodes[id].lod, 0, 8 - i, 0
  {
    assert Links(t.nodes, id) && ChildAt(t.nodes, t.nodes[id], i);
    if t.nodes[id].subNodes[i].Some? {
      var c := t.nodes[id].subNodes[i].value;
      var t1 := Dispose(t, c);
      DisposeTrail(t, c);
      TrailBelow(t1.events, |t.events|, t.nodes, c, Released(t, c));
      assert DropChild(t, id, i) == ClearSlot(t1, id, i);
    }
  }

  /** The log of the child loop from slot `i` on releases only nodes below `id`. */
  lemma {:induction false} DisposeChildrenTrail<T>(t: Tree<T>, id: NodeId, i: nat)
    requires Wf(t) && id in t.nodes && i <= 8
    ensures ReleasesBelow(DisposeChildren(t, id, i).events, |t.events|, |DisposeChildren(t, id, i).events|, t.nodes, t.nodes[id].lod)
    decreases t.nodes[id].lod, 0, 8 - i, 1
  {
    if i < 8 {
      var t1 := DropChild(t, id, i);
      var r := DisposeChildren(t1, id, i + 1);
      assert DisposeChildren(t, id, i) == r;
      assert Kept(t.nodes[id], t1.nodes[id]);
      DropChildTrail(t, id, i);
      DisposeChildrenTrail(t1, id, i + 1);
      ReleasesBelowMove(r.events, |t1.events|, |r.events|, t1.nodes, t1.nodes[id].lod, t.nodes, t.nodes[id].lod);
      ReleasesBelowGrow(t1.events, r.events, |t.events|, |t1.events|, t.nodes, t.nodes[id].lod);
      ReleasesBelowJoin(r.events, |t.events|, |t1.events|, |r.events|, t.nodes, t.nodes[id].lod);
    }
  }

  /**
   * What `Dispose` records: when it releases the node, the last call is the
   * release of the node's own voxel data and every earlier release names a
   * node further down; otherwise every release names a node further down.
   */
  lemma {:induction false} DisposeTrail<T>(t: Tree<T>, id: NodeId)
    requires Wf(t) && id in t.nodes
    ensures var r := Dispose(t, id);
            Released(t, id) ==>
              && |r.events| > |t.events| && r.events[|r.events| - 1] == DisposeVoxelData(id)
              && ReleasesBelow(r.events, |t.events|, |r.events| - 1, t.nodes, t.nodes[id].lod)
    ensures var r := Dispose(t, id);
            !Released(t, id) ==> ReleasesBelow(r.events, |t.events|, |r.events|, t.nodes, t.nodes[id].lod)
    decreases t.nodes[id].lod, 3, 0, 0
  {
    if !t.nodes[id].disposed {
      var t1 := MarkDisposed(t, id);
      var t2 := DisposeChildren(t1, id, 0);
      var r := Finish(t2, id);
      assert Dispose(t, id) == Teardown(t, id) == r;
      assert Kept(t.nodes[id], t1.nodes[id]);
      DisposeChildrenTrail(t1, id, 0);
      TrailJoin(t, t1.nodes, t2, r, id);
    }
  }

  /** Disposing twice is disposing once. */
  lemma DisposeIdempotent<T>(t: Tree<T>, id: NodeId)
    requires Wf(t) && id in t.nodes
    ensures Dispose(Dispose(t, id), id) == Dispose(t, id)
  {
  }

  /**
   * A release of the node's voxel data happens exactly once: as the last call
   * when `Dispose` releases the node, and not at all otherwise.
   */
  lemma DisposeReleasesOnce<T>(t: Tree<T>, id: NodeId)
    requires Wf(t) && id in t.nodes
    ensures var r := Dispose(t, id);
            forall k :: |t.events| <= k < |r.events| ==>
              (r.events[k] == DisposeVoxelData(id) <==> Released(t, id) && k == |r.events| - 1)
  {
    var r := Dispose(t, id);
    DisposeTrail(t, id);
    if Released(t, id) {
      ReleasesBelowMisses(r.events, |t.events|, |r.events| - 1, t.nodes, id);
    } else {
      ReleasesBelowMisses(r.events, |t.events|, |r.events|, t.nodes, id);
    }
  }
}
