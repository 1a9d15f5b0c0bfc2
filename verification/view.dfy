/**
 * `ViewPosChanged` of `Node<T>` (NodeManager.cs): when the viewer moves, a
 * node near the viewer's lattice cell at its level subdivides if it is a
 * leaf and passes the update on to its children; a node far from it disposes
 * and empties its child slots; a node in the band between keeps them.  The
 * node's render state is then re-decided.
 */
module ViewUpdate {
  import opened Wrappers
  import opened Vectors
  import opened Arena
  import opened Subdivide
  import opened Render
  import opened DisposeLog
  import opened Disposal
  import opened LevelFrames

  /** `v` lies within `size` lattice cells of `c` on every axis. */
  predicate Within(v: V3, c: V3, size: int)
  {
    && c.x - size <= v.x <= c.x + size
    && c.y - size <= v.y <= c.y + size
    && c.z - size <= v.z <= c.z + size
  }

  /**
   * The far test as the source groups it: `&&` binds tighter than `||`, so
   * the level bound guards the x axis only.
   */
  predicate FarAsWritten(lod: nat, v: V3, c: V3)
  {
    || (lod < 3 && (v.x < c.x - 3 || v.x > c.x + 3))
    || (v.y < c.y - 3 || v.y > c.y + 3)
    || (v.z < c.z - 3 || v.z > c.z + 3)
  }

  /** Whether a node outside the near cube empties its slots: the far test, or the fallback for levels 3 and up. */
  predicate Prunes(lod: nat, v: V3, c: V3)
  {
    FarAsWritten(lod, v, c) || lod >= 3
  }

  /**
   * Despite the grouping, the two tests together prune exactly when the level
   * is 3 or more or the viewer is more than three cells away on some axis.
   */
  lemma PrunesMeans(lod: nat, v: V3, c: V3)
    ensures Prunes(lod, v, c) <==> lod >= 3 || !Within(v, c, 3)
  {
  }

  /** The near branch's first step: a leaf subdivides. */
  function Sprout<T>(t: Tree<T>, id: NodeId): (r: Tree<T>)
    requires Wf(t) && Shaped(t) && id in t.nodes
    ensures ViewFrame(t, r, t.nodes[id].lod)
    ensures !IsBottomLevel(t.nodes, id) || t.nodes[id].lod == 0 ==> r == t
    ensures IsBottomLevel(t.nodes, id) && t.nodes[id].lod > 0 ==>
              AllSome(r.nodes[id].subNodes) && !IsBottomLevel(r.nodes, id)
  {
    if IsBottomLevel(t.nodes, id) then CreateSubNodes(t, id) else t
  }

  /** The far branch: every child is disposed and its slot emptied. */
  function Prune<T>(t: Tree<T>, id: NodeId): (r: Tree<T>)
    requires Wf(t) && Shaped(t) && id in t.nodes
    ensures ViewFrame(t, r, t.nodes[id].lod)
    ensures AllNone(r.nodes[id].subNodes)
    ensures forall j :: 0 <= j < 8 && t.nodes[id].subNodes[j].Some? ==>
              t.nodes[id].subNodes[j].value in r.nodes && r.nodes[t.nodes[id].subNodes[j].value].disposed
  {
    var r := DisposeChildren(t, id, 0);
    assert Local(r.nodes[id], r.maxLOD);
    assert AllNone(r.nodes[id].subNodes);
    DisposalInFrame(t, r, id);
    r
  }

  /** `RenderCheck` changes only the log. */
  lemma RenderFrame<T>(t: Tree<T>, id: NodeId, l: int)
    requires Wf(t) && Shaped(t) && id in t.nodes
    ensures ViewFrame(t, RenderCheck(t, id), l)
  {
  }

  /**
   * `ViewPosChanged`: compare the viewer's cell at this node's level with the
   * node's own cell; near (within one cell on every axis) descends, far
   * prunes, and the band between leaves the tree alone.  Only this node's
   * slots and the subtree below it change.
   */
  function ViewPosChanged<T>(t: Tree<T>, id: NodeId, view: seq<V3>): (r: Tree<T>)
    requires Wf(t) && Shaped(t) && id in t.nodes && |view| == t.maxLOD + 1
    ensures ViewFrame(t, r, t.nodes[id].lod)
    decreases t.nodes[id].lod, 1
  {
    var t1 := Branch(t, id, view);
    RenderFrame(t1, id, t.nodes[id].lod);
    var r := RenderCheck(t1, id);
    ViewFrameTrans(t, t1, r, t.nodes[id].lod);
    r
  }

  /** The branch taken before the render check. */
  function Branch<T>(t: Tree<T>, id: NodeId, view: seq<V3>): (r: Tree<T>)
    requires Wf(t) && Shaped(t) && id in t.nodes && |view| == t.maxLOD + 1
    ensures ViewFrame(t, r, t.nodes[id].lod)
    decreases t.nodes[id].lod, 0, 10
  {
    var n := t.nodes[id];
    assert Local(n, t.maxLOD);
    var v := view[n.lod];
    ViewFrameRefl(t, n.lod);
    if Within(v, n.chunkPos, 1) then Descend(t, id, view)
    else if Prunes(n.lod, v, n.chunkPos) then Prune(t, id)
    else t
  }

  /** The near branch: subdivide a leaf, then update every child in slot order. */
  function Descend<T>(t: Tree<T>, id: NodeId, view: seq<V3>): (r: Tree<T>)
    requires Wf(t) && Shaped(t) && id in t.nodes && |view| == t.maxLOD + 1
    ensures ViewFrame(t, r, t.nodes[id].lod)
    decreases t.nodes[id].lod, 0, 9
  {
    var t1 := Sprout(t, id);
    assert Kept(t.nodes[id], t1.nodes[id]);
    var r := ViewChildren(t1, id, 0, view);
    ViewFrameWiden(t1, r, t.nodes[id].lod - 1, t.nodes[id].lod);
    ViewFrameTrans(t, t1, r, t.nodes[id].lod);
    r
  }

  /** The loop over slots `i..7`, updating each non-null child. */
  function ViewChildren<T>(t: Tree<T>, id: NodeId, i: nat, view: seq<V3>): (r: Tree<T>)
    requires Wf(t) && Shaped(t) && id in t.nodes && i <= 8 && |view| == t.maxLOD + 1
    ensures ViewFrame(t, r, t.nodes[id].lod - 1)
    decreases t.nodes[id].lod, 0, 8 - i
  {
    if i == 8 then
      ViewFrameRefl(t, t.nodes[id].lod - 1);
      t
    else
      var t1 := VisitSlot(t, id, i, view);
      var r := ViewChildren(t1, id, i + 1, view);
      ViewFrameTrans(t, t1, r, t.nodes[id].lod - 1);
      r
  }

  /** One turn of the slot loop: update the child in slot `i`, if any. */
  function VisitSlot<T>(t: Tree<T>, id: NodeId, i: nat, view: seq<V3>): (r: Tree<T>)
    requires Wf(t) && Shaped(t) && id in t.nodes && i < 8 && |view| == t.maxLOD + 1
    ensures ViewFrame(t, r, t.nodes[id].lod - 1)
    ensures id in r.nodes && r.nodes[id].lod == t.nodes[id].lod && r.maxLOD == t.maxLOD
    decreases t.nodes[id].lod, 0, 7 - i
  {
    assert Local(t.nodes[id], t.maxLOD) && Links(t.nodes, id);
    assert ChildAt(t.nodes, t.nodes[id], i);
    var s := t.nodes[id].subNodes[i];
    ViewFrameRefl(t, t.nodes[id].lod - 1);
    if s.Some? then ViewPosChanged(t, s.value, view) else t
  }

  /**
   * Near the viewer (within one cell on every axis): a leaf above level 0 ends
   * with a live child in every slot; a node with live children keeps its
   * slots and stays a non-leaf; at level 0 the slots stay as they were.
   */
  lemma ViewNear<T>(t: Tree<T>, id: NodeId, view: seq<V3>)
    requires Wf(t) && Shaped(t) && id in t.nodes && |view| == t.maxLOD + 1
    requires t.nodes[id].lod < |view| && Within(view[t.nodes[id].lod], t.nodes[id].chunkPos, 1)
    ensures var r := ViewPosChanged(t, id, view);
            && (IsBottomLevel(t.nodes, id) && t.nodes[id].lod > 0 ==>
                  AllSome(r.nodes[id].subNodes) && !IsBottomLevel(r.nodes, id))
            && (!IsBottomLevel(t.nodes, id) ==>
                  r.nodes[id].subNodes == t.nodes[id].subNodes && !IsBottomLevel(r.nodes, id))
            && (t.nodes[id].lod == 0 ==> r.nodes[id].subNodes == t.nodes[id].subNodes)
  {
    var t1 := Sprout(t, id);
    assert Kept(t.nodes[id], t1.nodes[id]);
    var t2 := ViewChildren(t1, id, 0, view);
    assert Branch(t, id, view) == Descend(t, id, view) == t2;
    LeafTestKept(t1, t2, id);
  }

  /**
   * Outside the near cube, at level 3 or above or more than three cells away
   * on some axis, every former child ends disposed and every child slot
   * ends empty.
   */
  lemma ViewFar<T>(t: Tree<T>, id: NodeId, view: seq<V3>)
    requires Wf(t) && Shaped(t) && id in t.nodes && |view| == t.maxLOD + 1
    requires t.nodes[id].lod < |view| && !Within(view[t.nodes[id].lod], t.nodes[id].chunkPos, 1)
    requires t.nodes[id].lod >= 3 || !Within(view[t.nodes[id].lod], t.nodes[id].chunkPos, 3)
    ensures AllNone(ViewPosChanged(t, id, view).nodes[id].subNodes)
    ensures var r := ViewPosChanged(t, id, view);
            forall j :: 0 <= j < 8 && t.nodes[id].subNodes[j].Some? ==>
              t.nodes[id].subNodes[j].value in r.nodes && r.nodes[t.nodes[id].subNodes[j].value].disposed
  {
    PrunesMeans(t.nodes[id].lod, view[t.nodes[id].lod], t.nodes[id].chunkPos);
    assert Branch(t, id, view) == Prune(t, id);
  }

  /**
   * In the band between (below level 3, more than one and at most three cells
   * away), nothing changes but the render check's call.
   */
  lemma ViewBand<T>(t: Tree<T>, id: NodeId, view: seq<V3>)
    requires Wf(t) && Shaped(t) && id in t.nodes && |view| == t.maxLOD + 1
    requires t.nodes[id].lod < |view| && !Within(view[t.nodes[id].lod], t.nodes[id].chunkPos, 1)
    requires t.nodes[id].lod < 3 && Within(view[t.nodes[id].lod], t.nodes[id].chunkPos, 3)
    ensures ViewPosChanged(t, id, view) == t.(events := t.events + Verdict(t.nodes, id))
  {
    PrunesMeans(t.nodes[id].lod, view[t.nodes[id].lod], t.nodes[id].chunkPos);
    assert Branch(t, id, view) == t;
  }

  /**
   * The update ends with the render check on the final state: a node with a
   * render object is last shown iff it is live and a leaf.
   */
  lemma ViewEndsWithVerdict<T>(t: Tree<T>, id: NodeId, view: seq<V3>)
    requires Wf(t) && Shaped(t) && id in t.nodes && |view| == t.maxLOD + 1
    ensures var r := ViewPosChanged(t, id, view);
            r.nodes[id].hasChunk ==>
              |r.events| > 0 && r.events[|r.events| - 1] == SetRenderState(id, !r.nodes[id].disposed && IsBottomLevel(r.nodes, id))
  {
    var t1 := Branch(t, id, view);
  }
}
