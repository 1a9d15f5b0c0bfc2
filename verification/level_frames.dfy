/**
 * The frame the view update keeps: a pass over the subtree of a node at
 * level `l` leaves the arena well formed and all-or-none, only grows it, and
 * touches child slots at level `l` and below, disposed flags and counters
 * below level `l` only.
 */
module LevelFrames {
  import opened Wrappers
  import opened Arena
  import opened DisposeLog

  ghost predicate ViewFrame<T>(t: Tree<T>, r: Tree<T>, l: int)
  {
    && Wf(r) && Evolves(t, r) && Shaped(r)
    && LevelFrame(t, r, l, l - 1, l - 1)
  }

  lemma ViewFrameRefl<T>(t: Tree<T>, l: int)
    requires Wf(t) && Shaped(t)
    ensures ViewFrame(t, t, l)
  {
  }

  lemma ViewFrameTrans<T>(a: Tree<T>, b: Tree<T>, c: Tree<T>, l: int)
    requires ViewFrame(a, b, l) && ViewFrame(b, c, l)
    ensures ViewFrame(a, c, l)
  {
    LevelFrameTrans(a, b, c, l, l - 1, l - 1);
  }

  /** A pass confined below level `l` is confined below any higher level. */
  lemma ViewFrameWiden<T>(t: Tree<T>, r: Tree<T>, l: int, m: int)
    requires l <= m && ViewFrame(t, r, l)
    ensures ViewFrame(t, r, m)
  {
  }

  /**
   * Whether `id` is a leaf is decided by its slots and its children's
   * disposed flags, so a pass that keeps both keeps the answer.
   */
  lemma LeafTestKept<T>(t: Tree<T>, r: Tree<T>, id: NodeId)
    requires Wf(t) && id in t.nodes && Evolves(t, r)
    requires r.nodes[id].subNodes == t.nodes[id].subNodes
    requires forall x :: x in t.nodes && t.nodes[x].lod + 1 == t.nodes[id].lod ==> r.nodes[x].disposed == t.nodes[x].disposed
    ensures IsBottomLevel(r.nodes, id) == IsBottomLevel(t.nodes, id)
  {
    BottomLevelMeans(t.nodes, id);
    BottomLevelMeans(r.nodes, id);
    assert Links(t.nodes, id) && Local(t.nodes[id], t.maxLOD);
    forall j | 0 <= j < 8
      ensures SlotVacant(r.nodes, id, j) == SlotVacant(t.nodes, id, j)
    {
      assert ChildAt(t.nodes, t.nodes[id], j);
    }
  }

  /**
   * Disposing the subtree below `id` while keeping `id`'s own disposed flag
   * and leaving its slots all-or-none stays within the frame at `id`'s level.
   */
  lemma DisposalInFrame<T>(t: Tree<T>, r: Tree<T>, id: NodeId)
    requires id in t.nodes && Shaped(t) && DisposeFrame(t, r, id)
    requires CountsFrom(t.nodeCount, r.nodeCount, t.nodes[id].lod)
    requires r.nodes[id].disposed == t.nodes[id].disposed && AllOrNone(r.nodes[id].subNodes)
    ensures ViewFrame(t, r, t.nodes[id].lod)
  {
    DisposeFrameShaped(t, r, id);
    var l: int := t.nodes[id].lod;
    forall x | x in t.nodes && t.nodes[x].lod > l
      ensures r.nodes[x].subNodes == t.nodes[x].subNodes
    {
      assert OnlyNeighbors(t.nodes[x], r.nodes[x]);
    }
    forall x | x in t.nodes && t.nodes[x].lod > l - 1
      ensures r.nodes[x].disposed == t.nodes[x].disposed
    {
      if x != id {
        assert OnlyNeighbors(t.nodes[x], r.nodes[x]);
      }
    }
  }
}
