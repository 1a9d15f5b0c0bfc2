/**
 * `CreateSubNodes` of `Node<T>` (NodeManager.cs): subdividing a node either
 * reactivates its existing children or builds eight new ones.
 */
module Subdivide {
  import opened Arena
  import opened Construct

  /**
   * `CreateSubNodes`: nothing at level 0.  A node whose first slot is filled
   * has its eight children marked not disposed.  Otherwise eight new children
   * are built one level down at their offset positions, each inheriting the
   * parent's permanence and issuing one mesh request.  Either way the node is
   * no longer a leaf.  The source dereferences every slot once the first is
   * filled, so the slots must be all null or all filled.
   */
  function CreateSubNodes<T>(t: Tree<T>, id: NodeId): (r: Tree<T>)
    requires Wf(t) && id in t.nodes
    requires AllOrNone(t.nodes[id].subNodes)
    ensures Wf(r) && Evolves(t, r)
    ensures t.nodes[id].lod == 0 ==> r == t
    ensures t.nodes[id].lod > 0 ==> Subdivided(t, r, id)
    ensures t.nodes[id].lod > 0 && t.nodes[id].subNodes[0].Some? ==>
              && r.nodes[id].subNodes == t.nodes[id].subNodes
              && r.nodes.Keys == t.nodes.Keys && r.nodeCount == t.nodeCount && r.events == t.events
    ensures t.nodes[id].lod > 0 && t.nodes[id].subNodes[0].None? ==> r.nodes[id].subNodes == Filled(t.nextId)
    ensures t.nodes[id].lod > 0 && t.nodes[id].subNodes[0].None? ==> forall j :: 0 <= j < 8 ==> FreshInSlot(r.nodes, id, t.nodes[id], j)
    ensures t.nodes[id].lod > 0 && t.nodes[id].subNodes[0].None? ==> Bumped(t.nodeCount, r.nodeCount, t.nodes[id].lod - 1, 8)
    ensures t.nodes[id].lod > 0 && t.nodes[id].subNodes[0].None? ==> r.events == t.events + Requests(t.nextId, 8)
  {
    var n := t.nodes[id];
    if n.lod == 0 then t
    else if n.subNodes[0].Some? then
      ReactivateSubdivides(t, id);
      Reactivate(t, id)
    else
      CreateAllSubdivides(t, id);
      CreateAll(t, id)
  }
}
