/**
 * The mesh-request flags of `Node<T>` (NodeManager.cs): `RegenerateChunk`
 * asks the mesh factory for a mesh, coalescing requests while one is in
 * flight, and `SetMesh` receives the result.
 */
module Meshes {
  import opened Wrappers
  import opened Vectors
  import opened Geometry
  import Voxels
  import opened Regen
  import opened Arena
  import opened Render

  /**
   * `RegenerateChunk`: with a request in flight only `regenFlag` is set;
   * otherwise one request is issued and marked in flight.
   */
  function RegenerateChunk<T>(t: Tree<T>, id: NodeId): (r: Tree<T>)
    requires Wf(t) && id in t.nodes
    ensures Wf(r) && r.nodes.Keys == t.nodes.Keys && r.nextId == t.nextId && r.nodeCount == t.nodeCount
    ensures t.nodes[id].regen.regenReq ==> r.events == t.events && r.nodes[id].regen.regenFlag
    ensures !t.nodes[id].regen.regenReq ==> r.events == t.events + [RequestMesh(id)]
    ensures r.nodes[id].regen.regenReq
    ensures Coalesced(t.nodes[id].regen) ==> Coalesced(r.nodes[id].regen)
    ensures forall x :: x in t.nodes && x != id ==> r.nodes[x] == t.nodes[x]
    ensures r.nodes[id] == t.nodes[id].(regen := r.nodes[id].regen)
  {
    var n := t.nodes[id];
    var (s, issued) := Regenerate(n.regen);
    ReplaceNode(t.nodes, t.nextId, t.maxLOD, id, n.(regen := s));
    var t1 := SetNode(t, id, n.(regen := s));
    if issued then Emit(t1, RequestMesh(id)) else t1
  }

  /**
   * The first half of `SetMesh`: clears the in-flight mark, re-issues exactly
   * one request iff one was owed, and marks the mesh present.
   */
  function Deliver<T>(t: Tree<T>, id: NodeId): (r: Tree<T>)
    requires Wf(t) && id in t.nodes
    ensures Wf(r) && r.nodes.Keys == t.nodes.Keys && r.nextId == t.nextId && r.nodeCount == t.nodeCount
    ensures r.nodes[id].hasMesh && !r.nodes[id].regen.regenFlag
    ensures r.nodes[id].regen.regenReq <==> t.nodes[id].regen.regenFlag
    ensures r.events == t.events + (if t.nodes[id].regen.regenFlag then [RequestMesh(id)] else [])
    ensures r.nodes[id] == t.nodes[id].(regen := r.nodes[id].regen, hasMesh := true)
    ensures forall x :: x in t.nodes && x != id ==> r.nodes[x] == t.nodes[x]
  {
    var n := t.nodes[id];
    var (s, issued) := Delivered(n.regen);
    var n1 := n.(regen := s, hasMesh := true);
    ReplaceNode(t.nodes, t.nextId, t.maxLOD, id, n1);
    var t1 := SetNode(t, id, n1);
    if issued then Emit(t1, RequestMesh(id)) else t1
  }

  /**
   * The second half of `SetMesh` for a non-empty mesh: the node is marked
   * non-empty, the controller attaches the mesh and with it a render object,
   * and the node and then its parent re-run `RenderCheck`.
   */
  function Attach<T>(t: Tree<T>, id: NodeId): (r: Tree<T>)
    requires Wf(t) && id in t.nodes
    ensures Wf(r) && r.nodes.Keys == t.nodes.Keys && r.nextId == t.nextId && r.nodeCount == t.nodeCount
    ensures r.nodes[id] == t.nodes[id].(empty := false, hasChunk := true)
    ensures forall x :: x in t.nodes && x != id ==> r.nodes[x] == t.nodes[x]
    ensures r.events == t.events + [ApplyVoxelData(id), SetRenderState(id, !t.nodes[id].disposed && IsBottomLevel(t.nodes, id))] +
                        (if Parent(t, id).Some? then Verdict(t.nodes, Parent(t, id).value) else [])
  {
    var t3 := Fill(t, id);
    var t4 := RenderCheck(t3, id);
    if Parent(t, id).Some? then
      assert Verdict(t3.nodes, t.nodes[id].parent.value) == Verdict(t.nodes, t.nodes[id].parent.value);
      RenderCheck(t4, t.nodes[id].parent.value)
    else t4
  }

  /**
   * The node marked non-empty and given its render object, with the voxel
   * data applied: which nodes are leaves does not change.
   */
  function Fill<T>(t: Tree<T>, id: NodeId): (r: Tree<T>)
    requires Wf(t) && id in t.nodes
    ensures Wf(r) && r.nodes.Keys == t.nodes.Keys && r.nextId == t.nextId && r.nodeCount == t.nodeCount
    ensures r.nodes[id] == t.nodes[id].(empty := false, hasChunk := true)
    ensures forall x :: x in t.nodes && x != id ==> r.nodes[x] == t.nodes[x]
    ensures forall y :: y in t.nodes ==> IsBottomLevel(r.nodes, y) == IsBottomLevel(t.nodes, y)
    ensures r.events == t.events + [ApplyVoxelData(id)]
  {
    var n := t.nodes[id].(empty := false, hasChunk := true);
    ReplaceNode(t.nodes, t.nextId, t.maxLOD, id, n);
    LeafTestFrame(t.nodes, id, n);
    Emit(SetNode(t, id, n), ApplyVoxelData(id))
  }

  /**
   * `SetMesh`, apart from building the engine mesh: `Deliver`, then `Attach`
   * unless the mesh is empty.  The disposed flag is not consulted.
   */
  function SetMesh<T>(t: Tree<T>, id: NodeId, meshEmpty: bool): (r: Tree<T>)
    requires Wf(t) && id in t.nodes
    ensures Wf(r) && r.nodes.Keys == t.nodes.Keys && r.nextId == t.nextId && r.nodeCount == t.nodeCount
    ensures r.nodes[id].hasMesh && !r.nodes[id].regen.regenFlag
    ensures r.nodes[id].regen.regenReq <==> t.nodes[id].regen.regenFlag
    ensures t.events <= r.events
    ensures meshEmpty ==> r.events == t.events + (if t.nodes[id].regen.regenFlag then [RequestMesh(id)] else [])
    ensures meshEmpty ==> r.nodes[id].empty == t.nodes[id].empty && r.nodes[id].hasChunk == t.nodes[id].hasChunk
    ensures !meshEmpty ==> !r.nodes[id].empty && r.nodes[id].hasChunk
    ensures r.nodes[id].disposed == t.nodes[id].disposed && r.nodes[id].subNodes == t.nodes[id].subNodes
    ensures forall x :: x in t.nodes && x != id ==> r.nodes[x] == t.nodes[x]
  {
    var t2 := Deliver(t, id);
    if meshEmpty then t2
    else
      Attach(t2, id)
  }
}
