/**
 * The visibility rule of `Node<T>` (NodeManager.cs): `RenderCheck` shows a
 * node's render object iff the node is live and a leaf.
 */
module Render {
  import opened Arena

  /** The call `RenderCheck` makes for `id`, if any: shown iff live and a leaf. */
  function Verdict<T>(nodes: map<NodeId, Node<T>>, id: NodeId): (r: seq<Event>)
    requires id in nodes
    ensures |r| <= 1
  {
    if nodes[id].hasChunk then [SetRenderState(id, !nodes[id].disposed && IsBottomLevel(nodes, id))] else []
  }

  /**
   * `RenderCheck`: a node with a render object is shown iff it is live and a
   * leaf; a disposed node or a node with live children is hidden, whatever
   * its children's mesh state.  A node without a render object gets no call.
   * Nothing but the log changes.
   */
  function RenderCheck<T>(t: Tree<T>, id: NodeId): (r: Tree<T>)
    requires id in t.nodes
    ensures r == t.(events := t.events + Verdict(t.nodes, id))
  {
    var n := t.nodes[id];
    if n.disposed then
      (if n.hasChunk then Emit(t, SetRenderState(id, false)) else t)
    else if n.hasChunk then
      if IsBottomLevel(t.nodes, id) then Emit(t, SetRenderState(id, true))
      else Emit(t, SetRenderState(id, false))
    else
      assert t.events + [] == t.events;
      t
  }

  /**
   * What `RenderCheck` logs: nothing but the log changes, one call is added
   * iff the node has a render object, and that call shows the node iff it
   * is live and a leaf.
   */
  lemma RenderCheckMeans<T>(t: Tree<T>, id: NodeId)
    requires id in t.nodes
    ensures var r := RenderCheck(t, id);
            && r.nodes == t.nodes && r.events[..|t.events|] == t.events
            && (|r.events| == |t.events| + 1 <==> t.nodes[id].hasChunk)
            && (|r.events| == |t.events| || |r.events| == |t.events| + 1)
            && (|r.events| == |t.events| + 1 ==>
                  && r.events[|t.events|].SetRenderState? && r.events[|t.events|].node == id
                  && (r.events[|t.events|].visible <==> !t.nodes[id].disposed && IsBottomLevel(t.nodes, id)))
  {
  }

  /** A live node with a render object and a live child in every slot is hidden, even while a child has no mesh yet. */
  lemma ParentHiddenWhileChildrenPending<T>(t: Tree<T>, id: NodeId, i: nat)
    requires id in t.nodes && i < |t.nodes[id].subNodes|
    requires t.nodes[id].hasChunk && !t.nodes[id].disposed
    requires forall j :: 0 <= j < |t.nodes[id].subNodes| ==> !SlotVacant(t.nodes, id, j)
    requires t.nodes[id].subNodes[i].Some? && t.nodes[id].subNodes[i].value in t.nodes
    requires !t.nodes[t.nodes[id].subNodes[i].value].hasMesh
    ensures RenderCheck(t, id).events == t.events + [SetRenderState(id, false)]
  {
    BottomLevelMeans(t.nodes, id);
  }
}
