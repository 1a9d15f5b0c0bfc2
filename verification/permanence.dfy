/**
 * `setPermanence` of `Node<T>` (NodeManager.cs): making a node permanent makes
 * every ancestor permanent too, and making it transient makes every
 * descendant transient too.  Nothing but the permanence flags changes.
 */
module Permanence {
  import opened Wrappers
  import opened Geometry
  import opened Arena
  import opened Lineages

  /** Set one node's permanence flag. */
  function Mark<T>(t: Tree<T>, id: NodeId, perm: bool): (r: Tree<T>)
    requires Wf(t) && id in t.nodes
    ensures Wf(r)
    ensures perm ==> Raised(t, r, {id})
    ensures !perm ==> Lowered(t, r, {id})
  {
    FlagWf(t.nodes, t.nextId, t.maxLOD, id, perm);
    t.(nodes := t.nodes[id := t.nodes[id].(permanent := perm)])
  }

  /**
   * `setPermanence(true)`: the parent first, then the node itself.  Exactly
   * the node and its ancestors end permanent; every other flag is as before.
   */
  function MakePermanent<T>(t: Tree<T>, id: NodeId): (r: Tree<T>)
    requires Wf(t) && id in t.nodes
    ensures Wf(r) && Raised(t, r, Lineage(t.nodes, id))
    decreases MaxLevel - t.nodes[id].lod
  {
    assert Local(t.nodes[id], t.maxLOD);
    var p := Parent(t, id);
    var t1 := if p.Some? then MakePermanent(t, p.value) else t;
    var r := Mark(t1, id, true);
    RaisedTrans(t, t1, r, if p.Some? then Lineage(t.nodes, p.value) else {}, {id});
    r
  }

  /**
   * `setPermanence(false)`: the children in slot order first, then the node
   * itself.  Exactly the node and its descendants end transient.
   */
  function MakeTransient<T>(t: Tree<T>, id: NodeId): (r: Tree<T>)
    requires Wf(t) && id in t.nodes
    ensures Wf(r) && Lowered(t, r, Subtree(t.nodes, id))
    decreases t.nodes[id].lod, 1, 0, 0
  {
    var t1 := TransientFrom(t, id, 0);
    var r := Mark(t1, id, false);
    LoweredTrans(t, t1, r, Below(t.nodes, id, 0), {id});
    r
  }

  /** The loop over slots `i..7` of `setPermanence(false)`. */
  function TransientFrom<T>(t: Tree<T>, id: NodeId, i: nat): (r: Tree<T>)
    requires Wf(t) && id in t.nodes && i <= 8
    ensures Wf(r) && Lowered(t, r, Below(t.nodes, id, i))
    decreases t.nodes[id].lod, 0, 8 - i, 1
  {
    assert Local(t.nodes[id], t.maxLOD);
    if i == 8 then t
    else
      var t1 := TransientSlot(t, id, i);
      BelowShape(t.nodes, t1.nodes, id, i + 1);
      var r := TransientFrom(t1, id, i + 1);
      LoweredTrans(t, t1, r, SlotTree(t.nodes, id, i), Below(t.nodes, id, i + 1));
      r
  }

  /** One turn of that loop: the child in slot `i`, if any, is made transient. */
  function TransientSlot<T>(t: Tree<T>, id: NodeId, i: nat): (r: Tree<T>)
    requires Wf(t) && id in t.nodes && i < 8
    ensures Wf(r) && i < |t.nodes[id].subNodes| && Lowered(t, r, SlotTree(t.nodes, id, i))
    ensures SameShape(t.nodes, r.nodes)
    decreases t.nodes[id].lod, 0, 8 - i, 0
  {
    assert Local(t.nodes[id], t.maxLOD) && Links(t.nodes, id);
    assert ChildAt(t.nodes, t.nodes[id], i);
    var s := t.nodes[id].subNodes[i];
    var r := if s.Some? then MakeTransient(t, s.value) else t;
    PermanenceShape(t, r);
    r
  }

  /**
   * After `setPermanence(true)` the node and every ancestor along the
   * resulting parent links are permanent, and no flag was turned off.
   */
  lemma PermanentUpward<T>(t: Tree<T>, id: NodeId)
    requires Wf(t) && id in t.nodes
    ensures var r := MakePermanent(t, id);
            && r.nodes[id].permanent
            && (forall x :: x in Lineage(r.nodes, id) ==> x in r.nodes && r.nodes[x].permanent)
            && (forall x :: x in t.nodes && t.nodes[x].permanent ==> r.nodes[x].permanent)
  {
    var r := MakePermanent(t, id);
    PermanenceShape(t, r);
    LineageShape(t.nodes, r.nodes, id);
    LineageInArena(t.nodes, id);
  }

  /**
   * After `setPermanence(false)` the node and every descendant through the
   * resulting child slots are transient, and no flag was turned on.
   */
  lemma TransientDownward<T>(t: Tree<T>, id: NodeId)
    requires Wf(t) && id in t.nodes
    ensures var r := MakeTransient(t, id);
            && !r.nodes[id].permanent
            && (forall x :: x in Subtree(r.nodes, id) ==> x in r.nodes && !r.nodes[x].permanent)
            && (forall x :: x in t.nodes && !t.nodes[x].permanent ==> !r.nodes[x].permanent)
  {
    var r := MakeTransient(t, id);
    PermanenceShape(t, r);
    SubtreeShape(t.nodes, r.nodes, id);
    SubtreeInArena(t.nodes, id);
  }
}
