/**
 * Node construction of `Node<T>` (NodeManager.cs): the `Node` constructor,
 * and the two loops of `CreateSubNodes`: the one that reactivates a node's
 * existing children and the one that builds eight new ones.
 */
module Construct {
  import opened Wrappers
  import opened Vectors
  import opened Geometry
  import Voxels
  import opened Regen
  import opened Arena

  /** The record the `Node` constructor builds, before it is stored. */
  function NewRecord<T>(dflt: T, parent: Option<NodeId>, position: V3, subNodeId: nat, lod: nat, permanent: bool): (n: Node<T>)
    requires lod <= MaxLevel
    ensures n.parent == parent && n.position == position && n.subNodeId == subNodeId
    ensures n.lod == lod && n.permanent == permanent && n.chunkPos == ChunkPos(position, lod)
    ensures n.subNodes == NoChildren && n.neighborNodes == NoNeighbors
    ensures Voxels.Valid(n.changeData) && !n.hasDensityChangeData
    ensures !n.disposed && !n.hasMesh && n.empty && !n.hasChunk
    ensures n.regen.regenReq && Coalesced(n.regen)
  {
    Node(parent, subNodeId, lod, position, ChunkPos(position, lod),
         NoChildren, NoNeighbors, Voxels.New(dflt), false,
         permanent, Constructed().0, false, false, true, false)
  }

  /** Permanence a new node inherits: its parent's, or none at the top. */
  function Inherited<T>(t: Tree<T>, parent: Option<NodeId>): bool
    requires parent.Some? ==> parent.value in t.nodes
  {
    parent.Some? && t.nodes[parent.value].permanent
  }

  /** Storing a fresh record under `nextId` and counting it at its level. */
  function Insert<T>(t: Tree<T>, n: Node<T>): (r: Tree<T>)
    requires Wf(t) && Local(n, t.maxLOD) && Voxels.Valid(n.changeData) && n.subNodes == NoChildren && n.neighborNodes == NoNeighbors
    requires n.parent.Some? ==> n.parent.value in t.nodes && t.nodes[n.parent.value].lod == n.lod + 1
    ensures t.nextId !in t.nodes
    ensures Wf(r) && Evolves(t, r)
    ensures r.nodes == t.nodes[t.nextId := n] && r.nextId == t.nextId + 1
    ensures Bumped(t.nodeCount, r.nodeCount, n.lod, 1)
    ensures r.events == t.events + [RequestMesh(t.nextId)]
  {
    AddNode(t.nodes, t.nextId, t.nextId + 1, t.maxLOD, n);
    t.(nodes := t.nodes[t.nextId := n], nextId := t.nextId + 1,
       nodeCount := Bump(t.nodeCount, n.lod, 1),
       events := t.events + [RequestMesh(t.nextId)])
  }

  /**
   * The `Node` constructor: a fresh identifier, no children or neighbours, an
   * empty change grid, permanence inherited from the parent, one more node
   * counted at its level, and its first mesh request issued.
   */
  function NewNode<T>(t: Tree<T>, parent: Option<NodeId>, position: V3, subNodeId: nat, lod: nat): (r: (Tree<T>, NodeId))
    requires Wf(t) && lod <= t.maxLOD
    requires parent.Some? ==> parent.value in t.nodes && t.nodes[parent.value].lod == lod + 1
    ensures r.1 == t.nextId && r.1 !in t.nodes
    ensures Wf(r.0) && Evolves(t, r.0)
    ensures r.0.nodes == t.nodes[r.1 := NewRecord(t.dflt, parent, position, subNodeId, lod, Inherited(t, parent))]
    ensures r.0.nextId == t.nextId + 1
    ensures Bumped(t.nodeCount, r.0.nodeCount, lod, 1)
    ensures r.0.events == t.events + [RequestMesh(r.1)]
  {
    (Insert(t, NewRecord(t.dflt, parent, position, subNodeId, lod, Inherited(t, parent))), t.nextId)
  }

  /** The record of child `i` that `CreateSubNodes` builds for `id`. */
  function ChildRecord<T>(t: Tree<T>, id: NodeId, i: nat): (c: Node<T>)
    requires id in t.nodes && 0 < t.nodes[id].lod <= MaxLevel && i < 8
    ensures FreshChild(c, id, t.nodes[id], i)
  {
    var n := t.nodes[id];
    NewRecord(t.dflt, Some(id), GetOffsetPosition(n.position, n.lod, i), i, n.lod - 1, n.permanent)
  }

  /** The eight records `CreateSubNodes` builds for `id`, in slot order. */
  function Brood<T>(t: Tree<T>, id: NodeId): (kids: seq<Node<T>>)
    requires id in t.nodes && 0 < t.nodes[id].lod <= MaxLevel
    ensures |kids| == 8
    ensures forall j :: 0 <= j < 8 ==> FreshChild(kids[j], id, t.nodes[id], j)
  {
    seq(8, j requires 0 <= j < 8 => ChildRecord(t, id, j))
  }

  /** `nodes` with `kids[j]` stored under `first + j`. */
  function Stored<T>(nodes: map<NodeId, Node<T>>, first: NodeId, kids: seq<Node<T>>): map<NodeId, Node<T>>
  {
    map x | x in nodes.Keys + Ids(first, |kids|) :: if x in nodes then nodes[x] else kids[x - first]
  }

  /** The stored arena holds the old records unchanged and `kids[j]` under `first + j`. */
  lemma StoredShape<T>(nodes: map<NodeId, Node<T>>, first: NodeId, kids: seq<Node<T>>)
    requires forall x :: x in nodes ==> x < first
    ensures Stored(nodes, first, kids).Keys == nodes.Keys + Ids(first, |kids|)
    ensures forall x :: x in nodes ==> Stored(nodes, first, kids)[x] == nodes[x]
    ensures forall j :: 0 <= j < |kids| ==> Stored(nodes, first, kids)[first + j] == kids[j]
  {
    forall j | 0 <= j < |kids|
      ensures Stored(nodes, first, kids)[first + j] == kids[j]
    {
      assert first + j !in nodes;
    }
  }

  /** Storing addable records under fresh identifiers keeps the arena well formed. */
  lemma StoredWf<T>(nodes: map<NodeId, Node<T>>, first: NodeId, maxLOD: nat, kids: seq<Node<T>>, pid: NodeId)
    requires NodesWf(nodes, first, maxLOD) && pid in nodes
    requires forall j :: 0 <= j < |kids| ==> Addable(kids[j], pid, nodes[pid].lod, maxLOD)
    ensures NodesWf(Stored(nodes, first, kids), first + |kids|, maxLOD)
  {
    var m := Stored(nodes, first, kids);
    forall x | x in m
      ensures x < first + |kids| && Local(m[x], maxLOD) && Links(m, x) && GridOk(m, x)
    {
      if x in nodes {
        assert m[x] == nodes[x] && Links(nodes, x) && GridOk(nodes, x);
        forall i | 0 <= i < 8
          ensures ChildAt(m, m[x], i)
        {
          assert ChildAt(nodes, nodes[x], i);
        }
      } else {
        var j := x - first;
        assert m[x] == kids[j] && Addable(kids[j], pid, nodes[pid].lod, maxLOD);
      }
    }
  }

  /** `nodes` with the brood stored under `first ..` and `id`'s slots pointing at it. */
  function Placed<T>(nodes: map<NodeId, Node<T>>, first: NodeId, id: NodeId, kids: seq<Node<T>>): map<NodeId, Node<T>>
    requires id in nodes
  {
    Stored(nodes, first, kids)[id := nodes[id].(subNodes := Filled(first))]
  }

  /** Placing a brood of eight fresh children of `id` under fresh identifiers keeps the arena well formed. */
  lemma PlaceWf<T>(nodes: map<NodeId, Node<T>>, first: NodeId, maxLOD: nat, id: NodeId, kids: seq<Node<T>>)
    requires NodesWf(nodes, first, maxLOD) && id in nodes && |kids| == 8
    requires forall j :: 0 <= j < 8 ==> FreshChild(kids[j], id, nodes[id], j)
    ensures NodesWf(Placed(nodes, first, id, kids), first + 8, maxLOD)
  {
    var n := nodes[id];
    forall j | 0 <= j < 8
      ensures Addable(kids[j], id, n.lod, maxLOD)
    {
      assert FreshChild(kids[j], id, n, j);
    }
    StoredWf(nodes, first, maxLOD, kids, id);
    StoredShape(nodes, first, kids);
    var g := Stored(nodes, first, kids);
    assert g[id] == n && id < first;
    forall j | 0 <= j < 8
      ensures ChildAt(g, n.(subNodes := Filled(first)), j)
    {
      assert g[first + j] == kids[j] && FreshChild(kids[j], id, n, j);
    }
    FillRange(g, first + 8, maxLOD, id, first, n);
  }

  /**
   * Placing a brood adds exactly the identifiers `first .. first + 7`, leaves
   * every other record alone and puts child `j` in slot `j`.
   */
  lemma PlaceShape<T>(nodes: map<NodeId, Node<T>>, first: NodeId, id: NodeId, kids: seq<Node<T>>)
    requires id in nodes && id < first && |kids| == 8
    requires forall x :: x in nodes ==> x < first
    requires forall j :: 0 <= j < 8 ==> FreshChild(kids[j], id, nodes[id], j)
    ensures Placed(nodes, first, id, kids).Keys == nodes.Keys + Ids(first, 8)
    ensures forall x :: x in nodes && x != id ==> Placed(nodes, first, id, kids)[x] == nodes[x]
    ensures forall x :: x in nodes ==> Kept(nodes[x], Placed(nodes, first, id, kids)[x])
    ensures Placed(nodes, first, id, kids)[id] == nodes[id].(subNodes := Filled(first))
    ensures forall j :: 0 <= j < 8 ==> FreshInSlot(Placed(nodes, first, id, kids), id, nodes[id], j)
  {
    StoredShape(nodes, first, kids);
    var g := Stored(nodes, first, kids);
    forall j | 0 <= j < 8
      ensures FreshInSlot(Placed(nodes, first, id, kids), id, nodes[id], j)
    {
      assert first + j != id && g[first + j] == kids[j];
    }
  }

  /** Filling all eight slots of `id` with `first + j`, each a child one level down at its offset, keeps the arena well formed. */
  lemma FillRange<T>(g: map<NodeId, Node<T>>, bound: NodeId, maxLOD: nat, id: NodeId, first: NodeId, n: Node<T>)
    requires NodesWf(g, bound, maxLOD) && id in g && g[id] == n && id < first
    requires forall j :: 0 <= j < 8 ==> ChildAt(g, n.(subNodes := Filled(first)), j)
    ensures NodesWf(g[id := n.(subNodes := Filled(first))], bound, maxLOD)
  {
    var m := g[id := n.(subNodes := Filled(first))];
    forall x | x in m
      ensures GridOk(m, x)
    {
      assert GridOk(g, x);
    }
    forall x | x in m
      ensures Links(m, x)
    {
      assert Links(g, x);
      if x == id {
        assert Local(g[id], maxLOD);
        forall j | 0 <= j < 8
          ensures ChildAt(m, m[x], j)
        {
          assert ChildAt(g, m[x], j);
        }
      } else {
        forall j | 0 <= j < 8
          ensures ChildAt(m, m[x], j)
        {
          assert ChildAt(g, g[x], j);
        }
      }
    }
  }

  /**
   * The allocation loop of `CreateSubNodes`, over slots that are all null:
   * child `j` is built by the `Node` constructor under identifier
   * `nextId + j`, counted at the level below, and requests its first mesh in
   * slot order.  No iteration reads what an earlier one wrote, so the eight
   * iterations are stated at once.
   */
  function CreateAll<T>(t: Tree<T>, id: NodeId): (r: Tree<T>)
    requires Wf(t) && id in t.nodes && 0 < t.nodes[id].lod
    requires AllNone(t.nodes[id].subNodes)
    ensures Wf(r) && Evolves(t, r)
    ensures r.nextId == t.nextId + 8
    ensures r.nodes.Keys == t.nodes.Keys + Ids(t.nextId, 8)
    ensures forall x :: x in t.nodes && x != id ==> r.nodes[x] == t.nodes[x]
    ensures Kept(t.nodes[id], r.nodes[id]) && r.nodes[id].subNodes == Filled(t.nextId)
    ensures r.nodes[id].neighborNodes == t.nodes[id].neighborNodes
    ensures r.nodes[id].disposed == t.nodes[id].disposed && r.nodes[id].hasMesh == t.nodes[id].hasMesh
    ensures forall j :: 0 <= j < 8 ==> FreshInSlot(r.nodes, id, t.nodes[id], j)
    ensures Bumped(t.nodeCount, r.nodeCount, t.nodes[id].lod - 1, 8)
    ensures r.events == t.events + Requests(t.nextId, 8)
  {
    var n := t.nodes[id];
    var kids := Brood(t, id);
    PlaceWf(t.nodes, t.nextId, t.maxLOD, id, kids);
    PlaceShape(t.nodes, t.nextId, id, kids);
    t.(nodes := Placed(t.nodes, t.nextId, id, kids),
       nextId := t.nextId + 8,
       nodeCount := Bump(t.nodeCount, n.lod - 1, 8),
       events := t.events + Requests(t.nextId, 8))
  }

  /** `nodes` with every node a slot of `kids` refers to marked not disposed. */
  function Revive<T>(nodes: map<NodeId, Node<T>>, kids: seq<Option<NodeId>>): map<NodeId, Node<T>>
  {
    map x | x in nodes :: if Some(x) in kids then nodes[x].(disposed := false) else nodes[x]
  }

  /** Every child of `id` survives revival and is live afterwards. */
  lemma ReviveChildren<T>(t: Tree<T>, id: NodeId)
    requires Wf(t) && id in t.nodes && AllSome(t.nodes[id].subNodes)
    ensures forall j :: 0 <= j < 8 ==>
              var c := t.nodes[id].subNodes[j].value;
              var m := Revive(t.nodes, t.nodes[id].subNodes);
              c in m && !m[c].disposed
  {
    var n := t.nodes[id];
    assert Links(t.nodes, id);
    forall j | 0 <= j < 8
      ensures n.subNodes[j].value in t.nodes && Some(n.subNodes[j].value) in n.subNodes
    {
      assert ChildAt(t.nodes, n, j);
    }
  }

  /** The reactivation loop of `CreateSubNodes`: every child is marked not disposed. */
  function Reactivate<T>(t: Tree<T>, id: NodeId): (r: Tree<T>)
    requires Wf(t) && id in t.nodes
    requires AllSome(t.nodes[id].subNodes)
    ensures Wf(r) && Evolves(t, r)
    ensures r.nodes.Keys == t.nodes.Keys && r.nextId == t.nextId
    ensures r.nodeCount == t.nodeCount && r.events == t.events
    ensures forall x :: x in t.nodes ==> OnlyDisposed(t.nodes[x], r.nodes[x])
    ensures forall j :: 0 <= j < 8 ==>
              var c := t.nodes[id].subNodes[j].value; c in r.nodes && !r.nodes[c].disposed
    ensures forall x :: x in t.nodes && r.nodes[x].disposed != t.nodes[x].disposed ==>
              exists j :: 0 <= j < 8 && t.nodes[id].subNodes[j] == Some(x)
  {
    var m := Revive(t.nodes, t.nodes[id].subNodes);
    DisposedOnlyWf(t.nodes, m, t.nextId, t.maxLOD);
    ReviveChildren(t, id);
    t.(nodes := m)
  }

  /** Reactivating a node's filled slots leaves it with a live child in every slot, so it is no longer a leaf. */
  lemma ReactivateLive<T>(t: Tree<T>, id: NodeId)
    requires Wf(t) && id in t.nodes && AllSome(t.nodes[id].subNodes)
    ensures id in Reactivate(t, id).nodes
    ensures !IsBottomLevel(Reactivate(t, id).nodes, id)
  {
    var n := t.nodes[id];
    var r := Reactivate(t, id);
    assert OnlyDisposed(t.nodes[id], r.nodes[id]);
    forall j | 0 <= j < 8
      ensures !SlotVacant(r.nodes, id, j)
    {
      var c := n.subNodes[j].value;
      assert c in r.nodes && !r.nodes[c].disposed;
    }
    BottomLevelMeans(r.nodes, id);
  }

  /** Reactivation changes only disposed flags, and only those of the node's children, one level down. */
  lemma ReactivateFrame<T>(t: Tree<T>, id: NodeId)
    requires Wf(t) && id in t.nodes && AllSome(t.nodes[id].subNodes)
    ensures id in Reactivate(t, id).nodes
    ensures Reactivate(t, id).nodes[id].disposed == t.nodes[id].disposed
    ensures LevelFrame(t, Reactivate(t, id), t.nodes[id].lod, t.nodes[id].lod - 1, t.nodes[id].lod - 1)
  {
    var n := t.nodes[id];
    var r := Reactivate(t, id);
    assert Links(t.nodes, id);
    forall x | x in t.nodes && r.nodes[x].disposed != t.nodes[x].disposed
      ensures t.nodes[x].lod + 1 == n.lod
    {
      var j :| 0 <= j < 8 && n.subNodes[j] == Some(x);
      assert ChildAt(t.nodes, n, j);
    }
  }

  /** Reactivation keeps every node's slots all null or all filled. */
  lemma ReactivateShaped<T>(t: Tree<T>, id: NodeId)
    requires Wf(t) && id in t.nodes && AllSome(t.nodes[id].subNodes) && Shaped(t)
    ensures Shaped(Reactivate(t, id))
  {
    var r := Reactivate(t, id);
    forall x | x in r.nodes
      ensures AllOrNone(r.nodes[x].subNodes)
    {
      assert OnlyDisposed(t.nodes[x], r.nodes[x]);
    }
  }

  /** The reactivation branch keeps the promise of subdivision. */
  lemma ReactivateSubdivides<T>(t: Tree<T>, id: NodeId)
    requires Wf(t) && id in t.nodes && AllSome(t.nodes[id].subNodes)
    ensures Subdivided(t, Reactivate(t, id), id)
  {
    ReactivateLive(t, id);
    ReactivateFrame(t, id);
    if Shaped(t) {
      ReactivateShaped(t, id);
    }
    assert OnlyDisposed(t.nodes[id], Reactivate(t, id).nodes[id]);
  }

  /** A new brood leaves the node with a live child in every slot, so it is no longer a leaf. */
  lemma CreateAllLive<T>(t: Tree<T>, id: NodeId)
    requires Wf(t) && id in t.nodes && 0 < t.nodes[id].lod
    requires AllNone(t.nodes[id].subNodes)
    ensures !IsBottomLevel(CreateAll(t, id).nodes, id)
  {
    var n := t.nodes[id];
    var r := CreateAll(t, id);
    forall j | 0 <= j < 8
      ensures !SlotVacant(r.nodes, id, j)
    {
      assert FreshInSlot(r.nodes, id, n, j);
    }
    BottomLevelMeans(r.nodes, id);
  }

  /** A new brood keeps every node's slots all null or all filled. */
  lemma CreateAllShaped<T>(t: Tree<T>, id: NodeId)
    requires Wf(t) && id in t.nodes && 0 < t.nodes[id].lod
    requires AllNone(t.nodes[id].subNodes) && Shaped(t)
    ensures Shaped(CreateAll(t, id))
  {
    var n := t.nodes[id];
    var r := CreateAll(t, id);
    forall x | x in r.nodes
      ensures AllOrNone(r.nodes[x].subNodes)
    {
      if x !in t.nodes {
        var j := x - t.nextId;
        assert FreshInSlot(r.nodes, id, n, j);
        assert r.nodes[x].subNodes == NoChildren;
        NoChildrenShaped();
      } else if x == id {
        assert AllSome(r.nodes[id].subNodes);
      } else {
        assert r.nodes[x] == t.nodes[x];
      }
    }
  }

  /** The creation branch keeps the promise of subdivision. */
  lemma CreateAllSubdivides<T>(t: Tree<T>, id: NodeId)
    requires Wf(t) && id in t.nodes && 0 < t.nodes[id].lod
    requires AllNone(t.nodes[id].subNodes)
    ensures Subdivided(t, CreateAll(t, id), id)
  {
    CreateAllLive(t, id);
    if Shaped(t) {
      CreateAllShaped(t, id);
    }
  }
}
