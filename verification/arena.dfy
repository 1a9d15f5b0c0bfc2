/**
 * The octree of `Node<T>` (NodeManager.cs) as an arena: nodes live in a map
 * from identifiers to records, and parent, child and neighbour references are
 * identifiers.  Calls into the mesh factory and the terrain controller are
 * appended to an event log.  This module holds the state, its
 * well-formedness and the lemmas that preserve it, the frame predicates the
 * operations promise, and the leaf test.
 */
module Arena {
  import opened Wrappers
  import opened Vectors
  import opened Geometry
  import Voxels
  import opened Regen

  type NodeId = nat

  /** Calls the core makes into its collaborators, in the order it makes them. */
  datatype Event =
    | RequestMesh(node: NodeId)                  // meshFactory.RequestMesh(node)
    | SetRenderState(node: NodeId, visible: bool) // controller.SetRenderState(node, visible)
    | ApplyVoxelData(node: NodeId)               // controller.ApplyVoxelData(mesh, node)
    | DisposeVoxelData(node: NodeId)             // controller.DisposeVoxelData(node)

  datatype Node<T> = Node(
    parent: Option<NodeId>,
    subNodeId: nat,
    lod: nat,
    position: V3,
    chunkPos: V3,
    subNodes: seq<Option<NodeId>>,
    neighborNodes: seq<Option<NodeId>>,
    changeData: Voxels.VoxelData<T>,
    hasDensityChangeData: bool,
    permanent: bool,
    regen: RegenState,
    disposed: bool,
    hasMesh: bool,
    empty: bool,
    hasChunk: bool)   // `chunk != null`: a render object is attached

  /** The node arena together with the manager state the nodes update. */
  datatype Tree<T> = Tree(
    maxLOD: nat,              // Engine.MaxLOD: level of the top-level nodes
    dflt: T,                  // default(T)
    nodes: map<NodeId, Node<T>>,
    nextId: NodeId,
    nodeCount: seq<int>,      // manager.nodeCount, one counter per level
    events: seq<Event>)

  // ---------------------------------------------------------------- shape

  predicate AllNone(s: seq<Option<NodeId>>)
  {
    forall i :: 0 <= i < |s| ==> s[i].None?
  }

  predicate AllSome(s: seq<Option<NodeId>>)
  {
    forall i :: 0 <= i < |s| ==> s[i].Some?
  }

  /** Child slots are filled and emptied eight at a time. */
  predicate AllOrNone(s: seq<Option<NodeId>>)
  {
    AllNone(s) || AllSome(s)
  }

  /** Eight empty child slots. */
  const NoChildren: seq<Option<NodeId>> := [None, None, None, None, None, None, None, None]

  lemma NoChildrenShaped()
    ensures AllNone(NoChildren) && AllOrNone(NoChildren) && !AllSome(NoChildren)
  {
    assert NoChildren[0].None?;
  }

  /** Six empty neighbour slots. */
  const NoNeighbors: seq<Option<NodeId>> := [None, None, None, None, None, None]

  /** Child `i` of `n`, if any, exists, is one level down and sits at its `GetOffsetPosition`. */
  predicate ChildAt<T>(nodes: map<NodeId, Node<T>>, n: Node<T>, i: nat)
    requires i < |n.subNodes| && i < 8
  {
    n.subNodes[i].Some? ==>
      && n.subNodes[i].value in nodes
      && nodes[n.subNodes[i].value].lod + 1 == n.lod <= MaxLevel
      && nodes[n.subNodes[i].value].position == GetOffsetPosition(n.position, n.lod, i)
  }

  /** The local shape of a record: slot counts and level bound. */
  predicate Local<T>(n: Node<T>, maxLOD: nat)
  {
    && n.lod <= maxLOD <= MaxLevel
    && |n.subNodes| == 8
    && |n.neighborNodes| == 6
  }

  /** Node `id`'s change grid is a valid grid. */
  predicate GridOk<T>(nodes: map<NodeId, Node<T>>, id: NodeId)
    requires id in nodes
  {
    Voxels.Valid(nodes[id].changeData)
  }

  /** Every reference node `id` holds resolves in `nodes`, it is not its own neighbour, and its children tile it one level down. */
  predicate Links<T>(nodes: map<NodeId, Node<T>>, id: NodeId)
    requires id in nodes
  {
    var n := nodes[id];
    && (n.parent.Some? ==> n.parent.value in nodes && nodes[n.parent.value].lod == n.lod + 1)
    && (forall i :: 0 <= i < 8 && i < |n.subNodes| ==> ChildAt(nodes, n, i))
    && (forall i :: 0 <= i < |n.neighborNodes| && n.neighborNodes[i].Some? ==> n.neighborNodes[i].value in nodes && n.neighborNodes[i].value != id)
  }

  /**
   * Every record has its local shape and identifiers below `nextId`; every
   * record's links resolve and its change grid is valid.  The last two
   * quantifiers are only instantiated where a proof names `Links` or `GridOk`
   * of a node: following a link produces new map lookups that would
   * otherwise instantiate the first again without end, and grid validity is
   * needed only where a grid is read or written.
   */
  predicate NodesWf<T>(nodes: map<NodeId, Node<T>>, nextId: NodeId, maxLOD: nat)
  {
    && (forall id {:trigger nodes[id]} :: id in nodes ==> id < nextId && Local(nodes[id], maxLOD))
    && (forall id {:trigger Links(nodes, id)} :: id in nodes ==> Links(nodes, id))
    && (forall id {:trigger GridOk(nodes, id)} :: id in nodes ==> GridOk(nodes, id))
  }

  /** Well-formedness: every reference resolves, and children tile their parent one level down. */
  predicate Wf<T>(t: Tree<T>)
  {
    && t.maxLOD <= MaxLevel
    && |t.nodeCount| == MaxLevel + 1
    && NodesWf(t.nodes, t.nextId, t.maxLOD)
  }

  /** The parent reference of a node in a well-formed tree, which resolves. */
  function Parent<T>(t: Tree<T>, id: NodeId): (p: Option<NodeId>)
    requires Wf(t) && id in t.nodes
    ensures p == t.nodes[id].parent
    ensures p.Some? ==> p.value in t.nodes && t.nodes[p.value].lod == t.nodes[id].lod + 1
  {
    assert Links(t.nodes, id);
    t.nodes[id].parent
  }

  /** Every node's child slots are all empty or all filled. */
  predicate Shaped<T>(t: Tree<T>)
  {
    forall id :: id in t.nodes ==> AllOrNone(t.nodes[id].subNodes)
  }

  function SetNode<T>(t: Tree<T>, id: NodeId, n: Node<T>): Tree<T>
  {
    t.(nodes := t.nodes[id := n])
  }

  function Emit<T>(t: Tree<T>, e: Event): (r: Tree<T>)
    ensures r.events == t.events + [e] && r.nodes == t.nodes && r.nextId == t.nextId
    ensures r.nodeCount == t.nodeCount && r.maxLOD == t.maxLOD && r.dflt == t.dflt
    ensures Evolves(t, r)
  {
    t.(events := t.events + [e])
  }

  /**
   * Replacing a record by one at the same level and position, whose child
   * slots each stay or empty and whose neighbour slots each stay or empty,
   * keeps the arena well formed.
   */
  lemma ReplaceNode<T>(nodes: map<NodeId, Node<T>>, nextId: NodeId, maxLOD: nat, id: NodeId, n: Node<T>)
    requires NodesWf(nodes, nextId, maxLOD) && id in nodes
    requires n.lod == nodes[id].lod && n.position == nodes[id].position && n.parent == nodes[id].parent
    requires Local(n, maxLOD) && (n.changeData == nodes[id].changeData || Voxels.Valid(n.changeData))
    requires forall i :: 0 <= i < 8 ==> n.subNodes[i] == nodes[id].subNodes[i] || n.subNodes[i].None?
    requires forall i :: 0 <= i < 6 ==> n.neighborNodes[i] == nodes[id].neighborNodes[i] || n.neighborNodes[i].None?
    ensures NodesWf(nodes[id := n], nextId, maxLOD)
  {
    var m := nodes[id := n];
    forall x | x in m
      ensures GridOk(m, x)
    {
      assert GridOk(nodes, x);
    }
    forall x | x in m
      ensures Links(m, x)
    {
      assert Links(nodes, x);
      forall i | 0 <= i < 8
        ensures ChildAt(m, m[x], i)
      {
        assert ChildAt(nodes, nodes[x], i);
      }
    }
  }

  /** Adding a record with no children and no neighbours under a resolvable parent keeps the arena well formed. */
  lemma AddNode<T>(nodes: map<NodeId, Node<T>>, nextId: NodeId, bound: NodeId, maxLOD: nat, n: Node<T>)
    requires NodesWf(nodes, nextId, maxLOD) && nextId < bound
    requires Local(n, maxLOD) && Voxels.Valid(n.changeData) && n.subNodes == NoChildren && n.neighborNodes == NoNeighbors
    requires n.parent.Some? ==> n.parent.value in nodes && nodes[n.parent.value].lod == n.lod + 1
    ensures nextId !in nodes
    ensures NodesWf(nodes[nextId := n], bound, maxLOD)
  {
    var m := nodes[nextId := n];
    forall x | x in m
      ensures GridOk(m, x)
    {
      if x != nextId { assert GridOk(nodes, x); }
    }
    forall x | x in m
      ensures Links(m, x)
    {
      if x != nextId {
        assert Links(nodes, x);
        forall i | 0 <= i < 8
          ensures ChildAt(m, m[x], i)
        {
          assert ChildAt(nodes, nodes[x], i);
        }
      }
    }
  }

  /** Filling child slot `i` with a node one level down at the slot's offset position keeps the arena well formed. */
  lemma FillSlot<T>(nodes: map<NodeId, Node<T>>, nextId: NodeId, maxLOD: nat, id: NodeId, i: nat, c: NodeId)
    requires NodesWf(nodes, nextId, maxLOD) && id in nodes && c in nodes && i < 8
    requires nodes[c].lod + 1 == nodes[id].lod
    requires nodes[c].position == GetOffsetPosition(nodes[id].position, nodes[id].lod, i)
    ensures NodesWf(nodes[id := nodes[id].(subNodes := nodes[id].subNodes[i := Some(c)])], nextId, maxLOD)
  {
    var n := nodes[id].(subNodes := nodes[id].subNodes[i := Some(c)]);
    var m := nodes[id := n];
    forall x | x in m
      ensures GridOk(m, x)
    {
      assert GridOk(nodes, x);
    }
    forall x | x in m
      ensures Links(m, x)
    {
      assert Links(nodes, x);
      forall j | 0 <= j < 8
        ensures ChildAt(m, m[x], j)
      {
        assert ChildAt(nodes, nodes[x], j);
      }
    }
  }

  // ---------------------------------------------------------------- frames

  /**
   * `b` is `a` with at most its child slots, neighbour slots, disposed flag,
   * has-mesh flag and permanence changed: what the structural operations may
   * touch.
   */
  ghost predicate Kept<T>(a: Node<T>, b: Node<T>)
  {
    && b.parent == a.parent && b.subNodeId == a.subNodeId && b.lod == a.lod
    && b.position == a.position && b.chunkPos == a.chunkPos
    && b.changeData == a.changeData && b.hasDensityChangeData == a.hasDensityChangeData
    && b.regen == a.regen
    && b.empty == a.empty && b.hasChunk == a.hasChunk
  }

  /** `b` is `a` with at most its disposed flag changed. */
  ghost predicate OnlyDisposed<T>(a: Node<T>, b: Node<T>)
  {
    && Kept(a, b) && b.permanent == a.permanent
    && b.subNodes == a.subNodes && b.neighborNodes == a.neighborNodes && b.hasMesh == a.hasMesh
  }

  /** Changing disposed flags alone keeps the arena well formed. */
  lemma DisposedOnlyWf<T>(nodes: map<NodeId, Node<T>>, m: map<NodeId, Node<T>>, nextId: NodeId, maxLOD: nat)
    requires NodesWf(nodes, nextId, maxLOD)
    requires m.Keys == nodes.Keys
    requires forall x :: x in nodes ==> OnlyDisposed(nodes[x], m[x])
    ensures NodesWf(m, nextId, maxLOD)
  {
    forall x | x in m
      ensures Links(m, x) && GridOk(m, x)
    {
      assert Links(nodes, x) && GridOk(nodes, x) && OnlyDisposed(nodes[x], m[x]);
      forall i | 0 <= i < 8
        ensures ChildAt(m, m[x], i)
      {
        assert ChildAt(nodes, nodes[x], i);
      }
    }
  }

  /** `b` is `a` with at most some neighbour slots emptied. */
  ghost predicate OnlyNeighbors<T>(a: Node<T>, b: Node<T>)
  {
    && Kept(a, b) && b.permanent == a.permanent
    && b.subNodes == a.subNodes && b.disposed == a.disposed && b.hasMesh == a.hasMesh
    && |b.neighborNodes| == |a.neighborNodes|
    && forall j :: 0 <= j < |a.neighborNodes| ==> b.neighborNodes[j] == a.neighborNodes[j] || b.neighborNodes[j].None?
  }

  /** The arena only grows, configuration stays, the log is only appended to, and old nodes are kept. */
  ghost predicate Evolves<T>(t: Tree<T>, r: Tree<T>)
  {
    && r.maxLOD == t.maxLOD && r.dflt == t.dflt
    && t.nodes.Keys <= r.nodes.Keys && t.nextId <= r.nextId
    && |r.nodeCount| == |t.nodeCount|
    && t.events <= r.events
    && forall x :: x in t.nodes ==> Kept(t.nodes[x], r.nodes[x])
  }

  lemma EvolvesTrans<T>(a: Tree<T>, b: Tree<T>, c: Tree<T>)
    requires Evolves(a, b) && Evolves(b, c)
    ensures Evolves(a, c)
  {
    forall x | x in a.nodes
      ensures Kept(a.nodes[x], c.nodes[x])
    {
      assert Kept(a.nodes[x], b.nodes[x]) && Kept(b.nodes[x], c.nodes[x]);
    }
  }

  /** `after` is the counter table `before` with level `l` raised by `k` and every other level unchanged. */
  ghost predicate Bumped(before: seq<int>, after: seq<int>, l: int, k: int)
  {
    && |after| == |before|
    && forall i :: 0 <= i < |before| ==> after[i] == before[i] + (if i == l then k else 0)
  }

  /** The counter table with level `l` raised by `k`. */
  function Bump(counts: seq<int>, l: int, k: int): (r: seq<int>)
    requires 0 <= l < |counts|
    ensures Bumped(counts, r, l, k)
  {
    counts[l := counts[l] + k]
  }

  /**
   * Level frame: nodes above level `slots` keep their child slots, nodes above
   * level `disp` keep their disposed flag, and the counters above level
   * `counts` are unchanged.
   */
  ghost predicate LevelFrame<T>(t: Tree<T>, r: Tree<T>, slots: int, disp: int, counts: int)
    requires |r.nodeCount| == |t.nodeCount|
    requires t.nodes.Keys <= r.nodes.Keys
  {
    && (forall x :: x in t.nodes && t.nodes[x].lod > slots ==> r.nodes[x].subNodes == t.nodes[x].subNodes)
    && (forall x :: x in t.nodes && t.nodes[x].lod > disp ==> r.nodes[x].disposed == t.nodes[x].disposed)
    && (forall l :: 0 <= l < |t.nodeCount| && l > counts ==> r.nodeCount[l] == t.nodeCount[l])
  }

  lemma LevelFrameTrans<T>(a: Tree<T>, b: Tree<T>, c: Tree<T>, slots: int, disp: int, counts: int)
    requires Evolves(a, b) && Evolves(b, c)
    requires LevelFrame(a, b, slots, disp, counts) && LevelFrame(b, c, slots, disp, counts)
    ensures Evolves(a, c) && LevelFrame(a, c, slots, disp, counts)
  {
    EvolvesTrans(a, b, c);
    forall x | x in a.nodes && a.nodes[x].lod > slots
      ensures c.nodes[x].subNodes == a.nodes[x].subNodes
    {
      assert Kept(a.nodes[x], b.nodes[x]);
    }
    forall x | x in a.nodes && a.nodes[x].lod > disp
      ensures c.nodes[x].disposed == a.nodes[x].disposed
    {
      assert Kept(a.nodes[x], b.nodes[x]);
    }
  }

  // ---------------------------------------------------------------- leaf test

  /** Slot `i` of `id` holds no live child: it is null or its child is disposed. */
  predicate SlotVacant<T>(nodes: map<NodeId, Node<T>>, id: NodeId, i: int)
    requires id in nodes && 0 <= i < |nodes[id].subNodes|
  {
    var s := nodes[id].subNodes[i];
    s.None? || (s.value in nodes && nodes[s.value].disposed)
  }

  /** The loop of `IsBottomLevel` from slot `i` on, returning at the first vacant slot. */
  function BottomFrom<T>(nodes: map<NodeId, Node<T>>, id: NodeId, i: nat): bool
    requires id in nodes && i <= |nodes[id].subNodes|
    decreases |nodes[id].subNodes| - i
  {
    if i == |nodes[id].subNodes| then false
    else if SlotVacant(nodes, id, i) then true
    else BottomFrom(nodes, id, i + 1)
  }

  /** `IsBottomLevel`: the loop over the child slots from the first. */
  function IsBottomLevel<T>(nodes: map<NodeId, Node<T>>, id: NodeId): bool
    requires id in nodes
  {
    BottomFrom(nodes, id, 0)
  }

  /** The loop from slot `i` finds a vacant slot iff one exists at or after `i`. */
  lemma {:induction false} BottomFromMeans<T>(nodes: map<NodeId, Node<T>>, id: NodeId, i: nat)
    requires id in nodes && i <= |nodes[id].subNodes|
    ensures BottomFrom(nodes, id, i) <==> exists j :: i <= j < |nodes[id].subNodes| && SlotVacant(nodes, id, j)
    decreases |nodes[id].subNodes| - i
  {
    if i < |nodes[id].subNodes| && !SlotVacant(nodes, id, i) {
      BottomFromMeans(nodes, id, i + 1);
      if exists j :: i <= j < |nodes[id].subNodes| && SlotVacant(nodes, id, j) {
        var j :| i <= j < |nodes[id].subNodes| && SlotVacant(nodes, id, j);
        assert j != i;
      }
    }
  }

  /**
   * A node is a leaf (`IsBottomLevel`) iff one of its child slots is null or
   * holds a disposed child.
   */
  lemma BottomLevelMeans<T>(nodes: map<NodeId, Node<T>>, id: NodeId)
    requires id in nodes
    ensures IsBottomLevel(nodes, id) <==> exists j :: 0 <= j < |nodes[id].subNodes| && SlotVacant(nodes, id, j)
  {
    BottomFromMeans(nodes, id, 0);
  }

  /** Neighbour slot `i` holds a leaf at this node's level. */
  predicate LeafNeighbor<T>(nodes: map<NodeId, Node<T>>, id: NodeId, i: int)
    requires id in nodes && 0 <= i < |nodes[id].neighborNodes|
  {
    var s := nodes[id].neighborNodes[i];
    s.Some? && s.value in nodes && nodes[s.value].lod == nodes[id].lod && IsBottomLevel(nodes, s.value)
  }

  /** The loop of `IsTransitional` from neighbour slot `i` on. */
  function TransitionalFrom<T>(nodes: map<NodeId, Node<T>>, id: NodeId, i: nat): bool
    requires id in nodes && i <= |nodes[id].neighborNodes|
    decreases |nodes[id].neighborNodes| - i
  {
    if i == |nodes[id].neighborNodes| then false
    else if LeafNeighbor(nodes, id, i) && !IsBottomLevel(nodes, id) then true
    else TransitionalFrom(nodes, id, i + 1)
  }

  /** `IsTransitional`: false at levels 0 and 1, the neighbour loop otherwise. */
  function IsTransitional<T>(nodes: map<NodeId, Node<T>>, id: NodeId): bool
    requires id in nodes
  {
    nodes[id].lod > 1 && TransitionalFrom(nodes, id, 0)
  }

  /** The neighbour loop from slot `i` succeeds iff the node has live children and a same-level leaf neighbour at or after `i`. */
  lemma {:induction false} TransitionalFromMeans<T>(nodes: map<NodeId, Node<T>>, id: NodeId, i: nat)
    requires id in nodes && i <= |nodes[id].neighborNodes|
    ensures TransitionalFrom(nodes, id, i) <==>
              !IsBottomLevel(nodes, id) && exists j :: i <= j < |nodes[id].neighborNodes| && LeafNeighbor(nodes, id, j)
    decreases |nodes[id].neighborNodes| - i
  {
    if i < |nodes[id].neighborNodes| && !(LeafNeighbor(nodes, id, i) && !IsBottomLevel(nodes, id)) {
      TransitionalFromMeans(nodes, id, i + 1);
      if !IsBottomLevel(nodes, id) && exists j :: i <= j < |nodes[id].neighborNodes| && LeafNeighbor(nodes, id, j) {
        var j :| i <= j < |nodes[id].neighborNodes| && LeafNeighbor(nodes, id, j);
        assert j != i;
      }
    }
  }

  /**
   * A node is transitional (`IsTransitional`) iff it is above level 1, has
   * live children, and some neighbour slot holds a same-level leaf.
   */
  lemma TransitionalMeans<T>(nodes: map<NodeId, Node<T>>, id: NodeId)
    requires id in nodes
    ensures nodes[id].lod <= 1 ==> !IsTransitional(nodes, id)
    ensures IsTransitional(nodes, id) <==>
              (nodes[id].lod > 1 && !IsBottomLevel(nodes, id) &&
               exists i :: 0 <= i < |nodes[id].neighborNodes| && LeafNeighbor(nodes, id, i))
  {
    TransitionalFromMeans(nodes, id, 0);
  }

  /** The leaf loop reads only child slots and disposed flags. */
  lemma {:induction false} BottomFromFrame<T>(nodes: map<NodeId, Node<T>>, id: NodeId, n: Node<T>, y: NodeId, i: nat)
    requires id in nodes && n.subNodes == nodes[id].subNodes && n.disposed == nodes[id].disposed
    requires y in nodes && i <= |nodes[y].subNodes|
    ensures BottomFrom(nodes[id := n], y, i) == BottomFrom(nodes, y, i)
    decreases |nodes[y].subNodes| - i
  {
    if i < |nodes[y].subNodes| {
      BottomFromFrame(nodes, id, n, y, i + 1);
    }
  }

  /** The leaf test reads only child slots and disposed flags. */
  lemma LeafTestFrame<T>(nodes: map<NodeId, Node<T>>, id: NodeId, n: Node<T>)
    requires id in nodes && n.subNodes == nodes[id].subNodes && n.disposed == nodes[id].disposed
    ensures forall y :: y in nodes ==> IsBottomLevel(nodes[id := n], y) == IsBottomLevel(nodes, y)
  {
    forall y | y in nodes
      ensures IsBottomLevel(nodes[id := n], y) == IsBottomLevel(nodes, y)
    {
      BottomFromFrame(nodes, id, n, y, 0);
    }
  }

  // ---------------------------------------------------------------- broods

  /**
   * `c` is a newly built child `i` of node `p` (identifier `pid`): one level
   * down at its offset position, inheriting permanence, with no children or
   * neighbours, a valid grid, not disposed, no mesh yet and its first request
   * in flight.
   */
  predicate FreshChild<T>(c: Node<T>, pid: NodeId, p: Node<T>, i: nat)
  {
    && i < 8 && 0 < p.lod <= MaxLevel
    && c.parent == Some(pid) && c.subNodeId == i && c.lod + 1 == p.lod
    && c.position == GetOffsetPosition(p.position, p.lod, i)
    && c.permanent == p.permanent
    && c.subNodes == NoChildren && c.neighborNodes == NoNeighbors
    && Voxels.Valid(c.changeData) && !c.hasDensityChangeData
    && !c.disposed && !c.hasMesh && c.empty && !c.hasChunk
    && c.regen.regenReq && Coalesced(c.regen)
  }

  /** Slot `j` of `pid` in `m` holds a fresh child `j` of `p`. */
  predicate FreshInSlot<T>(m: map<NodeId, Node<T>>, pid: NodeId, p: Node<T>, j: nat)
  {
    && pid in m && j < |m[pid].subNodes| && m[pid].subNodes[j].Some?
    && m[pid].subNodes[j].value in m && FreshChild(m[m[pid].subNodes[j].value], pid, p, j)
  }

  /** The request events for identifiers `first .. first + k - 1`, in order. */
  function Requests(first: NodeId, k: nat): (r: seq<Event>)
    ensures |r| == k
    ensures forall j :: 0 <= j < k ==> r[j] == RequestMesh(first + j)
  {
    seq(k, j requires 0 <= j => RequestMesh(first + j))
  }

  /** The identifiers `first .. first + k - 1`. */
  function Ids(first: NodeId, k: nat): (r: set<NodeId>)
    ensures forall x :: x in r <==> first <= x < first + k
  {
    if k == 0 then {} else Ids(first, k - 1) + {first + k - 1}
  }

  /** A record that may be added under a parent one level up: local shape, valid grid, no links of its own. */
  predicate Addable<T>(c: Node<T>, pid: NodeId, plod: nat, maxLOD: nat)
  {
    && Local(c, maxLOD) && Voxels.Valid(c.changeData)
    && c.subNodes == NoChildren && c.neighborNodes == NoNeighbors
    && c.parent == Some(pid) && c.lod + 1 == plod
  }

  /** Child slots holding `first .. first + 7` in order. */
  function Filled(first: NodeId): (s: seq<Option<NodeId>>)
    ensures |s| == 8 && AllSome(s)
    ensures forall j :: 0 <= j < 8 ==> s[j] == Some(first + j)
  {
    seq(8, j requires 0 <= j < 8 => Some(first + j))
  }

  /**
   * What subdividing `id` promises, whichever branch it takes: the arena stays
   * well formed and only grows, `id` ends with a live child in every slot and
   * so is no longer a leaf, slot shapes stay all-or-none, `id`'s own disposed
   * flag is untouched, and only the level below changes disposed flags and
   * counters.
   */
  ghost predicate Subdivided<T>(t: Tree<T>, r: Tree<T>, id: NodeId)
    requires id in t.nodes
  {
    && Wf(r) && Evolves(t, r)
    && AllSome(r.nodes[id].subNodes) && !IsBottomLevel(r.nodes, id)
    && (Shaped(t) ==> Shaped(r))
    && r.nodes[id].disposed == t.nodes[id].disposed
    && LevelFrame(t, r, t.nodes[id].lod, t.nodes[id].lod - 1, t.nodes[id].lod - 1)
  }
}
