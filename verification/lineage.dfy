/**
 * The sets `setPermanence` (NodeManager.cs) walks, a node's lineage up the
 * parent links and its subtree down the child slots, and what "only
 * permanence flags changed" means.
 */
module Lineages {
  import opened Wrappers
  import opened Geometry
  import opened Arena

  /** Node `id` and its ancestors along the parent links. */
  function Lineage<T>(nodes: map<NodeId, Node<T>>, id: NodeId): (s: set<NodeId>)
    decreases if id in nodes && nodes[id].lod <= MaxLevel then MaxLevel - nodes[id].lod else 0
  {
    if id !in nodes then {}
    else
      var p := nodes[id].parent;
      if p.Some? && p.value in nodes && nodes[id].lod < nodes[p.value].lod <= MaxLevel
      then {id} + Lineage(nodes, p.value)
      else {id}
  }

  /** Node `id` and everything reachable from it through child slots. */
  function Subtree<T>(nodes: map<NodeId, Node<T>>, id: NodeId): set<NodeId>
    decreases if id in nodes then nodes[id].lod else 0, 1, 0
  {
    if id !in nodes then {} else {id} + Below(nodes, id, 0)
  }

  /** The subtrees hanging from slots `i..7` of `id`. */
  function Below<T>(nodes: map<NodeId, Node<T>>, id: NodeId, i: nat): set<NodeId>
    requires id in nodes
    decreases nodes[id].lod, 0, 8 - i, 1
  {
    if i >= 8 || i >= |nodes[id].subNodes| then {}
    else SlotTree(nodes, id, i) + Below(nodes, id, i + 1)
  }

  /** The subtree hanging from slot `i` of `id`, if the slot holds a child one level down. */
  function SlotTree<T>(nodes: map<NodeId, Node<T>>, id: NodeId, i: nat): set<NodeId>
    requires id in nodes && i < |nodes[id].subNodes|
    decreases nodes[id].lod, 0, 8 - i, 0
  {
    var s := nodes[id].subNodes[i];
    if s.Some? && s.value in nodes && nodes[s.value].lod < nodes[id].lod then Subtree(nodes, s.value) else {}
  }

  /** `b` is `a` with at most permanence flags changed. */
  ghost predicate OnlyPermanence<T>(a: Tree<T>, b: Tree<T>)
  {
    && b == a.(nodes := b.nodes)
    && b.nodes.Keys == a.nodes.Keys
    && forall x :: x in a.nodes ==> b.nodes[x] == a.nodes[x].(permanent := b.nodes[x].permanent)
  }

  /** Two arenas with the same identifiers, levels, parents and child slots. */
  predicate SameShape<T>(a: map<NodeId, Node<T>>, b: map<NodeId, Node<T>>)
  {
    && a.Keys == b.Keys
    && forall x :: x in a ==> b[x].lod == a[x].lod && b[x].subNodes == a[x].subNodes && b[x].parent == a[x].parent
  }

  /** Subtrees are a matter of shape alone. */
  lemma {:induction false} SubtreeShape<T>(a: map<NodeId, Node<T>>, b: map<NodeId, Node<T>>, id: NodeId)
    requires SameShape(a, b)
    ensures Subtree(b, id) == Subtree(a, id)
    decreases if id in a then a[id].lod else 0, 1, 0
  {
    if id in a {
      BelowShape(a, b, id, 0);
    }
  }

  lemma {:induction false} BelowShape<T>(a: map<NodeId, Node<T>>, b: map<NodeId, Node<T>>, id: NodeId, i: nat)
    requires SameShape(a, b) && id in a
    ensures Below(b, id, i) == Below(a, id, i)
    decreases a[id].lod, 0, 8 - i
  {
    if i < 8 && i < |a[id].subNodes| {
      var s := a[id].subNodes[i];
      if s.Some? && s.value in a && a[s.value].lod < a[id].lod {
        SubtreeShape(a, b, s.value);
      }
      assert SlotTree(b, id, i) == SlotTree(a, id, i);
      BelowShape(a, b, id, i + 1);
    }
  }
  /** The permanence flag plays no part in well-formedness. */
  lemma FlagWf<T>(nodes: map<NodeId, Node<T>>, nextId: NodeId, maxLOD: nat, id: NodeId, perm: bool)
    requires NodesWf(nodes, nextId, maxLOD) && id in nodes
    ensures NodesWf(nodes[id := nodes[id].(permanent := perm)], nextId, maxLOD)
  {
    var m := nodes[id := nodes[id].(permanent := perm)];
    forall x | x in m
      ensures GridOk(m, x) && Links(m, x)
    {
      assert GridOk(nodes, x) && Links(nodes, x);
      forall i | 0 <= i < 8
        ensures ChildAt(m, m[x], i)
      {
        assert ChildAt(nodes, nodes[x], i);
      }
    }
  }

  /** After the change, exactly the nodes in `s` have been made permanent. */
  ghost predicate Raised<T>(t: Tree<T>, r: Tree<T>, s: set<NodeId>)
  {
    && OnlyPermanence(t, r)
    && forall x :: x in t.nodes ==> r.nodes[x].permanent == (t.nodes[x].permanent || x in s)
  }

  /** After the change, exactly the nodes in `s` have been made transient. */
  ghost predicate Lowered<T>(t: Tree<T>, r: Tree<T>, s: set<NodeId>)
  {
    && OnlyPermanence(t, r)
    && forall x :: x in t.nodes ==> r.nodes[x].permanent == (t.nodes[x].permanent && x !in s)
  }

  lemma RaisedTrans<T>(a: Tree<T>, b: Tree<T>, c: Tree<T>, s1: set<NodeId>, s2: set<NodeId>)
    requires Raised(a, b, s1) && Raised(b, c, s2)
    ensures Raised(a, c, s1 + s2)
  {
  }

  lemma LoweredTrans<T>(a: Tree<T>, b: Tree<T>, c: Tree<T>, s1: set<NodeId>, s2: set<NodeId>)
    requires Lowered(a, b, s1) && Lowered(b, c, s2)
    ensures Lowered(a, c, s1 + s2)
  {
  }

  lemma PermanenceShape<T>(a: Tree<T>, b: Tree<T>)
    requires OnlyPermanence(a, b)
    ensures SameShape(a.nodes, b.nodes)
  {
  }

  /** Lineages are a matter of shape alone. */
  lemma {:induction false} LineageShape<T>(a: map<NodeId, Node<T>>, b: map<NodeId, Node<T>>, id: NodeId)
    requires SameShape(a, b)
    ensures Lineage(b, id) == Lineage(a, id)
    decreases if id in a && a[id].lod <= MaxLevel then MaxLevel - a[id].lod else 0
  {
    if id in a {
      var p := a[id].parent;
      if p.Some? && p.value in a && a[id].lod < a[p.value].lod <= MaxLevel {
        LineageShape(a, b, p.value);
      }
    }
  }

  /** A lineage lists only nodes of the arena. */
  lemma {:induction false} LineageInArena<T>(nodes: map<NodeId, Node<T>>, id: NodeId)
    ensures Lineage(nodes, id) <= nodes.Keys
    ensures id in nodes ==> id in Lineage(nodes, id)
    decreases if id in nodes && nodes[id].lod <= MaxLevel then MaxLevel - nodes[id].lod else 0
  {
    if id in nodes {
      var p := nodes[id].parent;
      if p.Some? && p.value in nodes && nodes[id].lod < nodes[p.value].lod <= MaxLevel {
        LineageInArena(nodes, p.value);
      }
    }
  }

  /** A subtree lists only nodes of the arena. */
  lemma {:induction false} SubtreeInArena<T>(nodes: map<NodeId, Node<T>>, id: NodeId)
    ensures Subtree(nodes, id) <= nodes.Keys
    ensures id in nodes ==> id in Subtree(nodes, id)
    decreases if id in nodes then nodes[id].lod else 0, 1, 0
  {
    if id in nodes {
      BelowInArena(nodes, id, 0);
    }
  }

  lemma {:induction false} BelowInArena<T>(nodes: map<NodeId, Node<T>>, id: NodeId, i: nat)
    requires id in nodes
    ensures Below(nodes, id, i) <= nodes.Keys
    decreases nodes[id].lod, 0, 8 - i
  {
    if i < 8 && i < |nodes[id].subNodes| {
      var s := nodes[id].subNodes[i];
      if s.Some? && s.value in nodes && nodes[s.value].lod < nodes[id].lod {
        SubtreeInArena(nodes, s.value);
      }
      BelowInArena(nodes, id, i + 1);
    }
  }
}
