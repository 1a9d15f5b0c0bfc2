/**
 * What disposing a node may change, stated once so that the steps of
 * `Dispose` can pass it along: the frame of the arena, the counters, and
 * which voxel-data releases the log may hold.
 */
module DisposeLog {
  import opened Wrappers
  import opened Geometry
  import opened Arena

  /** Disposing `id` goes all the way: it is live and not permanent. */
  predicate Released<T>(t: Tree<T>, id: NodeId)
    requires id in t.nodes
  {
    !t.nodes[id].disposed && !t.nodes[id].permanent
  }

  /** Every voxel-data release in `events` from index `from` up to `to` names a node of `nodes` below level `l`. */
  ghost predicate ReleasesBelow<T>(events: seq<Event>, from: int, to: int, nodes: map<NodeId, Node<T>>, l: int)
  {
    forall k :: 0 <= k && from <= k < to && k < |events| && events[k].DisposeVoxelData? ==>
      events[k].node in nodes && nodes[events[k].node].lod < l
  }

  /** A log that releases only nodes below the level of `id` never releases `id` itself. */
  lemma ReleasesBelowMisses<T>(events: seq<Event>, from: int, to: int, nodes: map<NodeId, Node<T>>, id: NodeId)
    requires id in nodes && ReleasesBelow(events, from, to, nodes, nodes[id].lod)
    ensures forall k :: 0 <= k && from <= k < to && k < |events| ==> events[k] != DisposeVoxelData(id)
  {
  }

  lemma ReleasesBelowJoin<T>(events: seq<Event>, a: int, b: int, c: int, nodes: map<NodeId, Node<T>>, l: int)
    requires ReleasesBelow(events, a, b, nodes, l) && ReleasesBelow(events, b, c, nodes, l)
    ensures ReleasesBelow(events, a, c, nodes, l)
  {
  }

  /** A bound on a log carries over to any log extending it. */
  lemma ReleasesBelowGrow<T>(e1: seq<Event>, e2: seq<Event>, from: int, to: int, nodes: map<NodeId, Node<T>>, l: int)
    requires e1 <= e2 && to <= |e1| && ReleasesBelow(e1, from, to, nodes, l)
    ensures ReleasesBelow(e2, from, to, nodes, l)
  {
    forall k | 0 <= k && from <= k < to && k < |e2| && e2[k].DisposeVoxelData?
      ensures e2[k].node in nodes && nodes[e2[k].node].lod < l
    {
      assert e2[k] == e1[k];
    }
  }

  /** No voxel data is released in `events` from index `from` up to `to`. */
  ghost predicate NoReleases(events: seq<Event>, from: int, to: int)
  {
    forall k :: 0 <= k && from <= k < to && k < |events| ==> !events[k].DisposeVoxelData?
  }

  lemma NoReleasesBelow<T>(events: seq<Event>, from: int, to: int, nodes: map<NodeId, Node<T>>, l: int)
    requires NoReleases(events, from, to)
    ensures ReleasesBelow(events, from, to, nodes, l)
  {
  }

  /** A bound stated over one arena carries over to an arena with the same identifiers and levels, and to a higher level. */
  lemma ReleasesBelowMove<T>(events: seq<Event>, from: int, to: int, n1: map<NodeId, Node<T>>, l1: int, n2: map<NodeId, Node<T>>, l2: int)
    requires ReleasesBelow(events, from, to, n1, l1) && l1 <= l2
    requires forall x :: x in n1 ==> x in n2 && n2[x].lod == n1[x].lod
    ensures ReleasesBelow(events, from, to, n2, l2)
  {
  }

  /**
   * Every neighbour `id` has in `before` from slot `k` on has, in `after`,
   * its slot on the opposite side empty.
   */
  ghost predicate ForgetsFrom<T>(before: map<NodeId, Node<T>>, after: map<NodeId, Node<T>>, id: NodeId, k: nat)
    requires id in before
  {
    forall j :: k <= j < 6 && j < |before[id].neighborNodes| && before[id].neighborNodes[j].Some? ==>
      var y := before[id].neighborNodes[j].value;
      y in after && OppositeNeighbor[j] < |after[y].neighborNodes| && after[y].neighborNodes[OppositeNeighbor[j]].None?
  }

  lemma OnlyNeighborsTrans<T>(a: map<NodeId, Node<T>>, b: map<NodeId, Node<T>>, c: map<NodeId, Node<T>>)
    requires a.Keys <= b.Keys <= c.Keys
    requires forall x :: x in a ==> OnlyNeighbors(a[x], b[x])
    requires forall x :: x in b ==> OnlyNeighbors(b[x], c[x])
    ensures forall x :: x in a ==> OnlyNeighbors(a[x], c[x])
  {
    forall x | x in a
      ensures OnlyNeighbors(a[x], c[x])
    {
      assert OnlyNeighbors(a[x], b[x]) && OnlyNeighbors(b[x], c[x]);
    }
  }

  /**
   * What disposing node `id` may change: identifiers and configuration stay,
   * no permanence changes, disposed flags only turn on, every other node
   * at `id`'s level or above at most loses neighbour links, and every other
   * node keeps its child slots or ends with all of them empty.
   */
  ghost predicate DisposeFrame<T>(t: Tree<T>, r: Tree<T>, id: NodeId)
    requires id in t.nodes
  {
    && Wf(r) && Evolves(t, r) && r.nodes.Keys == t.nodes.Keys && r.nextId == t.nextId
    && (forall x :: x in t.nodes ==> r.nodes[x].permanent == t.nodes[x].permanent)
    && (forall x :: x in t.nodes && t.nodes[x].disposed ==> r.nodes[x].disposed)
    && (forall x :: x in t.nodes && x != id && t.nodes[x].lod >= t.nodes[id].lod ==> OnlyNeighbors(t.nodes[x], r.nodes[x]))
    && (forall x :: x in t.nodes && x != id ==> r.nodes[x].subNodes == t.nodes[x].subNodes || AllNone(r.nodes[x].subNodes))
  }

  /** The counters from level `l` up are unchanged. */
  ghost predicate CountsFrom(before: seq<int>, after: seq<int>, l: int)
  {
    && |after| == |before|
    && forall i :: 0 <= i < |before| && l <= i ==> after[i] == before[i]
  }

  /** Replacing `id`'s own record, keeping what `Dispose` keeps, stays within what disposing `id` may change. */
  lemma EditFrame<T>(t: Tree<T>, id: NodeId, n: Node<T>)
    requires Wf(t) && id in t.nodes && NodesWf(t.nodes[id := n], t.nextId, t.maxLOD)
    requires Kept(t.nodes[id], n) && n.permanent == t.nodes[id].permanent
    requires t.nodes[id].disposed ==> n.disposed
    ensures DisposeFrame(t, t.(nodes := t.nodes[id := n]), id)
  {
    var r := t.(nodes := t.nodes[id := n]);
    assert r.nodes.Keys == t.nodes.Keys;
    assert Evolves(t, r);
    assert Wf(r);
    forall x | x in t.nodes
      ensures r.nodes[x].permanent == t.nodes[x].permanent && (t.nodes[x].disposed ==> r.nodes[x].disposed)
    {
    }
    forall x | x in t.nodes && x != id
      ensures OnlyNeighbors(t.nodes[x], r.nodes[x]) && r.nodes[x].subNodes == t.nodes[x].subNodes
    {
      assert r.nodes[x] == t.nodes[x];
    }
  }

  /** Counters kept from level `l` up, then level `l` raised by `k`: kept from `l + 1` up. */
  lemma CountsBump(a: seq<int>, b: seq<int>, c: seq<int>, l: int, k: int)
    requires 0 <= l < |a| && CountsFrom(a, b, l) && Bumped(b, c, l, k)
    ensures CountsFrom(a, c, l + 1) && c[l] == a[l] + k
  {
  }

  lemma DisposeFrameTrans<T>(a: Tree<T>, b: Tree<T>, c: Tree<T>, id: NodeId)
    requires id in a.nodes && DisposeFrame(a, b, id) && DisposeFrame(b, c, id)
    ensures DisposeFrame(a, c, id)
  {
    assert Kept(a.nodes[id], b.nodes[id]);
    EvolvesTrans(a, b, c);
    forall x | x in a.nodes && x != id && a.nodes[x].lod >= a.nodes[id].lod
      ensures OnlyNeighbors(a.nodes[x], c.nodes[x])
    {
      assert OnlyNeighbors(a.nodes[x], b.nodes[x]) && OnlyNeighbors(b.nodes[x], c.nodes[x]);
    }
    forall x | x in a.nodes && x != id
      ensures c.nodes[x].subNodes == a.nodes[x].subNodes || AllNone(c.nodes[x].subNodes)
    {
      if c.nodes[x].subNodes != b.nodes[x].subNodes {
        assert AllNone(c.nodes[x].subNodes);
      }
    }
  }

  /** Leaving the arena alone, or only logging a call, stays within what disposing `id` may change. */
  lemma DisposeFrameQuiet<T>(t: Tree<T>, id: NodeId, e: Event)
    requires Wf(t) && id in t.nodes
    ensures DisposeFrame(t, t, id) && DisposeFrame(t, Emit(t, e), id)
  {
    assert Evolves(t, t);
  }

  /** A release stays within what disposing `id` may change. */
  lemma ReleaseWithinFrame<T>(t: Tree<T>, r: Tree<T>, id: NodeId)
    requires id in t.nodes
    requires Wf(r) && Evolves(t, r) && r.nodes.Keys == t.nodes.Keys && r.nextId == t.nextId
    requires forall x :: x in t.nodes && x != id ==> OnlyNeighbors(t.nodes[x], r.nodes[x])
    requires r.nodes[id] == t.nodes[id].(hasMesh := false)
    ensures DisposeFrame(t, r, id)
  {
  }

  /** Disposing a node below `id`'s level leaves `id` at most unlinked, and stays within what disposing `id` may change. */
  lemma DisposeFrameLift<T>(t: Tree<T>, r: Tree<T>, c: NodeId, id: NodeId)
    requires c in t.nodes && id in t.nodes && t.nodes[c].lod < t.nodes[id].lod
    requires DisposeFrame(t, r, c)
    requires r.nodes[c].subNodes == t.nodes[c].subNodes || AllNone(r.nodes[c].subNodes)
    ensures DisposeFrame(t, r, id) && OnlyNeighbors(t.nodes[id], r.nodes[id])
  {
  }

  /** Records other than `id` that were replaced only at `id`, then at most unlinked, are at most unlinked. */
  lemma ReleaseFrame<T>(a: map<NodeId, Node<T>>, n: Node<T>, c: map<NodeId, Node<T>>, id: NodeId)
    requires (a[id := n]).Keys <= c.Keys
    requires forall x :: x in a[id := n] ==> OnlyNeighbors((a[id := n])[x], c[x])
    ensures forall x :: x in a && x != id ==> OnlyNeighbors(a[x], c[x])
  {
    forall x | x in a && x != id
      ensures OnlyNeighbors(a[x], c[x])
    {
      assert OnlyNeighbors((a[id := n])[x], c[x]);
    }
  }

  /**
   * The trail of disposing `c`, from index `from` on, stays below the level
   * above `c`: its last call may release `c` itself, every other release is
   * further down.
   */
  lemma TrailBelow<T>(events: seq<Event>, from: nat, nodes: map<NodeId, Node<T>>, c: NodeId, released: bool)
    requires c in nodes
    requires released ==>
               && |events| > from && events[|events| - 1] == DisposeVoxelData(c)
               && ReleasesBelow(events, from, |events| - 1, nodes, nodes[c].lod)
    requires !released ==> ReleasesBelow(events, from, |events|, nodes, nodes[c].lod)
    ensures ReleasesBelow(events, from, |events|, nodes, nodes[c].lod + 1)
  {
  }

  /** The log of `Dispose` stitched from the child loop's and the tail's. */
  lemma TrailJoin<T>(t: Tree<T>, n1: map<NodeId, Node<T>>, t2: Tree<T>, r: Tree<T>, id: NodeId)
    requires id in t.nodes && id in n1 && id in t2.nodes && n1[id].lod == t.nodes[id].lod
    requires t2.nodes[id].permanent == t.nodes[id].permanent
    requires t.events <= t2.events <= r.events
    requires forall x :: x in n1 ==> x in t.nodes && t.nodes[x].lod == n1[x].lod
    requires ReleasesBelow(t2.events, |t.events|, |t2.events|, n1, n1[id].lod)
    requires !t.nodes[id].permanent ==> |r.events| > |t2.events|
    requires NoReleases(r.events, |t2.events|, |r.events| - (if t.nodes[id].permanent then 0 else 1))
    ensures ReleasesBelow(r.events, |t.events|, |r.events| - (if t.nodes[id].permanent then 0 else 1), t.nodes, t.nodes[id].lod)
  {
    var l := t.nodes[id].lod;
    var d := if t.nodes[id].permanent then 0 else 1;
    ReleasesBelowMove(t2.events, |t.events|, |t2.events|, n1, l, t.nodes, l);
    ReleasesBelowGrow(t2.events, r.events, |t.events|, |t2.events|, t.nodes, l);
    NoReleasesBelow(r.events, |t2.events|, |r.events| - d, t.nodes, l);
    ReleasesBelowJoin(r.events, |t.events|, |t2.events|, |r.events| - d, t.nodes, l);
  }

  /** A disposal that leaves `id`'s own slots all-or-none keeps every node's slots all-or-none. */
  lemma DisposeFrameShaped<T>(t: Tree<T>, r: Tree<T>, id: NodeId)
    requires id in t.nodes && DisposeFrame(t, r, id) && Shaped(t) && AllOrNone(r.nodes[id].subNodes)
    ensures Shaped(r)
  {
    forall x | x in r.nodes
      ensures AllOrNone(r.nodes[x].subNodes)
    {
      if x != id && r.nodes[x].subNodes == t.nodes[x].subNodes {
        assert AllOrNone(t.nodes[x].subNodes);
      }
    }
  }
}
