/**
 * The eight-entry result list of `SearchNodeCreate` (NodeManager.cs): a found
 * node goes into the first empty entry, and the list only ever gains nodes
 * at the searched level whose padded box holds the point.
 */
module Hits {
  import opened Wrappers
  import opened Vectors
  import opened Arena
  import opened Search

  /** The first empty entry of `list` at or after `i`, if any. */
  function FirstFree(list: seq<Option<NodeId>>, i: nat): (r: Option<nat>)
    requires i <= |list|
    ensures r.Some? ==> i <= r.value < |list| && list[r.value].None?
    ensures r.Some? ==> forall k :: i <= k < r.value ==> list[k].Some?
    ensures r.None? ==> forall k :: i <= k < |list| ==> list[k].Some?
    decreases |list| - i
  {
    if i == |list| then None
    else if list[i].None? then Some(i)
    else FirstFree(list, i + 1)
  }

  /** The list with `id` stored in its first empty entry; unchanged when it is full. */
  function AddFirstFree(list: seq<Option<NodeId>>, id: NodeId): (r: seq<Option<NodeId>>)
    ensures |r| == |list|
  {
    match FirstFree(list, 0)
    case None => list
    case Some(j) => list[j := Some(id)]
  }

  /** Storing a node changes at most one entry, an empty one, and fills it with that node. */
  lemma AddFirstFreeMeans(list: seq<Option<NodeId>>, id: NodeId)
    ensures var r := AddFirstFree(list, id);
            && (forall k :: 0 <= k < |list| ==> r[k] == list[k] || (list[k].None? && r[k] == Some(id)))
            && (forall k, m :: 0 <= k < m < |list| && r[k] != list[k] ==> r[m] == list[m])
            && ((exists k :: 0 <= k < |list| && list[k].None?) <==> r != list)
  {
    var r := AddFirstFree(list, id);
    match FirstFree(list, 0)
    case None =>
    case Some(j) =>
      assert r[j] != list[j];
  }

  /**
   * `after` is `before` with some empty entries filled, each with a node of
   * `t` at level `searchLOD` whose padded box holds `p`.
   */
  ghost predicate Collected<T>(before: seq<Option<NodeId>>, after: seq<Option<NodeId>>, t: Tree<T>, p: V3, searchLOD: int)
  {
    && |after| == |before|
    && forall k :: 0 <= k < |before| ==>
         || after[k] == before[k]
         || (&& before[k].None? && after[k].Some? && after[k].value in t.nodes
             && t.nodes[after[k].value].lod == searchLOD && Padded(t.nodes, after[k].value, p))
  }

  lemma CollectedTrans<T>(a: seq<Option<NodeId>>, b: seq<Option<NodeId>>, c: seq<Option<NodeId>>,
                          t1: Tree<T>, t2: Tree<T>, p: V3, searchLOD: int)
    requires Collected(a, b, t1, p, searchLOD) && Collected(b, c, t2, p, searchLOD) && Evolves(t1, t2)
    ensures Collected(a, c, t2, p, searchLOD)
  {
    forall k | 0 <= k < |a|
      ensures || c[k] == a[k]
              || (&& a[k].None? && c[k].Some? && c[k].value in t2.nodes
                  && t2.nodes[c[k].value].lod == searchLOD && Padded(t2.nodes, c[k].value, p))
    {
      if c[k] != a[k] && c[k] == b[k] {
        assert Kept(t1.nodes[b[k].value], t2.nodes[b[k].value]);
      }
    }
  }
}
