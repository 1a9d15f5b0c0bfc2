/**
 * `SetDataFromWorldPos` of `Node<T>` (NodeManager.cs): an edit at a world
 * point is written into the node's change grid, after which the node and its
 * ancestors are permanent and the node records that it holds changes.  An
 * edit whose grid coordinate falls outside -1..17 is dropped.
 */
module Edits {
  import opened Wrappers
  import opened Vectors
  import opened Geometry
  import opened Arena
  import Voxels
  import opened Lineages
  import opened Permanence

  /**
   * The grid coordinate of world point `p` in a node at `position`, level
   * `lod`: the offset from the origin divided by the voxel size, each quotient
   * truncated toward zero.  Positions are integers, so rounding them first
   * changes nothing.
   */
  function ArrayPos(position: V3, lod: nat, p: V3): V3
    requires lod <= MaxLevel
  {
    WidthPositive(lod);
    TruncDivV(Subtract(p, position), LODSize[lod])
  }

  /** A truncated quotient lies in -1..17 iff the dividend lies strictly between -2 and 18 divisors. */
  lemma TruncInRange(a: int, b: int)
    requires b > 0
    ensures -1 <= TruncDiv(a, b) <= 17 <==> -2 * b < a < 18 * b
  {
    var q := TruncDiv(a, b);
    if a >= 0 {
      if q <= 17 {
        assert a < q * b + b <= 17 * b + b;
      } else {
        assert q * b >= 18 * b;
      }
    } else {
      if q >= -1 {
        assert a > q * b - b >= -b - b;
      } else {
        assert q * b <= -2 * b;
      }
    }
  }

  /**
   * An edit is accepted iff, on every axis, the point's offset from the node's
   * origin lies strictly between minus two voxels and eighteen voxels: a
   * little more than the density box on each side.
   */
  lemma AcceptedMeans(position: V3, lod: nat, p: V3)
    requires lod <= MaxLevel
    ensures LODSize[lod] > 0
    ensures var a := ArrayPos(position, lod, p);
            var s := LODSize[lod];
            Voxels.InRange(a.x, a.y, a.z) <==>
              && -2 * s < p.x - position.x < 18 * s
              && -2 * s < p.y - position.y < 18 * s
              && -2 * s < p.z - position.z < 18 * s
  {
    WidthPositive(lod);
    var d := Subtract(p, position);
    TruncInRange(d.x, LODSize[lod]);
    TruncInRange(d.y, LODSize[lod]);
    TruncInRange(d.z, LODSize[lod]);
  }

  /** Every point of a node's density box is accepted by that node. */
  lemma DensityPointAccepted(position: V3, lod: nat, p: V3)
    requires lod <= MaxLevel && ContainsDensityPoint(position, lod, p)
    ensures var a := ArrayPos(position, lod, p);
            Voxels.InRange(a.x, a.y, a.z)
  {
    AcceptedMeans(position, lod, p);
    WidthPositive(lod);
    assert Width(lod) == 16 * LODSize[lod];
  }

  /** Replace `id`'s change grid and change flag; nothing else moves. */
  function Rewrite<T>(t: Tree<T>, id: NodeId, grid: Voxels.VoxelData<T>, changed: bool): (r: Tree<T>)
    requires Wf(t) && id in t.nodes && Voxels.Valid(grid)
    ensures Wf(r) && r == t.(nodes := t.nodes[id := t.nodes[id].(changeData := grid, hasDensityChangeData := changed)])
    ensures SameShape(t.nodes, r.nodes)
  {
    assert Local(t.nodes[id], t.maxLOD);
    ReplaceNode(t.nodes, t.nextId, t.maxLOD, id, t.nodes[id].(changeData := grid, hasDensityChangeData := changed));
    t.(nodes := t.nodes[id := t.nodes[id].(changeData := grid, hasDensityChangeData := changed)])
  }

  /**
   * `SetDataFromWorldPos`: an out-of-range coordinate changes nothing.
   * Otherwise exactly that cell of the node's own grid takes the value, the
   * node is marked as holding changes and made permanent, its ancestors are
   * made permanent, and nothing else changes.
   */
  function SetDataFromWorldPos<T>(t: Tree<T>, id: NodeId, p: V3, val: T): (r: Tree<T>)
    requires Wf(t) && id in t.nodes
    ensures Wf(r) && r == t.(nodes := r.nodes) && r.nodes.Keys == t.nodes.Keys
    ensures t.nodes[id].lod <= MaxLevel
    ensures var a := ArrayPos(t.nodes[id].position, t.nodes[id].lod, p);
            !Voxels.InRange(a.x, a.y, a.z) ==> r == t
    ensures var a := ArrayPos(t.nodes[id].position, t.nodes[id].lod, p);
            Voxels.InRange(a.x, a.y, a.z) ==>
              && Voxels.Valid(t.nodes[id].changeData)
              && r.nodes[id] == t.nodes[id].(changeData := Voxels.Set(t.nodes[id].changeData, a.x, a.y, a.z, val),
                                             hasDensityChangeData := true, permanent := true)
              && forall x :: x in t.nodes && x != id ==>
                   r.nodes[x] == t.nodes[x].(permanent := t.nodes[x].permanent || x in Lineage(t.nodes, id))
  {
    var n := t.nodes[id];
    assert Local(n, t.maxLOD) && GridOk(t.nodes, id);
    var a := ArrayPos(n.position, n.lod, p);
    if !Voxels.InRange(a.x, a.y, a.z) then t
    else Commit(t, id, a, val)
  }

  /** The accepted edit: write the cell, make the lineage permanent, raise the change flag. */
  function Commit<T>(t: Tree<T>, id: NodeId, a: V3, val: T): (r: Tree<T>)
    requires Wf(t) && id in t.nodes && Voxels.InRange(a.x, a.y, a.z) && Voxels.Valid(t.nodes[id].changeData)
    ensures Wf(r) && r == t.(nodes := r.nodes) && r.nodes.Keys == t.nodes.Keys
    ensures r.nodes[id] == t.nodes[id].(changeData := Voxels.Set(t.nodes[id].changeData, a.x, a.y, a.z, val),
                                        hasDensityChangeData := true, permanent := true)
    ensures forall x :: x in t.nodes && x != id ==>
              r.nodes[x] == t.nodes[x].(permanent := t.nodes[x].permanent || x in Lineage(t.nodes, id))
  {
    var n := t.nodes[id];
    var t1 := Rewrite(t, id, Voxels.Set(n.changeData, a.x, a.y, a.z, val), n.hasDensityChangeData);
    var t2 := MakePermanent(t1, id);
    LineageShape(t.nodes, t1.nodes, id);
    LineageInArena(t.nodes, id);
    assert GridOk(t2.nodes, id);
    var r := Rewrite(t2, id, t2.nodes[id].changeData, true);
    OthersRaised(t, t1, t2, r, id,
                 t.nodes[id].(changeData := Voxels.Set(n.changeData, a.x, a.y, a.z, val), hasDensityChangeData := n.hasDensityChangeData),
                 t2.nodes[id].(changeData := t2.nodes[id].changeData, hasDensityChangeData := true));
    r
  }

  /** Nodes other than the edited one change only by the lineage's permanence. */
  lemma OthersRaised<T>(t: Tree<T>, t1: Tree<T>, t2: Tree<T>, r: Tree<T>, id: NodeId, n1: Node<T>, n2: Node<T>)
    requires t1 == t.(nodes := t.nodes[id := n1])
    requires Raised(t1, t2, Lineage(t.nodes, id))
    requires r == t2.(nodes := t2.nodes[id := n2])
    ensures forall x :: x in t.nodes && x != id ==>
              r.nodes[x] == t.nodes[x].(permanent := t.nodes[x].permanent || x in Lineage(t.nodes, id))
  {
  }
}
