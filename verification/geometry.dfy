/**
 * The constant tables of NodeManager.cs and the box arithmetic built on them:
 * where a child sits inside its parent, which points a node's tight box and
 * its padded "density" box contain, and the lattice coordinate of a node.
 */
module Geometry {
  import opened Vectors

  /** Edge resolution of a node's voxel grid (`nodeSize`). */
  const NodeSize: int := 16

  /** Largest level the `LODSize` table can index. */
  const MaxLevel: nat := 10

  /** `LODSize`: voxel edge length at each level of detail. */
  const LODSize: seq<int> := [1, 2, 4, 8, 16, 32, 64, 128, 256, 512, 1024]

  /** `mask`: corner offset (in half parent widths) of each child slot. */
  const Mask: seq<V3> := [
    V3(0, 0, 0), V3(1, 0, 0), V3(0, 1, 0), V3(0, 0, 1),
    V3(1, 1, 0), V3(1, 0, 1), V3(0, 1, 1), V3(1, 1, 1)
  ]

  /** `neighborMask`: direction of each of the six same-level neighbour slots. */
  const NeighborMask: seq<V3> := [
    V3(-1, 0, 0), V3(0, -1, 0), V3(0, 0, -1),
    V3(1, 0, 0), V3(0, 1, 0), V3(0, 0, 1)
  ]

  /** `oppositeNeighbor`: the slot pointing back along the same axis. */
  const OppositeNeighbor: seq<nat> := [3, 4, 5, 0, 1, 2]

  /** Edge length of a node at level `lod` (`LODSize[lod] * nodeSize`). */
  function Width(lod: nat): int
    requires lod <= MaxLevel
  {
    LODSize[lod] * NodeSize
  }

  /** Each level is twice as wide as the one below it. */
  lemma WidthDoubles(lod: nat)
    requires 0 < lod <= MaxLevel
    ensures Width(lod) == 2 * Width(lod - 1)
    ensures Width(lod - 1) >= NodeSize
  {
    match lod
    case 1 =>
    case 2 =>
    case 3 =>
    case 4 =>
    case 5 =>
    case 6 =>
    case 7 =>
    case 8 =>
    case 9 =>
    case 10 =>
  }

  lemma WidthPositive(lod: nat)
    requires lod <= MaxLevel
    ensures Width(lod) >= NodeSize && LODSize[lod] >= 1 && Width(lod) % 2 == 0
  {
    match lod
    case 0 =>
    case 1 =>
    case 2 =>
    case 3 =>
    case 4 =>
    case 5 =>
    case 6 =>
    case 7 =>
    case 8 =>
    case 9 =>
    case 10 =>
  }

  /** The opposite of the opposite slot is the slot itself, and it is a different slot. */
  lemma OppositeInvolution(i: nat)
    requires i < 6
    ensures OppositeNeighbor[i] < 6
    ensures OppositeNeighbor[OppositeNeighbor[i]] == i
    ensures OppositeNeighbor[i] != i
    ensures NeighborMask[OppositeNeighbor[i]] == Scale(NeighborMask[i], -1)
  {
  }

  /** `GetOffsetPosition`: origin of child `i` of a node at `position`, level `lod`. */
  function GetOffsetPosition(position: V3, lod: nat, i: nat): V3
    requires lod <= MaxLevel && i < 8
  {
    Add(position, Scale(Mask[i], Width(lod) / 2))
  }

  /** `ContainsPoint`: the closed tight box `[position, position + width]` on every axis. */
  predicate ContainsPoint(position: V3, lod: nat, p: V3)
    requires lod <= MaxLevel
  {
    && position.x <= p.x <= position.x + Width(lod)
    && position.y <= p.y <= position.y + Width(lod)
    && position.z <= p.z <= position.z + Width(lod)
  }

  /** `ContainsDensityPoint`: the tight box widened by one voxel (`LODSize[lod]`) on every side. */
  predicate ContainsDensityPoint(position: V3, lod: nat, p: V3)
    requires lod <= MaxLevel
  {
    var s := LODSize[lod];
    && position.x - s <= p.x <= position.x + Width(lod) + s
    && position.y - s <= p.y <= position.y + Width(lod) + s
    && position.z - s <= p.z <= position.z + Width(lod) + s
  }

  /** Every tight box lies inside its density box. */
  lemma TightInsideDensity(position: V3, lod: nat, p: V3)
    requires lod <= MaxLevel
    requires ContainsPoint(position, lod, p)
    ensures ContainsDensityPoint(position, lod, p)
  {
    WidthPositive(lod);
  }

  /**
   * Child `i` is half as wide as its parent, sits at the parent's origin plus
   * half a parent width along each axis its mask selects, and its closed box
   * lies inside the parent's closed box.
   */
  lemma ChildInsideParent(position: V3, lod: nat, i: nat, p: V3)
    requires 0 < lod <= MaxLevel && i < 8
    requires ContainsPoint(GetOffsetPosition(position, lod, i), lod - 1, p)
    ensures ContainsPoint(position, lod, p)
    ensures GetOffsetPosition(position, lod, i) == Add(position, Scale(Mask[i], Width(lod - 1)))
  {
    WidthDoubles(lod);
  }

  /** The child slot whose mask is the given 0/1 corner. */
  function MaskIndex(cx: int, cy: int, cz: int): (i: nat)
    requires 0 <= cx <= 1 && 0 <= cy <= 1 && 0 <= cz <= 1
    ensures i < 8 && Mask[i] == V3(cx, cy, cz)
  {
    if cx == 0 then
      (if cy == 0 then (if cz == 0 then 0 else 3) else (if cz == 0 then 2 else 6))
    else
      (if cy == 0 then (if cz == 0 then 1 else 5) else (if cz == 0 then 4 else 7))
  }

  /** The child that holds a point of the parent: its half along each axis. */
  function ChildHolding(position: V3, lod: nat, p: V3): (i: nat)
    requires 0 < lod <= MaxLevel
    requires ContainsPoint(position, lod, p)
    ensures i < 8 && ContainsPoint(GetOffsetPosition(position, lod, i), lod - 1, p)
  {
    WidthDoubles(lod);
    var h := Width(lod - 1);
    MaskIndex(if p.x >= position.x + h then 1 else 0,
              if p.y >= position.y + h then 1 else 0,
              if p.z >= position.z + h then 1 else 0)
  }

  /** The eight children cover the parent's closed box. */
  lemma ChildrenCover(position: V3, lod: nat, p: V3)
    requires 0 < lod <= MaxLevel
    requires ContainsPoint(position, lod, p)
    ensures exists i :: 0 <= i < 8 && ContainsPoint(GetOffsetPosition(position, lod, i), lod - 1, p)
  {
    var i := ChildHolding(position, lod, p);
  }

  /** Centre of a node (`center` in the constructor). */
  function Center(position: V3, lod: nat): V3
    requires lod <= MaxLevel
  {
    Add(position, V3(Width(lod) / 2, Width(lod) / 2, Width(lod) / 2))
  }

  /** `chunkPos`: the centre divided by the width, each quotient truncated toward zero. */
  function ChunkPos(position: V3, lod: nat): V3
    requires lod <= MaxLevel
  {
    WidthPositive(lod);
    TruncDivV(Center(position, lod), Width(lod))
  }

  /**
   * Truncation puts the level-0 node just below the origin on the same lattice
   * coordinate as the node at the origin: lattice cells -1 and 0 collapse.
   */
  lemma NegativeNodeSharesChunkPos()
    ensures ChunkPos(V3(-16, 0, 0), 0) == ChunkPos(V3(0, 0, 0), 0) == V3(0, 0, 0)
  {
    assert Width(0) == 16;
    assert Center(V3(-16, 0, 0), 0) == V3(-8, 8, 8);
    assert Center(V3(0, 0, 0), 0) == V3(8, 8, 8);
    assert TruncDiv(-8, 16) == 0 && TruncDiv(8, 16) == 0;
  }

  /** `chunkPos` as evidently intended: the centre divided by the width, rounded down. */
  function FloorChunkPos(position: V3, lod: nat): V3
    requires lod <= MaxLevel
  {
    WidthPositive(lod);
    FloorDivV(Center(position, lod), Width(lod))
  }

  /** A node on the lattice of its level gets its own lattice coordinate as its rounded-down chunk position. */
  lemma FloorChunkPosExact(k: V3, lod: nat)
    requires lod <= MaxLevel
    ensures FloorChunkPos(Scale(k, Width(lod)), lod) == k
  {
    var w := Width(lod);
    WidthPositive(lod);
    QuotientOfOffset(k.x, w, w / 2);
    QuotientOfOffset(k.y, w, w / 2);
    QuotientOfOffset(k.z, w, w / 2);
  }

  /** Rounded down, distinct lattice nodes of one level have distinct chunk positions, and equal ones equal. */
  lemma FloorChunkPosInjective(a: V3, b: V3, lod: nat)
    requires lod <= MaxLevel
    ensures FloorChunkPos(Scale(a, Width(lod)), lod) == FloorChunkPos(Scale(b, Width(lod)), lod) <==> a == b
  {
    FloorChunkPosExact(a, lod);
    FloorChunkPosExact(b, lod);
  }

  /** A multiple of `w` plus an offset below `w` divides back to the multiplier. */
  lemma QuotientOfOffset(k: int, w: int, r: int)
    requires w > 0 && 0 <= r < w
    ensures (k * w + r) / w == k
  {
    var q := (k * w + r) / w;
    var d := q - k;
    assert q * w == k * w + d * w;
    MultipleBound(d, w);
  }

  /** A non-zero multiple of `w > 0` is at least `w` away from zero. */
  lemma MultipleBound(d: int, w: int)
    requires w > 0
    ensures d >= 1 ==> d * w >= w
    ensures d <= -1 ==> d * w <= -w
  {
    if d >= 1 {
      assert d * w == w + (d - 1) * w;
    } else if d <= -1 {
      assert d * w == -w - (-d - 1) * w;
    }
  }
}
