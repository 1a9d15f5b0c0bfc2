/**
 * `VoxelData<T>` of Utilities.cs: a 19 x 19 x 19 grid of samples addressed by
 * coordinates -1..17 (stored at +1), with an optional change overlay whose
 * non-default values shadow the grid's own.  `dflt` plays C#'s `default(T)`.
 */
module Voxels {
  import opened Wrappers
  import opened Vectors

  /** Cells per axis of the stored array (16 plus one padding cell on each side, plus one). */
  const Side: int := 19

  /** A 19 x 19 x 19 array in the source's `[x, y, z]` order. */
  predicate IsCube<T>(c: seq<seq<seq<T>>>)
  {
    && |c| == Side
    && (forall i :: 0 <= i < Side ==> |c[i]| == Side)
    && (forall i, j :: 0 <= i < Side && 0 <= j < Side ==> |c[i][j]| == Side)
  }

  datatype VoxelData<T> = VoxelData(values: seq<seq<seq<T>>>, changeData: Option<VoxelData<T>>)

  /** Every grid along the overlay chain is a full cube. */
  predicate Valid<T>(g: VoxelData<T>)
    decreases g
  {
    IsCube(g.values) && (g.changeData.Some? ==> Valid(g.changeData.value))
  }

  /** The coordinates `Get` and `Set` accept without an index error. */
  predicate InRange(x: int, y: int, z: int)
  {
    -1 <= x <= 17 && -1 <= y <= 17 && -1 <= z <= 17
  }

  /** The grid's own stored value at a coordinate, ignoring any overlay. */
  function Cell<T>(g: VoxelData<T>, x: int, y: int, z: int): T
    requires Valid(g) && InRange(x, y, z)
  {
    g.values[x + 1][y + 1][z + 1]
  }

  /** A cube whose entry `[i][j][k]` is `f(i, j, k)`. */
  function Tabulate<T>(f: (int, int, int) --> T): (c: seq<seq<seq<T>>>)
    requires forall i, j, k :: 0 <= i < Side && 0 <= j < Side && 0 <= k < Side ==> f.requires(i, j, k)
    ensures IsCube(c)
    ensures forall i, j, k :: 0 <= i < Side && 0 <= j < Side && 0 <= k < Side ==> c[i][j][k] == f(i, j, k)
  {
    seq(Side, i requires 0 <= i < Side =>
      seq(Side, j requires 0 <= j < Side =>
        seq(Side, k requires 0 <= k < Side => f(i, j, k))))
  }

  /** `new VoxelData<T>()`: every cell holds the default value and there is no overlay. */
  function New<T>(dflt: T): (g: VoxelData<T>)
    ensures Valid(g) && g.changeData.None?
    ensures forall x, y, z :: InRange(x, y, z) ==> Cell(g, x, y, z) == dflt
  {
    VoxelData(Filled(dflt), None)
  }

  /** A cube holding `v` in every cell. */
  function Filled<T>(v: T): (c: seq<seq<seq<T>>>)
    ensures IsCube(c)
    ensures forall i, j, k :: 0 <= i < Side && 0 <= j < Side && 0 <= k < Side ==> c[i][j][k] == v
  {
    var row := seq(Side, _ => v);
    var plane := seq(Side, _ => row);
    seq(Side, _ => plane)
  }

  /** `Get(x, y, z)`: the overlay's value where it is not the default, the grid's own otherwise. */
  function Get<T(==)>(g: VoxelData<T>, x: int, y: int, z: int, dflt: T): T
    requires Valid(g) && InRange(x, y, z)
    decreases g
  {
    if g.changeData.Some? && Get(g.changeData.value, x, y, z, dflt) != dflt then
      Get(g.changeData.value, x, y, z, dflt)
    else
      Cell(g, x, y, z)
  }

  /** `Get(Vector3I pos)`: the same shadowing, consulted through the vector overload. */
  function GetV<T(==)>(g: VoxelData<T>, pos: V3, dflt: T): T
    requires Valid(g) && InRange(pos.x, pos.y, pos.z)
    decreases g
  {
    if g.changeData.Some? && GetV(g.changeData.value, pos, dflt) != dflt then
      GetV(g.changeData.value, pos, dflt)
    else
      Get(g, pos.x, pos.y, pos.z, dflt)
  }

  /** The vector overload of `Get` returns what the three-integer overload returns. */
  lemma {:induction false} GetVAgrees<T>(g: VoxelData<T>, pos: V3, dflt: T)
    requires Valid(g) && InRange(pos.x, pos.y, pos.z)
    ensures GetV(g, pos, dflt) == Get(g, pos.x, pos.y, pos.z, dflt)
    decreases g
  {
    if g.changeData.Some? {
      GetVAgrees(g.changeData.value, pos, dflt);
    }
  }

  /**
   * With a single overlay attached (one that has no overlay of its own, which
   * is how a node attaches its change grid), `Get` yields the overlay's cell
   * when that differs from the default and the grid's own cell otherwise.
   */
  lemma GetWithOverlay<T>(g: VoxelData<T>, x: int, y: int, z: int, dflt: T)
    requires Valid(g) && InRange(x, y, z)
    requires g.changeData.Some? && g.changeData.value.changeData.None?
    ensures var o := Cell(g.changeData.value, x, y, z);
            Get(g, x, y, z, dflt) == if o != dflt then o else Cell(g, x, y, z)
  {
  }

  /** Without an overlay, `Get` reads the grid's own cell. */
  lemma GetWithoutOverlay<T>(g: VoxelData<T>, x: int, y: int, z: int, dflt: T)
    requires Valid(g) && InRange(x, y, z) && g.changeData.None?
    ensures Get(g, x, y, z, dflt) == Cell(g, x, y, z)
  {
  }

  /** `Set(x, y, z, val)`: writes the grid's own cell; the overlay is not touched. */
  function Set<T>(g: VoxelData<T>, x: int, y: int, z: int, v: T): (r: VoxelData<T>)
    requires Valid(g) && InRange(x, y, z)
    ensures Valid(r) && r.changeData == g.changeData
    ensures Cell(r, x, y, z) == v
    ensures forall a, b, c :: InRange(a, b, c) && (a, b, c) != (x, y, z) ==> Cell(r, a, b, c) == Cell(g, a, b, c)
  {
    var plane := g.values[x + 1];
    var row := plane[y + 1];
    g.(values := g.values[x + 1 := plane[y + 1 := row[z + 1 := v]]])
  }

  /** `Set(Vector3I pos, val)`. */
  function SetV<T>(g: VoxelData<T>, pos: V3, v: T): (r: VoxelData<T>)
    requires Valid(g) && InRange(pos.x, pos.y, pos.z)
    ensures r == Set(g, pos.x, pos.y, pos.z, v)
  {
    Set(g, pos.x, pos.y, pos.z, v)
  }

  /**
   * With no overlay attached, a `Set` followed by a `Get` of the same cell
   * returns the stored value, and every other cell reads as before.
   */
  lemma SetThenGet<T>(g: VoxelData<T>, x: int, y: int, z: int, v: T, dflt: T)
    requires Valid(g) && InRange(x, y, z) && g.changeData.None?
    ensures Get(Set(g, x, y, z, v), x, y, z, dflt) == v
    ensures forall a, b, c :: InRange(a, b, c) && (a, b, c) != (x, y, z) ==>
              Get(Set(g, x, y, z, v), a, b, c, dflt) == Get(g, a, b, c, dflt)
  {
  }

  /** `SetChangeData(data)`: attaches `other` as the overlay consulted by `Get`. */
  function SetChangeData<T>(g: VoxelData<T>, other: VoxelData<T>): (r: VoxelData<T>)
    requires Valid(g) && Valid(other)
    ensures Valid(r) && r.values == g.values && r.changeData == Some(other)
  {
    g.(changeData := Some(other))
  }

  /**
   * `ApplyChanges(other)`: copies each of `other`'s own stored cells that is
   * not the default into this grid; every other cell keeps its value, and the
   * overlays of both grids play no part.
   */
  function ApplyChanges<T(==)>(g: VoxelData<T>, other: VoxelData<T>, dflt: T): (r: VoxelData<T>)
    requires Valid(g) && Valid(other)
    ensures Valid(r) && r.changeData == g.changeData
    ensures forall x, y, z :: InRange(x, y, z) ==>
              Cell(r, x, y, z) == if Cell(other, x, y, z) != dflt then Cell(other, x, y, z) else Cell(g, x, y, z)
  {
    var c := Tabulate((i, j, k) requires 0 <= i < Side && 0 <= j < Side && 0 <= k < Side =>
      if other.values[i][j][k] != dflt then other.values[i][j][k] else g.values[i][j][k]);
    g.(values := c)
  }

  /** Two valid grids with the same overlay and the same cells are the same grid. */
  lemma CellsDetermine<T>(g: VoxelData<T>, h: VoxelData<T>)
    requires Valid(g) && Valid(h) && g.changeData == h.changeData
    requires forall x, y, z :: InRange(x, y, z) ==> Cell(g, x, y, z) == Cell(h, x, y, z)
    ensures g == h
  {
    forall i, j, k | 0 <= i < Side && 0 <= j < Side && 0 <= k < Side
      ensures g.values[i][j][k] == h.values[i][j][k]
    {
      assert Cell(g, i - 1, j - 1, k - 1) == Cell(h, i - 1, j - 1, k - 1);
    }
    forall i, j | 0 <= i < Side && 0 <= j < Side
      ensures g.values[i][j] == h.values[i][j]
    {
    }
    forall i | 0 <= i < Side
      ensures g.values[i] == h.values[i]
    {
    }
  }

  /** Applying the same changes twice is the same as applying them once. */
  lemma ApplyChangesIdempotent<T>(g: VoxelData<T>, other: VoxelData<T>, dflt: T)
    requires Valid(g) && Valid(other)
    ensures ApplyChanges(ApplyChanges(g, other, dflt), other, dflt) == ApplyChanges(g, other, dflt)
  {
    var once := ApplyChanges(g, other, dflt);
    CellsDetermine(ApplyChanges(once, other, dflt), once);
  }

  /** `Dispose()`: every stored cell is reset to the default; the overlay link stays. */
  function Dispose<T>(g: VoxelData<T>, dflt: T): (r: VoxelData<T>)
    requires Valid(g)
    ensures Valid(r) && r.changeData == g.changeData
    ensures forall x, y, z :: InRange(x, y, z) ==> Cell(r, x, y, z) == dflt
  {
    g.(values := Filled(dflt))
  }
}
