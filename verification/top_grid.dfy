/**
 * The 3×3×3 grid of top-level nodes of `NodeManager<T>` (NodeManager.cs),
 * flattened as index `9x + 3y + z`, and where each cell belongs: cell
 * `(x, y, z)` around centre cell `cur` sits at `(cur + (x-1, y-1, z-1)) * w`
 * for the top-level width `w`.
 */
module TopGrid {
  import opened Wrappers
  import opened Vectors
  import opened Geometry
  import opened Arena

  /** Index of `topNodes[x, y, z]`. */
  function Idx(x: nat, y: nat, z: nat): (i: nat)
    requires x < 3 && y < 3 && z < 3
    ensures i < 27
  {
    9 * x + 3 * y + z
  }

  /** Grid coordinates of index `i`. */
  function CellOf(i: nat): V3
  {
    V3(i / 9, (i / 3) % 3, i % 3)
  }

  lemma CellOfIdx(x: nat, y: nat, z: nat)
    requires x < 3 && y < 3 && z < 3
    ensures CellOf(Idx(x, y, z)) == V3(x, y, z)
  {
  }

  /**
   * The cell whose coordinate along `axis` is `u`, the other two coordinates
   * being `v` and `w` in axis order: the cells one turn of a shift loop visits.
   */
  function Cell(axis: nat, u: nat, v: nat, w: nat): (i: nat)
    requires axis < 3 && u < 3 && v < 3 && w < 3
    ensures i < 27
  {
    if axis == 0 then Idx(u, v, w) else if axis == 1 then Idx(v, u, w) else Idx(v, w, u)
  }

  /** The unit step along `axis`, upward or downward. */
  function Step(axis: nat, up: bool): V3
    requires axis < 3
  {
    var d := if up then 1 else -1;
    if axis == 0 then V3(d, 0, 0) else if axis == 1 then V3(0, d, 0) else V3(0, 0, d)
  }

  /** Two steps the same way along one axis move the centre cell. */
  lemma TwoStepsMove(cur: V3, axis: nat, up: bool)
    requires axis < 3
    ensures Add(cur, Add(Step(axis, up), Step(axis, up))) != cur
  {
  }

  /** A step along each of two axes moves the centre cell. */
  lemma CrossStepsMove(cur: V3, a: nat, b: nat)
    requires a < 3 && b < 3 && a != b
    ensures Add(cur, Add(Step(a, true), Step(b, true))) != cur
  {
  }

  /** A line along `b` whose middle cell is on the far face along `a`. */
  lemma FaceCell(a: nat, b: nat) returns (v: nat, s: nat)
    requires a < b < 3
    ensures v < 3 && s < 3 && Along(a, Cell(b, 1, v, s)) == 2 && Cell(b, 0, v, s) != Cell(b, 1, v, s)
  {
    v := if a == 0 then 2 else 0;
    s := if a == 0 then 0 else 2;
    CellOfIdx(v, 1, s);
    CellOfIdx(v, s, 1);
    PartsOfCell(b, 0, v, s);
    PartsOfCell(b, 1, v, s);
  }

  /** Where cell `i` belongs around centre cell `cur`, top-level width `w`. */
  function Home(cur: V3, w: int, i: nat): V3
  {
    var c := CellOf(i);
    V3((cur.x + c.x - 1) * w, (cur.y + c.y - 1) * w, (cur.z + c.z - 1) * w)
  }

  /** Moving the centre by `d` gives cell `i` the old home of the cell `d` beyond it. */
  lemma HomeMove(cur: V3, d: V3, w: int, i: nat, j: nat)
    requires Add(CellOf(i), d) == CellOf(j)
    ensures Home(Add(cur, d), w, i) == Home(cur, w, j)
  {
    var a := CellOf(i);
    var b := CellOf(j);
    assert cur.x + d.x + a.x - 1 == cur.x + b.x - 1;
    assert cur.y + d.y + a.y - 1 == cur.y + b.y - 1;
    assert cur.z + d.z + a.z - 1 == cur.z + b.z - 1;
  }

  /** One step up along `axis` leads from a cell of a shift line to the next one. */
  lemma CellStep(axis: nat, u: nat, v: nat, s: nat)
    requires axis < 3 && u < 2 && v < 3 && s < 3
    ensures Add(CellOf(Cell(axis, u, v, s)), Step(axis, true)) == CellOf(Cell(axis, u + 1, v, s))
    ensures Add(CellOf(Cell(axis, u + 1, v, s)), Step(axis, false)) == CellOf(Cell(axis, u, v, s))
  {
    if axis == 0 {
      CellOfIdx(u, v, s); CellOfIdx(u + 1, v, s);
    } else if axis == 1 {
      CellOfIdx(v, u, s); CellOfIdx(v, u + 1, s);
    } else {
      CellOfIdx(v, s, u); CellOfIdx(v, s, u + 1);
    }
  }

  /**
   * After the centre moves one step up along `axis`, a cell's home is the
   * old home of the next cell along that axis; after a step down, of the
   * previous one.
   */
  lemma HomeShift(cur: V3, w: int, axis: nat, u: nat, v: nat, s: nat)
    requires axis < 3 && u < 2 && v < 3 && s < 3
    ensures Home(Add(cur, Step(axis, true)), w, Cell(axis, u, v, s)) == Home(cur, w, Cell(axis, u + 1, v, s))
    ensures Home(Add(cur, Step(axis, false)), w, Cell(axis, u + 1, v, s)) == Home(cur, w, Cell(axis, u, v, s))
  {
    CellStep(axis, u, v, s);
    HomeMove(cur, Step(axis, true), w, Cell(axis, u, v, s), Cell(axis, u + 1, v, s));
    HomeMove(cur, Step(axis, false), w, Cell(axis, u + 1, v, s), Cell(axis, u, v, s));
  }

  /** Coordinate of cell `i` along `axis`. */
  function Along(axis: nat, i: nat): nat
  {
    var c := CellOf(i);
    if axis == 0 then c.x else if axis == 1 then c.y else c.z
  }

  /** The shift line of cell `i` along `axis`: `3v + s` for its other two coordinates `v`, `s`. */
  function LineOf(axis: nat, i: nat): nat
  {
    var c := CellOf(i);
    if axis == 0 then 3 * c.y + c.z else if axis == 1 then 3 * c.x + c.z else 3 * c.x + c.y
  }

  /** Every cell is on exactly one line, at one place along the axis. */
  lemma CellParts(axis: nat, i: nat)
    requires axis < 3 && i < 27
    ensures Along(axis, i) < 3 && LineOf(axis, i) < 9
    ensures Cell(axis, Along(axis, i), LineOf(axis, i) / 3, LineOf(axis, i) % 3) == i
  {
    var c := CellOf(i);
    Digits(i);
    if axis == 0 {
      Pair(c.y, c.z);
    } else if axis == 1 {
      Pair(c.x, c.z);
    } else {
      Pair(c.x, c.y);
    }
  }

  /** An index below 27 is its three base-3 digits. */
  lemma Digits(i: nat)
    requires i < 27
    ensures CellOf(i).x < 3 && CellOf(i).y < 3 && CellOf(i).z < 3
    ensures i == Idx(CellOf(i).x, CellOf(i).y, CellOf(i).z)
  {
    var x := i / 9;
    var rest := i - 9 * x;
    var y := rest / 3;
    var z := rest - 3 * y;
    assert i == 3 * (3 * x + y) + z && 0 <= z < 3;
    assert i / 3 == 3 * x + y;
    assert i % 3 == z;
  }

  lemma Pair(a: nat, b: nat)
    requires a < 3 && b < 3
    ensures (3 * a + b) / 3 == a && (3 * a + b) % 3 == b
  {
  }

  lemma PartsOfCell(axis: nat, u: nat, v: nat, s: nat)
    requires axis < 3 && u < 3 && v < 3 && s < 3
    ensures Along(axis, Cell(axis, u, v, s)) == u && LineOf(axis, Cell(axis, u, v, s)) == 3 * v + s
  {
    CellOfIdx(u, v, s); CellOfIdx(v, u, s); CellOfIdx(v, s, u);
  }

  /** Every cell holds a node at the top level, sitting where the cell belongs around `cur`. */
  ghost predicate Arranged<T>(t: Tree<T>, tops: seq<NodeId>, cur: V3)
  {
    && t.maxLOD <= MaxLevel && |tops| == 27
    && forall i :: 0 <= i < 27 ==>
         && tops[i] in t.nodes && t.nodes[tops[i]].lod == t.maxLOD
         && t.nodes[tops[i]].position == Home(cur, Width(t.maxLOD), i)
  }

  /** Every cell holds a node at the top level. */
  ghost predicate TopsOk<T>(t: Tree<T>, tops: seq<NodeId>)
  {
    && |tops| == 27
    && forall i :: 0 <= i < 27 ==> tops[i] in t.nodes && t.nodes[tops[i]].lod == t.maxLOD
  }

  /** Growing the arena moves no node: an arranged grid stays arranged. */
  lemma ArrangedKept<T>(t: Tree<T>, r: Tree<T>, tops: seq<NodeId>, cur: V3)
    requires Arranged(t, tops, cur) && Evolves(t, r)
    ensures Arranged(r, tops, cur)
  {
    forall i | 0 <= i < 27
      ensures Kept(t.nodes[tops[i]], r.nodes[tops[i]])
    {
    }
  }

  /** Distinct cells have distinct homes. */
  lemma HomesDiffer(cur: V3, w: int, i: nat, j: nat)
    requires w > 0 && i < 27 && j < 27 && i != j
    ensures Home(cur, w, i) != Home(cur, w, j)
  {
    var a := CellOf(i);
    var b := CellOf(j);
    assert a != b;
    if a.x != b.x {
      assert (cur.x + a.x - 1) * w != (cur.x + b.x - 1) * w;
    } else if a.y != b.y {
      assert (cur.y + a.y - 1) * w != (cur.y + b.y - 1) * w;
    } else {
      assert (cur.z + a.z - 1) * w != (cur.z + b.z - 1) * w;
    }
  }

  /** Arranged cells hold distinct nodes: their homes differ. */
  lemma ArrangedDistinct<T>(t: Tree<T>, tops: seq<NodeId>, cur: V3, i: nat, j: nat)
    requires Arranged(t, tops, cur) && i < 27 && j < 27 && i != j
    ensures tops[i] != tops[j]
  {
    WidthPositive(t.maxLOD);
    HomesDiffer(cur, Width(t.maxLOD), i, j);
  }

  /** Cells `i` and `j` hold two distinct nodes placed at one position. */
  ghost predicate SharePlace<T>(t: Tree<T>, tops: seq<NodeId>, i: nat, j: nat)
  {
    && i < |tops| && j < |tops| && tops[i] != tops[j] && tops[i] in t.nodes && tops[j] in t.nodes
    && t.nodes[tops[i]].position == t.nodes[tops[j]].position
  }

  /** Cell `i` holds a node placed at `pos`. */
  ghost predicate HoldsAt<T>(t: Tree<T>, tops: seq<NodeId>, i: nat, pos: V3)
  {
    i < |tops| && tops[i] in t.nodes && t.nodes[tops[i]].position == pos
  }

  /** Growing the arena moves no node: cells sharing a position still do. */
  lemma SharePlaceKept<T>(t: Tree<T>, r: Tree<T>, tops: seq<NodeId>, i: nat, j: nat)
    requires SharePlace(t, tops, i, j) && Evolves(t, r)
    ensures SharePlace(r, tops, i, j)
  {
    assert Kept(t.nodes[tops[i]], r.nodes[tops[i]]) && Kept(t.nodes[tops[j]], r.nodes[tops[j]]);
  }

  /** Growing the arena moves no node: a cell's node stays where it was placed. */
  lemma HoldsAtKept<T>(t: Tree<T>, r: Tree<T>, tops: seq<NodeId>, i: nat, pos: V3)
    requires HoldsAt(t, tops, i, pos) && Evolves(t, r)
    ensures HoldsAt(r, tops, i, pos)
  {
    assert Kept(t.nodes[tops[i]], r.nodes[tops[i]]);
  }

  /** Two cells holding nodes at one position cannot both be where they belong. */
  lemma SharedPositionUnarranged<T>(t: Tree<T>, tops: seq<NodeId>, cur: V3, i: nat, j: nat)
    requires i < 27 && j < 27 && i != j && SharePlace(t, tops, i, j)
    ensures !Arranged(t, tops, cur)
  {
    if t.maxLOD <= MaxLevel {
      WidthPositive(t.maxLOD);
      HomesDiffer(cur, Width(t.maxLOD), i, j);
    }
  }

  /** A cell holding a node away from its home is not where it belongs. */
  lemma MisplacedUnarranged<T>(t: Tree<T>, tops: seq<NodeId>, cur: V3, i: nat, pos: V3)
    requires i < 27 && HoldsAt(t, tops, i, pos)
    requires t.maxLOD <= MaxLevel ==> pos != Home(cur, Width(t.maxLOD), i)
    ensures !Arranged(t, tops, cur)
  {
  }

  /** A cell holding a node placed at another cell's home leaves any later, grown arena unarranged. */
  lemma HeldAwayUnarranged<T>(t: Tree<T>, r: Tree<T>, tops: seq<NodeId>, cur: V3, w: int, i: nat, j: nat)
    requires i < 27 && j < 27 && i != j && w > 0 && HoldsAt(t, tops, i, Home(cur, w, j)) && Evolves(t, r)
    requires r.maxLOD <= MaxLevel ==> Width(r.maxLOD) == w
    ensures !Arranged(r, tops, cur)
  {
    HoldsAtKept(t, r, tops, i, Home(cur, w, j));
    HomesDiffer(cur, w, i, j);
    MisplacedUnarranged(r, tops, cur, i, Home(cur, w, j));
  }

  /** Two cells sharing a position leave any later, grown arena unarranged. */
  lemma SharedUnarranged<T>(t: Tree<T>, r: Tree<T>, tops: seq<NodeId>, cur: V3, i: nat, j: nat)
    requires i < 27 && j < 27 && i != j && SharePlace(t, tops, i, j) && Evolves(t, r)
    ensures !Arranged(r, tops, cur)
  {
    SharePlaceKept(t, r, tops, i, j);
    SharedPositionUnarranged(r, tops, cur, i, j);
  }

  /**
   * What a shift may do to the arena: it stays well formed and all-or-none,
   * only grows, disposed flags only turn on, and top-level nodes outside
   * `gone` keep their disposed flag.
   */
  ghost predicate ShiftFrame<T>(t: Tree<T>, r: Tree<T>, gone: set<NodeId>)
  {
    && Wf(r) && Shaped(r) && Evolves(t, r)
    && (forall x :: x in t.nodes && t.nodes[x].disposed ==> r.nodes[x].disposed)
    && (forall x :: x in t.nodes && t.nodes[x].lod == t.maxLOD && x !in gone ==> r.nodes[x].disposed == t.nodes[x].disposed)
  }

  lemma ShiftFrameTrans<T>(a: Tree<T>, b: Tree<T>, c: Tree<T>, g1: set<NodeId>, g2: set<NodeId>)
    requires ShiftFrame(a, b, g1) && ShiftFrame(b, c, g2)
    ensures ShiftFrame(a, c, g1 + g2)
  {
    EvolvesTrans(a, b, c);
    forall x | x in a.nodes && a.nodes[x].lod == a.maxLOD
      ensures b.nodes[x].lod == b.maxLOD
    {
      assert Kept(a.nodes[x], b.nodes[x]);
    }
  }

  /** A step that disposes nothing adds nothing to what a shift has disposed. */
  lemma ShiftFrameThen<T>(a: Tree<T>, b: Tree<T>, c: Tree<T>, gone: set<NodeId>)
    requires ShiftFrame(a, b, gone) && ShiftFrame(b, c, {})
    ensures ShiftFrame(a, c, gone)
  {
    ShiftFrameTrans(a, b, c, gone, {});
    assert gone + {} == gone;
  }

  /**
   * Line `(v, s)` of a shift along `axis` from grid `tops` in `t` to grid
   * `tops2` in `r`: the cells move one step toward the evicted end, the
   * evicted node is disposed, and the cell at the entering end holds a node
   * new to the arena, live, at the top level and at `pos`.
   */
  ghost predicate LineShifted<T>(t: Tree<T>, tops: seq<NodeId>, r: Tree<T>, tops2: seq<NodeId>,
                                 axis: nat, up: bool, v: nat, s: nat, pos: V3)
    requires axis < 3 && v < 3 && s < 3 && |tops| == 27 && |tops2| == 27
  {
    var lo := Cell(axis, 0, v, s);
    var mid := Cell(axis, 1, v, s);
    var hi := Cell(axis, 2, v, s);
    var gone := if up then tops[lo] else tops[hi];
    var entered := if up then tops2[hi] else tops2[lo];
    && gone in r.nodes && r.nodes[gone].disposed
    && entered !in t.nodes && entered in r.nodes && !r.nodes[entered].disposed
    && r.nodes[entered].position == pos && r.nodes[entered].lod == r.maxLOD
    && (up ==> tops2[lo] == tops[mid] && tops2[mid] == tops[hi])
    && (!up ==> tops2[hi] == tops[mid] && tops2[mid] == tops[lo])
  }

  /** A later change within the shift frame keeps a line's outcome, the new node being spared. */
  lemma LineShiftedKept<T>(t: Tree<T>, tops: seq<NodeId>, r1: Tree<T>, r2: Tree<T>, tops2: seq<NodeId>,
                           axis: nat, up: bool, v: nat, s: nat, pos: V3, gone: set<NodeId>)
    requires axis < 3 && v < 3 && s < 3 && |tops| == 27 && |tops2| == 27
    requires LineShifted(t, tops, r1, tops2, axis, up, v, s, pos) && ShiftFrame(r1, r2, gone)
    requires (if up then tops2[Cell(axis, 2, v, s)] else tops2[Cell(axis, 0, v, s)]) !in gone
    ensures LineShifted(t, tops, r2, tops2, axis, up, v, s, pos)
  {
    var entered := if up then tops2[Cell(axis, 2, v, s)] else tops2[Cell(axis, 0, v, s)];
    assert Kept(r1.nodes[entered], r2.nodes[entered]);
  }

  /**
   * A line's outcome reads the grids only at the line's three cells and the
   * old arena only for membership, so it carries over to a grid that agrees
   * there and to an older arena.
   */
  lemma LineShiftedRebase<T>(t0: Tree<T>, t: Tree<T>, tops0: seq<NodeId>, tops: seq<NodeId>, r: Tree<T>,
                             tops2: seq<NodeId>, tops3: seq<NodeId>, axis: nat, up: bool, v: nat, s: nat, pos: V3)
    requires axis < 3 && v < 3 && s < 3 && |tops0| == 27 && |tops| == 27 && |tops2| == 27 && |tops3| == 27
    requires LineShifted(t, tops, r, tops2, axis, up, v, s, pos)
    requires t0.nodes.Keys <= t.nodes.Keys
    requires forall u :: 0 <= u < 3 ==> tops0[Cell(axis, u, v, s)] == tops[Cell(axis, u, v, s)]
    requires forall u :: 0 <= u < 3 ==> tops3[Cell(axis, u, v, s)] == tops2[Cell(axis, u, v, s)]
    ensures LineShifted(t0, tops0, r, tops3, axis, up, v, s, pos)
  {
    assert tops0[Cell(axis, 0, v, s)] == tops[Cell(axis, 0, v, s)];
    assert tops0[Cell(axis, 1, v, s)] == tops[Cell(axis, 1, v, s)];
    assert tops0[Cell(axis, 2, v, s)] == tops[Cell(axis, 2, v, s)];
    assert tops3[Cell(axis, 0, v, s)] == tops2[Cell(axis, 0, v, s)];
    assert tops3[Cell(axis, 1, v, s)] == tops2[Cell(axis, 1, v, s)];
    assert tops3[Cell(axis, 2, v, s)] == tops2[Cell(axis, 2, v, s)];
  }

  /** The nodes at the evicted end of lines `k..8`. */
  function Ends(tops: seq<NodeId>, axis: nat, up: bool, k: nat): set<NodeId>
    requires axis < 3 && |tops| == 27
  {
    set j | k <= j < 9 :: tops[Cell(axis, if up then 0 else 2, j / 3, j % 3)]
  }

  /** The evicted ends of lines `k..8` are that of line `k` and those of lines `k + 1..8`. */
  lemma EndsSplit(tops: seq<NodeId>, axis: nat, up: bool, k: nat)
    requires axis < 3 && |tops| == 27 && k < 9
    ensures Ends(tops, axis, up, k) == {tops[Cell(axis, if up then 0 else 2, k / 3, k % 3)]} + Ends(tops, axis, up, k + 1)
  {
  }

  /** Grids that agree on lines `k..8` have the same evicted ends there. */
  lemma EndsAgree(tops: seq<NodeId>, tops2: seq<NodeId>, axis: nat, up: bool, k: nat)
    requires axis < 3 && |tops| == 27 && |tops2| == 27
    requires forall i :: 0 <= i < 27 && k <= LineOf(axis, i) ==> tops2[i] == tops[i]
    ensures Ends(tops, axis, up, k) == Ends(tops2, axis, up, k)
  {
    forall j | k <= j < 9
      ensures tops[Cell(axis, if up then 0 else 2, j / 3, j % 3)] == tops2[Cell(axis, if up then 0 else 2, j / 3, j % 3)]
    {
      PartsOfCell(axis, if up then 0 else 2, j / 3, j % 3);
    }
  }

  /** The nodes a grid names. */
  function Elems(tops: seq<NodeId>): set<NodeId>
  {
    set x | x in tops
  }

  /** Every cell of `g` holds a node of grid `tops` or one new to `t`. */
  ghost predicate Traced<T>(t: Tree<T>, tops: seq<NodeId>, g: seq<NodeId>)
  {
    |g| == 27 && forall i :: 0 <= i < 27 ==> g[i] in tops || g[i] !in t.nodes
  }

  /** A shift frame may name more nodes: the others keep their flags all the same. */
  lemma ShiftFrameWiden<T>(a: Tree<T>, b: Tree<T>, g: set<NodeId>, g2: set<NodeId>)
    requires ShiftFrame(a, b, g)
    requires forall x :: x in g && x in a.nodes ==> x in g2
    ensures ShiftFrame(a, b, g2)
  {
  }

  /**
   * Two runs of shifts, each disturbing only the grid it started from, make
   * one that disturbs only the first grid, the second grid's new nodes being
   * new to the first arena.
   */
  lemma StepsCompose<T>(t: Tree<T>, tops: seq<NodeId>, t1: Tree<T>, g1: seq<NodeId>, r: Tree<T>, g: seq<NodeId>)
    requires ShiftFrame(t, t1, Elems(tops)) && Traced(t, tops, g1)
    requires ShiftFrame(t1, r, Elems(g1)) && Traced(t1, g1, g)
    ensures ShiftFrame(t, r, Elems(tops)) && Traced(t, tops, g)
  {
    ShiftFrameTrans(t, t1, r, Elems(tops), Elems(g1));
    forall x | x in Elems(tops) + Elems(g1) && x in t.nodes
      ensures x in Elems(tops)
    {
      if x in g1 {
        var i :| 0 <= i < |g1| && g1[i] == x;
      }
    }
    ShiftFrameWiden(t, r, Elems(tops) + Elems(g1), Elems(tops));
  }

  /** The evicted ends are nodes of the grid. */
  lemma EndsElems(tops: seq<NodeId>, axis: nat, up: bool, k: nat)
    requires axis < 3 && |tops| == 27
    ensures Ends(tops, axis, up, k) <= Elems(tops)
  {
    forall x | x in Ends(tops, axis, up, k)
      ensures x in tops
    {
      var j :| k <= j < 9 && x == tops[Cell(axis, if up then 0 else 2, j / 3, j % 3)];
    }
  }
}
