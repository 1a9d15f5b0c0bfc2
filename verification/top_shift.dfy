/**
 * The shift loops of `NodeManager<T>.SetViewPosition` (NodeManager.cs): one
 * pass along an axis disposes the nine nodes at one end of the grid, moves
 * the others one cell toward that end, and fills the other end with new
 * top-level nodes placed around the given centre cell.
 */
module TopShift {
  import opened Wrappers
  import opened Vectors
  import opened Geometry
  import opened Arena
  import opened DisposeLog
  import opened Disposal
  import opened Construct
  import opened TopGrid

  /** One turn of a shift loop, for line `(v, s)`: dispose, move the two others, create. */
  function ShiftLine<T>(t: Tree<T>, tops: seq<NodeId>, axis: nat, up: bool, v: nat, s: nat, cur: V3)
    : (r: (Tree<T>, seq<NodeId>))
    requires Wf(t) && Shaped(t) && TopsOk(t, tops) && axis < 3 && v < 3 && s < 3
    ensures ShiftFrame(t, r.0, {tops[Cell(axis, if up then 0 else 2, v, s)]})
    ensures TopsOk(r.0, r.1)
    ensures LineShifted(t, tops, r.0, r.1, axis, up, v, s,
                        Home(cur, Width(t.maxLOD), Cell(axis, if up then 2 else 0, v, s)))
    ensures forall i :: 0 <= i < 27 && LineOf(axis, i) != 3 * v + s ==> r.1[i] == tops[i]
  {
    var gone := tops[Cell(axis, if up then 0 else 2, v, s)];
    var t1 := Evict(t, gone);
    var end := Cell(axis, if up then 2 else 0, v, s);
    var r := Enter(t1, Home(cur, Width(t.maxLOD), end));
    ShiftFrameThen(t, t1, r.0, {gone});
    var grid := Slide(tops, axis, up, v, s, r.1);
    TopsMoved(t, tops, r.0, grid, end, r.1);
    LineOutcome(t, tops, t1, r.0, grid, axis, up, v, s, r.1, Home(cur, Width(t.maxLOD), end));
    (r.0, grid)
  }

  /** The home of the cell at the entering end of line `j` of a shift along `axis`. */
  function EntryHome(cur: V3, w: int, axis: nat, up: bool, j: nat): V3
    requires axis < 3 && j < 9
  {
    Home(cur, w, Cell(axis, if up then 2 else 0, j / 3, j % 3))
  }

  /**
   * The loop over lines `k..8` of one pass along `axis`: every line is
   * shifted, the grid's lines before `k` are untouched, and only the nodes at
   * the evicted ends lose their flags among the top-level nodes.
   */
  function ShiftFrom<T>(t: Tree<T>, tops: seq<NodeId>, axis: nat, up: bool, cur: V3, k: nat)
    : (r: (Tree<T>, seq<NodeId>))
    requires Wf(t) && Shaped(t) && TopsOk(t, tops) && axis < 3 && k <= 9
    ensures ShiftFrame(t, r.0, Ends(tops, axis, up, k))
    ensures TopsOk(r.0, r.1)
    ensures forall j :: k <= j < 9 ==>
              LineShifted(t, tops, r.0, r.1, axis, up, j / 3, j % 3, EntryHome(cur, Width(t.maxLOD), axis, up, j))
    ensures forall i :: 0 <= i < 27 && LineOf(axis, i) < k ==> r.1[i] == tops[i]
    decreases 9 - k
  {
    if k == 9 then
      assert Ends(tops, axis, up, 9) == {};
      (t, tops)
    else
      var r1 := ShiftLine(t, tops, axis, up, k / 3, k % 3, cur);
      var r := ShiftFrom(r1.0, r1.1, axis, up, cur, k + 1);
      LinesCompose(t, tops, r1.0, r1.1, r.0, r.1, axis, up, cur, k);
      r
  }

  /** Line `k` followed by lines `k + 1..8` does what lines `k..8` promise. */
  lemma LinesCompose<T>(t: Tree<T>, tops: seq<NodeId>, t1: Tree<T>, g1: seq<NodeId>, r: Tree<T>, g: seq<NodeId>,
                        axis: nat, up: bool, cur: V3, k: nat)
    requires TopsOk(t, tops) && axis < 3 && k < 9
    requires ShiftFrame(t, t1, {tops[Cell(axis, if up then 0 else 2, k / 3, k % 3)]}) && TopsOk(t1, g1)
    requires LineShifted(t, tops, t1, g1, axis, up, k / 3, k % 3, EntryHome(cur, Width(t.maxLOD), axis, up, k))
    requires forall i :: 0 <= i < 27 && LineOf(axis, i) != 3 * (k / 3) + k % 3 ==> g1[i] == tops[i]
    requires ShiftFrame(t1, r, Ends(g1, axis, up, k + 1)) && TopsOk(r, g)
    requires forall j :: k + 1 <= j < 9 ==>
               LineShifted(t1, g1, r, g, axis, up, j / 3, j % 3, EntryHome(cur, Width(t1.maxLOD), axis, up, j))
    requires forall i :: 0 <= i < 27 && LineOf(axis, i) < k + 1 ==> g[i] == g1[i]
    ensures ShiftFrame(t, r, Ends(tops, axis, up, k))
    ensures forall j :: k <= j < 9 ==>
              LineShifted(t, tops, r, g, axis, up, j / 3, j % 3, EntryHome(cur, Width(t.maxLOD), axis, up, j))
    ensures forall i :: 0 <= i < 27 && LineOf(axis, i) < k ==> g[i] == tops[i]
  {
    LinesFrame(t, tops, t1, g1, r, axis, up, k);
    LineHere(t, tops, t1, g1, r, g, axis, up, cur, k);
    LinesLater(t, tops, t1, g1, r, g, axis, up, cur, k);
  }

  /** The frame of line `k` followed by that of lines `k + 1..8` is the frame of lines `k..8`. */
  lemma LinesFrame<T>(t: Tree<T>, tops: seq<NodeId>, t1: Tree<T>, g1: seq<NodeId>, r: Tree<T>,
                      axis: nat, up: bool, k: nat)
    requires |tops| == 27 && |g1| == 27 && axis < 3 && k < 9
    requires ShiftFrame(t, t1, {tops[Cell(axis, if up then 0 else 2, k / 3, k % 3)]})
    requires forall i :: 0 <= i < 27 && LineOf(axis, i) != 3 * (k / 3) + k % 3 ==> g1[i] == tops[i]
    requires ShiftFrame(t1, r, Ends(g1, axis, up, k + 1))
    ensures ShiftFrame(t, r, Ends(tops, axis, up, k))
  {
    EndsAgree(tops, g1, axis, up, k + 1);
    EndsSplit(tops, axis, up, k);
    ShiftFrameTrans(t, t1, r, {tops[Cell(axis, if up then 0 else 2, k / 3, k % 3)]}, Ends(g1, axis, up, k + 1));
  }

  /** Line `k`'s outcome survives the later lines, which leave its cells alone and spare its new node. */
  lemma LineHere<T>(t: Tree<T>, tops: seq<NodeId>, t1: Tree<T>, g1: seq<NodeId>, r: Tree<T>, g: seq<NodeId>,
                    axis: nat, up: bool, cur: V3, k: nat)
    requires TopsOk(t, tops) && t.maxLOD <= MaxLevel && |g1| == 27 && |g| == 27 && axis < 3 && k < 9
    requires LineShifted(t, tops, t1, g1, axis, up, k / 3, k % 3, EntryHome(cur, Width(t.maxLOD), axis, up, k))
    requires forall i :: 0 <= i < 27 && LineOf(axis, i) != 3 * (k / 3) + k % 3 ==> g1[i] == tops[i]
    requires ShiftFrame(t1, r, Ends(g1, axis, up, k + 1))
    requires forall i :: 0 <= i < 27 && LineOf(axis, i) < k + 1 ==> g[i] == g1[i]
    ensures LineShifted(t, tops, r, g, axis, up, k / 3, k % 3, EntryHome(cur, Width(t.maxLOD), axis, up, k))
  {
    var pos := EntryHome(cur, Width(t.maxLOD), axis, up, k);
    var entered := g1[Cell(axis, if up then 2 else 0, k / 3, k % 3)];
    forall j | k + 1 <= j < 9
      ensures g1[Cell(axis, if up then 0 else 2, j / 3, j % 3)] in t.nodes
    {
      PartsOfCell(axis, if up then 0 else 2, j / 3, j % 3);
    }
    assert entered !in Ends(g1, axis, up, k + 1);
    LineShiftedKept(t, tops, t1, r, g1, axis, up, k / 3, k % 3, pos, Ends(g1, axis, up, k + 1));
    forall u | 0 <= u < 3
      ensures g[Cell(axis, u, k / 3, k % 3)] == g1[Cell(axis, u, k / 3, k % 3)]
    {
      PartsOfCell(axis, u, k / 3, k % 3);
    }
    LineShiftedRebase(t, t, tops, tops, r, g1, g, axis, up, k / 3, k % 3, pos);
  }

  /** The outcomes of lines `k + 1..8`, read against the grid line `k` left, hold against the grid before it. */
  lemma LinesLater<T>(t: Tree<T>, tops: seq<NodeId>, t1: Tree<T>, g1: seq<NodeId>, r: Tree<T>, g: seq<NodeId>,
                      axis: nat, up: bool, cur: V3, k: nat)
    requires |tops| == 27 && |g1| == 27 && |g| == 27 && axis < 3 && k < 9
    requires ShiftFrame(t, t1, {tops[Cell(axis, if up then 0 else 2, k / 3, k % 3)]})
    requires forall i :: 0 <= i < 27 && LineOf(axis, i) != 3 * (k / 3) + k % 3 ==> g1[i] == tops[i]
    requires forall j :: k + 1 <= j < 9 ==>
               LineShifted(t1, g1, r, g, axis, up, j / 3, j % 3, EntryHome(cur, Width(t1.maxLOD), axis, up, j))
    ensures forall j :: k + 1 <= j < 9 ==>
              LineShifted(t, tops, r, g, axis, up, j / 3, j % 3, EntryHome(cur, Width(t.maxLOD), axis, up, j))
  {
    forall j | k + 1 <= j < 9
      ensures LineShifted(t, tops, r, g, axis, up, j / 3, j % 3, EntryHome(cur, Width(t.maxLOD), axis, up, j))
    {
      forall u | 0 <= u < 3
        ensures tops[Cell(axis, u, j / 3, j % 3)] == g1[Cell(axis, u, j / 3, j % 3)]
      {
        PartsOfCell(axis, u, j / 3, j % 3);
      }
      LineShiftedRebase(t, t1, tops, g1, r, g, g, axis, up, j / 3, j % 3, EntryHome(cur, Width(t.maxLOD), axis, up, j));
    }
  }

  /**
   * One pass along `axis` (one turn of a `while (diff.x > 0)` loop, say):
   * the nine nodes at the evicted end are disposed, every line moves one cell
   * toward that end, and the other end holds new top-level nodes placed
   * around `cur`.  Every other top-level node keeps its disposed flag.
   */
  function ShiftAxis<T>(t: Tree<T>, tops: seq<NodeId>, axis: nat, up: bool, cur: V3): (r: (Tree<T>, seq<NodeId>))
    requires Wf(t) && Shaped(t) && TopsOk(t, tops) && axis < 3
    ensures ShiftFrame(t, r.0, Ends(tops, axis, up, 0))
    ensures TopsOk(r.0, r.1)
    ensures forall j :: 0 <= j < 9 ==>
              LineShifted(t, tops, r.0, r.1, axis, up, j / 3, j % 3, EntryHome(cur, Width(t.maxLOD), axis, up, j))
  {
    ShiftFrom(t, tops, axis, up, cur, 0)
  }

  /** The cell at place `u` of line `(v, s)` after a pass holds a node of the old grid or a new one. */
  lemma CellTraced<T>(t: Tree<T>, tops: seq<NodeId>, r: Tree<T>, g: seq<NodeId>,
                      axis: nat, up: bool, u: nat, j: nat, pos: V3)
    requires axis < 3 && u < 3 && j < 9 && |tops| == 27 && |g| == 27
    requires LineShifted(t, tops, r, g, axis, up, j / 3, j % 3, pos)
    ensures g[Cell(axis, u, j / 3, j % 3)] in tops || g[Cell(axis, u, j / 3, j % 3)] !in t.nodes
  {
  }

  /** What one pass does to line `j`, with the facts a following pass needs. */
  lemma PassLine<T>(t: Tree<T>, tops: seq<NodeId>, axis: nat, up: bool, cur: V3, j: nat)
    requires Wf(t) && Shaped(t) && TopsOk(t, tops) && axis < 3 && j < 9
    ensures var r := ShiftAxis(t, tops, axis, up, cur);
            && Wf(r.0) && Shaped(r.0) && TopsOk(r.0, r.1) && Evolves(t, r.0) && r.0.maxLOD == t.maxLOD
            && LineShifted(t, tops, r.0, r.1, axis, up, j / 3, j % 3, EntryHome(cur, Width(t.maxLOD), axis, up, j))
  {
  }

  /** A pass disturbs only the grid it started from. */
  lemma PassTraced<T>(t: Tree<T>, tops: seq<NodeId>, axis: nat, up: bool, cur: V3)
    requires Wf(t) && Shaped(t) && TopsOk(t, tops) && axis < 3
    ensures var r := ShiftAxis(t, tops, axis, up, cur);
            ShiftFrame(t, r.0, Elems(tops)) && Traced(t, tops, r.1)
  {
    var r := ShiftAxis(t, tops, axis, up, cur);
    forall i | 0 <= i < 27
      ensures r.1[i] in tops || r.1[i] !in t.nodes
    {
      CellParts(axis, i);
      var j := LineOf(axis, i);
      assert LineShifted(t, tops, r.0, r.1, axis, up, j / 3, j % 3, EntryHome(cur, Width(t.maxLOD), axis, up, j));
      CellTraced(t, tops, r.0, r.1, axis, up, Along(axis, i), j, EntryHome(cur, Width(t.maxLOD), axis, up, j));
    }
    EndsElems(tops, axis, up, 0);
    ShiftFrameWiden(t, r.0, Ends(tops, axis, up, 0), Elems(tops));
  }

  /** One pass of the recentring: the axis it runs along and whether the centre moves up. */
  datatype Pass = Pass(axis: Axis, up: bool)

  /** One of the three axes: 0 for x, 1 for y, 2 for z. */
  type Axis = a: nat | a < 3

  /** `n` passes `p`, as one `while` loop of `SetViewPosition` makes them. */
  function Repeat(p: Pass, n: nat): (r: seq<Pass>)
    ensures |r| == n
    ensures forall i :: 0 <= i < n ==> r[i] == p
  {
    if n == 0 then [] else [p] + Repeat(p, n - 1)
  }

  /** Both loops for one axis: up while the difference is positive, down while it is negative. */
  function AxisPlan(axis: Axis, d: int): (r: seq<Pass>)
    ensures |r| == (if d < 0 then -d else d)
    ensures forall i :: 0 <= i < |r| ==> r[i] == Pass(axis, d > 0)
  {
    Repeat(Pass(axis, true), if d > 0 then d else 0) + Repeat(Pass(axis, false), if d < 0 then -d else 0)
  }

  /**
   * The passes of the recentring for a centre move of `diff`, in the order
   * the loops run: every x pass, then every y pass, then every z pass, as
   * many along each axis as the move's component and in its direction.
   */
  function Plan(diff: V3): (r: seq<Pass>)
    ensures var ax := if diff.x < 0 then -diff.x else diff.x;
            var ay := if diff.y < 0 then -diff.y else diff.y;
            var az := if diff.z < 0 then -diff.z else diff.z;
            && |r| == ax + ay + az
            && (forall i :: 0 <= i < ax ==> r[i] == Pass(0, diff.x > 0))
            && (forall i :: ax <= i < ax + ay ==> r[i] == Pass(1, diff.y > 0))
            && (forall i :: ax + ay <= i < |r| ==> r[i] == Pass(2, diff.z > 0))
  {
    AxisPlan(0, diff.x) + AxisPlan(1, diff.y) + AxisPlan(2, diff.z)
  }

  /** The passes of `plan` one after another, every new node placed around `cur`. */
  function Run<T>(t: Tree<T>, tops: seq<NodeId>, plan: seq<Pass>, cur: V3): (r: (Tree<T>, seq<NodeId>))
    requires Wf(t) && Shaped(t) && TopsOk(t, tops)
    ensures ShiftFrame(t, r.0, Elems(tops)) && TopsOk(r.0, r.1) && Traced(t, tops, r.1)
    decreases |plan|
  {
    if |plan| == 0 then
      (t, tops)
    else
      var r1 := ShiftAxis(t, tops, plan[0].axis, plan[0].up, cur);
      PassTraced(t, tops, plan[0].axis, plan[0].up, cur);
      var r := Run(r1.0, r1.1, plan[1..], cur);
      StepsCompose(t, tops, r1.0, r1.1, r.0, r.1);
      r
  }

  /**
   * The recentring of `SetViewPosition`: the x loops, then the y loops,
   * then the z loops, every new node placed around the new centre cell
   * `cur` however far the centre moved.
   */
  function Recentre<T>(t: Tree<T>, tops: seq<NodeId>, diff: V3, cur: V3): (r: (Tree<T>, seq<NodeId>))
    requires Wf(t) && Shaped(t) && TopsOk(t, tops)
    ensures ShiftFrame(t, r.0, Elems(tops)) && TopsOk(r.0, r.1) && Traced(t, tops, r.1)
    ensures diff == V3(0, 0, 0) ==> r == (t, tops)
  {
    Run(t, tops, Plan(diff), cur)
  }

  /** A one-cell move along one axis is one pass along it, in its direction. */
  lemma PlanStep(axis: nat, up: bool)
    requires axis < 3
    ensures Plan(Step(axis, up)) == [Pass(axis, up)]
  {
    var p := Plan(Step(axis, up));
    assert |p| == 1;
  }

  /** Running one pass is that pass. */
  lemma RunOne<T>(t: Tree<T>, tops: seq<NodeId>, p: Pass, cur: V3)
    requires Wf(t) && Shaped(t) && TopsOk(t, tops)
    ensures Run(t, tops, [p], cur) == ShiftAxis(t, tops, p.axis, p.up, cur)
  {
    assert [p][1..] == [];
  }

  /** Running two passes is the first, then the second. */
  lemma RunTwo<T>(t: Tree<T>, tops: seq<NodeId>, p: Pass, q: Pass, cur: V3)
    requires Wf(t) && Shaped(t) && TopsOk(t, tops)
    ensures var r1 := ShiftAxis(t, tops, p.axis, p.up, cur);
            Run(t, tops, [p, q], cur) == ShiftAxis(r1.0, r1.1, q.axis, q.up, cur)
  {
    assert [p, q][1..] == [q];
    var r1 := ShiftAxis(t, tops, p.axis, p.up, cur);
    RunOne(r1.0, r1.1, q, cur);
  }

  /** A recentring whose plan is one pass is that pass. */
  lemma RecentreOne<T>(t: Tree<T>, tops: seq<NodeId>, diff: V3, p: Pass, cur: V3)
    requires Wf(t) && Shaped(t) && TopsOk(t, tops) && Plan(diff) == [p]
    ensures Recentre(t, tops, diff, cur) == ShiftAxis(t, tops, p.axis, p.up, cur)
  {
    RunOne(t, tops, p, cur);
  }

  /** A recentring whose plan is two passes is the first, then the second. */
  lemma RecentreTwo<T>(t: Tree<T>, tops: seq<NodeId>, diff: V3, p: Pass, q: Pass, cur: V3)
    requires Wf(t) && Shaped(t) && TopsOk(t, tops) && Plan(diff) == [p, q]
    ensures var r1 := ShiftAxis(t, tops, p.axis, p.up, cur);
            Recentre(t, tops, diff, cur) == ShiftAxis(r1.0, r1.1, q.axis, q.up, cur)
  {
    RunTwo(t, tops, p, q, cur);
  }

  /** A move of two cells along one axis is two passes along it, in its direction. */
  lemma PlanTwice(axis: nat, up: bool)
    requires axis < 3
    ensures Plan(Add(Step(axis, up), Step(axis, up))) == [Pass(axis, up), Pass(axis, up)]
  {
    var n := if up then 2 else -2;
    TwoSteps(axis, up);
    PlanAlong(axis, n);
  }

  /** Two steps the same way along one axis are a move of two cells along it. */
  lemma TwoSteps(axis: nat, up: bool)
    requires axis < 3
    ensures var n := if up then 2 else -2;
            Add(Step(axis, up), Step(axis, up)) == V3(if axis == 0 then n else 0, if axis == 1 then n else 0, if axis == 2 then n else 0)
  {
  }

  /** A move of two cells along one axis plans two passes along it. */
  lemma PlanAlong(axis: nat, n: int)
    requires axis < 3 && (n == 2 || n == -2)
    ensures Plan(V3(if axis == 0 then n else 0, if axis == 1 then n else 0, if axis == 2 then n else 0)) == [Pass(axis, n > 0), Pass(axis, n > 0)]
  {
    var p := Plan(V3(if axis == 0 then n else 0, if axis == 1 then n else 0, if axis == 2 then n else 0));
    assert |p| == 2;
  }

  /** A move of one cell up along two axes is a pass up along the lower axis, then one along the higher. */
  lemma PlanCross(a: nat, b: nat)
    requires a < b < 3
    ensures Plan(Add(Step(a, true), Step(b, true))) == [Pass(a, true), Pass(b, true)]
  {
    if a == 0 && b == 1 {
      assert Step(a, true) == V3(1, 0, 0) && Step(b, true) == V3(0, 1, 0);
      var p := Plan(V3(1, 1, 0));
      assert |p| == 2;
    } else if a == 0 {
      assert Step(a, true) == V3(1, 0, 0) && Step(b, true) == V3(0, 0, 1);
      var p := Plan(V3(1, 0, 1));
      assert |p| == 2;
    } else {
      assert Step(a, true) == V3(0, 1, 0) && Step(b, true) == V3(0, 0, 1);
      var p := Plan(V3(0, 1, 1));
      assert |p| == 2;
    }
  }

  /**
   * When the centre cell moves by one step along `axis` and the pass places
   * its new nodes around the moved centre, every node of the grid again sits
   * where its cell belongs.
   */
  lemma ShiftPlaces<T>(t: Tree<T>, tops: seq<NodeId>, cur: V3, axis: nat, up: bool)
    requires Wf(t) && Shaped(t) && Arranged(t, tops, cur) && axis < 3
    ensures var r := ShiftAxis(t, tops, axis, up, Add(cur, Step(axis, up)));
            Arranged(r.0, r.1, Add(cur, Step(axis, up)))
  {
    var g := Add(cur, Step(axis, up));
    var r := ShiftAxis(t, tops, axis, up, g);
    forall i | 0 <= i < 27
      ensures r.1[i] in r.0.nodes && r.0.nodes[r.1[i]].lod == r.0.maxLOD
      ensures r.0.nodes[r.1[i]].position == Home(g, Width(r.0.maxLOD), i)
    {
      CellParts(axis, i);
      var j := LineOf(axis, i);
      assert LineShifted(t, tops, r.0, r.1, axis, up, j / 3, j % 3, EntryHome(g, Width(t.maxLOD), axis, up, j));
      CellPlaced(t, tops, cur, r.0, r.1, axis, up, Along(axis, i), j);
    }
  }

  /** The cell at place `u` of line `j` after a one-step pass sits where it belongs around the moved centre. */
  lemma CellPlaced<T>(t: Tree<T>, tops: seq<NodeId>, cur: V3, r: Tree<T>, g: seq<NodeId>,
                      axis: nat, up: bool, u: nat, j: nat)
    requires axis < 3 && u < 3 && j < 9 && |g| == 27
    requires Arranged(t, tops, cur) && Evolves(t, r)
    requires LineShifted(t, tops, r, g, axis, up, j / 3, j % 3, EntryHome(Add(cur, Step(axis, up)), Width(t.maxLOD), axis, up, j))
    ensures g[Cell(axis, u, j / 3, j % 3)] in r.nodes
    ensures r.nodes[g[Cell(axis, u, j / 3, j % 3)]].position == Home(Add(cur, Step(axis, up)), Width(r.maxLOD), Cell(axis, u, j / 3, j % 3))
  {
    var v, s := j / 3, j % 3;
    var w := Width(t.maxLOD);
    if up && u < 2 {
      var x := tops[Cell(axis, u + 1, v, s)];
      assert g[Cell(axis, u, v, s)] == x;
      assert Kept(t.nodes[x], r.nodes[x]);
      HomeShift(cur, w, axis, u, v, s);
    } else if !up && u > 0 {
      var x := tops[Cell(axis, u - 1, v, s)];
      assert g[Cell(axis, u, v, s)] == x;
      assert Kept(t.nodes[x], r.nodes[x]);
      HomeShift(cur, w, axis, u - 1, v, s);
    }
  }

  /** The grid after one turn: the line moves one cell toward the evicted end and `n` enters at the other. */
  function Slide(tops: seq<NodeId>, axis: nat, up: bool, v: nat, s: nat, n: NodeId): (r: seq<NodeId>)
    requires |tops| == 27 && axis < 3 && v < 3 && s < 3
    ensures |r| == 27
    ensures up ==> r[Cell(axis, 0, v, s)] == tops[Cell(axis, 1, v, s)] && r[Cell(axis, 1, v, s)] == tops[Cell(axis, 2, v, s)]
    ensures !up ==> r[Cell(axis, 2, v, s)] == tops[Cell(axis, 1, v, s)] && r[Cell(axis, 1, v, s)] == tops[Cell(axis, 0, v, s)]
    ensures r[Cell(axis, if up then 2 else 0, v, s)] == n
    ensures forall i :: 0 <= i < 27 && i != Cell(axis, if up then 2 else 0, v, s) ==> r[i] in tops
    ensures forall i :: 0 <= i < 27 && LineOf(axis, i) != 3 * v + s ==> r[i] == tops[i]
  {
    var lo := Cell(axis, 0, v, s);
    var mid := Cell(axis, 1, v, s);
    var hi := Cell(axis, 2, v, s);
    PartsOfCell(axis, 0, v, s); PartsOfCell(axis, 1, v, s); PartsOfCell(axis, 2, v, s);
    if up then tops[lo := tops[mid]][mid := tops[hi]][hi := n]
    else tops[hi := tops[mid]][mid := tops[lo]][lo := n]
  }

  /** The turn's outcome, from what eviction, creation and the slide each did. */
  lemma LineOutcome<T>(t: Tree<T>, tops: seq<NodeId>, t1: Tree<T>, r: Tree<T>, grid: seq<NodeId>,
                       axis: nat, up: bool, v: nat, s: nat, n: NodeId, pos: V3)
    requires |tops| == 27 && |grid| == 27 && axis < 3 && v < 3 && s < 3
    requires var gone := tops[Cell(axis, if up then 0 else 2, v, s)];
             gone in t1.nodes && t1.nodes[gone].disposed && t.nodes.Keys <= t1.nodes.Keys
    requires ShiftFrame(t1, r, {}) && n !in t1.nodes && n in r.nodes
    requires r.nodes[n].position == pos && r.nodes[n].lod == r.maxLOD && !r.nodes[n].disposed
    requires up ==> grid[Cell(axis, 0, v, s)] == tops[Cell(axis, 1, v, s)] && grid[Cell(axis, 1, v, s)] == tops[Cell(axis, 2, v, s)]
    requires !up ==> grid[Cell(axis, 2, v, s)] == tops[Cell(axis, 1, v, s)] && grid[Cell(axis, 1, v, s)] == tops[Cell(axis, 0, v, s)]
    requires grid[Cell(axis, if up then 2 else 0, v, s)] == n
    ensures LineShifted(t, tops, r, grid, axis, up, v, s, pos)
  {
  }

  /** The grid after a turn still names top-level nodes only. */
  lemma TopsMoved<T>(t: Tree<T>, tops: seq<NodeId>, r: Tree<T>, moved: seq<NodeId>, end: nat, n: NodeId)
    requires TopsOk(t, tops) && Evolves(t, r) && |moved| == 27 && end < 27
    requires forall i :: 0 <= i < 27 && i != end ==> moved[i] in tops
    requires moved[end] == n && n in r.nodes && r.nodes[n].lod == r.maxLOD
    ensures TopsOk(r, moved)
  {
    forall i | 0 <= i < 27 && i != end
      ensures moved[i] in r.nodes && r.nodes[moved[i]].lod == r.maxLOD
    {
      var j :| 0 <= j < 27 && tops[j] == moved[i];
      assert Kept(t.nodes[tops[j]], r.nodes[tops[j]]);
    }
  }

  /** Dispose a top-level node. */
  function Evict<T>(t: Tree<T>, id: NodeId): (r: Tree<T>)
    requires Wf(t) && Shaped(t) && id in t.nodes && t.nodes[id].lod == t.maxLOD
    ensures ShiftFrame(t, r, {id}) && r.nodes[id].disposed && r.nodes.Keys == t.nodes.Keys
  {
    var r := Dispose(t, id);
    DisposeFrameShaped(t, r, id);
    TopLevelKept(t, r, id);
    r
  }

  /** A new live top-level node at `pos`, with no parent. */
  function Enter<T>(t: Tree<T>, pos: V3): (r: (Tree<T>, NodeId))
    requires Wf(t) && Shaped(t)
    ensures ShiftFrame(t, r.0, {}) && r.1 !in t.nodes && r.1 in r.0.nodes
    ensures r.0.nodes[r.1].position == pos && r.0.nodes[r.1].lod == r.0.maxLOD && !r.0.nodes[r.1].disposed
    ensures Bumped(t.nodeCount, r.0.nodeCount, t.maxLOD, 1)
  {
    var r := NewNode(t, None, pos, 0, t.maxLOD);
    NoChildrenShaped();
    assert Shaped(r.0) by {
      forall x | x in r.0.nodes
        ensures AllOrNone(r.0.nodes[x].subNodes)
      {
        if x != r.1 { assert r.0.nodes[x] == t.nodes[x]; }
      }
    }
    r
  }

  /** Disposing one top-level node leaves the others' disposed flags and levels alone. */
  lemma TopLevelKept<T>(t: Tree<T>, r: Tree<T>, id: NodeId)
    requires id in t.nodes && t.nodes[id].lod == t.maxLOD && DisposeFrame(t, r, id)
    ensures forall x :: x in t.nodes && t.nodes[x].lod == t.maxLOD && x != id ==> r.nodes[x].disposed == t.nodes[x].disposed
  {
    forall x | x in t.nodes && t.nodes[x].lod == t.maxLOD && x != id
      ensures r.nodes[x].disposed == t.nodes[x].disposed
    {
      assert OnlyNeighbors(t.nodes[x], r.nodes[x]);
    }
  }
}
