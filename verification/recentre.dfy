/**
 * What the recentring of `NodeManager<T>.SetViewPosition` (NodeManager.cs)
 * achieves.  Every new top-level node is placed around the final centre cell,
 * whichever pass creates it: a move of one cell along one axis leaves every
 * node where its cell belongs, while a move of two cells along an axis, or
 * of one cell along two axes, leaves some cell holding a node placed for
 * another cell, whatever the grid held before.
 */
module Recentring {
  import opened Vectors
  import opened Geometry
  import opened Arena
  import opened TopGrid
  import opened TopShift

  /** A move of the centre by one cell along one axis keeps every node where its cell belongs. */
  lemma RecentreStep<T>(t: Tree<T>, tops: seq<NodeId>, cur: V3, axis: nat, up: bool)
    requires Wf(t) && Shaped(t) && TopsOk(t, tops) && Arranged(t, tops, cur) && axis < 3
    ensures var g := Add(cur, Step(axis, up));
            var r := Recentre(t, tops, Subtract(g, cur), g);
            Arranged(r.0, r.1, g)
  {
    var g := Add(cur, Step(axis, up));
    assert Subtract(g, cur) == Step(axis, up);
    PlanStep(axis, up);
    RecentreOne(t, tops, Step(axis, up), Pass(axis, up), g);
    ShiftPlaces(t, tops, cur, axis, up);
  }

  /**
   * A move of two cells along one axis: on every line of that axis the
   * middle cell and the cell at the entering end hold distinct nodes placed
   * at one position, so the grid is not arranged around the new centre cell.
   */
  lemma TwoCellsCollide<T>(t: Tree<T>, tops: seq<NodeId>, cur: V3, g: V3, axis: nat, up: bool, j: nat)
    requires Wf(t) && Shaped(t) && TopsOk(t, tops) && axis < 3 && j < 9
    requires g == Add(cur, Add(Step(axis, up), Step(axis, up)))
    ensures var r := Recentre(t, tops, Subtract(g, cur), g);
            && SharePlace(r.0, r.1, Cell(axis, 1, j / 3, j % 3), Cell(axis, if up then 2 else 0, j / 3, j % 3))
            && !Arranged(r.0, r.1, g)
  {
    var d := Add(Step(axis, up), Step(axis, up));
    assert Subtract(g, cur) == d;
    PlanTwice(axis, up);
    TwoPassesCollide(t, tops, g, Pass(axis, up), j);
  }

  /**
   * Two passes the same way along one axis: on every line of that axis the
   * middle cell and the cell at the entering end hold distinct nodes placed
   * at one position, so the grid is not arranged around `g`.
   */
  lemma TwoPassesCollide<T>(t: Tree<T>, tops: seq<NodeId>, g: V3, p: Pass, j: nat)
    requires Wf(t) && Shaped(t) && TopsOk(t, tops) && j < 9
    ensures var r := Run(t, tops, [p, p], g);
            && SharePlace(r.0, r.1, Cell(p.axis, 1, j / 3, j % 3), Cell(p.axis, if p.up then 2 else 0, j / 3, j % 3))
            && !Arranged(r.0, r.1, g)
  {
    RunTwo(t, tops, p, p, g);
    TwoShiftsCollide(t, tops, g, p.axis, p.up, j);
  }

  /**
   * The second of two passes the same way slides the node the first created
   * into the middle cell of its line, beside its own new node, placed at the
   * same position.
   */
  lemma TwoShiftsCollide<T>(t: Tree<T>, tops: seq<NodeId>, g: V3, axis: nat, up: bool, j: nat)
    requires Wf(t) && Shaped(t) && TopsOk(t, tops) && axis < 3 && j < 9
    ensures var p := ShiftAxis(t, tops, axis, up, g);
            var r := ShiftAxis(p.0, p.1, axis, up, g);
            && SharePlace(r.0, r.1, Cell(axis, 1, j / 3, j % 3), Cell(axis, if up then 2 else 0, j / 3, j % 3))
            && !Arranged(r.0, r.1, g)
  {
    var p := ShiftAxis(t, tops, axis, up, g);
    PassLine(t, tops, axis, up, g, j);
    PassLine(p.0, p.1, axis, up, g, j);
    var r := ShiftAxis(p.0, p.1, axis, up, g);
    SlidIntoLine(t, tops, p.0, p.1, r.0, r.1, g, axis, up, j,
                 EntryHome(g, Width(t.maxLOD), axis, up, j), EntryHome(g, Width(p.0.maxLOD), axis, up, j));
  }

  /**
   * Two shifts of line `j` the same way, each placing its new node at the
   * same point: the middle and entering cells hold distinct nodes placed
   * there, so the grid is not arranged.
   */
  lemma SlidIntoLine<T>(t: Tree<T>, tops: seq<NodeId>, t1: Tree<T>, g1: seq<NodeId>, r: Tree<T>, g: seq<NodeId>,
                        c: V3, axis: nat, up: bool, j: nat, pos1: V3, pos2: V3)
    requires axis < 3 && j < 9 && |tops| == 27 && |g1| == 27 && |g| == 27 && Evolves(t1, r) && pos1 == pos2
    requires LineShifted(t, tops, t1, g1, axis, up, j / 3, j % 3, pos1)
    requires LineShifted(t1, g1, r, g, axis, up, j / 3, j % 3, pos2)
    ensures SharePlace(r, g, Cell(axis, 1, j / 3, j % 3), Cell(axis, if up then 2 else 0, j / 3, j % 3))
    ensures !Arranged(r, g, c)
  {
    var first := g1[Cell(axis, if up then 2 else 0, j / 3, j % 3)];
    assert Kept(t1.nodes[first], r.nodes[first]);
    PartsOfCell(axis, 1, j / 3, j % 3);
    PartsOfCell(axis, if up then 2 else 0, j / 3, j % 3);
    SharedPositionUnarranged(r, g, c, Cell(axis, 1, j / 3, j % 3), Cell(axis, if up then 2 else 0, j / 3, j % 3));
  }

  /**
   * A move of one cell up along two axes `a < b`: the node the pass along
   * `a` created for cell `Cell(b, 1, v, s)` sits one cell lower along `b`,
   * so the grid is not arranged around the new centre cell.
   */
  lemma DiagonalMisplaces<T>(t: Tree<T>, tops: seq<NodeId>, cur: V3, g: V3, a: nat, b: nat, v: nat, s: nat)
    requires Wf(t) && Shaped(t) && TopsOk(t, tops) && a < b < 3 && v < 3 && s < 3
    requires Along(a, Cell(b, 1, v, s)) == 2 && g == Add(cur, Add(Step(a, true), Step(b, true)))
    ensures var r := Recentre(t, tops, Subtract(g, cur), g);
            && HoldsAt(r.0, r.1, Cell(b, 0, v, s), Home(g, Width(t.maxLOD), Cell(b, 1, v, s)))
            && !Arranged(r.0, r.1, g)
  {
    var d := Add(Step(a, true), Step(b, true));
    assert Subtract(g, cur) == d;
    PlanCross(a, b);
    CrossingMisplaces(t, tops, g, Pass(a, true), Pass(b, true), v, s);
  }

  /**
   * A pass up along one axis, then one up along another: the node the first
   * pass created for cell `Cell(q.axis, 1, v, s)`, on its entering face, sits
   * one cell lower along the second axis, away from the home it was placed
   * for, so the grid is not arranged around `g`.
   */
  lemma CrossingMisplaces<T>(t: Tree<T>, tops: seq<NodeId>, g: V3, p: Pass, q: Pass, v: nat, s: nat)
    requires Wf(t) && Shaped(t) && TopsOk(t, tops) && v < 3 && s < 3
    requires p.up && q.up && Along(p.axis, Cell(q.axis, 1, v, s)) == 2
    ensures var r := Run(t, tops, [p, q], g);
            && HoldsAt(r.0, r.1, Cell(q.axis, 0, v, s), Home(g, Width(t.maxLOD), Cell(q.axis, 1, v, s)))
            && !Arranged(r.0, r.1, g)
  {
    RunTwo(t, tops, p, q, g);
    ShiftsCross(t, tops, g, p.axis, q.axis, v, s);
  }

  /**
   * A pass up along `a`, then one up along `b`: the node created for cell
   * `Cell(b, 1, v, s)` on the entering face of `a` is slid to
   * `Cell(b, 0, v, s)`.
   */
  lemma ShiftsCross<T>(t: Tree<T>, tops: seq<NodeId>, g: V3, a: nat, b: nat, v: nat, s: nat)
    requires Wf(t) && Shaped(t) && TopsOk(t, tops) && a < 3 && b < 3 && v < 3 && s < 3
    requires Along(a, Cell(b, 1, v, s)) == 2
    ensures var p := ShiftAxis(t, tops, a, true, g);
            var r := ShiftAxis(p.0, p.1, b, true, g);
            && HoldsAt(r.0, r.1, Cell(b, 0, v, s), Home(g, Width(t.maxLOD), Cell(b, 1, v, s)))
            && !Arranged(r.0, r.1, g)
  {
    var i := Cell(b, 1, v, s);
    CellParts(a, i);
    var ja := LineOf(a, i);
    var p := ShiftAxis(t, tops, a, true, g);
    PassLine(t, tops, a, true, g, ja);
    PassLine(p.0, p.1, b, true, g, 3 * v + s);
    var r := ShiftAxis(p.0, p.1, b, true, g);
    WidthPositive(t.maxLOD);
    Pair(v, s);
    SlidAcross(t, tops, p.0, p.1, r.0, r.1, g, Width(t.maxLOD), a, b, ja, v, s,
               EntryHome(g, Width(p.0.maxLOD), b, true, 3 * v + s));
  }

  /**
   * A shift up of line `ja` along `a`, then of line `(v, s)` along `b`,
   * where the first line enters at `Cell(b, 1, v, s)`: that cell's new node
   * ends in `Cell(b, 0, v, s)`, so the grid is not arranged around `c`.
   */
  lemma SlidAcross<T>(t: Tree<T>, tops: seq<NodeId>, t1: Tree<T>, g1: seq<NodeId>, r: Tree<T>, g: seq<NodeId>,
                      c: V3, w: int, a: nat, b: nat, ja: nat, v: nat, s: nat, pos2: V3)
    requires a < 3 && b < 3 && ja < 9 && v < 3 && s < 3 && w > 0
    requires |tops| == 27 && |g1| == 27 && |g| == 27 && Evolves(t1, r)
    requires r.maxLOD <= MaxLevel ==> Width(r.maxLOD) == w
    requires Cell(a, 2, ja / 3, ja % 3) == Cell(b, 1, v, s)
    requires LineShifted(t, tops, t1, g1, a, true, ja / 3, ja % 3, EntryHome(c, w, a, true, ja))
    requires LineShifted(t1, g1, r, g, b, true, v, s, pos2)
    ensures HoldsAt(r, g, Cell(b, 0, v, s), Home(c, w, Cell(b, 1, v, s)))
    ensures !Arranged(r, g, c)
  {
    var first := g1[Cell(b, 1, v, s)];
    assert Kept(t1.nodes[first], r.nodes[first]);
    HomesDiffer(c, w, Cell(b, 0, v, s), Cell(b, 1, v, s));
    MisplacedUnarranged(r, g, c, Cell(b, 0, v, s), Home(c, w, Cell(b, 1, v, s)));
  }
}
