/**
 * `NodeManager<T>` (NodeManager.cs): the 3 x 3 x 3 grid of top-level nodes
 * around the viewer, the viewer's chunk at every level, and the two cells
 * that decide when the grid recentres and when the nodes re-examine the view.
 */
module Managers {
  import opened Vectors
  import opened Geometry
  import opened Arena
  import opened LevelFrames
  import opened ViewUpdate
  import opened Search
  import opened TopGrid
  import opened TopShift
  import opened Recentring
  import opened Tracking

  datatype Manager<T> = Manager(
    tree: Tree<T>,
    tops: seq<NodeId>,      // topNodes[x, y, z] at index 9x + 3y + z
    curTopNode: V3,         // the centre cell of the grid, in top-level widths
    curBottomNode: V3,      // the viewer's cell in half level-0 widths
    viewChunkPos: seq<V3>)  // the viewer's chunk at every level

  /** The manager's shape: a sound arena, 27 top-level nodes and one view chunk per level. */
  ghost predicate Valid<T>(m: Manager<T>)
  {
    Wf(m.tree) && Shaped(m.tree) && TopsOk(m.tree, m.tops) && |m.viewChunkPos| == m.tree.maxLOD + 1
  }

  /** The initial `curBottomNode`, a cell no viewer is reported in first. */
  const Unseen: V3 := V3(-111, 0, 0)

  /** The edge of a half level-0 node: the unit of `curBottomNode`. */
  const HalfWidth: int := LODSize[0] * NodeSize / 2

  /** `c` is `p` divided by `w` and truncated toward zero, componentwise: the C# `(int)` cast of the quotient. */
  predicate TruncCell(c: V3, p: V3, w: int)
  {
    && (p.x >= 0 ==> 0 <= c.x * w <= p.x < c.x * w + w) && (p.x < 0 ==> c.x * w - w < p.x <= c.x * w <= 0)
    && (p.y >= 0 ==> 0 <= c.y * w <= p.y < c.y * w + w) && (p.y < 0 ==> c.y * w - w < p.y <= c.y * w <= 0)
    && (p.z >= 0 ==> 0 <= c.z * w <= p.z < c.z * w + w) && (p.z < 0 ==> c.z * w - w < p.z <= c.z * w <= 0)
  }

  /** An arena with no nodes and every level's counter at zero. */
  function Empty<T>(maxLOD: nat, dflt: T): (t: Tree<T>)
    requires maxLOD <= MaxLevel
    ensures Wf(t) && Shaped(t) && t.nodes == map[] && t.maxLOD == maxLOD
    ensures forall l :: 0 <= l < |t.nodeCount| ==> t.nodeCount[l] == 0
  {
    Tree(maxLOD, dflt, map[], 0, seq(MaxLevel + 1, _ => 0), [])
  }

  /** Cells `0..k-1` hold live top-level nodes where they belong around `cur`. */
  ghost predicate ArrangedUpTo<T>(t: Tree<T>, tops: seq<NodeId>, cur: V3, k: nat)
  {
    && t.maxLOD <= MaxLevel && k <= 27 && |tops| == k
    && forall i :: 0 <= i < k ==>
         && tops[i] in t.nodes && t.nodes[tops[i]].lod == t.maxLOD && !t.nodes[tops[i]].disposed
         && t.nodes[tops[i]].position == Home(cur, Width(t.maxLOD), i)
  }

  /** The constructor's loops from index `k` on (`x`, then `y`, then `z`, index `9x + 3y + z`). */
  function Populate<T>(t: Tree<T>, tops: seq<NodeId>, k: nat): (r: (Tree<T>, seq<NodeId>))
    requires Wf(t) && Shaped(t) && ArrangedUpTo(t, tops, V3(0, 0, 0), k)
    ensures Wf(r.0) && Shaped(r.0) && Evolves(t, r.0)
    ensures ArrangedUpTo(r.0, r.1, V3(0, 0, 0), 27)
    ensures Bumped(t.nodeCount, r.0.nodeCount, t.maxLOD, 27 - k)
    decreases 27 - k
  {
    if k == 27 then
      (t, tops)
    else
      var n := Enter(t, Home(V3(0, 0, 0), Width(t.maxLOD), k));
      assert ArrangedUpTo(n.0, tops + [n.1], V3(0, 0, 0), k + 1) by {
        forall i | 0 <= i < k
          ensures Kept(t.nodes[tops[i]], n.0.nodes[tops[i]])
        {
        }
      }
      Populate(n.0, tops + [n.1], k + 1)
  }

  /** All 27 cells arranged: the grid is arranged, and every node is live. */
  lemma FullyArranged<T>(t: Tree<T>, tops: seq<NodeId>, cur: V3)
    requires ArrangedUpTo(t, tops, cur, 27)
    ensures Arranged(t, tops, cur) && TopsOk(t, tops)
    ensures forall i :: 0 <= i < 27 ==> !t.nodes[tops[i]].disposed
  {
  }

  /** Counters raised at one level from all zero are zero elsewhere. */
  lemma CountedFromZero(before: seq<int>, after: seq<int>, l: int, k: int)
    requires Bumped(before, after, l, k) && forall i :: 0 <= i < |before| ==> before[i] == 0
    ensures |after| == |before|
    ensures 0 <= l < |before| ==> after[l] == k
    ensures forall i :: 0 <= i < |before| && i != l ==> after[i] == 0
  {
  }

  /**
   * The constructor: 27 new top-level nodes, each where its cell belongs
   * around cell `(0, 0, 0)`, counted at the top level; the view chunks all
   * at the origin, and `curBottomNode` a cell that makes the first view
   * update reach the nodes.
   */
  function NewManager<T>(maxLOD: nat, dflt: T): (m: Manager<T>)
    requires maxLOD <= MaxLevel
    ensures Valid(m) && Arranged(m.tree, m.tops, m.curTopNode) && m.tree.maxLOD == maxLOD
    ensures forall i :: 0 <= i < 27 ==> !m.tree.nodes[m.tops[i]].disposed
    ensures m.tree.nodeCount[maxLOD] == 27
    ensures forall l :: 0 <= l <= MaxLevel && l != maxLOD ==> m.tree.nodeCount[l] == 0
    ensures m.curTopNode == V3(0, 0, 0) && m.curBottomNode == Unseen
    ensures forall l :: 0 <= l <= maxLOD ==> m.viewChunkPos[l] == V3(0, 0, 0)
  {
    var r := FirstGrid(maxLOD, dflt);
    Manager(r.0, r.1, V3(0, 0, 0), Unseen, Origins(maxLOD + 1))
  }

  /** `n` zero vectors. */
  function Origins(n: nat): (v: seq<V3>)
    ensures |v| == n && forall i :: 0 <= i < n ==> v[i] == V3(0, 0, 0)
  {
    if n == 0 then [] else Origins(n - 1) + [V3(0, 0, 0)]
  }

  /** The constructor's loops, from an empty arena. */
  function FirstGrid<T>(maxLOD: nat, dflt: T): (r: (Tree<T>, seq<NodeId>))
    requires maxLOD <= MaxLevel
    ensures Wf(r.0) && Shaped(r.0) && TopsOk(r.0, r.1) && Arranged(r.0, r.1, V3(0, 0, 0)) && r.0.maxLOD == maxLOD
    ensures forall i :: 0 <= i < 27 ==> !r.0.nodes[r.1[i]].disposed
    ensures r.0.nodeCount[maxLOD] == 27
    ensures forall l :: 0 <= l <= MaxLevel && l != maxLOD ==> r.0.nodeCount[l] == 0
  {
    var t := Empty(maxLOD, dflt);
    var r := Populate(t, [], 0);
    FullyArranged(r.0, r.1, V3(0, 0, 0));
    CountedFromZero(t.nodeCount, r.0.nodeCount, maxLOD, 27);
    r
  }

  /** `GetTopNode`: the top-level cell holding `pos`, the quotient by the top-level width rounded down. */
  function GetTopNode<T>(m: Manager<T>, pos: V3): (c: V3)
    requires m.tree.maxLOD <= MaxLevel
    ensures var w := Width(m.tree.maxLOD);
            && c.x * w <= pos.x < c.x * w + w
            && c.y * w <= pos.y < c.y * w + w
            && c.z * w <= pos.z < c.z * w + w
  {
    WidthPositive(m.tree.maxLOD);
    FloorDivV(pos, Width(m.tree.maxLOD))
  }

  /** A grid arranged around the cell `GetTopNode` reports has the viewer inside its centre node. */
  lemma CentreHolds<T>(m: Manager<T>, pos: V3)
    requires m.tree.maxLOD <= MaxLevel && Arranged(m.tree, m.tops, GetTopNode(m, pos))
    ensures Tight(m.tree.nodes, m.tops[Idx(1, 1, 1)], pos)
  {
    CellOfIdx(1, 1, 1);
    var c := GetTopNode(m, pos);
    var w := Width(m.tree.maxLOD);
    assert Home(c, w, Idx(1, 1, 1)) == V3(c.x * w, c.y * w, c.z * w);
  }

  /** The view loop of `SetViewPosition` over grid indices `k..26`: `ViewPosChanged` on each top-level node. */
  function ViewAll<T>(t: Tree<T>, tops: seq<NodeId>, view: seq<V3>, k: nat): (r: Tree<T>)
    requires Wf(t) && Shaped(t) && TopsOk(t, tops) && |view| == t.maxLOD + 1 && k <= 27
    ensures ViewFrame(t, r, t.maxLOD) && TopsOk(r, tops)
    decreases 27 - k
  {
    if k == 27 then
      ViewFrameRefl(t, t.maxLOD);
      t
    else
      var t1 := ViewPosChanged(t, tops[k], view);
      assert TopsOk(t1, tops) by {
        forall i | 0 <= i < 27
          ensures Kept(t.nodes[tops[i]], t1.nodes[tops[i]])
        {
        }
      }
      var r := ViewAll(t1, tops, view, k + 1);
      ViewFrameTrans(t, t1, r, t.maxLOD);
      r
  }

  /** The C# `(int)` cast of a quotient by a positive width is the truncated cell. */
  lemma TruncCellOf(p: V3, w: int)
    requires w > 0
    ensures TruncCell(TruncDivV(p, w), p, w)
  {
    var c := TruncDivV(p, w);
    if p.x >= 0 { assert c.x >= 0; assert c.x * w >= 0; } else { assert c.x <= 0; assert c.x * w <= 0; }
    if p.y >= 0 { assert c.y >= 0; assert c.y * w >= 0; } else { assert c.y <= 0; assert c.y * w <= 0; }
    if p.z >= 0 { assert c.z >= 0; assert c.z * w >= 0; } else { assert c.z <= 0; assert c.z * w <= 0; }
  }

  /** The first loop of `SetViewPosition`: the viewer's chunk at every level. */
  function ViewChunks(pos: V3, maxLOD: nat): (v: seq<V3>)
    requires maxLOD <= MaxLevel
    ensures |v| == maxLOD + 1
    ensures forall l :: 0 <= l <= maxLOD ==> TruncCell(v[l], pos, Width(l))
  {
    var v := seq(maxLOD + 1, l requires 0 <= l <= maxLOD => TruncDivV(pos, Width(l)));
    forall l | 0 <= l <= maxLOD
      ensures TruncCell(v[l], pos, Width(l))
    {
      WidthPositive(l);
      TruncCellOf(pos, Width(l));
    }
    v
  }

  /** The viewer's half-node cell, `newPos`. */
  function BottomCell(pos: V3): (c: V3)
    ensures TruncCell(c, pos, HalfWidth)
  {
    TruncCellOf(pos, HalfWidth);
    TruncDivV(pos, HalfWidth)
  }

  /** The recentring branch: shift only when the centre cell is not the viewer's top-level cell `g`. */
  function Follow<T>(m: Manager<T>, g: V3): (r: (Tree<T>, seq<NodeId>))
    requires Valid(m)
    ensures ShiftFrame(m.tree, r.0, Elems(m.tops)) && TopsOk(r.0, r.1) && Traced(m.tree, m.tops, r.1)
    ensures m.curTopNode == g ==> r == (m.tree, m.tops)
  {
    if m.curTopNode != g then Recentre(m.tree, m.tops, Subtract(g, m.curTopNode), g)
    else
      assert Traced(m.tree, m.tops, m.tops) by {
        forall i | 0 <= i < 27 ensures m.tops[i] in m.tops { }
      }
      (m.tree, m.tops)
  }

  /** The view branch: every top-level node re-examines the view when `changed`. */
  function Refresh<T>(t: Tree<T>, tops: seq<NodeId>, view: seq<V3>, changed: bool): (r: Tree<T>)
    requires Wf(t) && Shaped(t) && TopsOk(t, tops) && |view| == t.maxLOD + 1
    ensures ViewFrame(t, r, t.maxLOD) && TopsOk(r, tops)
    ensures !changed ==> r == t
  {
    if changed then ViewAll(t, tops, view, 0)
    else
      ViewFrameRefl(t, t.maxLOD);
      t
  }

  /** Recentring and then viewing touch no top-level node outside the old grid. */
  lemma UpdateFrame<T>(t: Tree<T>, tops: seq<NodeId>, t1: Tree<T>, r: Tree<T>)
    requires ShiftFrame(t, t1, Elems(tops)) && ViewFrame(t1, r, t1.maxLOD)
    ensures Evolves(t, r)
    ensures forall x :: x in t.nodes && t.nodes[x].lod == t.maxLOD && x !in tops ==> r.nodes[x].disposed == t.nodes[x].disposed
  {
    EvolvesTrans(t, t1, r);
    forall x | x in t.nodes && t.nodes[x].lod == t.maxLOD && x !in tops
      ensures r.nodes[x].disposed == t.nodes[x].disposed
    {
      assert Kept(t.nodes[x], t1.nodes[x]);
      assert x !in Elems(tops);
    }
  }

  /**
   * `SetViewPosition` for a viewer at `pos`: record the viewer's chunk at
   * every level; if the top-level cell holding the viewer is not the centre
   * cell, shift the grid toward it; if the viewer's half-node cell changed,
   * let every top-level node re-examine the view.
   */
  function SetViewPosition<T>(m: Manager<T>, pos: V3): (r: Manager<T>)
    requires Valid(m)
    ensures Valid(r) && Evolves(m.tree, r.tree)
    ensures r.curTopNode == GetTopNode(m, pos) && TruncCell(r.curBottomNode, pos, HalfWidth)
    ensures forall l :: 0 <= l <= m.tree.maxLOD ==> TruncCell(r.viewChunkPos[l], pos, Width(l))
    ensures Traced(m.tree, m.tops, r.tops)
    ensures forall x :: x in m.tree.nodes && m.tree.nodes[x].lod == m.tree.maxLOD && x !in m.tops ==>
              r.tree.nodes[x].disposed == m.tree.nodes[x].disposed
    ensures m.curTopNode == GetTopNode(m, pos) ==> r.tops == m.tops
    ensures m.curTopNode == GetTopNode(m, pos) && m.curBottomNode == r.curBottomNode ==> r.tree == m.tree
  {
    Settle(m, pos, Follow(m, GetTopNode(m, pos)))
  }

  /** What `SetViewPosition` does once the grid is recentred to `moved`: the view branch and the new cells. */
  function Settle<T>(m: Manager<T>, pos: V3, moved: (Tree<T>, seq<NodeId>)): (r: Manager<T>)
    requires Valid(m) && ShiftFrame(m.tree, moved.0, Elems(m.tops)) && TopsOk(moved.0, moved.1)
    requires Traced(m.tree, m.tops, moved.1)
    ensures Valid(r) && Evolves(m.tree, r.tree) && Evolves(moved.0, r.tree) && r.tops == moved.1
    ensures r.curTopNode == GetTopNode(m, pos) && TruncCell(r.curBottomNode, pos, HalfWidth)
    ensures forall l :: 0 <= l <= m.tree.maxLOD ==> TruncCell(r.viewChunkPos[l], pos, Width(l))
    ensures Traced(m.tree, m.tops, r.tops)
    ensures forall x :: x in m.tree.nodes && m.tree.nodes[x].lod == m.tree.maxLOD && x !in m.tops ==>
              r.tree.nodes[x].disposed == m.tree.nodes[x].disposed
    ensures m.curBottomNode == r.curBottomNode ==> r.tree == moved.0
  {
    var view := ViewChunks(pos, m.tree.maxLOD);
    var newPos := BottomCell(pos);
    var t := Refresh(moved.0, moved.1, view, m.curBottomNode != newPos);
    UpdateFrame(m.tree, m.tops, moved.0, t);
    Manager(t, moved.1, GetTopNode(m, pos), newPos, view)
  }

  /** The recentring branch with the corrected passes, each placing its nodes around the centre moved so far. */
  function FollowTracked<T>(m: Manager<T>, g: V3): (r: (Tree<T>, seq<NodeId>))
    requires Valid(m)
    ensures ShiftFrame(m.tree, r.0, Elems(m.tops)) && TopsOk(r.0, r.1) && Traced(m.tree, m.tops, r.1)
    ensures m.curTopNode == g ==> r == (m.tree, m.tops)
  {
    if m.curTopNode != g then Retrack(m.tree, m.tops, Subtract(g, m.curTopNode), m.curTopNode)
    else
      assert Traced(m.tree, m.tops, m.tops) by {
        forall i | 0 <= i < 27 ensures m.tops[i] in m.tops { }
      }
      (m.tree, m.tops)
  }

  /** `SetViewPosition` with the corrected recentring. */
  function SetViewTracked<T>(m: Manager<T>, pos: V3): (r: Manager<T>)
    requires Valid(m)
    ensures Valid(r) && Evolves(m.tree, r.tree) && Traced(m.tree, m.tops, r.tops)
    ensures r.curTopNode == GetTopNode(m, pos) && TruncCell(r.curBottomNode, pos, HalfWidth)
  {
    Settle(m, pos, FollowTracked(m, GetTopNode(m, pos)))
  }

  /**
   * With the corrected recentring, a viewer that moves anywhere, however
   * many top-level cells along however many axes, finds the grid arranged
   * around its new cell, with itself inside the centre node.
   */
  lemma TrackedArranged<T>(m: Manager<T>, pos: V3)
    requires Valid(m) && Arranged(m.tree, m.tops, m.curTopNode)
    ensures var r := SetViewTracked(m, pos);
            Arranged(r.tree, r.tops, r.curTopNode) && Tight(r.tree.nodes, r.tops[Idx(1, 1, 1)], pos)
  {
    var g := GetTopNode(m, pos);
    var moved := FollowTracked(m, g);
    if m.curTopNode != g {
      RetrackArranged(m.tree, m.tops, Subtract(g, m.curTopNode), m.curTopNode);
      SubtractAdd(g, m.curTopNode);
      assert Add(m.curTopNode, Subtract(g, m.curTopNode)) == g;
    }
    assert Arranged(moved.0, moved.1, g);
    var r := SetViewTracked(m, pos);
    ArrangedKept(moved.0, r.tree, moved.1, g);
    CentreHolds(r, pos);
  }

  /**
   * A viewer that stays in its top-level cell, or crosses into a
   * neighbouring one along a single axis, finds the grid arranged around its
   * new cell, with itself inside the centre node.
   */
  lemma StepKeepsArranged<T>(m: Manager<T>, pos: V3, axis: nat, up: bool)
    requires Valid(m) && Arranged(m.tree, m.tops, m.curTopNode) && axis < 3
    requires GetTopNode(m, pos) == m.curTopNode || GetTopNode(m, pos) == Add(m.curTopNode, Step(axis, up))
    ensures var r := SetViewPosition(m, pos);
            Arranged(r.tree, r.tops, r.curTopNode) && Tight(r.tree.nodes, r.tops[Idx(1, 1, 1)], pos)
  {
    var g := GetTopNode(m, pos);
    var moved := Follow(m, g);
    if m.curTopNode != g {
      RecentreStep(m.tree, m.tops, m.curTopNode, axis, up);
    }
    assert Arranged(moved.0, moved.1, g);
    var r := SetViewPosition(m, pos);
    ArrangedKept(moved.0, r.tree, moved.1, g);
    CentreHolds(r, pos);
  }

  /** A second report of the same viewer position changes nothing. */
  lemma SetViewIdempotent<T>(m: Manager<T>, pos: V3)
    requires Valid(m)
    ensures SetViewPosition(SetViewPosition(m, pos), pos) == SetViewPosition(m, pos)
  {
  }

  /** `SetViewPosition` keeps the recentred grid and only grows the recentred arena. */
  lemma AfterFollow<T>(m: Manager<T>, pos: V3)
    requires Valid(m)
    ensures var moved := Follow(m, GetTopNode(m, pos));
            var r := SetViewPosition(m, pos);
            r.tops == moved.1 && r.curTopNode == GetTopNode(m, pos) && Evolves(moved.0, r.tree)
  {
    var moved := Follow(m, GetTopNode(m, pos));
    var t := Refresh(moved.0, moved.1, ViewChunks(pos, m.tree.maxLOD), m.curBottomNode != BottomCell(pos));
    assert SetViewPosition(m, pos).tree == t;
  }

  /**
   * A viewer that jumps two top-level cells along one axis leaves two cells
   * of every line of that axis holding nodes at one position, so the grid is
   * not arranged around the viewer's cell.
   */
  lemma JumpUnarranged<T>(m: Manager<T>, pos: V3, axis: nat, up: bool)
    requires Valid(m) && axis < 3
    requires GetTopNode(m, pos) == Add(m.curTopNode, Add(Step(axis, up), Step(axis, up)))
    ensures var r := SetViewPosition(m, pos);
            !Arranged(r.tree, r.tops, r.curTopNode)
  {
    AfterFollow(m, pos);
    JumpFollowed(m, GetTopNode(m, pos), axis, up, SetViewPosition(m, pos).tree);
  }

  /** The recentring after a two-cell jump, and anything that only grows its arena, is not arranged. */
  lemma JumpFollowed<T>(m: Manager<T>, g: V3, axis: nat, up: bool, r: Tree<T>)
    requires Valid(m) && axis < 3 && g == Add(m.curTopNode, Add(Step(axis, up), Step(axis, up)))
    requires Evolves(Follow(m, g).0, r)
    ensures !Arranged(r, Follow(m, g).1, g)
  {
    TwoStepsMove(m.curTopNode, axis, up);
    TwoCellsCollide(m.tree, m.tops, m.curTopNode, g, axis, up, 0);
    var moved := Follow(m, g);
    SharedUnarranged(moved.0, r, moved.1, g, Cell(axis, 1, 0, 0), Cell(axis, if up then 2 else 0, 0, 0));
  }

  /**
   * A viewer that crosses diagonally into the next top-level cell up along
   * two axes finds a node of the first pass's new face one cell below the
   * home it was placed for.
   */
  lemma DiagonalUnarranged<T>(m: Manager<T>, pos: V3, a: nat, b: nat)
    requires Valid(m) && a < b < 3
    requires GetTopNode(m, pos) == Add(m.curTopNode, Add(Step(a, true), Step(b, true)))
    ensures var r := SetViewPosition(m, pos);
            !Arranged(r.tree, r.tops, r.curTopNode)
  {
    AfterFollow(m, pos);
    DiagonalFollowed(m, GetTopNode(m, pos), a, b, SetViewPosition(m, pos).tree);
  }

  /** The recentring after a diagonal step, and anything that only grows its arena, is not arranged. */
  lemma DiagonalFollowed<T>(m: Manager<T>, g: V3, a: nat, b: nat, r: Tree<T>)
    requires Valid(m) && a < b < 3 && g == Add(m.curTopNode, Add(Step(a, true), Step(b, true)))
    requires Evolves(Follow(m, g).0, r)
    ensures !Arranged(r, Follow(m, g).1, g)
  {
    var v, s := FaceCell(a, b);
    CrossStepsMove(m.curTopNode, a, b);
    DiagonalMisplaces(m.tree, m.tops, m.curTopNode, g, a, b, v, s);
    var moved := Follow(m, g);
    WidthPositive(m.tree.maxLOD);
    HeldAwayUnarranged(moved.0, r, moved.1, g, Width(m.tree.maxLOD), Cell(b, 0, v, s), Cell(b, 1, v, s));
  }
}
