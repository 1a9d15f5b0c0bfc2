/**
 * The recentring of `NodeManager<T>.SetViewPosition` (NodeManager.cs) as its
 * loops evidently intend it: each pass places the nodes it creates around
 * the centre cell as moved by the passes so far, that pass included, rather
 * than around the final centre cell.  Then every move, however far and
 * along however many axes, leaves the grid arranged around the new centre.
 */
module Tracking {
  import opened Vectors
  import opened Geometry
  import opened Arena
  import opened TopGrid
  import opened TopShift

  /** How far the passes of `plan` move the centre cell. */
  function Moved(plan: seq<Pass>): V3
  {
    if |plan| == 0 then V3(0, 0, 0) else Add(Step(plan[0].axis, plan[0].up), Moved(plan[1..]))
  }

  /**
   * The passes of `plan` one after another from the centre cell `at`, each
   * placing its new nodes around the centre cell one step further on.
   */
  function Track<T>(t: Tree<T>, tops: seq<NodeId>, plan: seq<Pass>, at: V3): (r: (Tree<T>, seq<NodeId>))
    requires Wf(t) && Shaped(t) && TopsOk(t, tops)
    ensures ShiftFrame(t, r.0, Elems(tops)) && TopsOk(r.0, r.1) && Traced(t, tops, r.1)
    decreases |plan|
  {
    if |plan| == 0 then
      (t, tops)
    else
      var c := Add(at, Step(plan[0].axis, plan[0].up));
      var r1 := ShiftAxis(t, tops, plan[0].axis, plan[0].up, c);
      PassTraced(t, tops, plan[0].axis, plan[0].up, c);
      var r := Track(r1.0, r1.1, plan[1..], c);
      StepsCompose(t, tops, r1.0, r1.1, r.0, r.1);
      r
  }

  /** The corrected recentring for a centre move of `diff` from the centre cell `cur`. */
  function Retrack<T>(t: Tree<T>, tops: seq<NodeId>, diff: V3, cur: V3): (r: (Tree<T>, seq<NodeId>))
    requires Wf(t) && Shaped(t) && TopsOk(t, tops)
    ensures ShiftFrame(t, r.0, Elems(tops)) && TopsOk(r.0, r.1) && Traced(t, tops, r.1)
  {
    Track(t, tops, Plan(diff), cur)
  }

  /** Tracked passes keep a grid arranged, around the centre cell they move it to. */
  lemma {:induction false} TrackArranged<T>(t: Tree<T>, tops: seq<NodeId>, plan: seq<Pass>, at: V3)
    requires Wf(t) && Shaped(t) && Arranged(t, tops, at)
    ensures TopsOk(t, tops)
    ensures var r := Track(t, tops, plan, at);
            Arranged(r.0, r.1, Add(at, Moved(plan)))
    decreases |plan|
  {
    if |plan| > 0 {
      var c := Add(at, Step(plan[0].axis, plan[0].up));
      ShiftPlaces(t, tops, at, plan[0].axis, plan[0].up);
      var r1 := ShiftAxis(t, tops, plan[0].axis, plan[0].up, c);
      TrackArranged(r1.0, r1.1, plan[1..], c);
      MovedFirst(plan, at);
    }
  }

  /** The first pass's step, then the rest of the plan. */
  lemma MovedFirst(plan: seq<Pass>, at: V3)
    requires |plan| > 0
    ensures Add(Add(at, Step(plan[0].axis, plan[0].up)), Moved(plan[1..])) == Add(at, Moved(plan))
  {
    var s, m := Step(plan[0].axis, plan[0].up), Moved(plan[1..]);
    assert Moved(plan) == Add(s, m);
  }

  /** The centre moves of consecutive plans add up. */
  lemma {:induction false} MovedAppend(a: seq<Pass>, b: seq<Pass>)
    ensures Moved(a + b) == Add(Moved(a), Moved(b))
    decreases |a|
  {
    if |a| == 0 {
      assert a + b == b;
    } else {
      assert (a + b)[1..] == a[1..] + b;
      MovedAppend(a[1..], b);
    }
  }

  /** `n` equal passes move the centre `n` steps. */
  lemma {:induction false} MovedRepeat(p: Pass, n: nat)
    ensures Moved(Repeat(p, n)) == Scale(Step(p.axis, p.up), n)
  {
    if n > 0 {
      assert Repeat(p, n)[1..] == Repeat(p, n - 1);
      MovedRepeat(p, n - 1);
    }
  }

  /** `d` cells along `axis`, as a vector. */
  function OnAxis(axis: Axis, d: int): (r: V3)
  {
    V3(if axis == 0 then d else 0, if axis == 1 then d else 0, if axis == 2 then d else 0)
  }

  /** Both loops for one axis move the centre by that axis's component. */
  lemma MovedAxis(axis: Axis, d: int)
    ensures Moved(AxisPlan(axis, d)) == OnAxis(axis, d)
  {
    var up := if d > 0 then d else 0;
    var down := if d < 0 then -d else 0;
    MovedAppend(Repeat(Pass(axis, true), up), Repeat(Pass(axis, false), down));
    MovedRepeat(Pass(axis, true), up);
    MovedRepeat(Pass(axis, false), down);
    StepsAlong(axis, true, up);
    StepsAlong(axis, false, down);
  }

  /** `n` steps along `axis` are `n` cells that way. */
  lemma StepsAlong(axis: Axis, up: bool, n: int)
    ensures Scale(Step(axis, up), n) == OnAxis(axis, if up then n else -n)
  {
  }

  /** The passes planned for a move of `diff` move the centre by `diff`. */
  lemma MovedPlan(diff: V3)
    ensures Moved(Plan(diff)) == diff
  {
    var px, py, pz := AxisPlan(0, diff.x), AxisPlan(1, diff.y), AxisPlan(2, diff.z);
    MovedAppend(px + py, pz);
    MovedAppend(px, py);
    MovedAxis(0, diff.x);
    MovedAxis(1, diff.y);
    MovedAxis(2, diff.z);
  }

  /** Every centre move, however far and along however many axes, leaves the grid arranged around the new centre. */
  lemma RetrackArranged<T>(t: Tree<T>, tops: seq<NodeId>, diff: V3, cur: V3)
    requires Wf(t) && Shaped(t) && Arranged(t, tops, cur)
    ensures TopsOk(t, tops)
    ensures var r := Retrack(t, tops, diff, cur);
            Arranged(r.0, r.1, Add(cur, diff))
  {
    TrackArranged(t, tops, Plan(diff), cur);
    MovedPlan(diff);
  }
}
