/**
 * The request-coalescing flags of `Node<T>` (NodeManager.cs): `regenReq` says
 * a mesh request for the node is in flight, `regenFlag` says another one was
 * asked for meanwhile.  Each transition reports whether it issued a request
 * to the mesh factory.
 */
module Regen {
  import opened Wrappers

  datatype RegenState = RegenState(regenReq: bool, regenFlag: bool)

  /** The coalescing invariant: a deferred request exists only while one is in flight. */
  predicate Coalesced(s: RegenState)
  {
    s.regenFlag ==> s.regenReq
  }

  /** Flags of a freshly constructed node, whose constructor issues its first request. */
  function Constructed(): (r: (RegenState, bool))
    ensures Coalesced(r.0) && r.0.regenReq && r.1
  {
    (RegenState(true, false), true)
  }

  /**
   * `RegenerateChunk`: with a request in flight, only remembers that another
   * is owed; otherwise issues one and marks it in flight.
   */
  function Regenerate(s: RegenState): (r: (RegenState, bool))
    ensures r.1 <==> !s.regenReq
    ensures r.0.regenReq
    ensures s.regenReq ==> r.0.regenFlag
    ensures !s.regenReq ==> r.0.regenFlag == s.regenFlag
  {
    if s.regenReq then (s.(regenFlag := true), false)
    else (s.(regenReq := true), true)
  }

  /**
   * The flag part of `SetMesh`: the in-flight request is answered; a request
   * owed meanwhile is issued now and becomes the one in flight.
   */
  function Delivered(s: RegenState): (r: (RegenState, bool))
    ensures r.1 <==> s.regenFlag
    ensures !r.0.regenFlag
    ensures r.0.regenReq <==> s.regenFlag
  {
    var cleared := s.(regenReq := false);
    if cleared.regenFlag then (RegenState(true, false), true) else (cleared, false)
  }

  /** What happens to a node: a regeneration is asked for, or a generated mesh arrives. */
  datatype Step = AskRegenerate | DeliverMesh

  /**
   * Replays steps from flags `s` with `out` requests outstanding.  A delivery
   * answers one outstanding request, so a delivery with none outstanding is a
   * run the mesh factory cannot produce; it yields `None`.
   */
  function Run(s: RegenState, out: nat, steps: seq<Step>): (r: Option<(RegenState, nat)>)
    decreases |steps|
  {
    if steps == [] then Some((s, out))
    else match steps[0]
      case AskRegenerate =>
        var (s1, issued) := Regenerate(s);
        Run(s1, out + (if issued then 1 else 0), steps[1..])
      case DeliverMesh =>
        if out == 0 then None
        else
          var (s1, issued) := Delivered(s);
          Run(s1, out - 1 + (if issued then 1 else 0), steps[1..])
  }

  /** The bookkeeping that ties the flags to the requests actually outstanding. */
  predicate Accounted(s: RegenState, out: nat)
  {
    Coalesced(s) && out == (if s.regenReq then 1 else 0)
  }

  /**
   * At most one request per node is ever outstanding: from a node's initial
   * flags (or any accounted state), every run the mesh factory can produce
   * keeps `regenFlag ==> regenReq` and exactly `regenReq ? 1 : 0` requests
   * outstanding.
   */
  lemma {:induction false} AtMostOneOutstanding(s: RegenState, out: nat, steps: seq<Step>)
    requires Accounted(s, out)
    ensures Run(s, out, steps).Some? ==>
              var (s2, out2) := Run(s, out, steps).value;
              Accounted(s2, out2) && out2 <= 1
    decreases |steps|
  {
    if steps != [] {
      match steps[0]
      case AskRegenerate =>
        var (s1, issued) := Regenerate(s);
        AtMostOneOutstanding(s1, out + (if issued then 1 else 0), steps[1..]);
      case DeliverMesh =>
        if out != 0 {
          var (s1, issued) := Delivered(s);
          AtMostOneOutstanding(s1, out - 1 + (if issued then 1 else 0), steps[1..]);
        }
    }
  }

  /** The constructor's state is accounted with its one request outstanding. */
  lemma ConstructedAccounted()
    ensures Accounted(Constructed().0, 1)
  {
  }

  /**
   * No request is lost: however many regenerations are asked for while one is
   * in flight, the next delivery issues exactly one follow-up request.
   */
  lemma {:induction false} DeferredReissuedOnce(s: RegenState, n: nat)
    requires s.regenReq && n > 0
    ensures var s1 := Repeat(s, n);
            s1.regenReq && s1.regenFlag && Delivered(s1).1 && Delivered(s1).0 == RegenState(true, false)
    decreases n
  {
    if n > 1 {
      DeferredReissuedOnce(s, n - 1);
    }
  }

  /** `n` regenerations asked for in a row. */
  function Repeat(s: RegenState, n: nat): RegenState
    decreases n
  {
    if n == 0 then s else Regenerate(Repeat(s, n - 1)).0
  }
}
