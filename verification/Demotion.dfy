/**
 Demotion (fixpoint in src/incremental.h): lowering values that are too high until they are all
 supported.
 */
module Demotion {
  import opened DynamicGraph
  import opened LocalEvaluation
  import opened Regions
  import opened SimpleGraph
  import opened Truss
  import opened Worklist

  // ---------------------------------------------------------------- demotion

  /** Values that are not queued for re-evaluation have all their witnesses. */
  ghost predicate StableUnlessQueued(sys: TriSys, tau: seq<nat>, inq: seq<bool>) {
    forall e :: e in sys.edges ==> e < |inq| && (inq[e] || Stable(sys, tau, e))
  }

  /** Re-evaluating a stable edge takes it off the queue for good. */
  lemma KeepStep(sys: TriSys, tau: seq<nat>, inq: seq<bool>, e: nat)
    requires StableUnlessQueued(sys, tau, inq) && e < |inq|
    requires e in sys.edges ==> At(tau, e) <= F(sys, tau, e)
    ensures StableUnlessQueued(sys, tau, inq[e := false])
  {
    if e in sys.edges {
      FAtLeast(sys, tau, e, At(tau, e));
    }
    hide Justified, F;
  }

  /** While all values are at or above the trussness, so is every evaluation that the limit allows. */
  lemma EvaluatedAbove(sys: TriSys, tau: seq<nat>, limit: nat, e: nat)
    requires sys.Valid() && Above(sys, tau) && e in sys.edges && Trussness(sys, e) <= limit
    ensures Trussness(sys, e) <= Evaluated(sys, tau, limit, e) <= F(sys, tau, e)
  {
    FAboveTruss(sys, tau, e);
  }

  /**
   Lowering the value of e, but not below the trussness, keeps all values above the trussness,
   and disturbs only edges that share a triangle with e.
   */
  lemma DemoteStep(sys: TriSys, tau: seq<nat>, inq: seq<bool>, e: nat, v: nat, inq': seq<bool>)
    requires sys.Valid() && Above(sys, tau) && e in sys.edges && e < |tau| && Trussness(sys, e) <= v
    requires StableUnlessQueued(sys, tau, inq)
    requires |inq'| == |inq| && inq'[e] && forall f :: 0 <= f < |inq| && f != e && inq[f] ==> inq'[f]
    requires forall t, f :: t in sys.tris && e in t && f in t ==> f < |inq'| && inq'[f]
    ensures Above(sys, tau[e := v])
    ensures StableUnlessQueued(sys, tau[e := v], inq')
  {
    var tau' := tau[e := v];
    forall f | f in sys.edges && !inq'[f] ensures Stable(sys, tau', f) {
      assert Stable(sys, tau, f);
      SameWitnesses(sys, sys, tau, tau', f);
    }
  }

  /** Witnesses depend only on the triangles of an edge and the values of their other edges. */
  lemma SameWitnesses(a: TriSys, b: TriSys, tau1: seq<nat>, tau2: seq<nat>, f: nat)
    requires Inc(a.tris, f) == Inc(b.tris, f)
    requires forall t, h :: t in a.tris && f in t && h in t && h != f ==> At(tau1, h) == At(tau2, h)
    requires At(tau1, f) == At(tau2, f)
    ensures Stable(a, tau1, f) <==> Stable(b, tau2, f)
  {
    var k := At(tau1, f);
    forall t ensures t in Witnesses(a, tau1, f, k) <==> t in Witnesses(b, tau2, f, k) {
      assert t in Inc(a.tris, f) <==> t in Inc(b.tris, f);
    }
    assert Witnesses(a, tau1, f, k) == Witnesses(b, tau2, f, k);
  }

  /** When nothing is queued any more, the values are the trussness. */
  lemma DemotionDone(sys: TriSys, tau: seq<nat>, inq: seq<bool>)
    requires sys.Valid() && Above(sys, tau) && StableUnlessQueued(sys, tau, inq)
    requires forall e :: 0 <= e < |inq| ==> !inq[e]
    ensures Exact(sys, tau)
  {
    StableBelow(sys, tau);
  }

  // ---------------------------------------------------------------- any queue order

  datatype Snapshot = Snapshot(tau: seq<nat>, inq: seq<bool>)

  ghost predicate DemotionOk(sys: TriSys, d: Snapshot) {
    |d.tau| == |d.inq| && Above(sys, d.tau) && StableUnlessQueued(sys, d.tau, d.inq)
  }

  ghost predicate Quiet(d: Snapshot) {
    forall e :: 0 <= e < |d.inq| ==> !d.inq[e]
  }

  /**
   Some queued edge e is taken and re-evaluated: a live edge above its evaluation is lowered and
   at least it and its triangle partners are queued, any other edge just leaves the queue.
   */
  ghost predicate DemotionStep(sys: TriSys, limit: nat, d: Snapshot, d': Snapshot, e: nat) {
    && e < |d.inq| == |d.tau| && d.inq[e] && |d'.inq| == |d.inq|
    && if e in sys.edges && Evaluated(sys, d.tau, limit, e) < d.tau[e] then
         && d'.tau == d.tau[e := Evaluated(sys, d.tau, limit, e)] && d'.inq[e]
         && (forall f :: 0 <= f < |d.inq| && d.inq[f] ==> d'.inq[f])
         && (forall t, f :: t in sys.tris && e in t && f in t ==> f < |d'.inq| && d'.inq[f])
       else d'.tau == d.tau && d'.inq == d.inq[e := false]
  }

  /** No trussness is beyond the limit. */
  ghost predicate Limited(sys: TriSys, limit: nat) {
    forall e :: e in sys.edges ==> Trussness(sys, e) <= limit
  }

  ghost function QueuedEdges(inq: seq<bool>): set<nat> {
    set e | 0 <= e < |inq| && inq[e]
  }

  /** Every step keeps the invariant and lowers (sum of the values, number of queued edges). */
  lemma DemotionProgress(sys: TriSys, limit: nat, d: Snapshot, d': Snapshot, e: nat)
    requires sys.Valid() && Limited(sys, limit) && DemotionOk(sys, d) && DemotionStep(sys, limit, d, d', e)
    ensures DemotionOk(sys, d')
    ensures Sum(d'.tau) < Sum(d.tau) || (d'.tau == d.tau && |QueuedEdges(d'.inq)| < |QueuedEdges(d.inq)|)
  {
    hide Above, StableUnlessQueued, F, TriSys.Valid, Sum, Trussness, Evaluated;
    if e in sys.edges {
      EvaluatedAbove(sys, d.tau, limit, e);
    }
    if e in sys.edges && Evaluated(sys, d.tau, limit, e) < d.tau[e] {
      DemoteStep(sys, d.tau, d.inq, e, d'.tau[e], d'.inq);
      SumUpdate(d.tau, e, d'.tau[e]);
    } else {
      KeepStep(sys, d.tau, d.inq, e);
      assert QueuedEdges(d'.inq) == QueuedEdges(d.inq) - {e};
    }
  }

  ghost predicate DemotionRun(sys: TriSys, limit: nat, run: seq<Snapshot>, order: seq<nat>) {
    && |run| == |order| + 1 && DemotionOk(sys, run[0])
    && forall i :: 0 <= i < |order| ==> DemotionStep(sys, limit, run[i], run[i + 1], order[i])
  }

  /** Whatever edge is taken from the queue each time: once it is empty the values are exact. */
  lemma {:induction false} AnyQueueOrder(sys: TriSys, limit: nat, run: seq<Snapshot>, order: seq<nat>)
    requires sys.Valid() && Limited(sys, limit) && DemotionRun(sys, limit, run, order)
    ensures DemotionOk(sys, run[|order|])
    ensures Quiet(run[|order|]) ==> Exact(sys, run[|order|].tau)
    decreases |order|
  {
    hide DemotionOk, TriSys.Valid, DemotionStep, Exact, Quiet, Limited;
    if order == [] {
      QuietDemotion(sys, run[0]);
    } else {
      DemotionProgress(sys, limit, run[0], run[1], order[0]);
      forall i | 0 <= i < |order[1..]| ensures DemotionStep(sys, limit, run[1..][i], run[1..][i + 1], order[1..][i]) {
        assert run[1..][i] == run[i + 1] && run[1..][i + 1] == run[i + 2] && order[1..][i] == order[i + 1];
      }
      AnyQueueOrder(sys, limit, run[1..], order[1..]);
    }
  }

  lemma QuietDemotion(sys: TriSys, d: Snapshot)
    requires sys.Valid() && DemotionOk(sys, d)
    ensures Quiet(d) ==> Exact(sys, d.tau)
  {
    hide Above, StableUnlessQueued, Exact;
    if Quiet(d) {
      DemotionDone(sys, d.tau, d.inq);
    }
  }

  /** Demotion is confluent: runs that empty the queue end with the same values, from any two starts. */
  lemma DemotionConfluent(sys: TriSys, limit: nat, run1: seq<Snapshot>, order1: seq<nat>, run2: seq<Snapshot>,
                          order2: seq<nat>)
    requires sys.Valid() && Limited(sys, limit)
    requires DemotionRun(sys, limit, run1, order1) && DemotionRun(sys, limit, run2, order2)
    requires Quiet(run1[|order1|]) && Quiet(run2[|order2|])
    ensures forall e :: e in sys.edges ==> At(run1[|order1|].tau, e) == At(run2[|order2|].tau, e)
  {
    AnyQueueOrder(sys, limit, run1, order1);
    AnyQueueOrder(sys, limit, run2, order2);
    hide DemotionRun, Quiet, DemotionOk, Trussness;
  }

  // ---------------------------------------------------------------- when demotion is right

  ghost predicate Small(g: Graph, f: nat)
    requires f in g
  {
    Trussness(Sys(g), f) <= EVAL_LIMIT
  }

  /**
   The evaluation can deal with every edge that demotion from these values comes to: those
   queued at the start, and those that meet an edge whose value has to fall.
   */
  ghost predicate Calm(g: Graph, tau: seq<nat>, inq: seq<bool>) {
    && (forall f :: f in g && Flagged(inq, f) ==> Small(g, f))
    && (forall e, f :: Meets(g, e, f) && At(tau, e) > Trussness(Sys(g), e) ==> Small(g, f))
  }

  /** Without queued edges beyond the limit, demotion starts from values above the trussness, stable if not queued. */
  ghost predicate FitToDemote(g: Graph, tau: seq<nat>, inq: seq<bool>) {
    (forall f :: f in g && Flagged(inq, f) ==> Small(g, f)) ==>
      Above(Sys(g), tau) && StableUnlessQueued(Sys(g), tau, inq)
  }

  /** f is still queued, or has a value that the evaluation can have given it. */
  ghost predicate Due(tau: seq<nat>, inq: seq<bool>, f: nat) {
    Flagged(inq, f) || At(tau, f) <= EVAL_LIMIT
  }

  /**
   What holds while tau0 is demoted: no value rises; what was queued at the start or meets an edge
   that has fallen is queued or has been evaluated; and if the start is calm, the demotion
   argument goes through.
   */
  ghost predicate Demoting(g: Graph, tau0: seq<nat>, inq0: seq<bool>, tau: seq<nat>, inq: seq<bool>) {
    && |tau| == |tau0| && |inq| == |inq0|
    && (forall e: nat :: At(tau, e) <= At(tau0, e))
    && (forall f :: f in g && Flagged(inq0, f) ==> Due(tau, inq, f))
    && (forall e, f :: Meets(g, e, f) && At(tau, e) < At(tau0, e) ==> Due(tau, inq, f))
    && (Calm(g, tau0, inq0) ==> CalmSoFar(g, tau, inq))
  }

  ghost predicate CalmSoFar(g: Graph, tau: seq<nat>, inq: seq<bool>) {
    && Above(Sys(g), tau) && StableUnlessQueued(Sys(g), tau, inq)
    && forall f :: f in g && Flagged(inq, f) ==> Small(g, f)
  }

  lemma DemotingStart(g: Graph, tau: seq<nat>, inq: seq<bool>)
    requires FitToDemote(g, tau, inq)
    ensures Demoting(g, tau, inq, tau, inq)
  {
    hide Above, StableUnlessQueued, Small;
  }

  /** A dead edge, or one that the evaluation does not lower, leaves the queue. */
  lemma DemotingKeep(g: Graph, tau0: seq<nat>, inq0: seq<bool>, tau: seq<nat>, inq: seq<bool>, e: nat)
    requires Demoting(g, tau0, inq0, tau, inq) && e < |inq|
    requires e in g ==> At(tau, e) <= Evaluated(Sys(g), tau, EVAL_LIMIT, e)
    ensures Demoting(g, tau0, inq0, tau, inq[e := false])
  {
    hide Above, StableUnlessQueued, Small, Meets, F, Calm;
    var inq' := inq[e := false];
    forall f | f in g && Due(tau, inq, f) ensures Due(tau, inq', f) {}
    forall d, f | Meets(g, d, f) && At(tau, d) < At(tau0, d) ensures Due(tau, inq', f) {
      MeetsIn(g, d, f);
    }
    if CalmSoFar(g, tau, inq) {
      KeepStep(Sys(g), tau, inq, e);
    }
  }

  /**
   Lowering e to its evaluation, taking it off the queue and queueing the edges that meet it (so e
   again, too).
   */
  lemma DemotingLower(g: Graph, tau0: seq<nat>, inq0: seq<bool>, tau: seq<nat>, inq: seq<bool>, e: nat, v: nat,
                      inq': seq<bool>)
    requires Simple(g) && Demoting(g, tau0, inq0, tau, inq) && e in g && e < |tau| && Flagged(inq, e)
    requires v == Evaluated(Sys(g), tau, EVAL_LIMIT, e) < tau[e]
    requires |inq'| == |inq| && forall f: nat :: Flagged(inq', f) <==> (Flagged(inq, f) && f != e) || Meets(g, e, f)
    ensures Demoting(g, tau0, inq0, tau[e := v], inq')
  {
    hide Above, StableUnlessQueued, Small, Meets, F, CalmSoFar, Calm;
    MeetsSelf(g, e);
    var tau' := tau[e := v];
    forall f | f in g && Due(tau, inq, f) ensures Due(tau', inq', f) {}
    forall f, h | Meets(g, f, h) && At(tau', f) < At(tau0, f) ensures Due(tau', inq', h) {
      assert f != e ==> At(tau, f) < At(tau0, f);
      assert h in g by { MeetsIn(g, f, h); }
    }
    if Calm(g, tau0, inq0) {
      CalmLower(g, tau0, inq0, tau, inq, e, v, inq');
    }
  }

  lemma CalmLower(g: Graph, tau0: seq<nat>, inq0: seq<bool>, tau: seq<nat>, inq: seq<bool>, e: nat, v: nat,
                  inq': seq<bool>)
    requires Simple(g) && Calm(g, tau0, inq0) && CalmSoFar(g, tau, inq) && e in g && e < |tau| && Flagged(inq, e)
    requires At(tau, e) <= At(tau0, e) && v == Evaluated(Sys(g), tau, EVAL_LIMIT, e) < tau[e]
    requires |inq'| == |inq| && forall f: nat :: Flagged(inq', f) <==> (Flagged(inq, f) && f != e) || Meets(g, e, f)
    ensures CalmSoFar(g, tau[e := v], inq')
  {
    hide Above, StableUnlessQueued, Meets, F, Triangles, Simple, Trussness, TriSys.Valid, TriSys.Linear, Evaluated,
         Calm;
    SysOk(g);
    EvaluatedAbove(Sys(g), tau, EVAL_LIMIT, e);
    MetAreSmall(g, tau0, inq0, e);
    PartnersFlagged(g, e, inq, inq');
    DemoteStep(Sys(g), tau, inq, e, v, inq');
    hide Small;
  }

  lemma PartnersFlagged(g: Graph, e: nat, inq: seq<bool>, inq': seq<bool>)
    requires Simple(g) && e in g && |inq'| == |inq|
    requires forall f: nat :: Flagged(inq', f) <==> (Flagged(inq, f) && f != e) || Meets(g, e, f)
    ensures e < |inq'| && inq'[e] && forall f :: 0 <= f < |inq| && f != e && inq[f] ==> inq'[f]
    ensures forall t, f :: t in Sys(g).tris && e in t && f in t ==> f < |inq'| && inq'[f]
  {
    MeetsSelf(g, e);
    PartnersMeet(g, e);
    hide Meets, Triangles, Simple;
    assert Flagged(inq', e);
    forall f | 0 <= f < |inq| && f != e && inq[f] ensures inq'[f] {
      assert Flagged(inq', f);
    }
    forall t, f | t in Sys(g).tris && e in t && f in t ensures f < |inq'| && inq'[f] {
      assert Flagged(inq', f);
    }
  }

  lemma MetAreSmall(g: Graph, tau0: seq<nat>, inq0: seq<bool>, e: nat)
    requires Calm(g, tau0, inq0) && e in g && At(tau0, e) > Trussness(Sys(g), e)
    ensures forall f :: f in g && Meets(g, e, f) ==> Small(g, f)
  {
    hide Small, Meets, Trussness;
  }

  /** Edges that share a triangle meet. */
  lemma PartnersMeet(g: Graph, e: nat)
    requires Simple(g) && e in g
    ensures forall t, f :: t in Triangles(g) && e in t && f in t ==> Meets(g, e, f)
  {
    hide Triangles;
    forall t, f | t in Triangles(g) && e in t && f in t ensures Meets(g, e, f) {
      var x, y := TriangleMeets(g, t, e, f);
    }
  }

  lemma NoneRose(g: Graph, tau0: seq<nat>, inq0: seq<bool>, tau: seq<nat>, inq: seq<bool>)
    requires Demoting(g, tau0, inq0, tau, inq)
    ensures forall e: nat :: At(tau, e) <= At(tau0, e)
  {}

  /** When the queue is empty the values are the trussness exactly if the start was calm. */
  lemma DemotingDone(g: Graph, tau0: seq<nat>, inq0: seq<bool>, tau: seq<nat>, inq: seq<bool>)
    requires Simple(g) && Demoting(g, tau0, inq0, tau, inq) && forall e :: 0 <= e < |inq| ==> !inq[e]
    ensures Exact(Sys(g), tau) <==> Calm(g, tau0, inq0)
  {
    hide StableUnlessQueued, Above, Triangles, Simple, Meets, Trussness;
    SysOk(g);
    if Calm(g, tau0, inq0) {
      DemotionDone(Sys(g), tau, inq);
    }
    if Exact(Sys(g), tau) {
      forall f | f in g && Due(tau, inq, f) ensures Small(g, f) {
        assert f in Sys(g).edges;
      }
      forall e, f | Meets(g, e, f) && At(tau0, e) > Trussness(Sys(g), e) ensures Small(g, f) {
        MeetsIn(g, e, f);
        assert e in Sys(g).edges;
      }
    }
  }

  // ---------------------------------------------------------------- queueing the edges at a vertex

  /** Queues the edges of a list. */
  method PushList(list: seq<EdgeRef>, queue: seq<nat>, inq: seq<bool>, ghost head: nat, ghost bound: nat)
    returns (queue': seq<nat>, inq': seq<bool>)
    requires QueueOk(queue, inq, head) && FlagsBelow(inq, bound)
    requires forall i :: 0 <= i < |list| ==> list[i].eid < |inq| && list[i].eid < bound
    ensures FlagsBelow(inq', bound) && head <= |queue'|
    ensures QueueOk(queue', inq', head) && |inq'| == |inq|
    ensures forall e: nat :: Flagged(inq', e) <==> Flagged(inq, e) || exists i :: 0 <= i < |list| && list[i].eid == e
  {
    hide QueueOk;
    queue', inq' := queue, inq;
    for i := 0 to |list|
      invariant QueueOk(queue', inq', head) && |inq'| == |inq|
      invariant FlagsBelow(inq', bound)
      invariant forall e: nat :: Flagged(inq', e) <==> Flagged(inq, e) || HasEid(list, i, e)
    {
      ghost var before := inq';
      queue', inq' := Push(queue', inq', list[i].eid, head);
      EidsNext(list, i);
      assert forall e: nat :: Flagged(inq', e) <==> Flagged(before, e) || e == list[i].eid;
    }
    QueueHead(queue', inq', head);
  }
}
