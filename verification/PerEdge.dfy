/** The per-edge maintainer (src/incremental.h): one insertion or removal at a time. */
module PerEdge {
  import opened CalmOps
  import opened Demotion
  import opened DynamicGraph
  import opened EdgeOps
  import opened HashTable
  import LocalEvaluation
  import opened Peeling
  import opened RegionGrowth
  import opened Regions
  import opened SimpleGraph
  import opened Stamps
  import opened StaticDecomposition
  import opened Truss
  import opened Worklist

  // ---------------------------------------------------------------- the removal argument

  /** One triangle on x less lowers the counts of its two other edges. */
  lemma UncountTriangle(sys: TriSys, ws: seq<Wedge>, i: nat, sup: seq<nat>, x: nat)
    requires Enumerates(sys.tris, x, ws) && i < |ws|
    requires CountsLive(sys, Dropped(sys.tris, x, ws, i), sup, x)
    requires ws[i].e1 < |sup| && ws[i].e2 < |sup| && ws[i].e1 in sys.edges && ws[i].e2 in sys.edges
    ensures sup[ws[i].e1] > 0 && sup[ws[i].e2] > 0
    ensures var s1 := sup[ws[i].e1 := sup[ws[i].e1] - 1];
            CountsLive(sys, Dropped(sys.tris, x, ws, i + 1), s1[ws[i].e2 := s1[ws[i].e2] - 1], x)
  {
    var live := Dropped(sys.tris, x, ws, i);
    var t := Tri(x, ws[i]);
    DroppedLater(sys.tris, sys.tris, x, ws, i);
    assert t in live && ws[i].e1 in t && ws[i].e2 in t;
    hide Enumerates, Dropped;
    forall e | e in sys.edges && e != x
      ensures Deg(live - {t}, e) == Deg(live, e) - (if e == ws[i].e1 || e == ws[i].e2 then 1 else 0)
    {
      DegRemove(live, t, e);
    }
    hide Deg;
  }

  /** Uncounts the triangles on x and queues their other edges. */
  method LoseTriangles(ws: seq<Wedge>, sup: seq<nat>, inq: seq<bool>, ghost sys: TriSys, ghost x: nat, ghost bound: nat)
    returns (sup': seq<nat>, queue': seq<nat>, inq': seq<bool>)
    requires sys.Valid() && Enumerates(sys.tris, x, ws)
    requires |inq| == |sup| && forall f :: f in sys.edges ==> f < |sup| && f < bound
    requires forall e :: 0 <= e < |inq| ==> !inq[e]
    requires CountsTriangles(sys, sup)
    ensures |sup'| == |sup| && CountsLive(sys, Avoiding(sys.tris, {x}), sup', x)
    ensures QueueOk(queue', inq', 0) && |inq'| == |inq| && FlagsBelow(inq', bound)
    ensures WedgesIn(ws, |ws|, inq') && OnlyWedges(ws, |ws|, x, inq')
  {
    hide CountsLive, Deg, QueueOk, WedgesIn, OnlyWedges, FlagsKept, Flagged, FlagsBelow, Enumerates, CountsTriangles,
         Dropped, TriSys.Valid;
    sup', queue', inq' := sup, [], inq;
    QueueStart(inq);
    NoWedges(ws, inq);
    NoFlags(inq, bound, ws, x);
    CountsLeave(sys, sup, x, ws);
    for i := 0 to |ws|
      invariant |sup'| == |sup| && CountsLive(sys, Dropped(sys.tris, x, ws, i), sup', x)
      invariant QueueOk(queue', inq', 0) && |inq'| == |inq| && FlagsBelow(inq', bound)
      invariant WedgesIn(ws, i, inq') && OnlyWedges(ws, i, x, inq')
    {
      WedgeOf(sys, x, ws, i);
      var e1, e2 := ws[i].e1, ws[i].e2;
      UncountTriangle(sys, ws, i, sup', x);
      if sup'[e1] > 0 {
        sup' := sup'[e1 := sup'[e1] - 1];
      }
      if sup'[e2] > 0 {
        sup' := sup'[e2 := sup'[e2] - 1];
      }
      ghost var a, b := inq', inq';
      queue', inq', b := QueuePair(e1, e2, queue', inq', bound);
      WedgesStep(ws, i, a, b, inq');
      OnlyWedgesStep(ws, i, x, a);
    }
    DroppedToAvoiding(sys.tris, x, ws);
  }

  lemma DroppedToAvoiding(tris: set<Triangle>, x: nat, ws: seq<Wedge>)
    requires Enumerates(tris, x, ws)
    ensures Dropped(tris, x, ws, |ws|) == Avoiding(tris, {x})
  {
    assert Avoiding(tris, {}) == tris && {} + {x} == {x};
    DroppedAll(tris, {}, x, ws);
  }

  /** Queues two edges. */
  method QueuePair(e1: nat, e2: nat, queue: seq<nat>, inq: seq<bool>, ghost bound: nat)
    returns (queue': seq<nat>, inq': seq<bool>, ghost mid: seq<bool>)
    requires QueueOk(queue, inq, 0) && FlagsBelow(inq, bound)
    requires e1 < |inq| && e2 < |inq| && e1 < bound && e2 < bound
    ensures QueueOk(queue', inq', 0) && FlagsBelow(inq', bound) && |inq'| == |inq|
    ensures inq' == inq[e1 := true][e2 := true]
    ensures FlagsKept(inq, mid) && FlagsKept(mid, inq') && Flagged(mid, e1) && Flagged(inq', e2)
  {
    hide QueueOk, FlagsKept, Flagged, FlagsBelow;
    queue', inq' := Push(queue, inq, e1, 0);
    mid := inq';
    FlagSet(inq, e1, bound);
    FlagSet(mid, e2, bound);
    queue', inq' := Push(queue', inq', e2, 0);
  }

  lemma NoFlags(inq: seq<bool>, bound: nat, ws: seq<Wedge>, x: nat)
    requires forall e :: 0 <= e < |inq| ==> !inq[e]
    ensures FlagsBelow(inq, bound) && OnlyWedges(ws, 0, x, inq)
  {}

  lemma FlagSet(a: seq<bool>, e: nat, bound: nat)
    requires e < |a| && e < bound && FlagsBelow(a, bound)
    ensures FlagsKept(a, a[e := true]) && Flagged(a[e := true], e) && FlagsBelow(a[e := true], bound)
  {}

  lemma CountsLeave(sys: TriSys, sup: seq<nat>, x: nat, ws: seq<Wedge>)
    requires CountsTriangles(sys, sup)
    ensures CountsLive(sys, Dropped(sys.tris, x, ws, 0), sup, x)
  {
    hide Deg;
  }

  /** After a removal, values are still above the trussness, and stable away from the removed triangles. */
  lemma RemovalReady(small: TriSys, big: TriSys, x: nat, tau: seq<nat>, tau': seq<nat>, inq: seq<bool>)
    requires small.Valid() && big.Valid() && Without(small, big, x) && Exact(big, tau)
    requires forall e :: e != x ==> At(tau', e) == At(tau, e)
    requires forall t, h :: t in big.tris && x in t && h in t && h != x ==> Flagged(inq, h)
    requires forall e :: e in big.edges ==> e < |inq|
    ensures Above(small, tau') && StableUnlessQueued(small, tau', inq)
  {
    TrussMono(small, big);
    FixpointAtTruss(big, tau);
    hide F, Trussness, TriSys.Valid;
    forall e | e in small.edges && !inq[e] ensures Stable(small, tau', e) {
      assert e in big.edges;
      StableAtTruss(big, tau, e);
      forall t | t in Inc(big.tris, e) ensures t in Inc(small.tris, e) {
        UnflaggedAvoids(big, x, inq, e, t);
      }
      assert Inc(big.tris, e) == Inc(small.tris, e);
      SameWitnesses(big, small, tau, tau', e);
    }
  }

  /** A triangle with an edge that is not flagged avoids x. */
  lemma UnflaggedAvoids(sys: TriSys, x: nat, inq: seq<bool>, e: nat, t: Triangle)
    requires forall t, h :: t in sys.tris && x in t && h in t && h != x ==> Flagged(inq, h)
    requires t in sys.tris && e in t && e != x && !Flagged(inq, e)
    ensures x !in t
  {}

  lemma RemovalCounts(small: TriSys, big: TriSys, x: nat, sup: seq<nat>)
    requires Without(small, big, x) && x < |sup| && CountsLive(big, Avoiding(big.tris, {x}), sup, x)
    ensures CountsTriangles(small, sup[x := 0])
  {
    hide Deg, Avoiding;
  }

  class PerEdgeMaintainer {
    const g: DynGraph
    const st: StampSet
    var tau: seq<nat>
    var sup: seq<nat>
    var queue: seq<nat>
    var inq: seq<bool>
    var inreg: seq<bool>
    var region: seq<nat>

    ghost predicate Idle()
      reads this
    {
      && |tau| == |sup| == |inq| == |inreg|
      && queue == [] && region == []
      && (forall e :: 0 <= e < |inq| ==> !inq[e])
      && (forall e :: 0 <= e < |inreg| ==> !inreg[e])
    }

    ghost predicate GraphOk()
      reads this, g, st
    {
      && g.Valid() && st.Valid() && |st.s| >= g.n
      && g.capEdges <= |tau|
    }

    /** What every operation keeps: all but the exactness of the values. */
    ghost predicate Sound()
      reads this, g, st
    {
      && GraphOk() && Idle() && Words(tau)
      && CountsTriangles(Sys(g.G()), sup)
    }

    /** The state between operations that have gone right: every value is exact. */
    ghost predicate Valid()
      reads this, g, st
    {
      Sound() && Exact(Sys(g.G()), tau)
    }

    /** Starts from the static decomposition. */
    constructor (graph: DynGraph)
      requires graph.Valid() && Fits(Sys(graph.G()))
      ensures Valid() && g == graph && fresh(st)
    {
      hide GraphInv, DynGraph.TableOk, TableMatches, GraphOf, Triangles, StampSet.Marks, StampSet.Valid,
           DynGraph.Valid, Simple, Exact, CountsTriangles, Deg, Fits;
      g := graph;
      var stamps := new StampSet(graph.n);
      st := stamps;
      var t, c := StaticTruss(graph, stamps);
      StoredExactIff(Sys(graph.G()), t);
      StoredWords(graph.G(), t);
      tau := t;
      sup := c;
      queue := [];
      region := [];
      inq := seq(graph.capEdges, _ => false);
      inreg := seq(graph.capEdges, _ => false);
    }

    /**
     Demotion: from values at or above the trussness, where whatever is not queued is stable,
     re-evaluating queued edges comes to an end, and it ends at the trussness exactly if the
     start was calm.
     */
    method Fixpoint()
      requires GraphOk() && |inq| == |tau| && QueueOk(queue, inq, 0) && FlagsBelow(inq, |g.eu|)
      requires FitToDemote(g.G(), tau, inq)
      modifies `tau, `queue, `inq, st
      ensures GraphOk() && |st.s| == old(|st.s|)
      ensures |tau| == old(|tau|) == |inq| && queue == [] && forall e :: 0 <= e < |inq| ==> !inq[e]
      ensures forall e: nat :: At(tau, e) <= old(At(tau, e))
      ensures Exact(Sys(g.G()), tau) <==> Calm(g.G(), old(tau), old(inq))
    {
      hide GraphInv, DynGraph.TableOk, TableMatches, GraphOf, Triangles, StampSet.Marks, StampSet.Valid,
           DynGraph.Valid, Simple, SmallEnds, TriSys.Linear, QueueOk, Exact, ListsNeighbours, Sum, Demoting, Calm,
           FitToDemote, F;
      ghost var gr, tau0, inq0 := g.G(), tau, inq;
      g.InvBounds();
      DemotingStart(gr, tau, inq);
      var head := 0;
      while head < |queue|
        invariant st.Valid() && |st.s| == old(|st.s|)
        invariant |tau| == |tau0| == |inq|
        invariant 0 <= head <= |queue| && QueueOk(queue, inq, head)
        invariant FlagsBelow(inq, |g.eu|)
        invariant Demoting(gr, tau0, inq0, tau, inq)
        decreases Sum(tau), |queue| - head
      {
        var eid := queue[head];
        PopOk(queue, inq, head);
        if !g.Alive(eid) {
          DemotingKeep(gr, tau0, inq0, tau, inq, eid);
          head := head + 1;
          inq := inq[eid := false];
          continue;
        }
        var nt := LocalEvaluation.EvalTrussness(g, eid, tau, st);
        head := head + 1;
        if nt < tau[eid] {
          Demote(eid, nt, head - 1, tau0, inq0);
        } else {
          DemotingKeep(gr, tau0, inq0, tau, inq, eid);
          inq := inq[eid := false];
        }
      }
      QueueEmpty(queue, inq, head);
      DemotingDone(gr, tau0, inq0, tau, inq);
      NoneRose(gr, tau0, inq0, tau, inq);
      queue := [];
    }

    /** Takes the edge in front of the queue off, lowers its value and queues the edges at its ends. */
    method Demote(eid: nat, nt: nat, ghost head: nat, ghost tau0: seq<nat>, ghost inq0: seq<bool>)
      requires g.Valid() && g.capEdges <= |tau| == |inq| && eid in g.G() && eid < |tau|
      requires QueueOk(queue, inq, head) && head < |queue| && queue[head] == eid
      requires FlagsBelow(inq, |g.eu|) && Demoting(g.G(), tau0, inq0, tau, inq)
      requires nt == LocalEvaluation.Evaluated(Sys(g.G()), tau, LocalEvaluation.EVAL_LIMIT, eid) < tau[eid]
      modifies `tau, `queue, `inq
      ensures |tau| == old(|tau|) == |inq|
      ensures QueueOk(queue, inq, head + 1) && head + 1 <= |queue| && FlagsBelow(inq, |g.eu|)
      ensures Demoting(g.G(), tau0, inq0, tau, inq)
      ensures Sum(tau) < old(Sum(tau))
    {
      hide GraphInv, DynGraph.TableOk, TableMatches, GraphOf, Triangles, DynGraph.Valid, Simple, SmallEnds,
           TriSys.Linear, QueueOk, ListsNeighbours, Sum, Demoting, Meets, LocalEvaluation.Evaluated;
      ghost var gr := g.G();
      ghost var was := inq;
      g.InvBounds();
      PopOk(queue, inq, head);
      inq := inq[eid := false];
      ghost var tauWas := tau;
      SumUpdate(tau, eid, nt);
      tau := tau[eid := nt];
      var u, v := g.eu[eid], g.ev[eid];
      g.ListOk(u);
      g.ListOk(v);
      queue, inq := PushList(g.adj[u], queue, inq, head + 1, |g.eu|);
      queue, inq := PushList(g.adj[v], queue, inq, head + 1, |g.eu|);
      ListsMeet(gr, eid, g.adj[u], g.adj[v]);
      DemotingLower(gr, tau0, inq0, tauWas, was, eid, nt, inq);
    }

    /** The region as it stands. */
    ghost function Region(): Growth
      reads this
    {
      Growth(tau, inreg, region, queue, inq)
    }

    /**
     Collects the triangle closure of the new edge, with every old edge in it raised to its bound
     and the value of the new edge left alone.
     */
    method CloseRegion(x: nat, ghost tau0: seq<nat>)
      requires GraphOk() && CountsTriangles(Sys(g.G()), sup) && RoomToRise(Sys(g.G()), tau0, sup, x) && |sup| == |tau|
      requires Growing(Sys(g.G()), tau0, x, Region(), 0) && AtBounds(Sys(g.G()), tau0, sup, x, Region())
      requires PartnersIn(Triangles(g.G()), x, inreg)
      modifies `tau, `inreg, `region, `queue, `inq, st
      ensures GraphOk() && |tau| == old(|tau|)
      ensures Growing(Sys(g.G()), tau0, x, Region(), |queue|) && AtBounds(Sys(g.G()), tau0, sup, x, Region())
      ensures At(tau, x) == old(At(tau, x))
      ensures IsClosure(Sys(g.G()), {x}, Elements(region))
    {
      hide GraphInv, DynGraph.TableOk, TableMatches, GraphOf, Triangles, StampSet.Marks, StampSet.Valid,
           DynGraph.Valid, Simple, SmallEnds, TriSys.Linear, Growing, CountsTriangles, PartnersIn, FlagsKept, Flagged,
           Enumerates, Deg, Closed, Elements, TriSys.Valid, AtBounds, RoomToRise, IsClosure;
      ghost var sys := Sys(g.G());
      g.SysProper();
      var head := 0;
      var r := Growth(tau, inreg, region, queue, inq);
      assert ExpandedTo(sys.tris, x, queue, 0, inreg);
      hide ExpandedTo;
      GrowingSize(sys, tau0, x, r, 0);
      while head < |r.queue|
        invariant st.Valid() && |st.s| == old(|st.s|)
        invariant tau == old(tau) && |r.tau| == |tau| == |sup| && At(r.tau, x) == At(tau, x)
        invariant 0 <= head <= |r.queue| && |r.region| == 1 + |r.queue|
        invariant Growing(sys, tau0, x, r, head) && AtBounds(sys, tau0, sup, x, r)
        invariant ExpandedTo(sys.tris, x, r.queue, head, r.inreg)
        decreases |sys.edges| - |r.region|, |r.queue| - head
      {
        var f := r.queue[head];
        ghost var was := r;
        GrowingPop(sys, tau0, x, r, head);
        GrowthPop(sys, tau0, sup, x, r, f);
        r := r.(inq := r.inq[f := false]);
        head := head + 1;
        var ws := g.EdgeTriangles(f, st);
        r := ExpandEdge(f, ws, sup, r, sys, tau0, x, head);
        GrowingSize(sys, tau0, x, r, head);
        ExpandedStep(sys.tris, x, was.queue, head - 1, was.inreg, r.queue, r.inreg);
      }
      RegionClosed(sys, tau0, x, r, head);
      tau, inreg, region, queue, inq := r.tau, r.inreg, r.region, r.queue, r.inq;
    }

    /** ensure_capacity. */
    method EnsureCapacity(eid: nat)
      requires |tau| == |sup| == |inq| == |inreg|
      modifies `tau, `sup, `inq, `inreg
      ensures |tau| == |sup| == |inq| == |inreg| && eid < |tau|
      ensures |tau| == if eid < old(|tau|) then old(|tau|)
                       else if eid + 1 > old(|tau|) * 2 + 1024 then eid + 1 else old(|tau|) * 2 + 1024
      ensures forall e :: At(tau, e) == old(At(tau, e)) && At(sup, e) == old(At(sup, e))
      ensures forall e :: 0 <= e < |inq| ==> inq[e] == (e < old(|inq|) && old(inq)[e])
      ensures forall e :: 0 <= e < |inreg| ==> inreg[e] == (e < old(|inreg|) && old(inreg)[e])
    {
      if eid >= |tau| {
        var nsz := if eid + 1 > |tau| * 2 + 1024 then eid + 1 else |tau| * 2 + 1024;
        tau := Resize(tau, nsz, 0);
        sup := Resize(sup, nsz, 0);
        inq := inq + seq(nsz - |inq|, _ => false);
        inreg := inreg + seq(nsz - |inreg|, _ => false);
      }
    }

    /**
     Inserts an edge. Afterwards every value is exact for the enlarged graph, and each old value has
     risen by at most one, exactly if the insertion is calm.
     */
    method Insert(u: nat, v: nat) returns (ok: bool)
      requires Valid() && (u != v ==> u < g.n && v < g.n)
      requires u != v && EKey(u, v) !in Keys(g.G()) ==> g.freeIds != [] || g.capEdges + 1 < 0xFFFF_FFFF
      modifies this, g, st
      ensures Sound() && g.n == old(g.n) && g.Skipped() == old(g.Skipped())
      ensures ok <==> u != v && EKey(u, v) !in old(Keys(g.G()))
      ensures Keys(g.G()) == if ok then old(Keys(g.G())) + {EKey(u, v)} else old(Keys(g.G()))
      ensures Valid() <==> StepCalm(old(Keys(g.G())), Op(false, u, v))
      ensures forall f :: f in old(g.G()) ==> f in g.G() && g.G()[f] == old(g.G())[f]
      ensures Valid() ==> forall f :: f in old(g.G()) ==> old(At(tau, f)) <= At(tau, f) <= old(At(tau, f)) + 1
    {
      hide GraphInv, DynGraph.TableOk, TableMatches, GraphOf, Triangles, StampSet.Marks, StampSet.Valid,
           DynGraph.Valid, Simple, SmallEnds, TriSys.Linear, Exact, CountsTriangles, Deg, EKey, Keys, ListsCommon,
           InTruss, Supports, InsertCalm, Canonical, Words;
      ghost var g0 := g.G();
      ok := false;
      g.InvBounds();
      if u == v {
        return;
      }
      KeyPresent(g0, u, v);
      var present := g.Has(u, v);
      if present {
        return;
      }
      ok := true;
      ghost var eid := InsertNew(u, v);
      g.InvBounds();
      OnlyJoin(g.G(), eid, u, v);
      CalmByKeys(g.G(), eid);
    }

    method InsertNew(u: nat, v: nat) returns (ghost eid: nat)
      requires Valid() && u < g.n && v < g.n && u != v
      requires !exists e :: Joins(g.G(), e, u, v)
      requires g.freeIds != [] || g.capEdges + 1 < 0xFFFF_FFFF
      modifies this, g, st
      ensures Sound() && g.n == old(g.n) && g.Skipped() == old(g.Skipped())
      ensures Keys(g.G()) == old(Keys(g.G())) + {EKey(u, v)}
      ensures Joins(g.G(), eid, u, v) && (Valid() <==> InsertCalm(g.G(), eid))
      ensures forall f :: f in old(g.G()) ==> f in g.G() && g.G()[f] == old(g.G())[f]
      ensures Valid() ==> forall f :: f in old(g.G()) ==> old(At(tau, f)) <= At(tau, f) <= old(At(tau, f)) + 1
    {
      hide GraphInv, DynGraph.TableOk, TableMatches, GraphOf, Triangles, StampSet.Marks, StampSet.Valid,
           DynGraph.Valid, Simple, SmallEnds, TriSys.Linear, Exact, CountsTriangles, Deg, EKey, Keys, ListsCommon,
           Enumerates, InTruss, Supports, Without, InsertCalm, Words, DynGraph.Skipped;
      ghost var g0, tau0, sup0 := g.G(), tau, sup;
      g.InvBounds();
      ghost var nb;
      var ws: seq<Wedge>;
      nb, ws := g.CommonNeighbours(u, v, st);
      var id := g.AddEdge(u, v);
      eid := id;
      g.InvBounds();
      ghost var g1 := g.G();
      EnsureCapacity(id);
      JoinFacts(g0, g1, id, u, v, nb, ws, tau0, tau, sup0, sup);
      WordsKept(tau0, tau);
      RaiseNew(id, ws);
      if Exact(Sys(g1), tau) {
        RoseByAtMostOne(g0, g1, id, tau0, tau);
      }
    }

    /** Takes the values to those of the graph with the edge eid, if its insertion is calm. */
    method RaiseNew(eid: nat, ws: seq<Wedge>)
      requires GraphOk() && Idle() && Words(tau) && eid in g.G() && Enumerates(Triangles(g.G()), eid, ws)
      requires Exact(Sys(g.G() - {eid}), tau) && CountsTriangles(Sys(g.G() - {eid}), sup)
      modifies this, st
      ensures GraphOk() && Idle() && Words(tau)
      ensures CountsTriangles(Sys(g.G()), sup)
      ensures Exact(Sys(g.G()), tau) <==> InsertCalm(g.G(), eid)
    {
      hide GraphInv, DynGraph.TableOk, TableMatches, GraphOf, Triangles, StampSet.Marks, StampSet.Valid,
           DynGraph.Valid, Simple, SmallEnds, TriSys.Linear, Exact, CountsTriangles, Deg, Enumerates, Growing,
           PartnersIn, Closed, Elements, InTruss, Supports, Without, QueueOk, FlagsBelow, TriSys.Valid, AtBounds,
           RoomToRise, SeedStored, IsClosure, NewValueOk, RaisedOk, RisesByOne, Words, Calm, InsertCalm, FitToDemote,
           RegionOk;
      ghost var gr, tau0 := g.G(), tau;
      g.IdsBelow();
      SeedRegion(eid, ws);
      CloseRegion(eid, tau0);
      GrowingFacts(Sys(gr), tau0, eid, Region());
      ghost var r := Region();
      queue, inq := QueueRegion(region, inq);
      GrownToDemote(g, eid, tau0, sup, ws, r, inq);
      RegionBelow(Sys(gr), region, inreg, inq, |g.eu|);
      Fixpoint();
      WordsLower(r.tau, tau);
      inreg := ClearFlags(region, inreg);
      region := [];
    }

    /** Gives the new edge its bound and raises the edges on its triangles. */
    method SeedRegion(eid: nat, ws: seq<Wedge>)
      requires GraphOk() && Idle() && Words(tau) && eid in g.G() && Enumerates(Triangles(g.G()), eid, ws)
      requires Exact(Sys(g.G() - {eid}), tau) && CountsTriangles(Sys(g.G() - {eid}), sup)
      modifies `sup, `tau, `inreg, `region, `queue, `inq
      ensures GraphOk() && |tau| == old(|tau|) == |sup|
      ensures CountsTriangles(Sys(g.G()), sup)
      ensures RoomToRise(Sys(g.G()), old(tau), sup, eid) && AtBounds(Sys(g.G()), old(tau), sup, eid, Region())
      ensures Growing(Sys(g.G()), old(tau), eid, Region(), 0) && SeedStored(ws, old(tau), At(tau, eid))
      ensures eid in Sys(g.G()).edges && NewValueOk(Sys(g.G()), eid, At(tau, eid))
      ensures PartnersIn(Triangles(g.G()), eid, inreg)
    {
      hide GraphInv, DynGraph.TableOk, TableMatches, GraphOf, Triangles, StampSet.Marks, StampSet.Valid,
           DynGraph.Valid, Simple, SmallEnds, TriSys.Linear, Exact, CountsTriangles, Deg, Enumerates, Growing,
           PartnersIn, Closed, Elements, InTruss, Supports, Without, QueueOk, WedgesIn, RoomToRise, CountsLive,
           Avoiding, AtBounds, SeedStored, TriSys.Valid, NewValueOk, Words;
      g.SysProper();
      SmallerSys(g, eid);
      SeedRanges(g, eid, ws);
      var r;
      sup, r := SeedValues(eid, ws, sup, tau, inreg, inq, Sys(g.G() - {eid}), Sys(g.G()));
      tau, inreg, region, queue, inq := r.tau, r.inreg, r.region, r.queue, r.inq;
    }

    /**
     Removes an edge. Afterwards every value is exact for the remaining graph, and each of the other
     values has dropped by at most one, exactly if the removal is calm.
     */
    method Remove(u: nat, v: nat) returns (ok: bool)
      requires Valid() && u < VERTEX_SPACE && v < VERTEX_SPACE
      modifies this, g, st
      ensures Sound() && g.n == old(g.n) && g.Skipped() == old(g.Skipped())
      ensures ok <==> u != v && EKey(u, v) in old(Keys(g.G()))
      ensures Keys(g.G()) == if ok then old(Keys(g.G())) - {EKey(u, v)} else old(Keys(g.G()))
      ensures Valid() <==> StepCalm(old(Keys(g.G())), Op(true, u, v))
      ensures forall f :: f in g.G() ==> f in old(g.G()) && g.G()[f] == old(g.G())[f]
      ensures Valid() ==> forall f :: f in g.G() ==> At(tau, f) <= old(At(tau, f)) <= At(tau, f) + 1
    {
      hide GraphInv, DynGraph.TableOk, GraphOf, Triangles, StampSet.Marks, StampSet.Valid, Simple, SmallEnds,
           TriSys.Linear, Exact, CountsTriangles, Deg, EKey, Keys, ListsCommon, InTruss, Supports, TableMatches,
           RemoveCalm, Canonical, Words;
      ghost var g0 := g.G();
      g.InvBounds();
      ok := false;
      if u == v {
        return;
      }
      var found := g.Find(EKey(u, v));
      KeyPresent(g.G(), u, v);
      HasKey(g.G(), g.table, u, v);
      if found < 0 {
        return;
      }
      ok := true;
      OnlyJoin(g0, found, u, v);
      CalmByKeys(g0, found);
      RemoveFound(found, u, v);
    }

    method RemoveFound(e: nat, u: nat, v: nat)
      requires Valid() && Joins(g.G(), e, u, v) && u < VERTEX_SPACE && v < VERTEX_SPACE
      modifies this, g, st
      ensures Sound() && g.n == old(g.n) && g.Skipped() == old(g.Skipped())
      ensures Keys(g.G()) == old(Keys(g.G())) - {EKey(u, v)}
      ensures Valid() <==> RemoveCalm(old(g.G()), e)
      ensures forall f :: f in g.G() ==> f in old(g.G()) && g.G()[f] == old(g.G())[f]
      ensures Valid() ==> forall f :: f in g.G() ==> At(tau, f) <= old(At(tau, f)) <= At(tau, f) + 1
    {
      hide GraphInv, DynGraph.TableOk, TableMatches, GraphOf, Triangles, StampSet.Marks, StampSet.Valid,
           DynGraph.Valid, Simple, SmallEnds, TriSys.Linear, Exact, CountsTriangles, Deg, Keys, ListsCommon,
           Enumerates, PartnersIn, InTruss, Supports, Without, CountsLive, Avoiding, QueueOk, FlagsBelow, WedgesIn,
           OnlyWedges, EKey, DynGraph.Skipped, RemoveCalm, Calm, FitToDemote, Words;
      ghost var g0, tau0 := g.G(), tau;
      g.Sizes();
      g.IdsBelow();
      g.EdgeEnds(e, u, v);
      SysOk(g0);
      ghost var nb;
      var ws: seq<Wedge>;
      nb, ws := g.CommonNeighbours(u, v, st);
      CommonAreTriangles(g0, e, u, v, nb, ws);
      sup, queue, inq := LoseTriangles(ws, sup, inq, Sys(g0), e, g.capEdges);
      g.RemoveEdge(e);
      g.Sizes();
      g.IdsBelow();
      tau := tau[e := 0];
      ghost var tau1 := tau;
      RemoveFacts(g0, e, u, v, tau0, tau, sup, inq, ws, g.capEdges, |g.eu|);
      sup := sup[e := 0];
      Fixpoint();
      WordsLower(tau0, tau1);
      WordsLower(tau1, tau);
      if Exact(Sys(g0 - {e}), tau) {
        FellByAtMostOne(g0, e, tau0, tau);
      }
    }

    lemma RoomToInsert(u: nat, v: nat)
      requires Valid() && (u != v ==> g.Room(|Keys(g.G()) + {EKey(u, v)}|))
      ensures u != v && EKey(u, v) !in Keys(g.G()) ==> g.freeIds != [] || g.capEdges + 1 < 0xFFFF_FFFF
    {
      hide GraphInv, DynGraph.TableOk, TableMatches, GraphOf, StampSet.Valid, Simple, SmallEnds, Exact,
           CountsTriangles, EKey, Keys, Words;
      g.InvBounds();
      KeysCard(g.G());
    }

    /** A whole stream of operations, one at a time, each of them calm. */
    method Run(raw: seq<Op>)
      requires Valid() && OpsInRange(raw, g.n)
      requires forall i :: 0 <= i < |raw| ==> StepCalm(SeqKeys(Keys(g.G()), raw[..i]), raw[i])
      requires forall i :: 0 <= i <= |raw| ==> g.Room(|SeqKeys(Keys(g.G()), raw[..i])|)
      modifies this, g, st
      ensures Valid() && Keys(g.G()) == SeqKeys(old(Keys(g.G())), raw)
    {
      hide Valid, Sound, Keys, SeqKeys, EKey, DynGraph.Skipped, StepCalm;
      ghost var keys := Keys(g.G());
      NoOps(keys);
      for i := 0 to |raw|
        invariant Valid() && Keys(g.G()) == SeqKeys(keys, raw[..i])
        invariant g.n == old(g.n) && g.Skipped() == old(g.Skipped())
      {
        var op := raw[i];
        SeqKeysNext(keys, raw, i);
        assert g.Room(|SeqKeys(keys, raw[..i + 1])|) && StepCalm(SeqKeys(keys, raw[..i]), raw[i]);
        ghost var now := Keys(g.G());
        if op.del {
          var ok := Remove(op.u, op.v);
          RemoveMatches(now, op, ok, Keys(g.G()));
        } else {
          assert op.u != op.v ==> now + {EKey(op.u, op.v)} == OneKeys(now, op);
          RoomToInsert(op.u, op.v);
          var ok := Insert(op.u, op.v);
          InsertMatches(now, op, ok, Keys(g.G()));
        }
      }
      assert raw[..|raw|] == raw;
    }

    /** The maintained value of an edge is its trussness in the graph with these edge keys. */
    lemma ValuesByKeys()
      requires Valid()
      ensures forall e :: e in g.G() ==>
                            && KeyOf(g.G(), e) in Keys(g.G()) && At(tau, e) == KeyTruss(Keys(g.G()), KeyOf(g.G(), e))
                            && At(tau, e) < TAU_SPACE
    {
      hide GraphInv, DynGraph.TableOk, TableMatches, GraphOf, Triangles, StampSet.Marks, StampSet.Valid,
           DynGraph.Valid, Simple, SmallEnds, Deg, InTruss, Keys, KeyOf, KeyTruss, CountsTriangles;
      g.InvBounds();
      TrussByKeys(g.G());
      assert forall e :: e in g.G() ==> e in Sys(g.G()).edges;
    }
  }

  /** What an insertion does to the graph and to what the arrays say about it. */
  lemma JoinFacts(g0: Graph, g1: Graph, e: nat, u: nat, v: nat, nb: seq<nat>, ws: seq<Wedge>, tau0: seq<nat>,
                  tau: seq<nat>, sup0: seq<nat>, sup: seq<nat>)
    requires Simple(g0) && Simple(g1) && SmallEnds(g1) && u != v && e !in g0
    requires g1 == g0[e := if u < v then (u, v) else (v, u)] && ListsCommon(g0, u, v, nb, ws)
    requires forall f :: At(tau, f) == At(tau0, f) && At(sup, f) == At(sup0, f)
    ensures e in g1 && Enumerates(Triangles(g1), e, ws)
    ensures Without(Sys(g0), Sys(g1), e) && g1 - {e} == g0
    ensures Exact(Sys(g0), tau0) ==> Exact(Sys(g0), tau)
    ensures CountsTriangles(Sys(g0), sup0) ==> CountsTriangles(Sys(g0), sup)
    ensures Keys(g1) == Keys(g0) + {EKey(u, v)}
    ensures forall f :: f in g0 ==> f in g1 && g1[f] == g0[f]
  {
    hide Triangles, ListsCommon, Enumerates, Simple, SmallEnds, TriSys.Linear, Keys, Deg, Trussness;
    CommonAfterJoin(g0, u, v, e, nb, ws);
    CommonAreTriangles(g1, e, u, v, nb, ws);
    assert g1 - {e} == g0;
    DeleteOne(g1, e);
    KeysAdd(g0, e, if u < v then u else v, if u < v then v else u);
  }

  lemma RoseByAtMostOne(g0: Graph, g1: Graph, e: nat, tau0: seq<nat>, tau: seq<nat>)
    requires Simple(g1) && Without(Sys(g0), Sys(g1), e) && Exact(Sys(g0), tau0) && Exact(Sys(g1), tau)
    ensures forall f :: f in g0 ==> At(tau0, f) <= At(tau, f) <= At(tau0, f) + 1
  {
    SysOk(g1);
    OneEdgeSensitivity(Sys(g0), Sys(g1), e);
    hide Triangles, InTruss, Deg;
    forall f | f in g0 ensures At(tau0, f) <= At(tau, f) <= At(tau0, f) + 1 {
      assert f in Sys(g0).edges && f in Sys(g1).edges;
    }
  }

  /** What a removal does to the graph and to what the arrays say about it. */
  lemma RemoveFacts(g0: Graph, e: nat, u: nat, v: nat, tau0: seq<nat>, tau: seq<nat>, sup: seq<nat>, inq: seq<bool>,
                    ws: seq<Wedge>, cap: nat, bound: nat)
    requires Simple(g0) && SmallEnds(g0) && Joins(g0, e, u, v) && u < VERTEX_SPACE && v < VERTEX_SPACE
    requires Exact(Sys(g0), tau0) && e < |tau0| && tau == tau0[e := 0]
    requires e < |sup| && CountsLive(Sys(g0), Avoiding(Triangles(g0), {e}), sup, e)
    requires Enumerates(Triangles(g0), e, ws) && WedgesIn(ws, |ws|, inq) && OnlyWedges(ws, |ws|, e, inq)
    requires e < |inq| && forall f :: f in g0 ==> f < |inq|
    requires FlagsBelow(inq, cap) && cap <= bound
    ensures var g1 := g0 - {e};
            && FitToDemote(g1, tau, inq) && (Calm(g1, tau, inq) <==> RemoveCalm(g0, e))
            && CountsTriangles(Sys(g1), sup[e := 0])
            && Keys(g1) == Keys(g0) - {EKey(u, v)}
    ensures FlagsBelow(inq, bound)
  {
    hide Triangles, Enumerates, Simple, SmallEnds, Keys, Deg, Trussness, Avoiding, Without, CountsLive,
         CountsTriangles, WedgesIn, OnlyWedges, Above, StableUnlessQueued, Exact, Calm, RemoveCalm;
    var g1 := g0 - {e};
    DeleteOne(g0, e);
    DeleteEdges(g0, {e});
    SysOk(g0);
    SysOk(g1);
    FlaggedPartners(Triangles(g0), e, ws, inq);
    RemovalReady(Sys(g1), Sys(g0), e, tau0, tau, inq);
    RemovalCounts(Sys(g1), Sys(g0), e, sup);
    RemoveCalmIff(g0, e, tau0, tau, ws, inq);
    KeysDelete(g0, e);
    assert KeyOf(g0, e) == EKey(u, v);
  }

  lemma FellByAtMostOne(g0: Graph, e: nat, tau0: seq<nat>, tau: seq<nat>)
    requires Simple(g0) && e in g0 && Exact(Sys(g0), tau0) && Exact(Sys(g0 - {e}), tau)
    ensures forall f :: f in g0 - {e} ==> At(tau, f) <= At(tau0, f) <= At(tau, f) + 1
  {
    DeleteOne(g0, e);
    RoseByAtMostOne(g0 - {e}, g0, e, tau, tau0);
  }

  /** Whatever edge joins u and v is this one. */
  lemma OnlyJoin(g: Graph, e: nat, u: nat, v: nat)
    requires Simple(g) && Joins(g, e, u, v)
    ensures KeyOf(g, e) == EKey(u, v)
    ensures forall x :: Joins(g, x, u, v) ==> x == e
  {}

  lemma StoredWords(g: Graph, tau: seq<nat>)
    requires Stored(Sys(g), tau) && forall e: nat :: e < |tau| && e !in g ==> tau[e] == 0
    ensures Words(tau)
  {
    hide Triangles, Trussness, Word;
    forall e | 0 <= e < |tau| ensures tau[e] < TAU_SPACE {
      if e in g {
        assert e in Sys(g).edges;
      }
    }
  }

  lemma WordsKept(tau0: seq<nat>, tau: seq<nat>)
    requires Words(tau0) && forall e :: At(tau, e) == At(tau0, e)
    ensures Words(tau)
  {
    forall e | 0 <= e < |tau| ensures tau[e] < TAU_SPACE {
      assert tau[e] == At(tau, e) == At(tau0, e);
    }
  }

  lemma WordsLower(tau0: seq<nat>, tau: seq<nat>)
    requires Words(tau0) && forall e: nat :: At(tau, e) <= At(tau0, e)
    ensures Words(tau)
  {
    forall e | 0 <= e < |tau| ensures tau[e] < TAU_SPACE {
      assert tau[e] == At(tau, e) <= At(tau0, e);
    }
  }

  /** The graph without one of its edges. */
  lemma SmallerSys(g: DynGraph, e: nat)
    requires g.Valid() && e in g.G()
    ensures Sys(g.G() - {e}).Valid() && Without(Sys(g.G() - {e}), Sys(g.G()), e)
  {
    hide GraphInv, DynGraph.TableOk, TableMatches, GraphOf, Triangles, Simple, SmallEnds, TriSys.Linear;
    g.InvBounds();
    DeleteOne(g.G(), e);
    DeleteEdges(g.G(), {e});
    SysOk(g.G() - {e});
  }

  /** The queued region may be demoted, and is calm exactly if the insertion is. */
  lemma GrownToDemote(g: DynGraph, x: nat, tau0: seq<nat>, sup: seq<nat>, ws: seq<Wedge>, r: Growth, inq: seq<bool>)
    requires g.Valid() && x in g.G() && Exact(Sys(g.G() - {x}), tau0) && Enumerates(Triangles(g.G()), x, ws)
    requires Growing(Sys(g.G()), tau0, x, r, |r.queue|) && IsClosure(Sys(g.G()), {x}, Elements(r.region))
    requires CountsTriangles(Sys(g.G()), sup) && AtBounds(Sys(g.G()), tau0, sup, x, r)
    requires SeedStored(ws, tau0, At(r.tau, x)) && x in Sys(g.G()).edges && NewValueOk(Sys(g.G()), x, At(r.tau, x))
    requires |inq| == |r.inreg| && forall e :: 0 <= e < |inq| ==> (inq[e] <==> e in r.region)
    ensures FitToDemote(g.G(), r.tau, inq)
    ensures Calm(g.G(), r.tau, inq) <==> InsertCalm(g.G(), x)
  {
    hide GraphInv, DynGraph.TableOk, TableMatches, GraphOf, Triangles, Simple, SmallEnds, TriSys.Linear, TriSys.Valid,
         Growing, Exact, Enumerates, IsClosure, CountsTriangles, AtBounds, SeedStored, NewValueOk, RaisedOk,
         RisesByOne, RegionOk, DynGraph.Valid, Calm, InsertCalm, Above, StableUnlessQueued, Trussness, Without,
         Elements, Closed;
    ghost var gr := g.G();
    g.InvBounds();
    g.SysProper();
    SmallerSys(g, x);
    GrowingParts(Sys(gr), tau0, x, r);
    ClosureFacts(Sys(gr), x, Elements(r.region));
    RegionFlags(Sys(gr), r.region, r.inreg, inq);
    InsertCalmIff(gr, x, tau0, sup, ws, r, inq);
    if forall f :: f in gr && Flagged(inq, f) ==> Small(gr, f) {
      forall e | e in r.region ensures Trussness(Sys(gr), e) <= LocalEvaluation.EVAL_LIMIT {
        assert Flagged(inq, e);
      }
      ReadyToDemote(Sys(gr - {x}), Sys(gr), x, tau0, r.tau, r.inreg, r.region, inq);
    }
  }

  lemma RegionFlags(sys: TriSys, region: seq<nat>, inreg: seq<bool>, inq: seq<bool>)
    requires RegionOk(sys, region, inreg) && |inq| == |inreg|
    requires forall e :: 0 <= e < |inq| ==> (inq[e] <==> e in region)
    ensures forall f: nat :: Flagged(inq, f) <==> f in region
    ensures forall e :: e in region ==> e in sys.edges && e < |inq| && inq[e]
  {}

  lemma RemoveMatches(now: set<nat>, op: Op, ok: bool, after: set<nat>)
    requires op.del && (ok <==> op.u != op.v && EKey(op.u, op.v) in now)
    requires after == if ok then now - {EKey(op.u, op.v)} else now
    ensures after == OneKeys(now, op)
  {}

  lemma InsertMatches(now: set<nat>, op: Op, ok: bool, after: set<nat>)
    requires !op.del && (ok <==> op.u != op.v && EKey(op.u, op.v) !in now)
    requires after == if ok then now + {EKey(op.u, op.v)} else now
    ensures after == OneKeys(now, op)
  {}
}
