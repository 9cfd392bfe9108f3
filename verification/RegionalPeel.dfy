/**
 Peeling a region of the graph inside a boundary of edges whose trussness is known
 (region_peel in src/batch.h).
 */
module RegionalPeel {
  import opened DynamicGraph
  import FiniteSets
  import opened Peeling
  import opened Regions
  import opened SimpleGraph
  import opened Stamps
  import opened Truss

  // ---------------------------------------------------------------- boundary events

  /** A boundary edge and the level at which it dies. */
  datatype Event = Event(level: nat, edge: nat)

  /** A boundary edge dies at its trussness minus two. */
  function EventOf(tau: seq<nat>, e: nat): Event {
    Event(if At(tau, e) >= 2 then At(tau, e) - 2 else 0, e)
  }

  predicate NotAfter(a: Event, b: Event) {
    a.level < b.level || (a.level == b.level && a.edge <= b.edge)
  }

  function InsertEvent(x: Event, s: seq<Event>): (r: seq<Event>)
    ensures |r| == |s| + 1
    ensures forall y :: y in r <==> y == x || y in s
  {
    if s == [] || NotAfter(x, s[0]) then [x] + s else [s[0]] + InsertEvent(x, s[1..])
  }

  /** std::sort on pairs. */
  function SortEvents(s: seq<Event>): (r: seq<Event>)
    ensures |r| == |s|
    ensures forall y :: y in r <==> y in s
  {
    if s == [] then [] else InsertEvent(s[0], SortEvents(s[1..]))
  }

  ghost predicate Ordered(s: seq<Event>) {
    forall i, j :: 0 <= i < j < |s| ==> s[i].level <= s[j].level
  }

  ghost predicate DistinctEdges(s: seq<Event>) {
    forall i, j :: 0 <= i < j < |s| ==> s[i].edge != s[j].edge
  }

  lemma ConsOrdered(x: Event, t: seq<Event>)
    requires Ordered(t) && DistinctEdges(t)
    requires forall y :: y in t ==> x.level <= y.level && x.edge != y.edge
    ensures Ordered([x] + t) && DistinctEdges([x] + t)
  {
    var r := [x] + t;
    forall i, j | 0 <= i < j < |r| ensures r[i].level <= r[j].level && r[i].edge != r[j].edge {
      assert r[j] == t[j - 1] && t[j - 1] in t;
      assert i > 0 ==> r[i] == t[i - 1];
    }
  }

  lemma TailOrdered(s: seq<Event>)
    requires Ordered(s) && DistinctEdges(s) && s != []
    ensures Ordered(s[1..]) && DistinctEdges(s[1..])
    ensures forall y :: y in s[1..] ==> y in s && s[0].level <= y.level && s[0].edge != y.edge
  {}

  lemma {:induction false} InsertOrdered(x: Event, s: seq<Event>)
    requires Ordered(s) && DistinctEdges(s) && forall y :: y in s ==> y.edge != x.edge
    ensures Ordered(InsertEvent(x, s)) && DistinctEdges(InsertEvent(x, s))
    decreases |s|
  {
    hide Ordered, DistinctEdges;
    if s == [] {
      ConsOrdered(x, s) by { assert Ordered(s) && DistinctEdges(s); }
    } else {
      TailOrdered(s);
      if NotAfter(x, s[0]) {
        assert forall y :: y in s ==> y == s[0] || y in s[1..];
        ConsOrdered(x, s);
      } else {
        InsertOrdered(x, s[1..]);
        ConsOrdered(s[0], InsertEvent(x, s[1..]));
      }
    }
  }

  lemma {:induction false} SortOrdered(s: seq<Event>)
    requires DistinctEdges(s)
    ensures Ordered(SortEvents(s)) && DistinctEdges(SortEvents(s))
    decreases |s|
  {
    if s != [] {
      SortOrdered(s[1..]);
      forall y | y in SortEvents(s[1..]) ensures y.edge != s[0].edge {
        var j :| 0 <= j < |s[1..]| && s[1..][j] == y;
      }
      InsertOrdered(s[0], SortEvents(s[1..]));
    }
  }

  /** Drops repeated edges, which the marks already rule out. */
  method Dedup(s: seq<Event>) returns (r: seq<Event>)
    requires DistinctEdges(s)
    ensures r == s
  {
    r := [];
    for i := 0 to |s|
      invariant r == s[..i]
    {
      if !(i > 0 && s[i].edge == r[|r| - 1].edge) {
        r := r + [s[i]];
      }
    }
  }

  // ---------------------------------------------------------------- counting the region

  /** The boundary found so far: edges outside the region that touch it, marked and listed once. */
  ghost predicate BoundaryOk(sys: TriSys, inReg: seq<bool>, mark: seq<bool>, evt: seq<nat>) {
    && |mark| == |inReg|
    && Distinct(evt)
    && (forall e :: 0 <= e < |mark| ==> (mark[e] <==> e in evt))
    && (forall e :: e in evt ==> e in sys.edges && e < |inReg| && !inReg[e] && Touches(sys.tris, inReg, e))
  }

  /** The partners of f are in the region or on the boundary. */
  ghost predicate Covered(tris: set<Triangle>, f: nat, inReg: seq<bool>, mark: seq<bool>) {
    forall t, h :: t in tris && f in t && h in t ==> Flagged(inReg, h) || Flagged(mark, h)
  }

  ghost predicate WedgesCovered(ws: seq<Wedge>, n: nat, inReg: seq<bool>, mark: seq<bool>) {
    forall j :: 0 <= j < n && j < |ws| ==>
                  && (Flagged(inReg, ws[j].e1) || Flagged(mark, ws[j].e1))
                  && (Flagged(inReg, ws[j].e2) || Flagged(mark, ws[j].e2))
  }

  /** Lists m as a boundary edge unless it is in the region or listed. */
  method MarkOne(m: nat, inReg: seq<bool>, mark: seq<bool>, evt: seq<nat>, ghost sys: TriSys)
    returns (mark': seq<bool>, evt': seq<nat>)
    requires BoundaryOk(sys, inReg, mark, evt) && m in sys.edges && m < |inReg| && Touches(sys.tris, inReg, m)
    ensures BoundaryOk(sys, inReg, mark', evt') && FlagsKept(mark, mark')
    ensures Flagged(inReg, m) || Flagged(mark', m)
  {
    mark', evt' := mark, evt;
    if !inReg[m] && !mark'[m] {
      mark' := mark'[m := true];
      evt' := evt' + [m];
    }
  }

  lemma CoverStep(ws: seq<Wedge>, n: nat, inReg: seq<bool>, a: seq<bool>, b: seq<bool>, c: seq<bool>)
    requires n < |ws| && WedgesCovered(ws, n, inReg, a) && FlagsKept(a, b) && FlagsKept(b, c)
    requires Flagged(inReg, ws[n].e1) || Flagged(b, ws[n].e1)
    requires Flagged(inReg, ws[n].e2) || Flagged(c, ws[n].e2)
    ensures WedgesCovered(ws, n + 1, inReg, c) && FlagsKept(a, c)
  {
    KeptTrans(a, b, c);
  }

  lemma CoverListed(tris: set<Triangle>, f: nat, ws: seq<Wedge>, inReg: seq<bool>, mark: seq<bool>)
    requires Enumerates(tris, f, ws) && Flagged(inReg, f) && WedgesCovered(ws, |ws|, inReg, mark)
    ensures Covered(tris, f, inReg, mark)
  {
    hide Flagged;
    forall t, h | t in tris && f in t && h in t ensures Flagged(inReg, h) || Flagged(mark, h) {
      var i :| 0 <= i < |ws| && t == Tri(f, ws[i]);
    }
  }

  method MarkBoundary(f: nat, ws: seq<Wedge>, inReg: seq<bool>, mark: seq<bool>, evt: seq<nat>, ghost sys: TriSys)
    returns (mark': seq<bool>, evt': seq<nat>)
    requires sys.Valid() && Enumerates(sys.tris, f, ws) && Flagged(inReg, f)
    requires BoundaryOk(sys, inReg, mark, evt) && forall e :: e in sys.edges ==> e < |inReg|
    ensures BoundaryOk(sys, inReg, mark', evt') && FlagsKept(mark, mark') && Covered(sys.tris, f, inReg, mark')
  {
    hide BoundaryOk, FlagsKept, WedgesCovered, Covered, Flagged, Enumerates, TriSys.Valid, Touches;
    mark', evt' := mark, evt;
    NothingCovered(ws, inReg, mark);
    for i := 0 to |ws|
      invariant BoundaryOk(sys, inReg, mark', evt') && FlagsKept(mark, mark') && WedgesCovered(ws, i, inReg, mark')
    {
      WedgeOf(sys, f, ws, i);
      WedgeTouches(sys, f, ws, i, inReg);
      ghost var a := mark';
      mark', evt' := MarkOne(ws[i].e1, inReg, mark', evt', sys);
      ghost var b := mark';
      mark', evt' := MarkOne(ws[i].e2, inReg, mark', evt', sys);
      CoverStep(ws, i, inReg, a, b, mark');
      KeptTrans(mark, a, mark');
    }
    CoverListed(sys.tris, f, ws, inReg, mark');
  }

  lemma NothingCovered(ws: seq<Wedge>, inReg: seq<bool>, mark: seq<bool>)
    ensures WedgesCovered(ws, 0, inReg, mark) && FlagsKept(mark, mark)
  {}

  /** The first n listed edges, in the order of the jobs, have been counted and their partners covered. */
  ghost predicate CountedJobs(sys: TriSys, regList: seq<nat>, todo: set<nat>, inReg: seq<bool>, mark: seq<bool>,
                              psup: seq<nat>) {
    forall i :: 0 <= i < |regList| && i !in todo ==>
                  Covered(sys.tris, regList[i], inReg, mark) && At(psup, regList[i]) == Deg(sys.tris, regList[i])
  }

  lemma CountedStep(sys: TriSys, regList: seq<nat>, todo: set<nat>, i: nat, inReg: seq<bool>, mark: seq<bool>,
                    psup: seq<nat>,
                    mark': seq<bool>, psup': seq<nat>)
    requires CountedJobs(sys, regList, todo, inReg, mark, psup) && Distinct(regList) && i < |regList|
    requires FlagsKept(mark, mark') && Covered(sys.tris, regList[i], inReg, mark')
    requires forall e :: e != regList[i] ==> At(psup', e) == At(psup, e)
    requires At(psup', regList[i]) == Deg(sys.tris, regList[i])
    ensures CountedJobs(sys, regList, todo - {i}, inReg, mark', psup')
  {
    hide Deg;
    forall j | 0 <= j < |regList| && j !in todo - {i}
      ensures Covered(sys.tris, regList[j], inReg, mark') && At(psup', regList[j]) == Deg(sys.tris, regList[j])
    {
      if j != i {
        assert j !in todo;
        assert regList[j] != regList[i];
        CoveredKeep(sys.tris, regList[j], inReg, mark, mark');
      }
    }
  }

  lemma CoveredKeep(tris: set<Triangle>, f: nat, inReg: seq<bool>, mark: seq<bool>, mark': seq<bool>)
    requires Covered(tris, f, inReg, mark) && FlagsKept(mark, mark')
    ensures Covered(tris, f, inReg, mark')
  {}

  /**
   The first pass: triangle counts of the region and its boundary. The jobs run in any order.
   */
  method CountRegion(g: DynGraph, st: StampSet, regList: seq<nat>, inReg: seq<bool>, mark0: seq<bool>, psup0: seq<nat>)
    returns (mark: seq<bool>, psup: seq<nat>, evt: seq<nat>)
    requires g.Valid() && st.Valid() && |st.s| >= g.n
    requires RegionOk(Sys(g.G()), regList, inReg)
    requires g.capEdges <= |inReg| == |mark0| == |psup0|
    requires forall e :: 0 <= e < |mark0| ==> !mark0[e]
    modifies st
    ensures st.Valid() && |st.s| == old(|st.s|)
    ensures |mark| == |mark0| && |psup| == |psup0|
    ensures BoundaryOk(Sys(g.G()), inReg, mark, evt)
    ensures CountedJobs(Sys(g.G()), regList, {}, inReg, mark, psup)
  {
    hide GraphInv, DynGraph.TableOk, TableMatches, GraphOf, Triangles, StampSet.Marks, StampSet.Valid, DynGraph.Valid,
         Simple, SmallEnds, BoundaryOk, CountedJobs, FlagsKept, Covered, Enumerates, Deg, RegionOk, Flagged, Distinct,
         FiniteSets.Interval, TriSys.Valid, TriSys.Linear;
    ghost var sys := Sys(g.G());
    g.InvBounds();
    SysOk(g.G());
    mark, psup, evt := mark0, psup0, [];
    NoBoundary(sys, inReg, mark0);
    var todo := FiniteSets.Interval(|regList|);
    NoneCounted(sys, regList, todo, inReg, mark, psup);
    while todo != {}
      invariant st.Valid() && |st.s| == old(|st.s|)
      invariant todo <= FiniteSets.Interval(|regList|)
      invariant |mark| == |mark0| && |psup| == |psup0|
      invariant BoundaryOk(sys, inReg, mark, evt)
      invariant CountedJobs(sys, regList, todo, inReg, mark, psup)
    {
      var i :| i in todo;
      var eid := regList[i];
      RegionAt(sys, regList, inReg, i);
      var ws := g.EdgeTriangles(eid, st);
      EnumerationCount(sys.tris, eid, ws);
      ghost var markWas, psupWas := mark, psup;
      mark, evt := MarkBoundary(eid, ws, inReg, mark, evt, sys);
      KeptLength(markWas, mark);
      psup := psup[eid := |ws|];
      CountedStep(sys, regList, todo, i, inReg, markWas, psupWas, mark, psup);
      todo := todo - {i};
    }
  }

  lemma KeptLength(a: seq<bool>, b: seq<bool>)
    requires FlagsKept(a, b)
    ensures |a| == |b|
  {}

  lemma NoBoundary(sys: TriSys, inReg: seq<bool>, mark: seq<bool>)
    requires |mark| == |inReg| && forall e :: 0 <= e < |mark| ==> !mark[e]
    ensures BoundaryOk(sys, inReg, mark, [])
  {}

  lemma NoneCounted(sys: TriSys, regList: seq<nat>, todo: set<nat>, inReg: seq<bool>, mark: seq<bool>, psup: seq<nat>)
    requires forall i :: 0 <= i < |regList| ==> i in todo
    ensures CountedJobs(sys, regList, todo, inReg, mark, psup)
  {}

  /** What the first pass means: exact counts, and a boundary around the region. */
  lemma CountedFacts(sys: TriSys, regList: seq<nat>, inReg: seq<bool>, mark: seq<bool>, psup: seq<nat>, evt: seq<nat>)
    requires RegionOk(sys, regList, inReg) && BoundaryOk(sys, inReg, mark, evt)
    requires CountedJobs(sys, regList, {}, inReg, mark, psup)
    ensures Surrounded(sys.tris, Elements(regList), Elements(evt))
    ensures Elements(regList) !! Elements(evt) && Elements(regList) <= sys.edges && Elements(evt) <= sys.edges
    ensures forall e :: e in regList ==> At(psup, e) == Deg(sys.tris, e)
  {
    hide Deg;
    forall e | e in regList ensures At(psup, e) == Deg(sys.tris, e) && Covered(sys.tris, e, inReg, mark) {
      var i :| 0 <= i < |regList| && regList[i] == e;
    }
    forall t | t in sys.tris && t * Elements(regList) != {} ensures t <= Elements(regList) + Elements(evt) {
      var f :| f in t && f in Elements(regList);
      forall h | h in t ensures h in Elements(regList) + Elements(evt) {
        assert Flagged(inReg, h) || Flagged(mark, h);
      }
    }
  }

  // ---------------------------------------------------------------- dropping triangles

  /** What stays fixed during the peel: the region and its boundary, as sets and as flags, and the events. */
  datatype Setting = Setting(region: set<nat>, boundary: set<nat>, inReg: seq<bool>, ubIn: seq<bool>, evs: seq<Event>)

  /** The arrays that the peel works on. */
  datatype Peel = Peel(palive: seq<bool>, psup: seq<nat>, tau: seq<nat>, buckets: seq<seq<nat>>)

  /** The flags of the peel: who is in the region, who is on the boundary, and who is still there. */
  ghost predicate PeelFlags(sys: TriSys, c: Setting, dead: set<nat>, palive: seq<bool>) {
    && |c.inReg| == |c.ubIn| == |palive|
    && c.region !! c.boundary
    && (forall e :: e in sys.edges ==> e < |c.inReg|)
    && (forall e :: 0 <= e < |c.inReg| ==> (c.inReg[e] <==> e in c.region) && (c.ubIn[e] <==> e in c.boundary))
    && (forall e :: e in c.region + c.boundary ==> e < |palive| && (palive[e] <==> e !in dead))
    && (forall e :: 0 <= e < |palive| && palive[e] ==> e in c.region + c.boundary)
  }

  lemma FlagDies(sys: TriSys, c: Setting, dead: set<nat>, palive: seq<bool>, x: nat)
    requires PeelFlags(sys, c, dead, palive) && x in c.region + c.boundary
    ensures x < |palive| && (palive[x] <==> x !in dead)
    ensures PeelFlags(sys, c, dead + {x}, palive[x := false])
  {}

  lemma FlagBounds(sys: TriSys, c: Setting, dead: set<nat>, palive: seq<bool>)
    requires PeelFlags(sys, c, dead, palive)
    ensures |c.inReg| == |c.ubIn| == |palive| && forall e :: e in sys.edges ==> e < |c.inReg|
  {}

  /** Whether the peel takes the edge e for dead at level s. */
  predicate TakenForDead(c: Setting, palive: seq<bool>, tau: seq<nat>, s: nat, e: nat)
    requires e < |c.inReg| && e < |c.ubIn| && e < |palive| && e < |tau|
  {
    if c.inReg[e] then !palive[e] else if c.ubIn[e] then !palive[e] else tau[e] < Word(s + 2)
  }

  /**
   The test for dead partners: a triangle on the dying edge x that passes was still there, and
   a triangle that touches the region passes exactly when it was still there.
   */
  lemma LiveTriangle(sys: TriSys, c: Setting, dead: set<nat>, palive: seq<bool>, tau: seq<nat>, s: nat, x: nat,
                     w: Wedge)
    requires PeelFlags(sys, c, dead + {x}, palive) && Surrounded(sys.tris, c.region, c.boundary)
    requires dead <= c.region + c.boundary && x !in dead
    requires sys.Valid() && Tri(x, w) in sys.tris && w.e1 != x && w.e2 != x
    requires w.e1 < |c.inReg| && w.e2 < |c.inReg| && |tau| == |c.inReg|
    ensures var passes := !TakenForDead(c, palive, tau, s, w.e1) && !TakenForDead(c, palive, tau, s, w.e2);
            && (passes ==> Tri(x, w) in Avoiding(sys.tris, dead))
            && (Tri(x, w) * c.region != {} ==> (passes <==> Tri(x, w) in Avoiding(sys.tris, dead)))
  {
    var t := Tri(x, w);
    assert w.e1 in t && w.e2 in t;
    hide Word;
  }

  /** A triangle that fails the test does not count for any survivor. */
  lemma FailedTriangle(sys: TriSys, c: Setting, dead: set<nat>, x: nat, w: Wedge)
    requires Tri(x, w) in Avoiding(sys.tris, dead) ==> Tri(x, w) * c.region == {}
    ensures Tri(x, w) in Avoiding(sys.tris, dead) ==> Tri(x, w) !! c.region - (dead + {x})
  {}

  /** The other edges of a triangle that passes the test survive if they are in the region. */
  lemma PassedEdges(sys: TriSys, c: Setting, dead: set<nat>, palive: seq<bool>, x: nat, w: Wedge)
    requires PeelFlags(sys, c, dead + {x}, palive) && Tri(x, w) in Avoiding(sys.tris, dead) && w.e1 != x && w.e2 != x
    requires w.e1 < |c.inReg| && w.e2 < |c.inReg|
    ensures c.inReg[w.e1] == (w.e1 in c.region) && c.inReg[w.e2] == (w.e2 in c.region)
    ensures w.e1 in c.region ==> w.e1 in c.region - (dead + {x})
    ensures w.e2 in c.region ==> w.e2 in c.region - (dead + {x})
  {
    assert w.e1 in Tri(x, w) && w.e2 in Tri(x, w);
  }

  /** Lowers the counter of m if it is in the region. */
  method LowerIfRegion(m: nat, s: nat, inReg: seq<bool>, psup: seq<nat>, buckets: seq<seq<nat>>,
                       ghost region: set<nat>, ghost todo: set<nat>, ghost i: nat)
    returns (psup': seq<nat>, buckets': seq<seq<nat>>)
    requires m < |inReg| && inReg[m] == (m in region) && (m in region ==> m in todo) && todo <= region
    requires Queued(buckets, todo, psup, s, i) && BucketsIn(buckets, region) && s < |buckets| && i <= |buckets[s]|
    ensures psup' == (if m in region && m < |psup| then Lower(psup, m, s) else psup)
    ensures Queued(buckets', todo, psup', s, i) && BucketsIn(buckets', region)
    ensures |buckets'| == |buckets| && i <= |buckets'[s]|
  {
    hide Queued, BucketsIn;
    psup', buckets' := psup, buckets;
    if inReg[m] {
      QueuedBounds(buckets, todo, psup, s, i);
      RequeueOk(buckets, region, todo, psup, s, i, m);
      psup', buckets' := LowerAndRequeue(psup, buckets, m, s);
    }
  }

  /** Takes the triangles of the dead edge x away from the counters of their region edges. */
  method DropRegion(x: nat, ws: seq<Wedge>, s: nat, c: Setting, p: Peel, ghost sys: TriSys, ghost dead: set<nat>,
                    ghost i: nat)
    returns (p': Peel)
    requires sys.Valid() && Enumerates(sys.tris, x, ws) && Surrounded(sys.tris, c.region, c.boundary)
    requires x in c.region + c.boundary && x !in dead && dead <= c.region + c.boundary
    requires PeelFlags(sys, c, dead + {x}, p.palive) && |p.tau| == |c.inReg|
    requires ScanInv(Avoiding(sys.tris, dead), c.region, c.region - (dead + {x}), p.psup, p.buckets, s, i)
    ensures ScanInv(Avoiding(sys.tris, dead + {x}), c.region, c.region - (dead + {x}), p'.psup, p'.buckets, s, i)
    ensures p'.palive == p.palive && p'.tau == p.tau
    ensures |p'.psup| == |p.psup| && |p'.buckets| == |p.buckets|
  {
    hide CountsOk, Queued, BucketsIn, Deg, PeelFlags, Enumerates, Surrounded, TriSys.Valid, Dropped, Avoiding,
         TakenForDead;
    var psup, buckets := p.psup, p.buckets;
    ghost var live := Avoiding(sys.tris, dead);
    ghost var todo := c.region - (dead + {x});
    DroppedNone(live, x, ws);
    for k := 0 to |ws|
      invariant ScanInv(Dropped(live, x, ws, k), c.region, todo, psup, buckets, s, i)
      invariant |psup| == |p.psup| && |buckets| == |p.buckets|
    {
      WedgeOf(sys, x, ws, k);
      FlagBounds(sys, c, dead + {x}, p.palive);
      var e1, e2 := ws[k].e1, ws[k].e2;
      DroppedLater(sys.tris, live, x, ws, k);
      DroppedNext(live, x, ws, k);
      LiveTriangle(sys, c, dead, p.palive, p.tau, s, x, ws[k]);
      ghost var cur := Dropped(live, x, ws, k);
      var d1 := TakenForDead(c, p.palive, p.tau, s, e1);
      var d2 := TakenForDead(c, p.palive, p.tau, s, e2);
      if d1 || d2 {
        FailedTriangle(sys, c, dead, x, ws[k]);
        SkipCounts(cur, todo, psup, s, Tri(x, ws[k]));
      } else {
        PassedEdges(sys, c, dead, p.palive, x, ws[k]);
        QueuedBounds(buckets, todo, psup, s, i);
        LowerCounts(cur, c.region, todo, psup, s, x, e1, e2);
        psup, buckets := LowerIfRegion(e1, s, c.inReg, psup, buckets, c.region, todo, i);
        psup, buckets := LowerIfRegion(e2, s, c.inReg, psup, buckets, c.region, todo, i);
      }
    }
    DroppedAll(sys.tris, dead, x, ws);
    p' := p.(psup := psup, buckets := buckets);
  }

  // ---------------------------------------------------------------- the levels

  /** The event list holds every boundary edge at its level; those before evptr have died. */
  ghost predicate EventsInv(sys: TriSys, evs: seq<Event>, evptr: nat, boundary: set<nat>, dead: set<nat>, s: nat) {
    && boundary <= sys.edges
    && Ordered(evs) && DistinctEdges(evs) && evptr <= |evs|
    && (forall j :: 0 <= j < |evs| ==> evs[j].edge in boundary && evs[j].level + 2 == Trussness(sys, evs[j].edge))
    && (forall e :: e in boundary ==> exists j :: 0 <= j < |evs| && evs[j].edge == e)
    && (forall j :: 0 <= j < evptr ==> evs[j].edge in dead)
    && (forall j :: evptr <= j < |evs| ==> evs[j].edge !in dead && evs[j].level >= s)
  }

  lemma EventNext(sys: TriSys, evs: seq<Event>, evptr: nat, boundary: set<nat>, dead: set<nat>, s: nat)
    requires EventsInv(sys, evs, evptr, boundary, dead, s) && evptr < |evs| && evs[evptr].level == s
    ensures evs[evptr].edge in boundary && evs[evptr].edge !in dead && evs[evptr].edge in sys.edges
    ensures Trussness(sys, evs[evptr].edge) == s + 2
    ensures EventsInv(sys, evs, evptr + 1, boundary, dead + {evs[evptr].edge}, s)
  {}

  /** Once the events of level s are through, the rest of the boundary belongs to higher levels. */
  lemma EventsDone(sys: TriSys, evs: seq<Event>, evptr: nat, boundary: set<nat>, dead: set<nat>, s: nat)
    requires EventsInv(sys, evs, evptr, boundary, dead, s) && (evptr == |evs| || evs[evptr].level != s)
    ensures EventsInv(sys, evs, evptr, boundary, dead, s + 1)
    ensures forall f :: f in boundary - dead ==> Trussness(sys, f) != s + 2
  {
    forall f | f in boundary - dead ensures Trussness(sys, f) != s + 2 {
      var j :| 0 <= j < |evs| && evs[j].edge == f;
    }
  }

  /** Region edges that die leave the events alone. */
  lemma EventsKeep(sys: TriSys, evs: seq<Event>, evptr: nat, boundary: set<nat>, dead: set<nat>, s: nat, x: nat)
    requires EventsInv(sys, evs, evptr, boundary, dead, s) && x !in boundary
    ensures EventsInv(sys, evs, evptr, boundary, dead + {x}, s)
  {}

  /**
   Everything the peel keeps track of, at level s with the scan of bucket s at position i,
   when the edges in dead have died and the events before evptr are through.
   */
  ghost predicate LevelInv(sys: TriSys, c: Setting, p: Peel, dead: set<nat>, evptr: nat, s: nat, i: nat) {
    && PeelInv(sys, c.region, c.boundary, dead, s, p.psup, p.tau)
    && PeelFlags(sys, c, dead, p.palive) && |p.tau| == |c.inReg|
    && Queued(p.buckets, c.region - dead, p.psup, s, i) && BucketsIn(p.buckets, c.region)
    && EventsInv(sys, c.evs, evptr, c.boundary, dead, s)
  }

  /** The events of level s are through. */
  ghost predicate LevelEventsDone(c: Setting, evptr: nat, s: nat) {
    evptr == |c.evs| || (evptr < |c.evs| && c.evs[evptr].level != s)
  }

  /** What dropping the triangles of x needs, before a boundary edge dies. */
  lemma EventReady(sys: TriSys, c: Setting, p: Peel, dead: set<nat>, evptr: nat, s: nat, x: nat)
    requires LevelInv(sys, c, p, dead, evptr, s, 0)
    requires x in c.boundary && s < |p.buckets|
    ensures ScanInv(Avoiding(sys.tris, dead), c.region, c.region - (dead + {x}), p.psup, p.buckets, s, 0)
    ensures dead <= c.region + c.boundary
  {
    hide Deg, Avoiding, Trussness, EventsInv;
    assert c.region - (dead + {x}) == c.region - dead by { hide *; OutsideRegion(sys, c, dead, p.palive, x); }
    hide CountsOk, Queued, BucketsIn;
  }

  lemma OutsideRegion(sys: TriSys, c: Setting, dead: set<nat>, palive: seq<bool>, x: nat)
    requires PeelFlags(sys, c, dead, palive) && x in c.boundary
    ensures c.region - (dead + {x}) == c.region - dead
  {}

  /** The boundary edges of level s die. */
  method RunEvents(g: DynGraph, st: StampSet, s: nat, c: Setting, p0: Peel, evptr0: nat, ghost dead0: set<nat>)
    returns (p: Peel, evptr: nat, ghost dead: set<nat>)
    requires g.Valid() && st.Valid() && |st.s| >= g.n
    requires LevelInv(Sys(g.G()), c, p0, dead0, evptr0, s, 0)
    requires Surrounded(Triangles(g.G()), c.region, c.boundary) && s < |p0.buckets| && evptr0 <= |c.evs|
    modifies st
    ensures st.Valid() && |st.s| == old(|st.s|)
    ensures LevelInv(Sys(g.G()), c, p, dead, evptr, s, 0) && LevelEventsDone(c, evptr, s)
    ensures |p.buckets| == |p0.buckets| && |p.psup| == |p0.psup| && p.tau == p0.tau
    ensures c.region * dead == c.region * dead0
  {
    hide GraphInv, DynGraph.TableOk, TableMatches, GraphOf, Triangles, StampSet.Marks, StampSet.Valid, DynGraph.Valid,
         Simple, SmallEnds, TriSys.Linear, TriSys.Valid, Enumerates, LevelInv, Surrounded, Avoiding, ScanInv, InTruss,
         Trussness, PeelFlags, PeelInv;
    ghost var sys := Sys(g.G());
    g.SysProper();
    p, evptr, dead := p0, evptr0, dead0;
    while evptr < |c.evs| && c.evs[evptr].level == s
      invariant st.Valid() && |st.s| == old(|st.s|)
      invariant LevelInv(sys, c, p, dead, evptr, s, 0)
      invariant |p.buckets| == |p0.buckets| && |p.psup| == |p0.psup| && p.tau == p0.tau && evptr <= |c.evs|
      invariant c.region * dead == c.region * dead0
      decreases |c.evs| - evptr
    {
      var x := c.evs[evptr].edge;
      EventFlags(sys, c, p, dead, evptr, s);
      EventReady(sys, c, p, dead, evptr, s, x);
      ghost var was := p;
      p := p.(palive := p.palive[x := false]);
      var ws := g.EdgeTriangles(x, st);
      p := DropRegion(x, ws, s, c, p, sys, dead, 0);
      EventStep(sys, c, was, dead, evptr, s, p);
      dead := dead + {x};
      evptr := evptr + 1;
    }
  }

  lemma EventFlags(sys: TriSys, c: Setting, p: Peel, dead: set<nat>, evptr: nat, s: nat)
    requires LevelInv(sys, c, p, dead, evptr, s, 0)
    requires evptr < |c.evs| && c.evs[evptr].level == s
    ensures var x := c.evs[evptr].edge;
            && x in c.boundary && x in sys.edges && x !in dead && x < |p.palive| && |p.tau| == |c.inReg|
            && PeelFlags(sys, c, dead + {x}, p.palive[x := false])
            && c.region * (dead + {x}) == c.region * dead
  {
    EventNext(sys, c.evs, evptr, c.boundary, dead, s);
    FlagDies(sys, c, dead, p.palive, c.evs[evptr].edge);
  }

  lemma EventStep(sys: TriSys, c: Setting, p: Peel, dead: set<nat>, evptr: nat, s: nat, p': Peel)
    requires LevelInv(sys, c, p, dead, evptr, s, 0)
    requires evptr < |c.evs| && c.evs[evptr].level == s && c.evs[evptr].edge < |p.palive|
    requires p'.tau == p.tau && p'.palive == p.palive[c.evs[evptr].edge := false]
    requires var x := c.evs[evptr].edge;
             ScanInv(Avoiding(sys.tris, dead + {x}), c.region, c.region - (dead + {x}), p'.psup, p'.buckets, s, 0)
    ensures LevelInv(sys, c, p', dead + {c.evs[evptr].edge}, evptr + 1, s, 0)
  {
    var x := c.evs[evptr].edge;
    EventNext(sys, c.evs, evptr, c.boundary, dead, s);
    FlagDies(sys, c, dead, p.palive, x);
    hide CountsOk, Queued, BucketsIn, EventsInv, PeelFlags, Deg, Avoiding;
    PeelOne(sys, c.region, c.boundary, dead, s, p.psup, p.tau, x, p'.psup, p'.tau);
  }

  /** What the scan needs to know about the entry at position i of bucket s. */
  lemma EntryFacts(sys: TriSys, c: Setting, p: Peel, dead: set<nat>, evptr: nat, s: nat, i: nat)
    requires LevelInv(sys, c, p, dead, evptr, s, i)
    requires s < |p.buckets| && i < |p.buckets[s]|
    ensures var x := p.buckets[s][i];
            && x in c.region && x in sys.edges && x < |p.palive| && x < |p.tau|
            && (p.palive[x] ==> x !in dead && x < |p.psup|)
  {
    hide Deg, Avoiding, Trussness, EventsInv;
    BucketEntry(p.buckets, c.region, s, i);
    var x := p.buckets[s][i];
    FlagDies(sys, c, dead, p.palive, x);
    QueuedBounds(p.buckets, c.region - dead, p.psup, s, i);
    hide PeelInv, PeelFlags, Queued, BucketsIn;
    assert p.palive[x] ==> x in c.region - dead;
  }

  lemma EntrySkipped(sys: TriSys, c: Setting, p: Peel, dead: set<nat>, evptr: nat, s: nat, i: nat)
    requires LevelInv(sys, c, p, dead, evptr, s, i)
    requires s < |p.buckets| && i < |p.buckets[s]|
    requires var x := p.buckets[s][i]; x < |p.palive| && (p.palive[x] ==> x < |p.psup| && p.psup[x] != s)
    ensures LevelInv(sys, c, p, dead, evptr, s, i + 1)
  {
    hide PeelInv, EventsInv;
    BucketEntry(p.buckets, c.region, s, i);
    FlagDies(sys, c, dead, p.palive, p.buckets[s][i]);
    hide PeelFlags, Queued, BucketsIn;
    ScanPast(p.buckets, c.region - dead, p.psup, s, i);
  }

  /** An alive entry whose counter is down at the level has its trussness and can be dropped. */
  lemma PopReady(sys: TriSys, c: Setting, p: Peel, dead: set<nat>, evptr: nat, s: nat, i: nat, x: nat)
    requires sys.Valid() && LevelInv(sys, c, p, dead, evptr, s, i)
    requires s < |p.buckets| && i < |p.buckets[s]| && x == p.buckets[s][i] && x in c.region && x !in dead
    requires x < |p.psup| && p.psup[x] == s
    ensures x < |p.palive| && x < |p.tau| && |p.tau| == |c.inReg| && dead <= c.region + c.boundary
    ensures PeelFlags(sys, c, dead + {x}, p.palive[x := false])
    ensures ScanInv(Avoiding(sys.tris, dead), c.region, c.region - (dead + {x}), p.psup, p.buckets, s, i + 1)
    ensures Trussness(sys, x) == s + 2
  {
    FlagDies(sys, c, dead, p.palive, x);
    hide Deg, Avoiding, EventsInv, CountsOk, Queued, BucketsIn, InTruss;
    PopIsExact(sys, c.region, c.boundary, dead, s, p.psup, p.tau, x);
    ScanPop(sys, c.region, c.boundary, dead, s, p.psup, p.tau, p.buckets, i, x);
  }

  lemma PopStep(sys: TriSys, c: Setting, p: Peel, dead: set<nat>, evptr: nat, s: nat, i: nat, x: nat, p': Peel)
    requires LevelInv(sys, c, p, dead, evptr, s, i)
    requires x in c.region && x !in dead && x < |p.palive| && x < |p.tau| && Trussness(sys, x) == s + 2
    requires p'.palive == p.palive[x := false] && p'.tau == p.tau[x := Word(s + 2)]
    requires ScanInv(Avoiding(sys.tris, dead + {x}), c.region, c.region - (dead + {x}), p'.psup, p'.buckets, s, i + 1)
    ensures LevelInv(sys, c, p', dead + {x}, evptr, s, i + 1)
    ensures s < |p'.buckets| && i + 1 <= |p'.buckets[s]|
  {
    FlagDies(sys, c, dead, p.palive, x);
    hide CountsOk, Queued, BucketsIn, Deg, Avoiding, Word;
    EventsKeep(sys, c.evs, evptr, c.boundary, dead, s, x);
    hide EventsInv, PeelFlags;
    PeelOne(sys, c.region, c.boundary, dead, s, p.psup, p.tau, x, p'.psup, p'.tau);
  }

  /** The region edge x at position i of bucket s dies. */
  method PopRegion(g: DynGraph, st: StampSet, s: nat, i: nat, x: nat, c: Setting, p: Peel, ghost evptr: nat,
                   ghost dead: set<nat>)
    returns (p': Peel)
    requires g.Valid() && st.Valid() && |st.s| >= g.n
    requires LevelInv(Sys(g.G()), c, p, dead, evptr, s, i) && Surrounded(Triangles(g.G()), c.region, c.boundary)
    requires s < |p.buckets| && i < |p.buckets[s]| && x == p.buckets[s][i]
    requires x in c.region && x !in dead && x in g.G() && x < |p.psup| && p.psup[x] == s
    modifies st
    ensures st.Valid() && |st.s| == old(|st.s|)
    ensures LevelInv(Sys(g.G()), c, p', dead + {x}, evptr, s, i + 1)
    ensures s < |p'.buckets| == |p.buckets| && i + 1 <= |p'.buckets[s]| && |p'.psup| == |p.psup|
    ensures x < |p.tau| && p'.tau == p.tau[x := Word(s + 2)]
  {
    hide GraphInv, DynGraph.TableOk, TableMatches, GraphOf, Triangles, StampSet.Marks, StampSet.Valid, DynGraph.Valid,
         Simple, SmallEnds, TriSys.Linear, TriSys.Valid, Enumerates, LevelInv, Surrounded, Avoiding, ScanInv, InTruss,
         Trussness, PeelFlags, PeelInv, Deg, Word;
    ghost var sys := Sys(g.G());
    g.SysProper();
    PopReady(sys, c, p, dead, evptr, s, i, x);
    p' := p.(tau := p.tau[x := Word(s + 2)], palive := p.palive[x := false]);
    var ws := g.EdgeTriangles(x, st);
    p' := DropRegion(x, ws, s, c, p', sys, dead, i + 1);
    PopStep(sys, c, p, dead, evptr, s, i, x, p');
  }

  lemma PopCount(region: set<nat>, dead: set<nat>, x: nat)
    requires x in region && x !in dead
    ensures |region * (dead + {x})| == |region * dead| + 1 <= |region|
  {
    assert region * (dead + {x}) == region * dead + {x};
    FiniteSets.SubsetCard(region * (dead + {x}), region);
  }

  /** Only region values change. */
  ghost predicate KeepsOutside(region: set<nat>, tau0: seq<nat>, tau: seq<nat>) {
    |tau| == |tau0| && forall e: nat :: e < |tau| && e !in region ==> tau[e] == tau0[e]
  }

  /** The region edges of level s die, in the order of their bucket. */
  method ScanRegion(g: DynGraph, st: StampSet, s: nat, c: Setting, p0: Peel, popped0: nat, ghost evptr: nat,
                    ghost dead0: set<nat>)
    returns (p: Peel, popped: nat, ghost dead: set<nat>)
    requires g.Valid() && st.Valid() && |st.s| >= g.n
    requires LevelInv(Sys(g.G()), c, p0, dead0, evptr, s, 0) && Surrounded(Triangles(g.G()), c.region, c.boundary)
    requires s < |p0.buckets| && LevelEventsDone(c, evptr, s) && popped0 == |c.region * dead0|
    modifies st
    ensures st.Valid() && |st.s| == old(|st.s|)
    ensures LevelInv(Sys(g.G()), c, p, dead, evptr, s + 1, 0)
    ensures |p.buckets| == |p0.buckets| && |p.psup| == |p0.psup| && KeepsOutside(c.region, p0.tau, p.tau)
    ensures popped == |c.region * dead|
  {
    hide GraphInv, DynGraph.TableOk, TableMatches, GraphOf, Triangles, StampSet.Marks, StampSet.Valid, DynGraph.Valid,
         Simple, SmallEnds, TriSys.Linear, TriSys.Valid, Enumerates, LevelInv, Surrounded, Avoiding, ScanInv, InTruss,
         Trussness, PeelFlags, PeelInv, Deg, LevelEventsDone, Word;
    ghost var sys := Sys(g.G());
    g.SysProper();
    p, popped, dead := p0, popped0, dead0;
    var i := 0;
    while i < |p.buckets[s]|
      invariant st.Valid() && |st.s| == old(|st.s|)
      invariant s < |p.buckets| == |p0.buckets| && 0 <= i <= |p.buckets[s]| && |p.psup| == |p0.psup|
      invariant LevelInv(sys, c, p, dead, evptr, s, i)
      invariant KeepsOutside(c.region, p0.tau, p.tau)
      invariant popped == |c.region * dead|
      decreases |c.region| - popped, |p.buckets[s]| - i
    {
      var x := p.buckets[s][i];
      EntryFacts(sys, c, p, dead, evptr, s, i);
      if !p.palive[x] || p.psup[x] != s {
        EntrySkipped(sys, c, p, dead, evptr, s, i);
      } else {
        p := PopRegion(g, st, s, i, x, c, p, evptr, dead);
        popped := popped + 1;
        PopCount(c.region, dead, x);
        dead := dead + {x};
      }
      i := i + 1;
    }
    LevelDone(sys, c, p, dead, evptr, s);
  }

  lemma LevelDone(sys: TriSys, c: Setting, p: Peel, dead: set<nat>, evptr: nat, s: nat)
    requires sys.Valid() && s < |p.buckets| && Surrounded(sys.tris, c.region, c.boundary)
    requires LevelInv(sys, c, p, dead, evptr, s, |p.buckets[s]|) && LevelEventsDone(c, evptr, s)
    ensures LevelInv(sys, c, p, dead, evptr, s + 1, 0)
  {
    ScanDone(p.buckets, c.region - dead, p.psup, s);
    EventsDone(sys, c.evs, evptr, c.boundary, dead, s);
    hide CountsOk, Queued, BucketsIn, Deg, Avoiding, EventsInv, PeelFlags, Surrounded;
    LevelUp(sys, c.region, c.boundary, dead, s, p.psup, p.tau);
  }

  /** All levels: every region edge is popped exactly once, with its trussness. */
  method PeelLevels(g: DynGraph, st: StampSet, maxsup: nat, c: Setting, p0: Peel) returns (p: Peel, popped: nat)
    requires g.Valid() && st.Valid() && |st.s| >= g.n
    requires LevelInv(Sys(g.G()), c, p0, {}, 0, 0, 0)
    requires Surrounded(Triangles(g.G()), c.region, c.boundary) && |p0.buckets| == maxsup + 1
    modifies st
    ensures st.Valid() && |st.s| == old(|st.s|)
    ensures |p.palive| == |p0.palive| && |p.psup| == |p0.psup| && KeepsOutside(c.region, p0.tau, p.tau)
    ensures c.region <= g.G().Keys && forall e :: e in c.region ==> At(p.tau, e) == Word(Trussness(Sys(g.G()), e))
    ensures popped == |c.region|
    ensures forall e :: 0 <= e < |p.palive| && p.palive[e] ==> e in c.region + c.boundary
  {
    hide GraphInv, DynGraph.TableOk, TableMatches, GraphOf, Triangles, StampSet.Marks, StampSet.Valid, DynGraph.Valid,
         LevelInv, Surrounded, Avoiding, InTruss, PeelFlags, PeelInv, Deg, Word;
    ghost var sys := Sys(g.G());
    p, popped := p0, 0;
    ghost var dead: set<nat> := {};
    var evptr: nat := 0;
    assert c.region * dead == {};
    LevelLengths(sys, c, p, dead, evptr, 0);
    for s := 0 to maxsup + 1
      invariant st.Valid() && |st.s| == old(|st.s|)
      invariant LevelInv(sys, c, p, dead, evptr, s, 0)
      invariant |p.buckets| == maxsup + 1 && |p.psup| == |p0.psup| && KeepsOutside(c.region, p0.tau, p.tau)
      invariant popped == |c.region * dead|
    {
      LevelLengths(sys, c, p, dead, evptr, s);
      p, evptr, dead := RunEvents(g, st, s, c, p, evptr, dead);
      p, popped, dead := ScanRegion(g, st, s, c, p, popped, evptr, dead);
    }
    LevelLengths(sys, c, p, dead, evptr, maxsup + 1);
    AllLevelsDone(sys, c, p, dead, evptr, maxsup + 1);
  }

  lemma LevelLengths(sys: TriSys, c: Setting, p: Peel, dead: set<nat>, evptr: nat, s: nat)
    requires LevelInv(sys, c, p, dead, evptr, s, 0)
    ensures |c.inReg| == |c.ubIn| == |p.palive| == |p.tau| && evptr <= |c.evs| && c.region <= sys.edges
  {}

  lemma AllLevelsDone(sys: TriSys, c: Setting, p: Peel, dead: set<nat>, evptr: nat, s: nat)
    requires LevelInv(sys, c, p, dead, evptr, s, 0) && |p.buckets| <= s
    ensures c.region * dead == c.region && c.region <= sys.edges
    ensures forall e :: e in c.region ==> At(p.tau, e) == Word(Trussness(sys, e))
    ensures forall e :: 0 <= e < |p.palive| && p.palive[e] ==> e in c.region + c.boundary
  {
    hide EventsInv, Word;
    PeelEnd(sys, c.region, c.boundary, dead, s, p.psup, p.tau, p.buckets);
  }

  // ---------------------------------------------------------------- setting up and cleaning up

  /** The edges outside the region that touch it hold their trussness. */
  ghost predicate BoundaryExact(sys: TriSys, region: set<nat>, tau: seq<nat>) {
    forall t, f, h :: t in sys.tris && f in t && h in t && f in region && h !in region && h in sys.edges ==>
            At(tau, h) == Trussness(sys, h)
  }

  lemma BoundaryHolds(sys: TriSys, regList: seq<nat>, inReg: seq<bool>, mark: seq<bool>, evt: seq<nat>, tau: seq<nat>)
    requires RegionOk(sys, regList, inReg) && BoundaryOk(sys, inReg, mark, evt)
    requires BoundaryExact(sys, Elements(regList), tau)
    ensures forall e :: e in evt ==> At(tau, e) == Trussness(sys, e) && e < |inReg|
  {
    hide Trussness, Distinct;
    forall e | e in evt ensures At(tau, e) == Trussness(sys, e) {
      var t :| t in sys.tris && e in t && MeetsRegion(t, inReg);
      var f :| f in t && Flagged(inReg, f);
      assert f in Elements(regList) && e !in Elements(regList);
    }
  }

  method SetFlags(list: seq<nat>, flags: seq<bool>) returns (flags': seq<bool>)
    requires forall e :: e in list ==> e < |flags|
    ensures |flags'| == |flags|
    ensures forall e :: 0 <= e < |flags| ==> (flags'[e] <==> flags[e] || e in list)
  {
    flags' := flags;
    for i := 0 to |list|
      invariant |flags'| == |flags|
      invariant forall e :: 0 <= e < |flags| ==> (flags'[e] <==> flags[e] || e in list[..i])
    {
      assert list[i] in list;
      flags' := flags'[list[i] := true];
    }
    assert list[..|list|] == list;
  }

  /** Stores the counts of the region. */
  method StoreCounts(list: seq<nat>, psup: seq<nat>, sup: seq<nat>) returns (sup': seq<nat>)
    requires forall e :: e in list ==> e < |sup| && e < |psup|
    ensures |sup'| == |sup|
    ensures forall e :: 0 <= e < |sup| ==> sup'[e] == if e in list then At(psup, e) else sup[e]
  {
    sup' := sup;
    for i := 0 to |list|
      invariant |sup'| == |sup|
      invariant forall e :: 0 <= e < |sup| ==> sup'[e] == if e in list[..i] then At(psup, e) else sup[e]
    {
      assert list[i] in list;
      sup' := sup'[list[i] := psup[list[i]]];
    }
    assert list[..|list|] == list;
  }

  /** The boundary events in the order of their levels. */
  method PrepareEvents(evt: seq<nat>, tau: seq<nat>, ghost sys: TriSys) returns (evs: seq<Event>)
    requires Distinct(evt) && forall e :: e in evt ==> e < |tau| && e in sys.edges && tau[e] == Trussness(sys, e)
    ensures EventsInv(sys, evs, 0, Elements(evt), {}, 0)
  {
    hide Trussness, Ordered, NotAfter, SortEvents;
    var raw: seq<Event> := [];
    for i := 0 to |evt|
      invariant |raw| == i
      invariant forall j :: 0 <= j < i ==> raw[j] == EventOf(tau, evt[j])
    {
      assert evt[i] in evt;
      raw := raw + [EventOf(tau, evt[i])];
    }
    assert DistinctEdges(raw);
    SortOrdered(raw);
    evs := Dedup(SortEvents(raw));
    hide DistinctEdges;
    forall j | 0 <= j < |evs| ensures evs[j].edge in Elements(evt) && evs[j].level + 2 == Trussness(sys, evs[j].edge) {
      assert evs[j] in raw;
    }
    forall e | e in Elements(evt) ensures exists j :: 0 <= j < |evs| && evs[j].edge == e {
      var i :| 0 <= i < |evt| && evt[i] == e;
      assert raw[i] in evs;
      var j :| 0 <= j < |evs| && evs[j] == raw[i];
    }
  }

  /** The region by triangle count. */
  method BucketRegion(regList: seq<nat>, psup: seq<nat>) returns (maxsup: nat, buckets: seq<seq<nat>>)
    requires forall e :: e in regList ==> e < |psup|
    ensures |buckets| == maxsup + 1 && (maxsup == 0 || exists e :: e in regList && At(psup, e) == maxsup)
    ensures Queued(buckets, Elements(regList), psup, 0, 0) && BucketsIn(buckets, Elements(regList))
  {
    hide Waits;
    maxsup := 0;
    for i := 0 to |regList|
      invariant forall j :: 0 <= j < i ==> At(psup, regList[j]) <= maxsup
      invariant maxsup == 0 || exists e :: e in regList && At(psup, e) == maxsup
    {
      assert regList[i] in regList;
      if psup[regList[i]] > maxsup {
        maxsup := psup[regList[i]];
        assert At(psup, regList[i]) == maxsup;
      }
    }
    buckets := seq(maxsup + 1, _ => []);
    for i := 0 to |regList|
      invariant |buckets| == maxsup + 1 && BucketsIn(buckets, Elements(regList))
      invariant forall j :: 0 <= j < i ==>
                        At(psup, regList[j]) <= maxsup && Waits(buckets[At(psup, regList[j])], regList[j], 0)
    {
      assert regList[i] in regList;
      var e := regList[i];
      ghost var was := buckets;
      buckets := buckets[psup[e] := buckets[psup[e]] + [e]];
      forall j | 0 <= j < i + 1 ensures Waits(buckets[At(psup, regList[j])], regList[j], 0) {
        WaitsAppend(was[At(psup, regList[j])], e, regList[j]);
      }
    }
  }

  /** The state before the first level. */
  lemma LevelStart(sys: TriSys, regList: seq<nat>, evt: seq<nat>, mark: seq<bool>, c: Setting, p: Peel)
    requires RegionOk(sys, regList, c.inReg) && BoundaryOk(sys, c.inReg, mark, evt)
    requires c.region == Elements(regList) && c.boundary == Elements(evt)
    requires CountedJobs(sys, regList, {}, c.inReg, mark, p.psup)
    requires |c.inReg| == |c.ubIn| == |p.palive| == |p.tau| == |p.psup| && forall e :: e in sys.edges ==> e < |c.inReg|
    requires forall e :: 0 <= e < |c.ubIn| ==> (c.ubIn[e] <==> e in evt)
    requires forall e :: 0 <= e < |p.palive| ==> (p.palive[e] <==> e in regList || e in evt)
    requires Queued(p.buckets, c.region, p.psup, 0, 0) && BucketsIn(p.buckets, c.region)
    requires EventsInv(sys, c.evs, 0, c.boundary, {}, 0)
    ensures LevelInv(sys, c, p, {}, 0, 0, 0)
    ensures Surrounded(sys.tris, c.region, c.boundary)
  {
    CountedFacts(sys, regList, c.inReg, mark, p.psup, evt);
    hide CountedJobs, Queued, BucketsIn, EventsInv, Deg, Trussness, Surrounded, BoundaryOk;
    PeelStart(sys, c.region, c.boundary, p.psup, p.tau);
    assert c.region - {} == c.region;
    hide PeelInv;
  }

  lemma PeelRanges(sys: TriSys, regList: seq<nat>, inReg: seq<bool>)
    requires RegionOk(sys, regList, inReg)
    ensures forall e :: e in regList ==> e in sys.edges && e < |inReg|
  {}

  lemma BoundaryFacts(sys: TriSys, inReg: seq<bool>, mark: seq<bool>, evt: seq<nat>)
    requires BoundaryOk(sys, inReg, mark, evt)
    ensures |mark| == |inReg| && Distinct(evt)
    ensures forall e :: e in evt ==> e in sys.edges && e < |inReg|
    ensures forall e :: 0 <= e < |mark| ==> (mark[e] <==> e in evt)
  {
    hide Touches;
  }

  lemma RegionCard(sys: TriSys, regList: seq<nat>, inReg: seq<bool>)
    requires RegionOk(sys, regList, inReg)
    ensures |Elements(regList)| == |regList|
  {
    FiniteSets.DistinctCard(regList, Elements(regList));
  }

  /** The listed edges have their trussness, as far as 16 bits hold it, and their triangle count. */
  ghost predicate Assigned(sys: TriSys, list: seq<nat>, tau: seq<nat>, sup: seq<nat>) {
    forall e :: e in list ==>
                  e in sys.edges && At(tau, e) == Word(Trussness(sys, e)) && At(sup, e) == Deg(sys.tris, e)
  }

  /**
   Peels the listed region: for any region of live edges whose boundary values are right, it
   assigns the right trussness, as far as 16 bits hold it, and count to every region edge, pops
   each of them exactly once (ok reports the count), and takes its scratch marks back.
   */
  method PeelList(g: DynGraph, st: StampSet, regList: seq<nat>, inReg: seq<bool>, tau0: seq<nat>, sup0: seq<nat>,
                  psup0: seq<nat>, mark0: seq<bool>, ubIn0: seq<bool>, palive0: seq<bool>)
    returns (tau: seq<nat>, sup: seq<nat>, psup: seq<nat>, mark: seq<bool>, ubIn: seq<bool>, palive: seq<bool>,
             ok: bool)
    requires g.Valid() && st.Valid() && |st.s| >= g.n
    requires RegionOk(Sys(g.G()), regList, inReg) && BoundaryExact(Sys(g.G()), Elements(regList), tau0)
    requires g.capEdges <= |inReg| == |tau0| == |sup0| == |psup0| == |mark0| == |ubIn0| == |palive0|
    requires forall e :: 0 <= e < |mark0| ==> !mark0[e] && !ubIn0[e] && !palive0[e]
    modifies st
    ensures st.Valid() && |st.s| == old(|st.s|) && ok
    ensures |tau| == |sup| == |psup| == |mark| == |ubIn| == |palive| == |inReg|
    ensures forall e :: 0 <= e < |mark| ==> !mark[e] && !ubIn[e] && !palive[e]
    ensures Assigned(Sys(g.G()), regList, tau, sup)
    ensures forall e :: e !in regList ==> At(tau, e) == At(tau0, e) && At(sup, e) == At(sup0, e)
  {
    hide GraphInv, DynGraph.TableOk, TableMatches, GraphOf, Triangles, StampSet.Marks, StampSet.Valid, DynGraph.Valid,
         Simple, SmallEnds, RegionOk, BoundaryOk, BoundaryExact, CountedJobs, EventsInv, LevelInv, Queued, BucketsIn,
         Surrounded, Deg, InTruss, Trussness, Word, Distinct;
    ghost var sys := Sys(g.G());
    g.IdsBelow();
    PeelRanges(sys, regList, inReg);
    var evt;
    mark, psup, evt := CountRegion(g, st, regList, inReg, mark0, psup0);
    BoundaryHolds(sys, regList, inReg, mark, evt, tau0);
    BoundaryFacts(sys, inReg, mark, evt);
    CountedFacts(sys, regList, inReg, mark, psup, evt);
    sup := StoreCounts(regList, psup, sup0);
    var evs := PrepareEvents(evt, tau0, sys);
    ubIn := SetFlags(evt, ubIn0);
    palive := SetFlags(regList, palive0);
    palive := SetFlags(evt, palive);
    var maxsup, buckets := BucketRegion(regList, psup);
    var c := Setting(Elements(regList), Elements(evt), inReg, ubIn, evs);
    var p := Peel(palive, psup, tau0, buckets);
    LevelStart(sys, regList, evt, mark, c, p);
    var popped;
    p, popped := PeelLevels(g, st, maxsup, c, p);
    palive, psup, tau := p.palive, p.psup, p.tau;
    RegionCard(sys, regList, inReg);
    ok := !(popped != |regList|);
    palive, ubIn, mark := ClearScratch(regList, evt, palive, ubIn, mark);
  }

  /** Takes back the scratch marks, which are on listed edges only. */
  method ClearScratch(regList: seq<nat>, evt: seq<nat>, palive0: seq<bool>, ubIn0: seq<bool>, mark0: seq<bool>)
    returns (palive: seq<bool>, ubIn: seq<bool>, mark: seq<bool>)
    requires |palive0| == |ubIn0| == |mark0|
    requires (forall e :: e in regList ==> e < |palive0|) && (forall e :: e in evt ==> e < |palive0|)
    requires forall e :: 0 <= e < |palive0| && palive0[e] ==> e in Elements(regList) + Elements(evt)
    requires forall e :: 0 <= e < |ubIn0| ==> (ubIn0[e] <==> e in evt)
    requires forall e :: 0 <= e < |mark0| ==> (mark0[e] <==> e in evt)
    ensures |palive| == |ubIn| == |mark| == |palive0|
    ensures forall e :: 0 <= e < |mark| ==> !mark[e] && !ubIn[e] && !palive[e]
  {
    palive := ClearFlags(regList, palive0);
    palive := ClearFlags(evt, palive);
    ubIn := ClearFlags(evt, ubIn0);
    mark := ClearFlags(evt, mark0);
  }
}
