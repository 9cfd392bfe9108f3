/** The triangle closure of a set of seed edges (region_closure in src/batch.h). */
module TriangleClosure {
  import opened DynamicGraph
  import FiniteSets
  import opened Regions
  import opened SimpleGraph
  import Stamps
  import opened Truss

  ghost function LiveSeeds(g: Graph, seeds: seq<nat>): set<nat> {
    set e | e in seeds && e in g
  }

  /** The live seeds, each once. */
  method StartRegion(g: DynGraph, seeds: seq<nat>, inReg0: seq<bool>) returns (regList: seq<nat>, inReg: seq<bool>)
    requires g.Valid() && g.capEdges <= |inReg0|
    requires forall e :: 0 <= e < |inReg0| ==> !inReg0[e]
    requires forall e :: e in seeds ==> e < |g.eu|
    ensures |inReg| == |inReg0| && RegionOk(Sys(g.G()), regList, inReg)
    ensures Elements(regList) == LiveSeeds(g.G(), seeds)
  {
    hide GraphInv, DynGraph.TableOk, TableMatches, GraphOf, Triangles, DynGraph.Valid, Simple, SmallEnds, RegionOk;
    g.InvBounds();
    ghost var gr := g.G();
    regList, inReg := [], inReg0;
    NoRegion(Sys(gr), inReg0);
    for i := 0 to |seeds|
      invariant |inReg| == |inReg0| && RegionOk(Sys(gr), regList, inReg)
      invariant Elements(regList) == LiveSeeds(gr, seeds[..i])
    {
      var e := seeds[i];
      assert e in seeds;
      assert seeds[..i + 1] == seeds[..i] + [e];
      RegionFlag(Sys(gr), regList, inReg, e);
      if !(!g.Alive(e) || inReg[e]) {
        RegionAdd(Sys(gr), regList, inReg, e);
        inReg := inReg[e := true];
        regList := regList + [e];
      }
    }
    assert seeds[..|seeds|] == seeds;
  }

  lemma NoRegion(sys: TriSys, inReg: seq<bool>)
    requires forall e :: 0 <= e < |inReg| ==> !inReg[e]
    ensures RegionOk(sys, [], inReg)
  {}

  lemma RegionFlag(sys: TriSys, region: seq<nat>, inReg: seq<bool>, e: nat)
    requires RegionOk(sys, region, inReg)
    ensures e < |inReg| ==> (inReg[e] <==> e in Elements(region))
    ensures e in Elements(region) ==> e in sys.edges && e < |inReg|
  {}

  // ---------------------------------------------------------------- one round

  /** What the jobs of a round collect: edges on triangles with the region, marked when listed. */
  ghost predicate NextOk(sys: TriSys, inReg: seq<bool>, ub: seq<bool>, nxt: seq<nat>) {
    && |ub| == |inReg|
    && (forall e :: 0 <= e < |ub| && ub[e] ==> inReg[e] || e in nxt)
    && (forall e :: e in nxt ==> e in sys.edges && e < |inReg| && Touches(sys.tris, inReg, e))
  }

  /** The partners of f are in the region or collected. */
  ghost predicate Seen(tris: set<Triangle>, f: nat, inReg: seq<bool>, nxt: seq<nat>) {
    forall t, h :: t in tris && f in t && h in t ==> Flagged(inReg, h) || h in nxt
  }

  ghost predicate WedgesSeen(ws: seq<Wedge>, n: nat, inReg: seq<bool>, nxt: seq<nat>) {
    forall j :: 0 <= j < n && j < |ws| ==>
                  && (Flagged(inReg, ws[j].e1) || ws[j].e1 in nxt)
                  && (Flagged(inReg, ws[j].e2) || ws[j].e2 in nxt)
  }

  method Collect(m: nat, inReg: seq<bool>, ub: seq<bool>, nxt: seq<nat>, ghost sys: TriSys) returns (ub': seq<bool>,
                 nxt': seq<nat>)
    requires NextOk(sys, inReg, ub, nxt) && m in sys.edges && m < |inReg| && Touches(sys.tris, inReg, m)
    ensures NextOk(sys, inReg, ub', nxt') && nxt <= nxt'
    ensures Flagged(inReg, m) || m in nxt'
    ensures ub' == ub[m := true] && nxt' == if ub[m] then nxt else nxt + [m]
  {
    ub', nxt' := ub, nxt;
    if !ub'[m] {
      ub' := ub'[m := true];
      nxt' := nxt' + [m];
    }
  }

  lemma SeenStep(ws: seq<Wedge>, n: nat, inReg: seq<bool>, a: seq<nat>, b: seq<nat>, c: seq<nat>)
    requires n < |ws| && WedgesSeen(ws, n, inReg, a) && a <= b <= c
    requires Flagged(inReg, ws[n].e1) || ws[n].e1 in b
    requires Flagged(inReg, ws[n].e2) || ws[n].e2 in c
    ensures WedgesSeen(ws, n + 1, inReg, c)
  {
    PrefixIn(a, b);
    PrefixIn(b, c);
  }

  lemma PrefixIn(a: seq<nat>, b: seq<nat>)
    requires a <= b
    ensures forall e :: e in a ==> e in b
  {
    forall e | e in a ensures e in b {
      var i :| 0 <= i < |a| && a[i] == e;
      assert b[i] == e;
    }
  }

  lemma SeenListed(tris: set<Triangle>, f: nat, ws: seq<Wedge>, inReg: seq<bool>, nxt: seq<nat>)
    requires Enumerates(tris, f, ws) && Flagged(inReg, f) && WedgesSeen(ws, |ws|, inReg, nxt)
    ensures Seen(tris, f, inReg, nxt)
  {
    hide Flagged;
    forall t, h | t in tris && f in t && h in t ensures Flagged(inReg, h) || h in nxt {
      var i :| 0 <= i < |ws| && t == Tri(f, ws[i]);
    }
  }

  /** One job: the partners of f that are not marked yet. */
  method CollectPartners(f: nat, ws: seq<Wedge>, inReg: seq<bool>, ub: seq<bool>, nxt: seq<nat>, ghost sys: TriSys)
    returns (ub': seq<bool>, nxt': seq<nat>)
    requires sys.Valid() && Enumerates(sys.tris, f, ws) && Flagged(inReg, f)
    requires NextOk(sys, inReg, ub, nxt) && forall e :: e in sys.edges ==> e < |inReg|
    ensures NextOk(sys, inReg, ub', nxt') && nxt <= nxt' && Seen(sys.tris, f, inReg, nxt')
  {
    hide NextOk, Seen, WedgesSeen, Flagged, Enumerates, TriSys.Valid, Touches;
    ub', nxt' := ub, nxt;
    NothingSeen(ws, inReg, nxt);
    for i := 0 to |ws|
      invariant NextOk(sys, inReg, ub', nxt') && nxt <= nxt' && WedgesSeen(ws, i, inReg, nxt')
    {
      WedgeOf(sys, f, ws, i);
      WedgeTouches(sys, f, ws, i, inReg);
      ghost var a := nxt';
      ub', nxt' := Collect(ws[i].e1, inReg, ub', nxt', sys);
      ghost var b := nxt';
      ub', nxt' := Collect(ws[i].e2, inReg, ub', nxt', sys);
      SeenStep(ws, i, inReg, a, b, nxt');
    }
    SeenListed(sys.tris, f, ws, inReg, nxt');
  }

  lemma NothingSeen(ws: seq<Wedge>, inReg: seq<bool>, nxt: seq<nat>)
    ensures WedgesSeen(ws, 0, inReg, nxt)
  {}

  ghost predicate JobsSeen(tris: set<Triangle>, seeds: seq<nat>, todo: set<nat>, inReg: seq<bool>, nxt: seq<nat>) {
    forall i :: 0 <= i < |seeds| && i !in todo ==> Seen(tris, seeds[i], inReg, nxt)
  }

  lemma JobsStep(tris: set<Triangle>, seeds: seq<nat>, todo: set<nat>, i: nat, inReg: seq<bool>, nxt: seq<nat>,
                 nxt': seq<nat>)
    requires JobsSeen(tris, seeds, todo, inReg, nxt) && nxt <= nxt' && i < |seeds| && Seen(tris, seeds[i], inReg, nxt')
    ensures JobsSeen(tris, seeds, todo - {i}, inReg, nxt')
  {
    PrefixIn(nxt, nxt');
    hide Flagged;
    forall j | 0 <= j < |seeds| && j !in todo - {i} ensures Seen(tris, seeds[j], inReg, nxt') {
      if j != i {
        assert Seen(tris, seeds[j], inReg, nxt);
      }
    }
  }

  /** All jobs of a round, in any order. */
  method CollectRound(g: DynGraph, st: Stamps.StampSet, seeds: seq<nat>, inReg: seq<bool>, ub0: seq<bool>)
    returns (ub: seq<bool>, nxt: seq<nat>)
    requires g.Valid() && st.Valid() && |st.s| >= g.n && g.capEdges <= |inReg| == |ub0|
    requires forall i :: 0 <= i < |seeds| ==> seeds[i] in g.G() && Flagged(inReg, seeds[i])
    requires NextOk(Sys(g.G()), inReg, ub0, [])
    modifies st
    ensures st.Valid() && |st.s| == old(|st.s|)
    ensures NextOk(Sys(g.G()), inReg, ub, nxt) && JobsSeen(Triangles(g.G()), seeds, {}, inReg, nxt)
  {
    hide GraphInv, DynGraph.TableOk, TableMatches, GraphOf, Triangles, Stamps.StampSet.Marks, Stamps.StampSet.Valid,
         DynGraph.Valid, Simple, SmallEnds, NextOk, JobsSeen, Seen, Enumerates, Flagged, FiniteSets.Interval,
         TriSys.Valid, TriSys.Linear;
    ghost var sys := Sys(g.G());
    g.InvBounds();
    SysOk(g.G());
    ub, nxt := ub0, [];
    var todo := FiniteSets.Interval(|seeds|);
    NoJobs(sys.tris, seeds, todo, inReg, nxt);
    while todo != {}
      invariant st.Valid() && |st.s| == old(|st.s|)
      invariant todo <= FiniteSets.Interval(|seeds|)
      invariant NextOk(sys, inReg, ub, nxt) && JobsSeen(sys.tris, seeds, todo, inReg, nxt)
    {
      var i :| i in todo;
      var ws := g.EdgeTriangles(seeds[i], st);
      ghost var was := nxt;
      ub, nxt := CollectPartners(seeds[i], ws, inReg, ub, nxt, sys);
      JobsStep(sys.tris, seeds, todo, i, inReg, was, nxt);
      todo := todo - {i};
    }
  }

  lemma NoJobs(tris: set<Triangle>, seeds: seq<nat>, todo: set<nat>, inReg: seq<bool>, nxt: seq<nat>)
    requires forall i :: 0 <= i < |seeds| ==> i in todo
    ensures JobsSeen(tris, seeds, todo, inReg, nxt)
  {}

  // ---------------------------------------------------------------- the rounds together

  /** Between rounds: region edges outside the frontier have all their partners in the region. */
  ghost predicate RoundInv(sys: TriSys, live: set<nat>, regList: seq<nat>, inReg: seq<bool>, ub: seq<bool>,
                           frontier: seq<nat>) {
    && RegionOk(sys, regList, inReg)
    && live <= Elements(regList) && Minimal(sys, live, Elements(regList))
    && Elements(frontier) <= Elements(regList)
    && (forall f :: f in regList && f !in frontier ==> PartnersIn(sys.tris, f, inReg))
    && NextOk(sys, inReg, ub, [])
  }

  /** Takes the collected edges that are new into the region; they are the next frontier. */
  method Absorb(nxt: seq<nat>, regList: seq<nat>, inReg: seq<bool>, ghost sys: TriSys, ghost live: set<nat>)
    returns (regList': seq<nat>, inReg': seq<bool>, frontier: seq<nat>)
    requires RegionOk(sys, regList, inReg) && Minimal(sys, live, Elements(regList))
    requires forall e :: e in nxt ==> e in sys.edges && e < |inReg| && Touches(sys.tris, inReg, e)
    ensures RegionOk(sys, regList', inReg') && Minimal(sys, live, Elements(regList'))
    ensures |inReg'| == |inReg| && FlagsKept(inReg, inReg') && regList' == regList + frontier
    ensures forall e :: e in nxt ==> Flagged(inReg', e)
  {
    hide RegionOk, Minimal, Touches, Elements, FlagsKept, Flagged;
    regList', inReg', frontier := regList, inReg, [];
    SelfKept(inReg);
    for i := 0 to |nxt|
      invariant RegionOk(sys, regList', inReg') && Minimal(sys, live, Elements(regList'))
      invariant |inReg'| == |inReg| && FlagsKept(inReg, inReg') && regList' == regList + frontier
      invariant forall j :: 0 <= j < i ==> Flagged(inReg', nxt[j])
    {
      var e := nxt[i];
      assert e in nxt;
      ghost var was := inReg';
      if !inReg'[e] {
        TouchesMore(sys.tris, inReg, inReg', e);
        MinimalAdd(sys, live, regList', inReg', e);
        RegionAdd(sys, regList', inReg', e);
        inReg' := inReg'[e := true];
        regList' := regList' + [e];
        frontier := frontier + [e];
      }
      FlagAdded(was, inReg', e);
      KeptTrans(inReg, was, inReg');
      forall j | 0 <= j < i ensures Flagged(inReg', nxt[j]) {
        KeptFlag(was, inReg', nxt[j]);
      }
    }
  }

  lemma SelfKept(a: seq<bool>)
    ensures FlagsKept(a, a)
  {}

  lemma FlagAdded(a: seq<bool>, b: seq<bool>, e: nat)
    requires e < |a| && (b == a[e := true] || (b == a && a[e]))
    ensures FlagsKept(a, b) && Flagged(b, e)
  {}

  lemma RoundStep(sys: TriSys, live: set<nat>, regList: seq<nat>, inReg: seq<bool>, ub: seq<bool>, frontier: seq<nat>,
                  ub': seq<bool>, nxt: seq<nat>, regList': seq<nat>, inReg': seq<bool>, frontier': seq<nat>)
    requires RoundInv(sys, live, regList, inReg, ub, frontier)
    requires NextOk(sys, inReg, ub', nxt) && JobsSeen(sys.tris, frontier, {}, inReg, nxt)
    requires RegionOk(sys, regList', inReg') && Minimal(sys, live, Elements(regList'))
    requires FlagsKept(inReg, inReg') && regList' == regList + frontier'
    requires forall e :: e in nxt ==> Flagged(inReg', e)
    ensures RoundInv(sys, live, regList', inReg', ub', frontier')
  {
    hide RegionOk, Minimal, Touches;
    forall f | f in regList' && f !in frontier' ensures PartnersIn(sys.tris, f, inReg') {
      assert f in regList;
      if f in frontier {
        var i :| 0 <= i < |frontier| && frontier[i] == f;
        assert Seen(sys.tris, f, inReg, nxt);
        SeenIsIn(sys.tris, f, inReg, nxt, inReg');
      } else {
        PartnersKeep(sys.tris, f, inReg, inReg');
      }
    }
    hide JobsSeen, PartnersIn;
    forall e | 0 <= e < |ub'| && ub'[e] ensures inReg'[e] {
      assert inReg[e] || e in nxt;
    }
  }

  lemma SeenIsIn(tris: set<Triangle>, f: nat, inReg: seq<bool>, nxt: seq<nat>, inReg': seq<bool>)
    requires Seen(tris, f, inReg, nxt) && FlagsKept(inReg, inReg') && forall e :: e in nxt ==> Flagged(inReg', e)
    ensures PartnersIn(tris, f, inReg')
  {}

  /** When the frontier is empty, the region is the closure of the seeds. */
  lemma RoundsDone(sys: TriSys, live: set<nat>, regList: seq<nat>, inReg: seq<bool>, ub: seq<bool>)
    requires RoundInv(sys, live, regList, inReg, ub, [])
    ensures IsClosure(sys, live, Elements(regList)) && RegionOk(sys, regList, inReg)
    ensures |ub| == |inReg| && forall e :: 0 <= e < |ub| && ub[e] ==> e in regList
    ensures forall i :: 0 <= i < |regList| ==> regList[i] < |ub|
  {
    hide Minimal, Distinct, Touches;
    forall t | t in sys.tris && t * Elements(regList) != {} ensures t <= Elements(regList) {
      var f :| f in t && f in Elements(regList);
      assert PartnersIn(sys.tris, f, inReg);
      forall h | h in t ensures h in Elements(regList) {
        assert h < |inReg| && inReg[h];
      }
    }
    forall i | 0 <= i < |regList| ensures regList[i] < |ub| {
      assert regList[i] in regList;
    }
  }

  /** The closure of the live seeds under triangle adjacency; all marks but inReg are taken back. */
  method CloseSeeds(g: DynGraph, st: Stamps.StampSet, seeds0: seq<nat>, inReg0: seq<bool>, ub0: seq<bool>)
    returns (regList: seq<nat>, inReg: seq<bool>, ub: seq<bool>)
    requires g.Valid() && st.Valid() && |st.s| >= g.n && g.capEdges <= |inReg0| == |ub0|
    requires forall e :: 0 <= e < |inReg0| ==> !inReg0[e]
    requires forall e :: 0 <= e < |ub0| ==> !ub0[e]
    requires forall e :: e in seeds0 ==> e < |g.eu|
    modifies st
    ensures st.Valid() && |st.s| == old(|st.s|)
    ensures |inReg| == |ub| == |inReg0|
    ensures RegionOk(Sys(g.G()), regList, inReg)
    ensures IsClosure(Sys(g.G()), LiveSeeds(g.G(), seeds0), Elements(regList))
    ensures forall e :: e in seeds0 && e in g.G() ==> e in regList
    ensures forall c: set<nat> ::
              Closed(Triangles(g.G()), c) && (forall e :: e in seeds0 && e in g.G() ==> e in c) ==>
                forall f :: f in regList ==> f in c
    ensures forall e :: 0 <= e < |ub| ==> !ub[e]
  {
    hide GraphInv, DynGraph.TableOk, TableMatches, GraphOf, Triangles, Stamps.StampSet.Marks, Stamps.StampSet.Valid,
         DynGraph.Valid, Simple, SmallEnds, RoundInv, NextOk, JobsSeen, RegionOk, Minimal, FlagsKept, Flagged,
         Touches, IsClosure;
    ghost var sys := Sys(g.G());
    ghost var live := LiveSeeds(g.G(), seeds0);
    g.InvBounds();
    regList, inReg := StartRegion(g, seeds0, inReg0);
    ub := ub0;
    var seeds := regList;
    FirstRound(sys, live, regList, inReg, ub);
    while seeds != []
      invariant st.Valid() && |st.s| == old(|st.s|)
      invariant |inReg| == |ub| == |inReg0|
      invariant RoundInv(sys, live, regList, inReg, ub, seeds)
      decreases |sys.edges| - |regList|, |seeds|
    {
      RoundFacts(sys, live, regList, inReg, ub, seeds);
      var ub1, nxt := CollectRound(g, st, seeds, inReg, ub);
      NextFacts(sys, inReg, ub1, nxt);
      var regList1, inReg1, seeds1 := Absorb(nxt, regList, inReg, sys, live);
      RoundStep(sys, live, regList, inReg, ub, seeds, ub1, nxt, regList1, inReg1, seeds1);
      RoundFacts(sys, live, regList1, inReg1, ub1, seeds1);
      regList, inReg, ub, seeds := regList1, inReg1, ub1, seeds1;
    }
    RoundsDone(sys, live, regList, inReg, ub);
    LeastAround(g.G(), seeds0, regList);
    ub := ClearFlags(regList, ub);
  }

  /** The closure holds the live seeds, and lies in every closed set that does. */
  lemma LeastAround(g: Graph, seeds: seq<nat>, regList: seq<nat>)
    requires IsClosure(Sys(g), LiveSeeds(g, seeds), Elements(regList))
    ensures forall e :: e in seeds && e in g ==> e in regList
    ensures forall c: set<nat> ::
              Closed(Triangles(g), c) && (forall e :: e in seeds && e in g ==> e in c) ==>
                forall f :: f in regList ==> f in c
  {
    hide Triangles, Closed;
    forall e | e in seeds && e in g ensures e in regList {
      assert e in LiveSeeds(g, seeds);
      assert e in Elements(regList);
    }
    forall c: set<nat> | Closed(Triangles(g), c) && forall e :: e in seeds && e in g ==> e in c
      ensures forall f :: f in regList ==> f in c
    {
      assert LiveSeeds(g, seeds) <= c;
      assert Elements(regList) <= c;
    }
  }

  lemma FirstRound(sys: TriSys, live: set<nat>, regList: seq<nat>, inReg: seq<bool>, ub: seq<bool>)
    requires RegionOk(sys, regList, inReg) && Elements(regList) == live
    requires |ub| == |inReg| && forall e :: 0 <= e < |ub| ==> !ub[e]
    ensures RoundInv(sys, live, regList, inReg, ub, regList)
  {}

  lemma RoundFacts(sys: TriSys, live: set<nat>, regList: seq<nat>, inReg: seq<bool>, ub: seq<bool>, frontier: seq<nat>)
    requires RoundInv(sys, live, regList, inReg, ub, frontier)
    ensures |regList| <= |sys.edges|
    ensures RegionOk(sys, regList, inReg) && Minimal(sys, live, Elements(regList)) && NextOk(sys, inReg, ub, [])
    ensures forall i :: 0 <= i < |frontier| ==> frontier[i] in sys.edges && Flagged(inReg, frontier[i])
  {
    RegionSize(sys, regList, inReg);
    hide Minimal, PartnersIn, NextOk, Distinct;
    forall i | 0 <= i < |frontier| ensures frontier[i] in sys.edges && Flagged(inReg, frontier[i]) {
      assert frontier[i] in Elements(frontier);
    }
  }

  lemma NextFacts(sys: TriSys, inReg: seq<bool>, ub: seq<bool>, nxt: seq<nat>)
    requires NextOk(sys, inReg, ub, nxt)
    ensures |ub| == |inReg| && forall e :: e in nxt ==> e in sys.edges && e < |inReg| && Touches(sys.tris, inReg, e)
  {}
}
