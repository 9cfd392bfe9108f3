/** Triangle counting and the static bucket peel (src/truss_static.h). */
module StaticDecomposition {
  import opened DynamicGraph
  import FiniteSets
  import opened Peeling
  import opened SimpleGraph
  import opened Stamps
  import opened Truss

  /** sup holds the triangle counts of all live edges. */
  ghost predicate CountsTriangles(sys: TriSys, sup: seq<nat>) {
    forall e :: e in sys.edges ==> At(sup, e) == Deg(sys.tris, e)
  }

  /** Counts the marked entries in the list of v, which are the common neighbours of u and v. */
  method CountMarked(g: DynGraph, ghost u: nat, v: nat, st: StampSet) returns (c: nat, ghost nb: seq<nat>,
                     ws: seq<Wedge>)
    requires g.Valid() && v < g.n && st.Valid() && |st.s| >= g.n && MarksNeighbours(g.G(), u, st.Marks())
    ensures c == |ws| && ListsCommon(g.G(), u, v, nb, ws)
  {
    hide GraphInv, DynGraph.TableOk, TableMatches, GraphOf, Joins, MarksNeighbours, ListsCommon, StampSet.Marks,
         StampSet.Valid;
    g.InvBounds();
    ListFacts(g.Arr(), v);
    ghost var src;
    nb, ws, src := ScanList(g.adj[v], st);
    c := |ws|;
    CommonComplete(g.G(), u, v, g.adj[v], st.Marks(), nb, ws, src);
  }

  /** The counts of the edges whose first endpoint has been handled. */
  ghost predicate CountedFrom(g: Graph, sup: seq<nat>, done: set<nat>) {
    forall e: nat :: e < |sup| ==>
                  sup[e] == if e in g && g[e].0 in done then Deg(Triangles(g), e) else 0
  }

  /** Counts the triangles of the edges whose first endpoint is u. */
  method CountVertex(g: DynGraph, u: nat, sup: seq<nat>, st: StampSet, ghost done: set<nat>) returns (sup': seq<nat>)
    requires g.Valid() && u < g.n && st.Valid() && |st.s| >= g.n && |sup| == g.capEdges
    requires CountedFrom(g.G(), sup, done)
    modifies st
    ensures st.Valid() && |st.s| == old(|st.s|)
    ensures |sup'| == |sup| && CountedFrom(g.G(), sup', done + {u})
  {
    hide GraphInv, DynGraph.TableOk, TableMatches, GraphOf, MarksNeighbours, ListsCommon, Enumerates, Triangles,
         StampSet.Marks, StampSet.Valid;
    sup' := sup;
    g.InvBounds();
    ListFacts(g.Arr(), u);
    ghost var gr := g.G();
    if g.adj[u] == [] {
      assert forall e :: e in gr && gr[e].0 == u ==> Joins(gr, e, u, gr[e].1);
      return;
    }
    g.MarkNeighbours(u, st);
    var list := g.adj[u];
    for i := 0 to |list|
      invariant st.Valid() && |st.s| == old(|st.s|) && MarksNeighbours(gr, u, st.Marks())
      invariant |sup'| == |sup|
      invariant forall e: nat :: e < |sup| ==>
                               sup'[e] == (if e in gr && gr[e].0 == u && exists j :: 0 <= j < i && list[j].eid == e
                                           then Deg(Triangles(gr), e) else sup[e])
    {
      var r := list[i];
      if g.eu[r.eid] == u {
        var c: nat;
        var ws;
        ghost var nb;
        c, nb, ws := CountMarked(g, u, r.nbr, st);
        CommonAreTriangles(gr, r.eid, u, r.nbr, nb, ws);
        EnumerationCount(Triangles(gr), r.eid, ws);
        sup' := sup'[r.eid := c];
      }
    }
    forall e | e in gr && gr[e].0 == u ensures exists j :: 0 <= j < |list| && list[j].eid == e {
      assert Joins(gr, e, u, gr[e].1);
      assert EdgeRef(gr[e].1, e) in list;
    }
  }

  /**
   Triangle counts of all edges. The vertices are handled in any order, as the workers
   of the parallel version pick them.
   */
  method ComputeSupports(g: DynGraph, st: StampSet) returns (sup: seq<nat>)
    requires g.Valid() && st.Valid() && |st.s| >= g.n
    modifies st
    ensures st.Valid() && |st.s| == old(|st.s|)
    ensures |sup| == g.capEdges && CountsTriangles(Sys(g.G()), sup)
    ensures forall e: nat :: e < |sup| && e !in g.G() ==> sup[e] == 0
  {
    hide GraphInv, DynGraph.TableOk, TableMatches, GraphOf, Triangles, StampSet.Marks, StampSet.Valid;
    g.InvBounds();
    sup := seq(g.capEdges, _ => 0);
    var todo := FiniteSets.Interval(g.n);
    ghost var all := todo;
    while todo != {}
      invariant st.Valid() && |st.s| == old(|st.s|)
      invariant todo <= all
      invariant |sup| == g.capEdges && CountedFrom(g.G(), sup, all - todo)
    {
      var u :| u in todo;
      sup := CountVertex(g, u, sup, st, all - todo);
      assert all - todo + {u} == all - (todo - {u});
      todo := todo - {u};
    }
  }

  // ---------------------------------------------------------------- the peel

  /** alive says which edges of the region have not been peeled. */
  ghost predicate AliveFlags(alive: seq<bool>, region: set<nat>, dead: set<nat>) {
    forall e :: e in region ==> e < |alive| && (alive[e] <==> e !in dead)
  }

  lemma AliveFlag(alive: seq<bool>, region: set<nat>, dead: set<nat>, x: nat)
    requires AliveFlags(alive, region, dead) && x in region
    ensures x < |alive| && (alive[x] <==> x !in dead)
    ensures AliveFlags(alive[x := false], region, dead + {x})
  {}

  /** The k-th triangle on the peeled edge x is live exactly if its two other edges are. */
  lemma WedgeFacts(tris: set<Triangle>, region: set<nat>, dead: set<nat>, x: nat, ws: seq<Wedge>, k: nat,
                   alive: seq<bool>)
    requires Enumerates(tris, x, ws) && k < |ws| && forall t :: t in tris ==> t <= region
    requires x !in dead && AliveFlags(alive, region, dead + {x})
    ensures var w := ws[k];
            && w.e1 in region && w.e2 in region && w.e1 != w.e2 && w.e1 < |alive| && w.e2 < |alive|
            && (alive[w.e1] <==> w.e1 !in dead + {x}) && (alive[w.e2] <==> w.e2 !in dead + {x})
            && (Tri(x, w) in Avoiding(tris, dead) <==> alive[w.e1] && alive[w.e2])
  {
    var t := Tri(x, ws[k]);
    assert t <= region && ws[k].e1 in t && ws[k].e2 in t;
  }

  /** Takes the triangles of the peeled edge x away from the counters of their other edges. */
  method DropTriangles(x: nat, ws: seq<Wedge>, s: nat, alive: seq<bool>, sup: seq<nat>, buckets: seq<seq<nat>>,
                       ghost tris: set<Triangle>, ghost region: set<nat>, ghost dead: set<nat>, ghost i: nat)
    returns (sup': seq<nat>, buckets': seq<seq<nat>>)
    requires Enumerates(tris, x, ws) && forall t :: t in tris ==> t <= region
    requires x in region && x !in dead && AliveFlags(alive, region, dead + {x})
    requires ScanInv(Avoiding(tris, dead), region, region - (dead + {x}), sup, buckets, s, i)
    ensures ScanInv(Avoiding(tris, dead + {x}), region, region - (dead + {x}), sup', buckets', s, i)
    ensures |sup'| == |sup| && |buckets'| == |buckets|
  {
    hide Enumerates, Avoiding, Dropped, AliveFlags;
    sup', buckets' := sup, buckets;
    ghost var live := Avoiding(tris, dead);
    assert Dropped(live, x, ws, 0) == live by { DroppedNone(live, x, ws); }
    ghost var todo := region - (dead + {x});
    for k := 0 to |ws|
      invariant ScanInv(Dropped(live, x, ws, k), region, todo, sup', buckets', s, i)
      invariant |sup'| == |sup| && |buckets'| == |buckets|
    {
      hide CountsOk, Queued, BucketsIn, Deg;
      var e1, e2 := ws[k].e1, ws[k].e2;
      DroppedLater(tris, live, x, ws, k);
      DroppedNext(live, x, ws, k);
      WedgeFacts(tris, region, dead, x, ws, k, alive);
      ghost var cur := Dropped(live, x, ws, k);
      if !alive[e1] || !alive[e2] {
        SkipCounts(cur, todo, sup', s, Tri(x, ws[k]));
      } else {
        LowerCounts(cur, region, todo, sup', s, x, e1, e2);
        QueuedBounds(buckets', todo, sup', s, i);
        RequeueOk(buckets', region, todo, sup', s, i, e1);
        sup', buckets' := LowerAndRequeue(sup', buckets', e1, s);
        QueuedBounds(buckets', todo, sup', s, i);
        RequeueOk(buckets', region, todo, sup', s, i, e2);
        sup', buckets' := LowerAndRequeue(sup', buckets', e2, s);
      }
    }
    DroppedAll(tris, dead, x, ws);
  }

  /** The buckets by triangle count, and the largest count. */
  method InitialBuckets(g: DynGraph, sup: seq<nat>) returns (maxsup: nat, buckets: seq<seq<nat>>)
    requires g.Valid() && |sup| == g.capEdges
    ensures |buckets| == maxsup + 1 && (maxsup == 0 || exists e :: e in g.G() && e < |sup| && sup[e] == maxsup)
    ensures Queued(buckets, g.G().Keys, sup, 0, 0) && BucketsIn(buckets, g.G().Keys)
  {
    hide GraphInv, DynGraph.TableOk, TableMatches, GraphOf, Waits;
    g.InvBounds();
    maxsup := 0;
    for e := 0 to g.capEdges
      invariant forall f :: f in g.G() && f < e ==> sup[f] <= maxsup
      invariant maxsup == 0 || exists f :: f in g.G() && f < |sup| && sup[f] == maxsup
    {
      if g.Alive(e) && sup[e] > maxsup {
        maxsup := sup[e];
      }
    }
    buckets := seq(maxsup + 1, _ => []);
    for e := 0 to g.capEdges
      invariant |buckets| == maxsup + 1 && BucketsIn(buckets, g.G().Keys)
      invariant forall f :: f in g.G() && f < e ==> Waits(buckets[sup[f]], f, 0)
    {
      if g.Alive(e) {
        ghost var was := buckets;
        buckets := buckets[sup[e] := buckets[sup[e]] + [e]];
        forall f | f in g.G() && f < e + 1 ensures Waits(buckets[sup[f]], f, 0) {
          WaitsAppend(was[sup[f]], e, f);
        }
      }
    }
  }

  /** Peels the edge x at position i of bucket s. */
  method PopEdge(g: DynGraph, st: StampSet, s: nat, i: nat, x: nat, alive: seq<bool>, sup: seq<nat>,
                 buckets: seq<seq<nat>>,
                 ghost tau: seq<nat>, ghost tau': seq<nat>, ghost dead: set<nat>)
    returns (sup': seq<nat>, buckets': seq<seq<nat>>)
    requires g.Valid() && st.Valid() && |st.s| >= g.n
    requires PeelInv(Sys(g.G()), g.G().Keys, {}, dead, s, sup, tau)
    requires Queued(buckets, g.G().Keys - dead, sup, s, i) && BucketsIn(buckets, g.G().Keys)
    requires s < |buckets| && i < |buckets[s]| && buckets[s][i] == x
    requires x in g.G().Keys - dead && x < |sup| && sup[x] == s
    requires x < |tau| && tau' == tau[x := Word(s + 2)]
    requires AliveFlags(alive, g.G().Keys, dead + {x})
    modifies st
    ensures st.Valid() && |st.s| == old(|st.s|)
    ensures PeelInv(Sys(g.G()), g.G().Keys, {}, dead + {x}, s, sup', tau')
    ensures Queued(buckets', g.G().Keys - (dead + {x}), sup', s, i + 1) && BucketsIn(buckets', g.G().Keys)
    ensures |buckets'| == |buckets| && i < |buckets'[s]|
  {
    hide GraphInv, DynGraph.TableOk, TableMatches, GraphOf, Triangles, StampSet.Marks, StampSet.Valid, PeelInv,
         Queued, BucketsIn, Enumerates, CountsOk, Simple, TriSys.Linear, AliveFlags, DynGraph.Valid, InTruss,
         Supports, Deg, Within, Avoiding, Word;
    g.InvBounds();
    ghost var region := g.G().Keys;
    ghost var sys := Sys(g.G());
    SysOk(g.G());
    PopIsExact(sys, region, {}, dead, s, sup, tau, x);
    ScanPop(sys, region, {}, dead, s, sup, tau, buckets, i, x);
    var ws := g.EdgeTriangles(x, st);
    sup', buckets' := DropTriangles(x, ws, s, alive, sup, buckets, sys.tris, region, dead, i + 1);
    PeelOne(sys, region, {}, dead, s, sup, tau, x, sup', tau');
  }

  /** Scans bucket s of level s, peeling the edges whose counter is down at the level. */
  method ScanBucket(g: DynGraph, st: StampSet, s: nat, alive0: seq<bool>, sup0: seq<nat>, tau0: seq<nat>,
                    buckets0: seq<seq<nat>>,
                    ghost dead0: set<nat>)
    returns (alive: seq<bool>, sup: seq<nat>, tau: seq<nat>, buckets: seq<seq<nat>>, ghost dead: set<nat>)
    requires g.Valid() && st.Valid() && |st.s| >= g.n
    requires PeelInv(Sys(g.G()), g.G().Keys, {}, dead0, s, sup0, tau0)
    requires Queued(buckets0, g.G().Keys - dead0, sup0, s, 0) && BucketsIn(buckets0, g.G().Keys) && s < |buckets0|
    requires AliveFlags(alive0, g.G().Keys, dead0)
    requires forall e :: e in g.G() ==> e < |tau0|
    modifies st
    ensures st.Valid() && |st.s| == old(|st.s|)
    ensures PeelInv(Sys(g.G()), g.G().Keys, {}, dead, s + 1, sup, tau)
    ensures Queued(buckets, g.G().Keys - dead, sup, s + 1, 0) && BucketsIn(buckets, g.G().Keys)
    ensures AliveFlags(alive, g.G().Keys, dead)
    ensures |tau| == |tau0| && |buckets| == |buckets0|
    ensures forall e: nat :: e < |tau| && e !in g.G() ==> tau[e] == tau0[e]
  {
    hide GraphInv, DynGraph.TableOk, TableMatches, GraphOf, Triangles, StampSet.Marks, StampSet.Valid, PeelInv,
         Queued, BucketsIn, CountsOk, Simple, TriSys.Linear, AliveFlags, DynGraph.Valid, InTruss, Supports, Deg,
         Within, Avoiding, Word;
    alive, sup, tau, buckets, dead := alive0, sup0, tau0, buckets0, dead0;
    ghost var region := g.G().Keys;
    ghost var sys := Sys(g.G());
    var i := 0;
    while i < |buckets[s]|
      invariant st.Valid() && |st.s| == old(|st.s|)
      invariant PeelInv(sys, region, {}, dead, s, sup, tau)
      invariant Queued(buckets, region - dead, sup, s, i) && BucketsIn(buckets, region)
      invariant s < |buckets| == |buckets0| && 0 <= i <= |buckets[s]|
      invariant AliveFlags(alive, region, dead)
      invariant |tau| == |tau0|
      invariant forall e: nat :: e < |tau| && e !in region ==> tau[e] == tau0[e]
      decreases |region - dead|, |buckets[s]| - i
    {
      var x := buckets[s][i];
      BucketEntry(buckets, region, s, i);
      AliveFlag(alive, region, dead, x);
      QueuedBounds(buckets, region - dead, sup, s, i);
      assert alive[x] ==> x in region - dead;
      if !alive[x] || sup[x] != s {
        ScanPast(buckets, region - dead, sup, s, i);
      } else {
        ghost var tauWas := tau;
        tau := tau[x := Word(s + 2)];
        alive := alive[x := false];
        sup, buckets := PopEdge(g, st, s, i, x, alive, sup, buckets, tauWas, tau, dead);
        assert region - (dead + {x}) == (region - dead) - {x};
        dead := dead + {x};
      }
      i := i + 1;
    }
    ScanDone(buckets, region - dead, sup, s);
    SysOk(g.G()) by { g.InvBounds(); }
    LevelUp(sys, region, {}, dead, s, sup, tau);
  }

  /**
   The static decomposition: the trussness of every live edge, as far as 16 bits hold it, and
   its triangle count.
   */
  method StaticTruss(g: DynGraph, st: StampSet) returns (tau: seq<nat>, sup0: seq<nat>)
    requires g.Valid() && st.Valid() && |st.s| >= g.n
    modifies st
    ensures st.Valid() && |st.s| == old(|st.s|)
    ensures |tau| == |sup0| == g.capEdges
    ensures Stored(Sys(g.G()), tau) && CountsTriangles(Sys(g.G()), sup0)
    ensures forall e: nat :: e < g.capEdges && e !in g.G() ==> tau[e] == 0 && sup0[e] == 0
  {
    hide GraphInv, DynGraph.TableOk, TableMatches, GraphOf, Triangles, StampSet.Marks, StampSet.Valid, PeelInv,
         Queued, BucketsIn, CountsOk, Simple, TriSys.Linear, AliveFlags, DynGraph.Valid, InTruss, Supports, Deg,
         Within, Avoiding, Word;
    g.InvBounds();
    ghost var region := g.G().Keys;
    ghost var sys := Sys(g.G());
    sup0 := ComputeSupports(g, st);
    tau := seq(g.capEdges, _ => 0);
    var maxsup, buckets := InitialBuckets(g, sup0);
    var alive := seq(g.capEdges, _ => true);
    AliveStart(alive, region);
    var sup := sup0;
    ghost var dead: set<nat> := {};
    PeelStart(sys, region, {}, sup, tau);
    assert region - {} == region;
    for s := 0 to maxsup + 1
      invariant st.Valid() && |st.s| == old(|st.s|)
      invariant PeelInv(sys, region, {}, dead, s, sup, tau)
      invariant Queued(buckets, region - dead, sup, s, 0) && BucketsIn(buckets, region)
      invariant |buckets| == maxsup + 1
      invariant AliveFlags(alive, region, dead)
      invariant |tau| == g.capEdges
      invariant forall e: nat :: e < |tau| && e !in region ==> tau[e] == 0
    {
      alive, sup, tau, buckets, dead := ScanBucket(g, st, s, alive, sup, tau, buckets, dead);
    }
    PeelEnd(sys, region, {}, dead, maxsup + 1, sup, tau, buckets);
  }

  lemma AliveStart(alive: seq<bool>, region: set<nat>)
    requires forall e :: e in region ==> e < |alive|
    requires forall e :: 0 <= e < |alive| ==> alive[e]
    ensures AliveFlags(alive, region, {})
  {}

  // ---------------------------------------------------------------- graphs whose values fit

  /** Every trussness in the graph with these keys fits into 16 bits. */
  ghost predicate KeysFit(keys: set<nat>) {
    forall k :: k in keys ==> KeyTruss(keys, k) < 65536
  }

  lemma KeysFitSys(g: Graph)
    requires Simple(g) && SmallEnds(g)
    ensures Fits(Sys(g)) <==> KeysFit(Keys(g))
  {
    hide KeyTruss, Trussness, Simple, SmallEnds, Keys, Triangles;
    TrussBoundByKeys(g, 65535);
  }
}
