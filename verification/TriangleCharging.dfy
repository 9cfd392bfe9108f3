/**
 Accounting for the triangles that a set of deleted edges destroys: each is charged once,
 by the deleted edge with the least id (phase_deletions in src/batch.h).
 */
module TriangleCharging {
  import opened DynamicGraph
  import FiniteSets
  import opened Regions
  import opened SimpleGraph
  import Stamps
  import opened Truss

  /** e is the deleted edge of least id in t. */
  ghost predicate Charges(e: nat, t: Triangle, d: set<nat>) {
    e in t && e in d && forall f :: f in t && f in d ==> e <= f
  }

  lemma ChargerUnique(e: nat, f: nat, t: Triangle, d: set<nat>)
    requires Charges(e, t, d) && Charges(f, t, d)
    ensures e == f
  {}

  /** Every triangle with a deleted edge has a charger. */
  lemma {:induction false} ChargerExists(t: Triangle, d: set<nat>) returns (e: nat)
    requires t * d != {}
    ensures Charges(e, t, d)
    decreases |t * d|
  {
    e :| e in t * d;
    if f :| f in t && f in d && f < e {
      var u := t - {e};
      assert f in u * d;
      assert u * d == t * d - {e};
      var h := ChargerExists(u, d);
      assert h <= f;
      assert forall g :: g in t && g in d ==> g == e || g in u;
      e := h;
    }
  }

  /** The triangles not yet charged when the deleted edges in done have been processed. */
  ghost function Uncharged(tris: set<Triangle>, d: set<nat>, done: set<nat>): set<Triangle> {
    set t | t in tris && forall e :: e in done ==> !Charges(e, t, d)
  }

  /** The same in the middle of processing e, after the first k of its triangles. */
  ghost function UnchargedDuring(tris: set<Triangle>, d: set<nat>, done: set<nat>, e: nat, ws: seq<Wedge>,
                                 k: nat): set<Triangle>
    requires k <= |ws|
  {
    if k == 0 then Uncharged(tris, d, done)
    else
      var before := UnchargedDuring(tris, d, done, e, ws, k - 1);
      if Charges(e, Tri(e, ws[k - 1]), d) then before - {Tri(e, ws[k - 1])} else before
  }

  lemma {:induction false} DuringMember(tris: set<Triangle>, d: set<nat>, done: set<nat>, e: nat, ws: seq<Wedge>,
                                        k: nat, t: Triangle)
    requires k <= |ws|
    ensures t in UnchargedDuring(tris, d, done, e, ws, k) <==>
            t in Uncharged(tris, d, done) && !(Charges(e, t, d) && exists j :: 0 <= j < k && t == Tri(e, ws[j]))
  {
    if k > 0 {
      DuringMember(tris, d, done, e, ws, k - 1, t);
    }
  }

  /** A triangle that e is to charge has not been charged before. */
  lemma DuringNext(tris: set<Triangle>, d: set<nat>, done: set<nat>, e: nat, ws: seq<Wedge>, k: nat)
    requires Enumerates(tris, e, ws) && k < |ws| && e !in done
    ensures Charges(e, Tri(e, ws[k]), d) ==> Tri(e, ws[k]) in UnchargedDuring(tris, d, done, e, ws, k)
    ensures UnchargedDuring(tris, d, done, e, ws, k + 1) ==
            UnchargedDuring(tris, d, done, e, ws, k) - (if Charges(e, Tri(e, ws[k]), d) then {Tri(e, ws[k])} else {})
  {
    DuringMember(tris, d, done, e, ws, k, Tri(e, ws[k]));
    if Charges(e, Tri(e, ws[k]), d) {
      forall f | f in done ensures !Charges(f, Tri(e, ws[k]), d) {
        if Charges(f, Tri(e, ws[k]), d) {
          ChargerUnique(e, f, Tri(e, ws[k]), d);
        }
      }
    }
  }

  lemma DuringEnd(tris: set<Triangle>, d: set<nat>, done: set<nat>, e: nat, ws: seq<Wedge>)
    requires Enumerates(tris, e, ws)
    ensures UnchargedDuring(tris, d, done, e, ws, |ws|) == Uncharged(tris, d, done + {e})
  {
    forall t ensures t in UnchargedDuring(tris, d, done, e, ws, |ws|) <==> t in Uncharged(tris, d, done + {e}) {
      DuringMember(tris, d, done, e, ws, |ws|, t);
      assert t in tris && e in t ==> exists j :: 0 <= j < |ws| && t == Tri(e, ws[j]);
    }
  }

  /** When all deleted edges have been processed, exactly the destroyed triangles have been charged. */
  lemma AllCharged(tris: set<Triangle>, d: set<nat>)
    ensures Uncharged(tris, d, d) == Avoiding(tris, d)
    ensures Uncharged(tris, d, {}) == tris
  {
    forall t | t in Uncharged(tris, d, d) ensures t !! d {
      assert forall f :: f in t && f in d ==> f in t * d;
      if t * d != {} {
        var e := ChargerExists(t, d);
      }
    }
  }

  // ---------------------------------------------------------------- counters and seeds

  /** A survivor's counter is exact; that of a deleted edge still covers its uncharged triangles. */
  ghost predicate ChargedCounts(sys: TriSys, d: set<nat>, live: set<Triangle>, sup: seq<nat>) {
    forall m :: m in sys.edges ==>
                  m < |sup| && sup[m] >= Deg(live, m) && (m !in d ==> sup[m] == Deg(live, m))
  }

  /** m is on a triangle that has been charged to another edge. */
  ghost predicate Loses(tris: set<Triangle>, d: set<nat>, live: set<Triangle>, m: nat) {
    exists t :: t in tris && t !in live && m in t && !Charges(m, t, d)
  }

  /** The seeds are the extra ones and the edges on charged triangles that did not charge them. */
  ghost predicate SeedsAre(tris: set<Triangle>, d: set<nat>, live: set<Triangle>, extra: set<nat>, seeds: seq<nat>) {
    forall m: nat :: m in seeds <==> m in extra || Loses(tris, d, live, m)
  }

  /** The edges that share an end with one in done. */
  ghost function Around(g: Graph, done: set<nat>): set<nat> {
    set m | m in g && exists e :: e in done && Meets(g, e, m)
  }

  /** Every survivor that lost a triangle is a seed, and seeds are edges. */
  ghost predicate SeedsCover(sys: TriSys, d: set<nat>, live: set<Triangle>, seeds: seq<nat>) {
    && (forall t, m :: t in sys.tris && t !in live && m in t && m !in d ==> m in seeds)
    && (forall m :: m in seeds ==> m in sys.edges)
  }

  /** uint32_t decrement. */
  function Pred32(x: nat): nat {
    if x == 0 then 0xFFFF_FFFF else x - 1
  }

  /** Charging one live triangle: neither counter underflows. */
  lemma ChargeOne(sys: TriSys, d: set<nat>, live: set<Triangle>, sup: seq<nat>, e: nat, w: Wedge)
    requires ChargedCounts(sys, d, live, sup) && Tri(e, w) in live && e in d
    requires w.e1 in sys.edges && w.e2 in sys.edges && w.e1 != e && w.e2 != e && w.e1 != w.e2
    ensures w.e1 < |sup| && w.e2 < |sup| && sup[w.e1] > 0 && sup[w.e2] > 0
    ensures var s1 := sup[w.e1 := sup[w.e1] - 1];
            ChargedCounts(sys, d, live - {Tri(e, w)}, s1[w.e2 := s1[w.e2] - 1])
  {
    var t := Tri(e, w);
    assert t in Inc(live, w.e1) && t in Inc(live, w.e2);
    forall m | m in sys.edges ensures Deg(live - {t}, m) == Deg(live, m) - (if m == e || m == w.e1
        || m == w.e2 then 1 else 0) {
      DegRemove(live, t, m);
    }
    hide Deg;
  }

  lemma SeedTwo(tris: set<Triangle>, d: set<nat>, live: set<Triangle>, extra: set<nat>, seeds: seq<nat>, e: nat,
                w: Wedge)
    requires SeedsAre(tris, d, live, extra, seeds) && Tri(e, w) in live && Tri(e, w) in tris && Charges(e, Tri(e, w), d)
    requires w.e1 != e && w.e2 != e
    ensures SeedsAre(tris, d, live - {Tri(e, w)}, extra, seeds + [w.e1] + [w.e2])
  {
    var t := Tri(e, w);
    forall m: nat
      ensures Loses(tris, d, live - {t}, m) <==> Loses(tris, d, live, m) || m == w.e1 || m == w.e2
    {
      ChargedMember(m, e, w, d);
      hide Charges, Tri;
      if Loses(tris, d, live - {t}, m) {
        var u :| u in tris && u !in live - {t} && m in u && !Charges(m, u, d);
        assert u == t || u !in live;
      }
      if Loses(tris, d, live, m) {
        var u :| u in tris && u !in live && m in u && !Charges(m, u, d);
        assert u !in live - {t};
      }
      if m == w.e1 || m == w.e2 {
        assert t in tris && t !in live - {t} && m in t && !Charges(m, t, d);
      }
    }
    hide Loses;
  }

  lemma ChargedMember(m: nat, e: nat, w: Wedge, d: set<nat>)
    requires Charges(e, Tri(e, w), d) && w.e1 != e && w.e2 != e
    ensures m in Tri(e, w) && !Charges(m, Tri(e, w), d) <==> m == w.e1 || m == w.e2
  {
    if Charges(m, Tri(e, w), d) {
      ChargerUnique(m, e, Tri(e, w), d);
    }
  }

  /** Processes the triangles of the deleted edge e; ok is false when a counter would underflow. */
  method ChargeEdge(e: nat, ws: seq<Wedge>, mark: seq<bool>, sup: seq<nat>, seeds: seq<nat>,
                    ghost sys: TriSys, ghost d: set<nat>, ghost done: set<nat>, ghost extra: set<nat>)
    returns (sup': seq<nat>, seeds': seq<nat>, ok: bool)
    requires sys.Valid() && Enumerates(sys.tris, e, ws) && e in d && e !in done
    requires forall f :: f in sys.edges ==> f < |mark| && (mark[f] <==> f in d)
    requires ChargedCounts(sys, d, Uncharged(sys.tris, d, done), sup)
    requires SeedsAre(sys.tris, d, Uncharged(sys.tris, d, done), extra, seeds)
    ensures ChargedCounts(sys, d, Uncharged(sys.tris, d, done + {e}), sup')
    ensures SeedsAre(sys.tris, d, Uncharged(sys.tris, d, done + {e}), extra, seeds')
    ensures |sup'| == |sup| && ok
  {
    hide ChargedCounts, SeedsAre, Deg, Enumerates, Uncharged, UnchargedDuring, Charges, TriSys.Valid;
    sup', seeds', ok := sup, seeds, true;
    DuringStart(sys.tris, d, done, e, ws);
    for k := 0 to |ws|
      invariant ChargedCounts(sys, d, UnchargedDuring(sys.tris, d, done, e, ws, k), sup')
      invariant SeedsAre(sys.tris, d, UnchargedDuring(sys.tris, d, done, e, ws, k), extra, seeds')
      invariant |sup'| == |sup| && ok
    {
      WedgeOf(sys, e, ws, k);
      DuringNext(sys.tris, d, done, e, ws, k);
      var e1, e2 := ws[k].e1, ws[k].e2;
      ghost var live := UnchargedDuring(sys.tris, d, done, e, ws, k);
      ChargesTest(e, ws[k], d);
      if (mark[e1] && e1 < e) || (mark[e2] && e2 < e) {
        assert live - {} == live;
      } else {
        ChargeOne(sys, d, live, sup', e, ws[k]);
        SeedTwo(sys.tris, d, live, extra, seeds', e, ws[k]);
        var o1 := sup'[e1];
        sup' := sup'[e1 := Pred32(o1)];
        var o2 := sup'[e2];
        sup' := sup'[e2 := Pred32(o2)];
        ok := ok && !(o1 == 0 || o2 == 0);
        seeds' := seeds' + [e1] + [e2];
      }
    }
    DuringEnd(sys.tris, d, done, e, ws);
  }

  lemma DuringStart(tris: set<Triangle>, d: set<nat>, done: set<nat>, e: nat, ws: seq<Wedge>)
    ensures UnchargedDuring(tris, d, done, e, ws, 0) == Uncharged(tris, d, done)
  {}

  /** The test on the marks decides who charges. */
  lemma ChargesTest(e: nat, w: Wedge, d: set<nat>)
    requires e in d && w.e1 != e && w.e2 != e
    ensures Charges(e, Tri(e, w), d) <==> !((w.e1 in d && w.e1 < e) || (w.e2 in d && w.e2 < e))
  {
    assert w.e1 in Tri(e, w) && w.e2 in Tri(e, w) && e in Tri(e, w);
  }

  /** The edges of a list become seeds. */
  method SeedList(list: seq<EdgeRef>, seeds: seq<nat>) returns (seeds': seq<nat>)
    ensures forall m: nat :: m in seeds' <==> m in seeds || exists i :: 0 <= i < |list| && list[i].eid == m
  {
    seeds' := seeds;
    for i := 0 to |list|
      invariant forall m: nat :: m in seeds' <==> m in seeds || HasEid(list, i, m)
    {
      EidsNext(list, i);
      seeds' := seeds' + [list[i].eid];
    }
  }

  ghost function Done(dels: seq<nat>, todo: set<nat>): set<nat> {
    set i | 0 <= i < |dels| && i !in todo :: dels[i]
  }

  /**
   All deleted edges, in any order of the jobs. With allSeeds, every edge at an end of a deleted
   edge becomes a seed too.
   */
  method ChargeAll(g: DynGraph, st: Stamps.StampSet, dels: seq<nat>, mark: seq<bool>, sup0: seq<nat>, allSeeds: bool)
    returns (sup: seq<nat>, seeds: seq<nat>, ok: bool)
    requires g.Valid() && st.Valid() && |st.s| >= g.n
    requires Distinct(dels) && Elements(dels) <= g.G().Keys
    requires forall f :: f in g.G() ==> f < |mark| && (mark[f] <==> f in Elements(dels))
    requires forall f :: f in g.G() ==> f < |sup0| && sup0[f] == Deg(Triangles(g.G()), f)
    modifies st
    ensures st.Valid() && |st.s| == old(|st.s|)
    ensures |sup| == |sup0| && ok
    ensures ChargedCounts(Sys(g.G()), Elements(dels), Avoiding(Triangles(g.G()), Elements(dels)), sup)
    ensures SeedsCover(Sys(g.G()), Elements(dels), Avoiding(Triangles(g.G()), Elements(dels)), seeds)
    ensures forall m: nat :: m in seeds <==>
              || (exists t :: t in Triangles(g.G()) && t * Elements(dels) != {} && m in t
                              && (m in dels ==> exists f :: f in t && f in dels && f < m))
              || (allSeeds && exists e :: e in dels && Meets(g.G(), e, m))
  {
    hide GraphInv, DynGraph.TableOk, TableMatches, GraphOf, Triangles, Stamps.StampSet.Marks, Stamps.StampSet.Valid,
         DynGraph.Valid, Simple, SmallEnds, ChargedCounts, SeedsAre, SeedsCover, Deg, Enumerates, Uncharged,
         TriSys.Valid, TriSys.Linear, FiniteSets.Interval, Done, Elements, Distinct, ListsNeighbours, Around, Meets,
         Loses;
    ghost var sys := Sys(g.G());
    ghost var d := Elements(dels);
    ghost var gr := g.G();
    ghost var extra: set<nat> := {};
    g.InvBounds();
    SysOk(g.G());
    sup, seeds, ok := sup0, [], true;
    var todo := FiniteSets.Interval(|dels|);
    ChargeStart(sys, dels, todo, sup0);
    AroundNone(gr);
    while todo != {}
      invariant st.Valid() && |st.s| == old(|st.s|)
      invariant todo <= FiniteSets.Interval(|dels|)
      invariant |sup| == |sup0| && ok
      invariant ChargedCounts(sys, d, Uncharged(sys.tris, d, Done(dels, todo)), sup)
      invariant SeedsAre(sys.tris, d, Uncharged(sys.tris, d, Done(dels, todo)), extra, seeds)
      invariant extra == if allSeeds then Around(gr, Done(dels, todo)) else {}
    {
      var i :| i in todo;
      var e := dels[i];
      DoneStep(dels, todo, i);
      if g.Alive(e) {
        var ws := g.EdgeTriangles(e, st);
        var fine: bool;
        sup, seeds, fine := ChargeEdge(e, ws, mark, sup, seeds, sys, d, Done(dels, todo), extra);
        ok := ok && fine;
        if allSeeds {
          g.ListOk(g.eu[e]);
          g.ListOk(g.ev[e]);
          ghost var charged := seeds;
          ghost var listU, listV := g.adj[g.eu[e]], g.adj[g.ev[e]];
          seeds := SeedList(g.adj[g.eu[e]], seeds);
          seeds := SeedList(g.adj[g.ev[e]], seeds);
          SeedAround(gr, d, Uncharged(sys.tris, d, Done(dels, todo - {i})), Done(dels, todo), e, listU, listV, charged,
                     seeds);
          extra := Around(gr, Done(dels, todo - {i}));
        }
      }
      todo := todo - {i};
    }
    AllDone(dels);
    AllCharged(sys.tris, d);
    AroundAll(gr, dels);
    ExactSeeds(gr, dels, extra, seeds);
  }

  /** The edges in the lists of both ends of e join the extra seeds. */
  lemma SeedAround(g: Graph, d: set<nat>, live: set<Triangle>, done: set<nat>, e: nat, listU: seq<EdgeRef>,
                   listV: seq<EdgeRef>, seeds: seq<nat>, seeds': seq<nat>)
    requires Simple(g) && e in g && SeedsAre(Triangles(g), d, live, Around(g, done), seeds)
    requires ListsNeighbours(g, g[e].0, listU) && ListsNeighbours(g, g[e].1, listV)
    requires forall m: nat :: m in seeds' <==>
                              || m in seeds || (exists i :: 0 <= i < |listU| && listU[i].eid == m)
                              || (exists i :: 0 <= i < |listV| && listV[i].eid == m)
    ensures SeedsAre(Triangles(g), d, live, Around(g, done + {e}), seeds')
  {
    hide Simple, Triangles, Loses, ListsNeighbours;
    ListsMeet(g, e, listU, listV);
    AroundNext(g, done, e);
    hide Around, Meets;
  }

  lemma AroundNext(g: Graph, done: set<nat>, e: nat)
    ensures forall m: nat :: m in Around(g, done + {e}) <==> m in Around(g, done) || Meets(g, e, m)
  {}

  lemma AroundAll(g: Graph, dels: seq<nat>)
    ensures forall m: nat :: m in Around(g, Elements(dels)) <==> exists e :: e in dels && Meets(g, e, m)
    ensures Around(g, Elements(dels)) <= g.Keys
  {
    forall m: nat | m in Around(g, Elements(dels)) ensures exists e :: e in dels && Meets(g, e, m) {
      var e :| e in Elements(dels) && Meets(g, e, m);
      assert e in dels;
    }
    forall m: nat | exists e :: e in dels && Meets(g, e, m) ensures m in Around(g, Elements(dels)) {
      var e :| e in dels && Meets(g, e, m);
      assert e in Elements(dels);
    }
  }

  /** When all triangles are charged, the other seeds are the edges that lost a triangle to another edge. */
  lemma ExactSeeds(g: Graph, dels: seq<nat>, extra: set<nat>, seeds: seq<nat>)
    requires Simple(g) && extra <= g.Keys
    requires SeedsAre(Triangles(g), Elements(dels), Avoiding(Triangles(g), Elements(dels)), extra, seeds)
    ensures SeedsCover(Sys(g), Elements(dels), Avoiding(Triangles(g), Elements(dels)), seeds)
    ensures forall m: nat :: m in seeds <==>
              || (exists t :: t in Triangles(g) && t * Elements(dels) != {} && m in t
                              && (m in dels ==> exists f :: f in t && f in dels && f < m))
              || m in extra
  {
  }

  lemma ChargeStart(sys: TriSys, dels: seq<nat>, todo: set<nat>, sup: seq<nat>)
    requires forall i :: 0 <= i < |dels| ==> i in todo
    requires forall f :: f in sys.edges ==> f < |sup| && sup[f] == Deg(sys.tris, f)
    ensures ChargedCounts(sys, Elements(dels), Uncharged(sys.tris, Elements(dels), Done(dels, todo)), sup)
    ensures SeedsAre(sys.tris, Elements(dels), Uncharged(sys.tris, Elements(dels), Done(dels, todo)), {}, [])
    ensures Done(dels, todo) == {}
  {
    AllCharged(sys.tris, Elements(dels));
    assert Done(dels, todo) == {};
    hide Deg;
  }

  lemma AroundNone(g: Graph)
    ensures Around(g, {}) == {}
  {}

  lemma DoneStep(dels: seq<nat>, todo: set<nat>, i: nat)
    requires Distinct(dels) && i in todo && i < |dels|
    ensures dels[i] in Elements(dels) && dels[i] !in Done(dels, todo)
    ensures Done(dels, todo - {i}) == Done(dels, todo) + {dels[i]}
  {
    assert dels[i] in dels;
    forall e ensures e in Done(dels, todo - {i}) <==> e in Done(dels, todo) + {dels[i]} {
      if e in Done(dels, todo - {i}) {
        var j :| 0 <= j < |dels| && j !in todo - {i} && dels[j] == e;
      }
      if e in Done(dels, todo) {
        var j :| 0 <= j < |dels| && j !in todo && dels[j] == e;
        assert j !in todo - {i};
      }
    }
  }

  lemma AllDone(dels: seq<nat>)
    ensures Done(dels, {}) == Elements(dels)
  {
    forall e | e in Elements(dels) ensures e in Done(dels, {}) {
      var j :| 0 <= j < |dels| && dels[j] == e;
    }
  }
}
