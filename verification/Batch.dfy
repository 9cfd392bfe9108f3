/** The batch maintainer (src/batch.h). */
module Batch {
  import opened DynamicGraph
  import opened EdgeOps
  import opened HashTable
  import opened InsertionCounts
  import opened Peeling
  import opened RegionalPeel
  import opened Regions
  import opened SimpleGraph
  import opened Stamps
  import opened StaticDecomposition
  import opened TriangleCharging
  import opened TriangleClosure
  import opened Truss

  // ---------------------------------------------------------------- locality of an update

  /**
   Two systems agree on all triangles that touch the edges outside a closed region: those
   edges keep their trussness and their triangle counts.
   */
  lemma OutsideAgrees(a: TriSys, b: TriSys, r: set<nat>)
    requires b.Valid() && r <= b.edges && Closed(b.tris, r)
    requires {} !in a.tris && {} !in b.tris
    requires b.edges - r <= a.edges
    requires forall t :: t in a.tris && t * (b.edges - r) != {} ==> t in b.tris
    requires forall t :: t in b.tris && t * (b.edges - r) != {} ==> t in a.tris
    ensures forall e :: e in b.edges && e !in r ==>
                    Trussness(a, e) == Trussness(b, e) && Deg(a.tris, e) == Deg(b.tris, e)
  {
    var c := b.edges - r;
    forall t | t in b.tris && t * c != {} ensures t <= c {
      assert t * r == {};
      assert forall f :: f in t ==> f !in t * r;
    }
    forall t | t in a.tris && t * c != {} ensures t <= c {
      assert t in b.tris;
    }
    forall t ensures t in Within(a.tris, c) <==> t in Within(b.tris, c) {
      if t <= c && (t in a.tris || t in b.tris) {
        assert t != {};
        var f :| f in t;
        assert f in t * c;
      }
    }
    assert Within(a.tris, c) == Within(b.tris, c);
    Locality(a, b, c);
    forall e | e in c ensures Inc(a.tris, e) == Inc(b.tris, e) {
      forall t | e in t ensures t in a.tris <==> t in b.tris {
        assert e in t * c;
      }
    }
  }

  /** After the deletion of d, whose survivors with a lost triangle lie in the closed region r. */
  lemma DeletionOutside(a: TriSys, b: TriSys, d: set<nat>, r: set<nat>)
    requires a.Valid() && b.Valid() && {} !in a.tris && {} !in b.tris
    requires d <= a.edges && b.edges == a.edges - d && b.tris == Avoiding(a.tris, d)
    requires r <= b.edges && Closed(b.tris, r)
    requires forall t, m :: t in a.tris && t !in b.tris && m in t && m !in d ==> m in r
    ensures forall e :: e in b.edges && e !in r ==>
                    Trussness(a, e) == Trussness(b, e) && Deg(a.tris, e) == Deg(b.tris, e)
  {
    forall t | t in a.tris && t * (b.edges - r) != {} ensures t in b.tris {
      var m :| m in t && m in b.edges - r;
      assert m !in d;
    }
    OutsideAgrees(a, b, r);
  }

  /** After the insertion of new edges, all of which lie in the closed region r. */
  lemma InsertionOutside(a: TriSys, b: TriSys, n: set<nat>, r: set<nat>)
    requires a.Valid() && b.Valid() && {} !in a.tris && {} !in b.tris
    requires n <= r <= b.edges && a.edges == b.edges - n && a.tris == Avoiding(b.tris, n) && Closed(b.tris, r)
    ensures forall e :: e in b.edges && e !in r ==>
                    Trussness(a, e) == Trussness(b, e) && Deg(a.tris, e) == Deg(b.tris, e)
  {
    forall t | t in b.tris && t * (b.edges - r) != {} ensures t in a.tris {
      assert t * r == {};
      assert forall f :: f in t ==> f !in t * r;
    }
    OutsideAgrees(a, b, r);
  }

  lemma NoEmptyTriangle(g: Graph)
    requires Simple(g)
    ensures {} !in Triangles(g)
  {
    SysOk(g);
    var none: Triangle := {};
    assert |none| == 0;
  }

  // ---------------------------------------------------------------- the object

  class BatchMaintainer {
    const g: DynGraph
    const st: StampSet
    var tau: seq<nat>
    var sup: seq<nat>
    var dcount: seq<nat>
    var supcap: nat
    var ablateAllSeeds: bool
    var inReg: seq<bool>
    var ubIn: seq<bool>
    var deadMark: seq<bool>
    var psup: seq<nat>
    var palive: seq<bool>
    var regList: seq<nat>

    ghost predicate GraphOk()
      reads g, st
    {
      g.Valid() && st.Valid() && |st.s| >= g.n
    }

    ghost predicate SizesOk()
      reads this, g
    {
      && |tau| == |sup| == |dcount| == |inReg| == |ubIn| == |deadMark| == |psup| == |palive| == supcap
      && g.capEdges <= supcap <= |g.eu|
    }

    /** No scratch mark is set. */
    ghost predicate Quiet()
      reads this
    {
      && regList == []
      && AllFalse(inReg) && AllFalse(ubIn) && AllFalse(deadMark) && AllFalse(palive)
    }

    /** The state between batches: every count is exact, and every value as far as 16 bits hold it. */
    ghost predicate Valid()
      reads this, g, st
    {
      && GraphOk() && SizesOk() && Quiet()
      && Stored(Sys(g.G()), tau) && CountsTriangles(Sys(g.G()), sup)
    }

    /** Starts from the static decomposition, with room for extra edges. */
    constructor (graph: DynGraph, reserve: nat)
      requires graph.Valid()
      modifies graph
      ensures Valid() && g == graph && fresh(st) && g.G() == old(graph.G()) && g.n == old(graph.n) && !ablateAllSeeds
      ensures var want := old(graph.capEdges) + reserve + 16;
              g.capEdges == supcap
              == if reserve == 0 then old(graph.capEdges) else if want > 0xFFFF_FFFE then 0xFFFF_FFFE else want
    {
      hide GraphInv, DynGraph.TableOk, TableMatches, GraphOf, Triangles, StampSet.Marks, StampSet.Valid,
           DynGraph.Valid, Simple, SmallEnds, Stored, CountsTriangles, Deg;
      graph.Sizes();
      var cap := graph.capEdges;
      if reserve != 0 {
        var want := graph.capEdges + reserve + 16;
        cap := if want > NIL - 1 then NIL - 1 else want;
        graph.ReserveEdges(cap);
      }
      graph.Sizes();
      var stamps := new StampSet(graph.n);
      g := graph;
      st := stamps;
      var t, c := StaticTruss(graph, stamps);
      tau := t;
      sup := c;
      supcap := cap;
      dcount := seq(cap, _ => 0);
      inReg := seq(cap, _ => false);
      ubIn := seq(cap, _ => false);
      deadMark := seq(cap, _ => false);
      psup := seq(cap, _ => 0);
      palive := seq(cap, _ => false);
      regList := [];
      ablateAllSeeds := false;
    }

    /**
     Peels the region in regList: for any region of live edges whose boundary values are right,
     it assigns the right trussness and count to every region edge, pops each of them exactly
     once, and takes its scratch marks back.
     */
    method PeelRegion() returns (ok: bool)
      requires GraphOk() && SizesOk()
      requires RegionOk(Sys(g.G()), regList, inReg) && BoundaryExact(Sys(g.G()), Elements(regList), tau)
      requires AllFalse(ubIn) && AllFalse(deadMark) && AllFalse(palive)
      modifies `tau, `sup, `ubIn, `deadMark, `psup, `palive, st
      ensures GraphOk() && SizesOk() && ok
      ensures AllFalse(ubIn) && AllFalse(deadMark) && AllFalse(palive)
      ensures Assigned(Sys(g.G()), regList, tau, sup)
      ensures forall e :: e !in regList ==> At(tau, e) == old(At(tau, e)) && At(sup, e) == old(At(sup, e))
    {
      hide GraphInv, DynGraph.TableOk, TableMatches, GraphOf, Triangles, StampSet.Marks, StampSet.Valid,
           DynGraph.Valid, Simple, SmallEnds, RegionOk, BoundaryExact, Deg, InTruss, Trussness, Word, Distinct,
           AllFalse, Elements, Assigned;
      g.InvBounds();
      FalseFlags(deadMark);
      FalseFlags(ubIn);
      FalseFlags(palive);
      tau, sup, psup, deadMark, ubIn, palive, ok :=
        PeelList(g, st, regList, inReg, tau, sup, psup, deadMark, ubIn, palive);
      TrueFlags(palive);
      TrueFlags(ubIn);
      TrueFlags(deadMark);
    }

    /**
     Closes the seeds under triangle adjacency and peels that region. Together with exact values
     outside the closure this makes all values exact again.
     */
    method Settle(seeds: seq<nat>) returns (ok: bool)
      requires GraphOk() && SizesOk() && Quiet()
      requires forall e :: e in seeds ==> e < |g.eu|
      requires forall r: set<nat> :: IsClosure(Sys(g.G()), LiveSeeds(g.G(), seeds), r) ==>
                                       ExactBeyond(Sys(g.G()), r, tau, sup)
      modifies `tau, `sup, `inReg, `ubIn, `deadMark, `psup, `palive, `regList, st
      ensures GraphOk() && SizesOk() && Quiet() && ok
      ensures Stored(Sys(g.G()), tau) && CountsTriangles(Sys(g.G()), sup)
      ensures forall e :: e !in g.G() ==> At(tau, e) == old(At(tau, e)) && At(sup, e) == old(At(sup, e))
    {
      hide GraphInv, DynGraph.TableOk, TableMatches, GraphOf, Triangles, StampSet.Marks, StampSet.Valid,
           DynGraph.Valid, Simple, SmallEnds, RegionOk, BoundaryExact, Deg, InTruss, Trussness, Word, Distinct,
           AllFalse, Elements, IsClosure, ExactBeyond, Stored, CountsTriangles, LiveSeeds, Assigned;
      ghost var sys := Sys(g.G());
      ghost var live := LiveSeeds(g.G(), seeds);
      ghost var tau0, sup0 := tau, sup;
      g.InvBounds();
      FalseFlags(inReg);
      FalseFlags(ubIn);
      regList, inReg, ubIn := CloseSeeds(g, st, seeds, inReg, ubIn);
      TrueFlags(ubIn);
      ClosedBoundary(sys, live, Elements(regList), tau);
      ok := PeelRegion();
      AllExact(sys, regList, tau0, sup0, tau, sup);
      ClosureRanges(sys, regList, inReg);
      RegionLives(g.G(), regList, inReg);
      inReg := ClearFlags(regList, inReg);
      TrueFlags(inReg);
      regList := [];
    }

    /**
     Deletes live edges. Each destroyed triangle is charged once, no count underflows, and all
     values are exact for the remaining graph.
     */
    method PhaseDeletions(dels: seq<nat>) returns (ok: bool)
      requires Valid() && Distinct(dels) && Elements(dels) <= g.G().Keys
      modifies this, g, st
      ensures Valid() && ok && g.G() == old(g.G()) - Elements(dels)
      ensures forall e :: e in dels ==> At(tau, e) == 0 && At(sup, e) == 0
      ensures g.n == old(g.n) && g.Skipped() == old(g.Skipped()) && ablateAllSeeds == old(ablateAllSeeds)
    {
      hide GraphInv, DynGraph.TableOk, TableMatches, GraphOf, Triangles, StampSet.Marks, StampSet.Valid,
           DynGraph.Valid, Simple, SmallEnds, Deg, InTruss, Trussness, Word, AllFalse, Elements, Distinct, IsClosure,
           ExactBeyond, Stored, CountsTriangles, ChargedCounts, SeedsCover, Avoiding;
      ghost var g0, tau0 := g.G(), tau;
      g.InvBounds();
      var seeds, fine := ChargeDeleted(dels);
      ghost var sup1 := sup;
      RemoveAll(dels);
      DeletionReady(g0, dels, tau0, sup1, tau, sup, seeds, g.capEdges);
      g.InvBounds();
      DeletedGone(g0, dels);
      var fine2 := Settle(seeds);
      ok := fine && fine2;
    }

    /** Marks the edges to delete and charges the triangles that they destroy. */
    method ChargeDeleted(dels: seq<nat>) returns (seeds: seq<nat>, ok: bool)
      requires GraphOk() && SizesOk() && AllFalse(deadMark) && CountsTriangles(Sys(g.G()), sup)
      requires Distinct(dels) && Elements(dels) <= g.G().Keys
      modifies `sup, `deadMark, st
      ensures GraphOk() && SizesOk() && ok
      ensures forall e :: 0 <= e < |deadMark| ==> (deadMark[e] <==> e in dels)
      ensures ChargedCounts(Sys(g.G()), Elements(dels), Avoiding(Triangles(g.G()), Elements(dels)), sup)
      ensures SeedsCover(Sys(g.G()), Elements(dels), Avoiding(Triangles(g.G()), Elements(dels)), seeds)
    {
      hide GraphInv, DynGraph.TableOk, TableMatches, GraphOf, Triangles, StampSet.Marks, StampSet.Valid,
           DynGraph.Valid, Simple, SmallEnds, Deg, AllFalse, Elements, Distinct, CountsTriangles, ChargedCounts,
           SeedsCover, Avoiding, Meets;
      g.InvBounds();
      ListedAlive(dels, g.G());
      FalseFlags(deadMark);
      deadMark := SetFlags(dels, deadMark);
      DeadMarks(g.G(), dels, deadMark);
      CountsAt(Sys(g.G()), sup);
      sup, seeds, ok := ChargeAll(g, st, dels, deadMark, sup, ablateAllSeeds);
    }

    /** Takes the deleted edges off the graph and clears what the arrays say about them. */
    method RemoveAll(dels: seq<nat>)
      requires GraphOk() && SizesOk() && Distinct(dels) && Elements(dels) <= g.G().Keys
      requires forall e :: 0 <= e < |deadMark| ==> (deadMark[e] <==> e in dels)
      modifies g, `tau, `sup, `deadMark
      ensures GraphOk() && SizesOk() && g.G() == old(g.G()) - Elements(dels)
      ensures g.n == old(g.n) && g.capEdges == old(g.capEdges) && g.Skipped() == old(g.Skipped())
      ensures forall e :: e !in dels ==> At(tau, e) == old(At(tau, e)) && At(sup, e) == old(At(sup, e))
      ensures forall e :: e in dels ==> At(tau, e) == 0 && At(sup, e) == 0
      ensures AllFalse(deadMark)
    {
      hide GraphInv, DynGraph.TableOk, TableMatches, GraphOf, DynGraph.Valid, Simple, SmallEnds, StampSet.Valid,
           DynGraph.Skipped, Distinct;
      ghost var g0 := g.G();
      assert g0 - Elements(dels[..0]) == g0;
      for i := 0 to |dels|
        invariant GraphOk() && SizesOk() && g.G() == g0 - Elements(dels[..i])
        invariant g.n == old(g.n) && g.capEdges == old(g.capEdges) && g.Skipped() == old(g.Skipped())
        invariant forall e :: e !in dels ==> At(tau, e) == old(At(tau, e)) && At(sup, e) == old(At(sup, e))
        invariant forall j :: 0 <= j < i ==> At(tau, dels[j]) == 0 && At(sup, dels[j]) == 0
        invariant forall e :: 0 <= e < |deadMark| ==> (deadMark[e] <==> e in dels[i..])
      {
        var e := dels[i];
        g.InvBounds();
        ElementsNext(dels, i);
        AboutToGo(g0, dels, i);
        if g.Alive(e) {
          g.RemoveEdge(e);
          tau := tau[e := 0];
          sup := sup[e := 0];
          deadMark := deadMark[e := false];
        }
      }
      assert dels[..|dels|] == dels;
    }

    // ------------------------------------------------------------ insertions

    /** grow_structures: doubles all arrays; dead_mark starts over, with nothing marked. */
    method GrowStructures(eid: nat)
      requires SizesOk() && AllFalse(deadMark) && |g.eu| == |g.ev| == |g.slot0| == |g.slot1|
      modifies `tau, `sup, `dcount, `supcap, `inReg, `ubIn, `deadMark, `psup, `palive, g`eu, g`ev, g`slot0, g`slot1
      ensures |tau| == |sup| == |dcount| == |inReg| == |ubIn| == |deadMark| == |psup| == |palive| == supcap
              == |g.eu| == NewSize(eid, old(|g.eu|))
      ensures g.eu == Resize(old(g.eu), supcap, NIL) && g.ev == Resize(old(g.ev), supcap, NIL)
      ensures g.slot0 == Resize(old(g.slot0), supcap, 0) && g.slot1 == Resize(old(g.slot1), supcap, 0)
      ensures forall e :: At(tau, e) == old(At(tau, e)) && At(sup, e) == old(At(sup, e))
      ensures old(AllFalse(inReg)) ==> AllFalse(inReg)
      ensures old(AllFalse(ubIn)) ==> AllFalse(ubIn)
      ensures old(AllFalse(palive)) ==> AllFalse(palive)
      ensures AllFalse(deadMark)
    {
      hide AllFalse, GrowFlags, NewSize, At, Resize;
      var nsz := NewSize(eid, |g.eu|);
      GrowthKeeps(tau, sup, inReg, ubIn, palive, nsz);
      g.eu := Resize(g.eu, nsz, NIL);
      g.ev := Resize(g.ev, nsz, NIL);
      g.slot0 := Resize(g.slot0, nsz, 0);
      g.slot1 := Resize(g.slot1, nsz, 0);
      inReg := GrowFlags(inReg, nsz);
      ubIn := GrowFlags(ubIn, nsz);
      deadMark := GrowFlags([], nsz);
      psup := Resize(psup, nsz, 0);
      palive := GrowFlags(palive, nsz);
      tau := Resize(tau, nsz, 0);
      sup := Resize(sup, nsz, 0);
      dcount := Resize(dcount, nsz, 0);
      supcap := nsz;
    }

    /** An id for a new edge; the arrays grow when it is beyond them. */
    method TakeId() returns (eid: nat)
      requires GraphOk() && SizesOk() && Quiet() && (g.freeIds != [] || g.capEdges + 1 < 0xFFFF_FFFF)
      modifies g`capEdges, g`freeIds, g`eu, g`ev, g`slot0, g`slot1
      modifies `tau, `sup, `dcount, `supcap, `inReg, `ubIn, `deadMark, `psup, `palive
      ensures GraphOk() && SizesOk() && Quiet() && g.G() == old(g.G())
      ensures eid < g.capEdges <= |g.eu| && !g.Alive(eid) && eid !in g.freeIds && eid !in g.G()
      ensures g.capEdges - |g.freeIds| == old(g.capEdges - |g.freeIds|) + 1
      ensures forall e :: At(tau, e) == old(At(tau, e)) && At(sup, e) == old(At(sup, e))
    {
      hide GraphInv, DynGraph.TableOk, TableMatches, GraphOf, AllFalse, StampSet.Valid, Simple, SmallEnds;
      g.Sizes();
      if g.freeIds != [] {
        PopFreeInv(g.Arr());
        eid := g.freeIds[|g.freeIds| - 1];
        g.freeIds := g.freeIds[..|g.freeIds| - 1];
      } else {
        eid := NextId();
      }
    }

    /** The next unused id; the arrays grow when it is beyond them. */
    method NextId() returns (eid: nat)
      requires GraphOk() && SizesOk() && Quiet() && g.capEdges + 1 < 0xFFFF_FFFF && g.freeIds == []
      modifies g`capEdges, g`eu, g`ev, g`slot0, g`slot1
      modifies `tau, `sup, `dcount, `supcap, `inReg, `ubIn, `deadMark, `psup, `palive
      ensures GraphOk() && SizesOk() && Quiet() && g.G() == old(g.G())
      ensures eid < g.capEdges <= |g.eu| && !g.Alive(eid) && eid !in g.G() && g.capEdges == old(g.capEdges) + 1
      ensures forall e :: At(tau, e) == old(At(tau, e)) && At(sup, e) == old(At(sup, e))
    {
      hide GraphInv, DynGraph.TableOk, TableMatches, GraphOf, AllFalse, StampSet.Valid, Simple, SmallEnds;
      g.Sizes();
      eid := g.capEdges;
      var grow := eid >= supcap || eid >= |g.eu|;
      ghost var ns := if grow then NewSize(eid, |g.eu|) else |g.eu|;
      GrowInv(g.Arr(), g.capEdges + 1, ns);
      ResizeSame(g.eu, g.ev, g.slot0, g.slot1);
      if grow {
        GrowStructures(eid);
      }
      g.capEdges := g.capEdges + 1;
    }

    /** Enters one new edge. */
    method AttachNew(a: nat, b: nat) returns (eid: nat)
      requires GraphOk() && SizesOk() && Quiet() && (g.freeIds != [] || g.capEdges + 1 < 0xFFFF_FFFF)
      requires a < g.n && b < g.n && a != b && EKey(a, b) !in Keys(g.G())
      modifies g, this
      ensures GraphOk() && SizesOk() && Quiet()
      ensures eid !in old(g.G()) && g.G() == old(g.G())[eid := if a < b then (a, b) else (b, a)]
      ensures g.n == old(g.n) && g.Skipped() == old(g.Skipped())
      ensures ablateAllSeeds == old(ablateAllSeeds)
      ensures forall e :: e != eid ==> At(tau, e) == old(At(tau, e)) && At(sup, e) == old(At(sup, e))
      ensures At(tau, eid) == 0 && At(sup, eid) == 0
    {
      hide GraphInv, DynGraph.TableOk, TableMatches, GraphOf, DynGraph.Valid, SmallEnds, Simple, AllFalse,
           StampSet.Valid, Keys, EKey;
      var u, v := a, b;
      if u > v {
        u, v := v, u;
      }
      ghost var g0 := g.G();
      g.InvBounds();
      KeyAbsent(g0, a, b);
      eid := TakeId();
      g.AttachEdge(eid, u, v);
      g.InvBounds();
      ResetNew(eid);
    }

    /** A new edge starts with nothing recorded. */
    method ResetNew(eid: nat)
      requires SizesOk() && Quiet() && eid < supcap
      modifies `tau, `sup, `inReg, `ubIn
      ensures SizesOk() && Quiet()
      ensures forall e :: e != eid ==> At(tau, e) == old(At(tau, e)) && At(sup, e) == old(At(sup, e))
      ensures At(tau, eid) == 0 && At(sup, eid) == 0
    {
      hide AllFalse;
      tau := tau[eid := 0];
      sup := sup[eid := 0];
      ClearAt(inReg, eid);
      ClearAt(ubIn, eid);
      inReg := inReg[eid := false];
      ubIn := ubIn[eid := false];
    }

    /** Enters all new edges. */
    method AttachAll(ins: seq<(nat, nat)>) returns (newEids: seq<nat>)
      requires GraphOk() && SizesOk() && Quiet() && g.Room(|g.G()| + |ins|)
      requires NewPairs(g.G(), ins, g.n)
      modifies g, this
      ensures GraphOk() && SizesOk() && Quiet()
      ensures Distinct(newEids) && Extends(old(g.G()), g.G(), Elements(newEids))
              && Keys(g.G()) == old(Keys(g.G())) + PairKeys(ins)
      ensures g.n == old(g.n) && g.Skipped() == old(g.Skipped())
      ensures ablateAllSeeds == old(ablateAllSeeds)
      ensures forall e :: e in old(g.G()) ==> At(tau, e) == old(At(tau, e)) && At(sup, e) == old(At(sup, e))
      ensures forall e :: e in newEids ==> At(tau, e) == 0 && At(sup, e) == 0
    {
      hide GraphInv, DynGraph.TableOk, TableMatches, GraphOf, DynGraph.Valid, SmallEnds, Simple, AllFalse,
           StampSet.Valid, Keys, EKey, SizesOk, Quiet, GraphOk, NewPairs, Elements, PairKeys, Extends, Distinct,
           DynGraph.Skipped, Entered;
      newEids := [];
      ghost var g0, skipped := g.G(), g.Skipped();
      assert |g0| + |ins| + skipped < 0xFFFF_FFFF;
      hide DynGraph.Room;
      EnteredStart(g0, ins);
      for i := 0 to |ins|
        invariant GraphOk() && SizesOk() && Quiet() && Entered(g0, g.G(), ins[..i], newEids)
        invariant g.n == old(g.n) && g.Skipped() == skipped
        invariant ablateAllSeeds == old(ablateAllSeeds)
        invariant forall e :: e in g0 ==> At(tau, e) == old(At(tau, e)) && At(sup, e) == old(At(sup, e))
        invariant forall e :: e in newEids ==> At(tau, e) == 0 && At(sup, e) == 0
      {
        var a, b := ins[i].0, ins[i].1;
        ghost var gi := g.G();
        NextPair(g0, gi, ins, newEids, g.n, i);
        g.RoomForOne(|g0| + |ins|);
        var eid := AttachNew(a, b);
        EnteredNext(g0, gi, ins, newEids, i, eid);
        newEids := newEids + [eid];
      }
      EnteredAll(g0, g.G(), ins, newEids);
    }

    /**
     Inserts new edges; all values are exact for the enlarged graph. The counts of edges on
     triangles with several new edges are too high for a while; the peel of the region sets them.
     */
    method PhaseInsertions(ins: seq<(nat, nat)>) returns (ok: bool)
      requires Valid() && g.Room(|g.G()| + |ins|) && NewPairs(g.G(), ins, g.n)
      modifies this, g, st
      ensures Valid() && ok && Keys(g.G()) == old(Keys(g.G())) + PairKeys(ins)
      ensures forall e :: e in old(g.G()) ==> e in g.G() && g.G()[e] == old(g.G())[e]
      ensures g.n == old(g.n) && g.Skipped() == old(g.Skipped()) && ablateAllSeeds == old(ablateAllSeeds)
    {
      hide GraphInv, DynGraph.TableOk, TableMatches, GraphOf, Triangles, StampSet.Marks, StampSet.Valid,
           DynGraph.Valid, Simple, SmallEnds, Deg, InTruss, Trussness, Word, AllFalse, Elements, Distinct, Keys,
           PairKeys, NewPairs, IsClosure, ExactBeyond, Stored, CountsTriangles, Extends, EKey, Mates,
           DynGraph.Skipped, DynGraph.Room;
      ghost var g0, tau0, sup0 := g.G(), tau, sup;
      g.InvBounds();
      var newEids := AttachAll(ins);
      g.InvBounds();
      ghost var g1, sup1 := g.G(), sup;
      ExtendsFacts(g0, g1, newEids);
      var seeds := RecordMates(newEids);
      SeedsLive(g1, newEids, seeds);
      InsertionReady(g0, g1, newEids, tau0, sup0, tau, sup1, sup, seeds);
      ok := Settle(seeds);
    }

    /**
     Counts the triangles of the new edges into sup: a new edge starts from its triangle count,
     and every edge goes up once for each other new edge that it shares a triangle with. The new
     edges and the edges counted up become the seeds.
     */
    method RecordMates(newEids: seq<nat>) returns (seeds: seq<nat>)
      requires GraphOk() && SizesOk() && Distinct(newEids) && forall e :: e in newEids ==> e in g.G()
      modifies `sup, `dcount, st
      ensures GraphOk() && SizesOk()
      ensures forall e :: e in seeds <==> e in newEids || Mates(Triangles(g.G()), Elements(newEids), e) != {}
      ensures forall e :: e in g.G() ==>
                            At(sup, e) == (if e in newEids then Deg(Triangles(g.G()), e) else old(At(sup, e)))
                                          + |Mates(Triangles(g.G()), Elements(newEids), e)|
    {
      hide GraphInv, DynGraph.TableOk, TableMatches, GraphOf, Triangles, StampSet.Marks, StampSet.Valid,
           DynGraph.Valid, Deg, Mates, Mentions, Simple, SmallEnds, Elements, Distinct;
      g.InvBounds();
      var wsize, mates := CollectMates(g, st, newEids);
      var sizes := StoreSizes(newEids, wsize, sup);
      var counted, deltas := BumpMates(mates, sizes, dcount);
      seeds := SeedMates(newEids, mates, deltas);
      sup, dcount := counted, deltas;
      SizesStored(newEids, wsize, Triangles(g.G()), sizes);
      MentionedMates(Triangles(g.G()), Elements(newEids), mates);
    }

    // ------------------------------------------------------------ batches

    /** The keys a batch deletes and inserts, judged against the graph as it is. */
    method Normalise(raw: seq<Op>) returns (delset: set<nat>, insset: set<nat>)
      requires g.Valid() && OpsInRange(raw, g.n)
      ensures delset == Deleted(Keys(g.G()), raw) && insset == Inserted(Keys(g.G()), raw)
      ensures |insset| <= |raw|
    {
      hide GraphInv, DynGraph.TableOk, TableMatches, GraphOf, Simple, SmallEnds, DynGraph.Valid, Keys, Deleted,
           Inserted, EKey;
      delset, insset := {}, {};
      ghost var gr := g.G();
      ghost var keys := Keys(gr);
      g.InvBounds();
      NothingAsked(keys);
      for i := 0 to |raw|
        invariant delset == Deleted(keys, raw[..i]) && insset == Inserted(keys, raw[..i])
        invariant |insset| <= i
      {
        var op := raw[i];
        BatchNext(keys, raw, i);
        assert delset + {} == delset && insset + {} == insset;
        if op.u != op.v {
          var k := EKey(op.u, op.v);
          var has := g.Has(op.u, op.v);
          assert g.G() == gr;
          KeyPresent(gr, op.u, op.v);
          if op.del {
            if has {
              delset := delset + {k};
            }
          } else {
            if !has {
              insset := insset + {k};
            }
          }
        }
      }
      assert raw[..|raw|] == raw;
    }

    /** The ids of the edges to delete, in any order. */
    method DeletionList(delset: set<nat>, insset: set<nat>) returns (dels: seq<nat>)
      requires g.Valid() && delset <= Keys(g.G()) && delset !! insset
      ensures Distinct(dels) && Elements(dels) <= g.G().Keys && KeysAt(g.G(), Elements(dels)) == delset
      ensures delset != {} ==> dels != []
    {
      hide GraphInv, DynGraph.TableOk, GraphOf, Simple, SmallEnds, Keys;
      g.InvBounds();
      ghost var gr := g.G();
      dels := [];
      var rest := delset;
      while rest != {}
        invariant rest <= delset
        invariant Distinct(dels) && Elements(dels) <= gr.Keys && KeysAt(gr, Elements(dels)) == delset - rest
      {
        var k :| k in rest;
        rest := rest - {k};
        if k in insset {
          continue;
        }
        TableHas(gr, g.table, k);
        var eid := g.Find(k);
        if eid >= 0 {
          ListNext(gr, dels, eid);
          dels := dels + [eid];
        }
      }
    }

    /** The endpoint pairs of the edges to insert, in any order. */
    method InsertionList(delset: set<nat>, insset: set<nat>) returns (ins: seq<(nat, nat)>)
      requires delset !! insset
      requires forall k :: k in insset ==> KeyEnds(k).0 != KeyEnds(k).1 && EKey(KeyEnds(k).0, KeyEnds(k).1) == k
      ensures ListsPairs(ins, insset)
    {
      hide EKey, ListsPairs;
      ins := [];
      var rest := insset;
      NoPairs();
      assert insset - rest == {};
      while rest != {}
        invariant rest <= insset && ListsPairs(ins, insset - rest)
      {
        var k :| k in rest;
        PairNext(ins, insset - rest, k);
        assert insset - rest + {k} == insset - (rest - {k});
        rest := rest - {k};
        if k in delset {
          continue;
        }
        ins := ins + [KeyEnds(k)];
      }
      assert insset - rest == insset;
    }

    /**
     A merged batch: afterwards the edges are those the batch asks for, and every value and
     every count is exact.
     */
    method ApplyBatch(raw: seq<Op>) returns (ok: bool)
      requires Valid() && OpsInRange(raw, g.n)
      requires g.Room(|BatchKeys(Keys(g.G()), raw)|)
      modifies this, g, st
      ensures Valid() && ok && Keys(g.G()) == BatchKeys(old(Keys(g.G())), raw)
      ensures g.n == old(g.n) && g.Skipped() == old(g.Skipped()) && ablateAllSeeds == old(ablateAllSeeds)
    {
      hide GraphInv, DynGraph.TableOk, TableMatches, GraphOf, Triangles, StampSet.Marks, StampSet.Valid,
           DynGraph.Valid, Simple, SmallEnds, Deg, InTruss, Trussness, Word, AllFalse, Elements, Distinct, Keys,
           PairKeys, NewPairs, Stored, CountsTriangles, EKey, KeysAt, Deleted, Inserted, OpsInRange, SizesOk, Quiet,
           ListsPairs, DynGraph.Skipped;
      ghost var g0 := g.G();
      g.InvBounds();
      var delset, insset := Normalise(raw);
      BatchFacts(Keys(g0), raw, g.n);
      var dels := DeletionList(delset, insset);
      var ins := InsertionList(delset, insset);
      ok := true;
      KeysDeleteSet(g0, Elements(dels));
      if dels != [] {
        ok := PhaseDeletions(dels);
      } else {
        NoDeletions(g0, dels);
      }
      assert Keys(g.G()) == Keys(g0) - delset;
      if ins != [] {
        InsertionsNew(g.G(), Keys(g0), delset, insset, ins, g.n);
        g.InvBounds();
        KeysCard(g.G());
        var fine := PhaseInsertions(ins);
        ok := ok && fine;
      } else {
        NoInsertions(ins, insset);
      }
    }

    /** The same operations without merging: one batch per operation. */
    method ApplyBatchNoMerge(raw: seq<Op>) returns (ok: bool)
      requires Valid() && OpsInRange(raw, g.n)
      requires forall i :: 0 <= i <= |raw| ==> g.Room(|SeqKeys(Keys(g.G()), raw[..i])|)
      modifies this, g, st
      ensures Valid() && ok && Keys(g.G()) == SeqKeys(old(Keys(g.G())), raw)
      ensures g.n == old(g.n) && g.Skipped() == old(g.Skipped()) && ablateAllSeeds == old(ablateAllSeeds)
    {
      hide Valid, Keys, OpsInRange, SeqKeys, OneKeys, BatchKeys, DynGraph.Skipped;
      ghost var keys := Keys(g.G());
      ok := true;
      NoOps(keys);
      for i := 0 to |raw|
        invariant Valid() && ok && Keys(g.G()) == SeqKeys(keys, raw[..i])
        invariant g.n == old(g.n) && g.Skipped() == old(g.Skipped()) && ablateAllSeeds == old(ablateAllSeeds)
      {
        SeqKeysNext(keys, raw, i);
        assert g.Room(|SeqKeys(keys, raw[..i + 1])|);
        SingleBatch(Keys(g.G()), raw[i]);
        OneInRange(raw, g.n, i);
        var fine := ApplyBatch([raw[i]]);
        ok := fine && ok;
      }
      assert raw[..|raw|] == raw;
    }

    /** A whole stream of merged batches. */
    method Run(stream: seq<seq<Op>>) returns (ok: bool)
      requires Valid() && forall i :: 0 <= i < |stream| ==> OpsInRange(stream[i], g.n)
      requires forall i :: 0 <= i <= |stream| ==> g.Room(|StreamKeys(Keys(g.G()), stream[..i])|)
      modifies this, g, st
      ensures Valid() && ok && Keys(g.G()) == StreamKeys(old(Keys(g.G())), stream)
    {
      hide Valid, Keys, OpsInRange, StreamKeys, BatchKeys, DynGraph.Skipped;
      ghost var keys := Keys(g.G());
      ok := true;
      StreamStart(keys);
      for i := 0 to |stream|
        invariant Valid() && ok && Keys(g.G()) == StreamKeys(keys, stream[..i])
        invariant g.n == old(g.n) && g.Skipped() == old(g.Skipped())
      {
        StreamNext(keys, stream, i);
        assert g.Room(|StreamKeys(keys, stream[..i + 1])|);
        var fine := ApplyBatch(stream[i]);
        ok := ok && fine;
      }
      assert stream[..|stream|] == stream;
    }

    /** The maintained value of an edge is its trussness in the graph with these edge keys, in 16 bits. */
    lemma ValuesByKeys()
      requires Valid()
      ensures forall e :: e in g.G() ==>
                            KeyOf(g.G(), e) in Keys(g.G()) && At(tau, e) == Word(KeyTruss(Keys(g.G()), KeyOf(g.G(), e)))
    {
      hide GraphInv, DynGraph.TableOk, TableMatches, GraphOf, Triangles, StampSet.Marks, StampSet.Valid,
           DynGraph.Valid, Simple, SmallEnds, Deg, InTruss, Keys, KeyOf, KeyTruss, Word;
      g.InvBounds();
      TrussByKeys(g.G());
      assert forall e :: e in g.G() ==> e in Sys(g.G()).edges;
    }

    /** The maintained values are the trussness exactly when every trussness fits into 16 bits. */
    lemma ExactIffFits()
      requires Valid()
      ensures Exact(Sys(g.G()), tau) <==> KeysFit(Keys(g.G()))
    {
      hide GraphInv, DynGraph.TableOk, TableMatches, GraphOf, Triangles, StampSet.Marks, StampSet.Valid,
           DynGraph.Valid, Simple, SmallEnds, Stored, Exact, Fits, KeysFit, CountsTriangles, Keys;
      g.InvBounds();
      StoredExactIff(Sys(g.G()), tau);
      KeysFitSys(g.G());
    }
  }

  ghost predicate AllFalse(flags: seq<bool>) {
    forall e :: 0 <= e < |flags| ==> !flags[e]
  }

  lemma FalseFlags(flags: seq<bool>)
    requires AllFalse(flags)
    ensures forall e :: 0 <= e < |flags| ==> !flags[e]
  {}

  lemma TrueFlags(flags: seq<bool>)
    requires forall e :: 0 <= e < |flags| ==> !flags[e]
    ensures AllFalse(flags)
  {}

  /** Outside r all values and counts are right. */
  ghost predicate ExactBeyond(sys: TriSys, r: set<nat>, tau: seq<nat>, sup: seq<nat>) {
    forall e :: e in sys.edges && e !in r ==> At(tau, e) == Word(Trussness(sys, e)) && At(sup, e) == Deg(sys.tris, e)
  }

  /** A closed region has no boundary. */
  lemma ClosedBoundary(sys: TriSys, seeds: set<nat>, r: set<nat>, tau: seq<nat>)
    requires IsClosure(sys, seeds, r)
    ensures BoundaryExact(sys, r, tau)
  {
    hide Trussness, Minimal;
    forall t, f, h | t in sys.tris && f in t && h in t && f in r ensures h in r {
      assert f in t * r;
    }
  }

  /** Right values inside and outside the region are right values everywhere. */
  lemma AllExact(sys: TriSys, regList: seq<nat>, tau0: seq<nat>, sup0: seq<nat>, tau: seq<nat>, sup: seq<nat>)
    requires ExactBeyond(sys, Elements(regList), tau0, sup0)
    requires Assigned(sys, regList, tau, sup)
    requires forall e :: e !in regList ==> At(tau, e) == At(tau0, e) && At(sup, e) == At(sup0, e)
    ensures Stored(sys, tau) && CountsTriangles(sys, sup)
  {
    hide Trussness, Deg, Word;
  }

  lemma DeletedGone(g: Graph, dels: seq<nat>)
    ensures forall e :: e in dels ==> e !in g - Elements(dels)
  {}

  lemma RegionLives(g: Graph, regList: seq<nat>, inReg: seq<bool>)
    requires RegionOk(Sys(g), regList, inReg)
    ensures forall e :: e in regList ==> e in g
  {}

  lemma ClosureRanges(sys: TriSys, regList: seq<nat>, inReg: seq<bool>)
    requires RegionOk(sys, regList, inReg)
    ensures forall e :: e in regList ==> e < |inReg|
    ensures forall e :: 0 <= e < |inReg| && inReg[e] ==> e in regList
  {}

  lemma ElementsNext(s: seq<nat>, i: nat)
    requires Distinct(s) && i < |s|
    ensures Elements(s[..i + 1]) == Elements(s[..i]) + {s[i]} && s[i] !in Elements(s[..i]) && s[i] in s
    ensures s[i] in Elements(s)
    ensures forall e :: e in s[i..] <==> e == s[i] || e in s[i + 1..]
    ensures s[i] !in s[i + 1..]
  {
    assert s[..i + 1] == s[..i] + [s[i]];
    assert s[i..] == [s[i]] + s[i + 1..];
  }

  lemma ListedAlive(dels: seq<nat>, g: Graph)
    requires Elements(dels) <= g.Keys
    ensures forall e :: e in dels ==> e in g
  {
    forall e | e in dels ensures e in g {
      assert e in Elements(dels);
    }
  }

  lemma DeadMarks(g: Graph, dels: seq<nat>, mark: seq<bool>)
    requires forall e :: 0 <= e < |mark| ==> (mark[e] <==> e in dels)
    requires forall f :: f in g ==> f < |mark|
    ensures forall f :: f in g ==> f < |mark| && (mark[f] <==> f in Elements(dels))
  {}

  lemma CountsAt(sys: TriSys, sup: seq<nat>)
    requires CountsTriangles(sys, sup) && forall f :: f in sys.edges ==> f < |sup|
    ensures forall f :: f in sys.edges ==> sup[f] == Deg(sys.tris, f)
  {
    hide Deg;
  }

  /** After the deletions everything outside any closure of the seeds is exact. */
  lemma DeletionReady(g0: Graph, dels: seq<nat>, tau0: seq<nat>, sup1: seq<nat>, tau: seq<nat>, sup: seq<nat>,
                      seeds: seq<nat>, cap: nat)
    requires Simple(g0) && Elements(dels) <= g0.Keys && Stored(Sys(g0), tau0)
    requires forall e :: e in g0 ==> e < cap
    requires ChargedCounts(Sys(g0), Elements(dels), Avoiding(Triangles(g0), Elements(dels)), sup1)
    requires SeedsCover(Sys(g0), Elements(dels), Avoiding(Triangles(g0), Elements(dels)), seeds)
    requires forall e :: e !in dels ==> At(tau, e) == At(tau0, e) && At(sup, e) == At(sup1, e)
    ensures forall e :: e in seeds ==> e < cap
    ensures var g1 := g0 - Elements(dels);
            forall r: set<nat> :: IsClosure(Sys(g1), LiveSeeds(g1, seeds), r) ==> ExactBeyond(Sys(g1), r, tau, sup)
  {
    hide Triangles, Simple, Deg, Trussness, Word;
    var d := Elements(dels);
    var g1 := g0 - d;
    DeleteEdges(g0, d);
    SysOk(g0);
    SysOk(g1);
    NoEmptyTriangle(g0);
    NoEmptyTriangle(g1);
    forall r: set<nat> | IsClosure(Sys(g1), LiveSeeds(g1, seeds), r) ensures ExactBeyond(Sys(g1), r, tau, sup) {
      DeletionBeyond(g0, g1, d, tau0, sup1, tau, sup, seeds, r);
    }
  }

  lemma DeletionBeyond(g0: Graph, g1: Graph, d: set<nat>, tau0: seq<nat>, sup1: seq<nat>, tau: seq<nat>,
                       sup: seq<nat>, seeds: seq<nat>, r: set<nat>)
    requires Sys(g0).Valid() && Sys(g1).Valid() && {} !in Triangles(g0) && {} !in Triangles(g1)
    requires d <= g0.Keys && g1 == g0 - d && Triangles(g1) == Avoiding(Triangles(g0), d)
    requires Stored(Sys(g0), tau0) && ChargedCounts(Sys(g0), d, Triangles(g1), sup1)
             && SeedsCover(Sys(g0), d, Triangles(g1), seeds)
    requires forall e :: e !in d ==> At(tau, e) == At(tau0, e) && At(sup, e) == At(sup1, e)
    requires IsClosure(Sys(g1), LiveSeeds(g1, seeds), r)
    ensures ExactBeyond(Sys(g1), r, tau, sup)
  {
    hide Triangles, Deg, Trussness, Word, Minimal;
    assert forall t, m :: t in Triangles(g0) && t !in Triangles(g1) && m in t && m !in d ==> m in r by {
      hide Avoiding, ChargedCounts, Stored;
      forall t, m | t in Triangles(g0) && t !in Triangles(g1) && m in t && m !in d ensures m in r {
        assert m in LiveSeeds(g1, seeds);
      }
    }
    DeletionOutside(Sys(g0), Sys(g1), d, r);
    hide Avoiding, SeedsCover, IsClosure;
    forall e | e in Sys(g1).edges && e !in r
      ensures At(tau, e) == Word(Trussness(Sys(g1), e)) && At(sup, e) == Deg(Triangles(g1), e)
    {
      assert e in Sys(g0).edges && e !in d;
    }
  }

  /** The flags, with unset ones added up to the given size. */
  function GrowFlags(flags: seq<bool>, size: nat): (r: seq<bool>)
    ensures |r| == if size < |flags| then |flags| else size
  {
    if size < |flags| then flags else flags + seq(size - |flags|, _ => false)
  }

  lemma GrowthKeeps(tau: seq<nat>, sup: seq<nat>, inReg: seq<bool>, ubIn: seq<bool>, palive: seq<bool>, size: nat)
    requires |tau| <= size && |sup| <= size
    ensures forall e :: At(Resize(tau, size, 0), e) == At(tau, e) && At(Resize(sup, size, 0), e) == At(sup, e)
    ensures AllFalse(inReg) ==> AllFalse(GrowFlags(inReg, size))
    ensures AllFalse(ubIn) ==> AllFalse(GrowFlags(ubIn, size))
    ensures AllFalse(palive) ==> AllFalse(GrowFlags(palive, size))
    ensures AllFalse(GrowFlags([], size))
  {}

  /** The size the arrays grow to. */
  function NewSize(eid: nat, size: nat): (r: nat)
    ensures r >= size && r > eid
  {
    var doubled := if size != 0 then size * 2 else 1024;
    if eid + 1 > doubled then eid + 1 else doubled
  }

  /** The next deletion is still there, and it is the one that deleting it takes away. */
  lemma AboutToGo(g0: Graph, dels: seq<nat>, i: nat)
    requires i < |dels| && Distinct(dels) && Elements(dels) <= g0.Keys
    ensures dels[i] in g0 - Elements(dels[..i])
    ensures (g0 - Elements(dels[..i])) - {dels[i]} == g0 - Elements(dels[..i + 1])
  {
    ElementsNext(dels, i);
  }

  lemma KeyAbsent(g: Graph, a: nat, b: nat)
    requires SmallEnds(g) && a < VERTEX_SPACE && b < VERTEX_SPACE && a != b && EKey(a, b) !in Keys(g)
    ensures forall f :: f in g ==> g[f] != (a, b) && g[f] != (b, a)
  {
    KeyPresent(g, a, b);
    forall f | f in g ensures g[f] != (a, b) && g[f] != (b, a) {
      assert !Joins(g, f, a, b);
    }
  }

  lemma ClearAt(flags: seq<bool>, e: nat)
    requires AllFalse(flags) && e < |flags|
    ensures AllFalse(flags[e := false])
  {}

  /** The keys of a list of vertex pairs. */
  ghost function PairKeys(ins: seq<(nat, nat)>): set<nat> {
    set i | 0 <= i < |ins| :: EKey(ins[i].0, ins[i].1)
  }

  /** Pairs that can be inserted: proper, in range, absent and pairwise different. */
  ghost predicate NewPairs(g: Graph, ins: seq<(nat, nat)>, n: nat) {
    && (forall i :: 0 <= i < |ins| ==>
                      && ins[i].0 < n && ins[i].1 < n && ins[i].0 != ins[i].1
                      && EKey(ins[i].0, ins[i].1) !in Keys(g))
    && (forall i, j :: 0 <= i < j < |ins| ==> EKey(ins[i].0, ins[i].1) != EKey(ins[j].0, ins[j].1))
  }

  lemma PairFresh(g: Graph, ins: seq<(nat, nat)>, n: nat, i: nat)
    requires NewPairs(g, ins, n) && i < |ins|
    ensures ins[i].0 < n && ins[i].1 < n && ins[i].0 != ins[i].1
    ensures EKey(ins[i].0, ins[i].1) !in Keys(g) + PairKeys(ins[..i])
  {
    hide Keys, EKey;
    var p := ins[..i];
    forall j | 0 <= j < |p| ensures EKey(p[j].0, p[j].1) != EKey(ins[i].0, ins[i].1) {
      assert p[j] == ins[j];
    }
  }

  lemma PairKeysNext(ins: seq<(nat, nat)>, i: nat)
    requires i < |ins|
    ensures PairKeys(ins[..i + 1]) == PairKeys(ins[..i]) + {EKey(ins[i].0, ins[i].1)}
  {
    hide Keys, EKey;
    var p, q := ins[..i], ins[..i + 1];
    forall k ensures k in PairKeys(q) <==> k in PairKeys(p) || k == EKey(ins[i].0, ins[i].1) {
      if k in PairKeys(p) {
        var j :| 0 <= j < |p| && k == EKey(p[j].0, p[j].1);
        assert q[j] == p[j];
      }
      if k in PairKeys(q) {
        var j :| 0 <= j < |q| && k == EKey(q[j].0, q[j].1);
        assert j < i ==> p[j] == q[j];
      }
      assert q[i] == ins[i];
    }
  }

  /** big is small with the edges of added put in. */
  ghost predicate Extends(small: Graph, big: Graph, added: set<nat>) {
    && added <= big.Keys
    && small == big - added
  }

  /** The graph after entering the pairs of done under the ids newEids. */
  ghost predicate Entered(g0: Graph, g: Graph, done: seq<(nat, nat)>, newEids: seq<nat>) {
    && Distinct(newEids) && Extends(g0, g, Elements(newEids))
    && Keys(g) == Keys(g0) + PairKeys(done) && |g| == |g0| + |done|
  }

  lemma EnteredStart(g: Graph, ins: seq<(nat, nat)>)
    ensures Entered(g, g, ins[..0], [])
  {
    assert g - Elements([]) == g;
  }

  lemma NextPair(g0: Graph, gi: Graph, ins: seq<(nat, nat)>, newEids: seq<nat>, n: nat, i: nat)
    requires NewPairs(g0, ins, n) && i < |ins| && Entered(g0, gi, ins[..i], newEids)
    ensures ins[i].0 < n && ins[i].1 < n && ins[i].0 != ins[i].1
    ensures EKey(ins[i].0, ins[i].1) !in Keys(gi) && |gi| < |g0| + |ins|
    ensures forall e :: e in g0 ==> e in gi
  {
    hide NewPairs, EKey, Keys, PairKeys;
    PairFresh(g0, ins, n, i);
  }

  lemma EnteredNext(g0: Graph, gi: Graph, ins: seq<(nat, nat)>, newEids: seq<nat>, i: nat, eid: nat)
    requires i < |ins| && ins[i].0 != ins[i].1 && Entered(g0, gi, ins[..i], newEids) && eid !in gi
    ensures var (a, b) := ins[i];
            Entered(g0, gi[eid := if a < b then (a, b) else (b, a)], ins[..i + 1], newEids + [eid])
  {
    hide Keys, PairKeys, EKey, Extends, Elements, Distinct;
    var (a, b) := ins[i];
    KeysJoin(gi, eid, a, b);
    PairKeysNext(ins, i);
    ExtendsNext(g0, gi, newEids, eid, a, b);
    OneMore(gi, eid, if a < b then (a, b) else (b, a));
  }

  lemma OneMore(g: Graph, e: nat, ends: (nat, nat))
    requires e !in g
    ensures |g[e := ends]| == |g| + 1
  {}

  lemma EnteredAll(g0: Graph, g: Graph, ins: seq<(nat, nat)>, newEids: seq<nat>)
    requires Entered(g0, g, ins[..|ins|], newEids)
    ensures Distinct(newEids) && Extends(g0, g, Elements(newEids)) && Keys(g) == Keys(g0) + PairKeys(ins)
  {
    assert ins[..|ins|] == ins;
  }

  lemma ExtendsNext(g0: Graph, gi: Graph, newEids: seq<nat>, eid: nat, a: nat, b: nat)
    requires Extends(g0, gi, Elements(newEids)) && eid !in gi && Distinct(newEids)
    ensures Extends(g0, gi[eid := if a < b then (a, b) else (b, a)], Elements(newEids + [eid]))
    ensures Distinct(newEids + [eid])
  {
    assert Elements(newEids + [eid]) == Elements(newEids) + {eid};
    assert g0 == gi[eid := if a < b then (a, b) else (b, a)] - Elements(newEids + [eid]);
  }

  lemma KeysJoin(g: Graph, eid: nat, a: nat, b: nat)
    requires eid !in g && a != b
    ensures Keys(g[eid := if a < b then (a, b) else (b, a)]) == Keys(g) + {EKey(a, b)}
  {
    KeysAdd(g, eid, if a < b then a else b, if a < b then b else a);
  }

  lemma ExtendsFacts(g0: Graph, g1: Graph, newEids: seq<nat>)
    requires Extends(g0, g1, Elements(newEids))
    ensures forall e :: e in newEids ==> e in g1
    ensures forall e :: e in g0 ==> e in g1 && g1[e] == g0[e]
  {
    forall e | e in newEids ensures e in g1 {
      assert e in Elements(newEids);
    }
  }

  /** After the insertions everything outside any closure of the seeds is exact. */
  lemma InsertionReady(g0: Graph, g1: Graph, newEids: seq<nat>, tau0: seq<nat>, sup0: seq<nat>, tau: seq<nat>,
                       sup1: seq<nat>, sup: seq<nat>, seeds: seq<nat>)
    requires Simple(g0) && Simple(g1) && Extends(g0, g1, Elements(newEids))
    requires Stored(Sys(g0), tau0) && CountsTriangles(Sys(g0), sup0)
    requires forall e :: e in g0 ==> At(tau, e) == At(tau0, e) && At(sup1, e) == At(sup0, e)
    requires forall e :: e in seeds ==> e in g1
    requires forall e :: e in newEids ==> e in seeds
    requires forall e :: e in g1 && e !in seeds ==> At(sup, e) == At(sup1, e)
    ensures forall r: set<nat> :: IsClosure(Sys(g1), LiveSeeds(g1, seeds), r) ==> ExactBeyond(Sys(g1), r, tau, sup)
  {
    hide Triangles, Simple, Deg, Trussness, Word, Stored, CountsTriangles;
    DeleteEdges(g1, Elements(newEids));
    SysOk(g0);
    SysOk(g1);
    NoEmptyTriangle(g0);
    NoEmptyTriangle(g1);
    forall r: set<nat> | IsClosure(Sys(g1), LiveSeeds(g1, seeds), r) ensures ExactBeyond(Sys(g1), r, tau, sup) {
      forall e | e in g1 && e !in r ensures e in g0 && At(tau, e) == At(tau0, e) && At(sup, e) == At(sup0, e) {
        assert e !in LiveSeeds(g1, seeds);
      }
      InsertionBeyond(g0, g1, Elements(newEids), tau0, sup0, tau, sup, LiveSeeds(g1, seeds), r);
    }
  }

  lemma SeedsLive(g: Graph, newEids: seq<nat>, seeds: seq<nat>)
    requires Simple(g) && forall e :: e in newEids ==> e in g
    requires forall e :: e in seeds <==> e in newEids || Mates(Triangles(g), Elements(newEids), e) != {}
    ensures forall e :: e in seeds ==> e in g
    ensures forall e :: e in g && e !in seeds ==> e !in newEids && |Mates(Triangles(g), Elements(newEids), e)| == 0
  {
    SysOk(g);
    hide Triangles, Simple;
    forall e | e in seeds && e !in newEids ensures e in g {
      var p :| p in Mates(Triangles(g), Elements(newEids), e);
    }
  }

  lemma InsertionBeyond(g0: Graph, g1: Graph, n: set<nat>, tau0: seq<nat>, sup0: seq<nat>, tau: seq<nat>, sup: seq<nat>,
                        live: set<nat>, r: set<nat>)
    requires Sys(g0).Valid() && Sys(g1).Valid() && {} !in Triangles(g0) && {} !in Triangles(g1)
    requires n <= g1.Keys && g0 == g1 - n && Triangles(g0) == Avoiding(Triangles(g1), n)
    requires Stored(Sys(g0), tau0) && CountsTriangles(Sys(g0), sup0)
    requires n <= live && IsClosure(Sys(g1), live, r)
    requires forall e :: e in g1 && e !in r ==> e in g0 && At(tau, e) == At(tau0, e) && At(sup, e) == At(sup0, e)
    ensures ExactBeyond(Sys(g1), r, tau, sup)
  {
    hide Triangles, Deg, Trussness, Word, Minimal, Closed;
    InsertionOutside(Sys(g0), Sys(g1), n, r);
    hide Avoiding, IsClosure;
    forall e | e in Sys(g1).edges && e !in r
      ensures At(tau, e) == Word(Trussness(Sys(g1), e)) && At(sup, e) == Deg(Triangles(g1), e)
    {
      assert e in Sys(g0).edges;
    }
  }

  lemma NothingAsked(keys: set<nat>)
    ensures Deleted(keys, []) == {} && Inserted(keys, []) == {}
  {}

  /** The keys of the edges with the given ids. */
  ghost function KeysAt(g: Graph, ids: set<nat>): set<nat> {
    set e | e in ids && e in g :: KeyOf(g, e)
  }

  lemma TableHas(g: Graph, table: map<nat, nat>, k: nat)
    requires TableMatches(g, table) && k in Keys(g)
    ensures k in table && table[k] in g && KeyOf(g, table[k]) == k
  {
    var e :| e in g && KeyOf(g, e) == k;
  }

  lemma NotAmong(g: Graph, ids: set<nat>, e: nat)
    requires e in g && KeyOf(g, e) !in KeysAt(g, ids)
    ensures e !in ids
  {}

  lemma ListNext(g: Graph, dels: seq<nat>, e: nat)
    requires e in g && Distinct(dels) && KeyOf(g, e) !in KeysAt(g, Elements(dels))
    ensures Distinct(dels + [e]) && Elements(dels + [e]) == Elements(dels) + {e}
    ensures KeysAt(g, Elements(dels + [e])) == KeysAt(g, Elements(dels)) + {KeyOf(g, e)}
  {
    NotAmong(g, Elements(dels), e);
    var t := Elements(dels + [e]);
    assert t == Elements(dels) + {e};
    forall k ensures k in KeysAt(g, t) <==> k in KeysAt(g, Elements(dels)) || k == KeyOf(g, e) {
      if k in KeysAt(g, t) {
        var f :| f in t && f in g && KeyOf(g, f) == k;
      }
      if k in KeysAt(g, Elements(dels)) {
        var f :| f in Elements(dels) && f in g && KeyOf(g, f) == k;
        assert f in t;
      }
      assert e in t;
    }
  }

  /** ins lists the endpoint pairs of the keys in s, each once. */
  ghost predicate ListsPairs(ins: seq<(nat, nat)>, s: set<nat>) {
    && |ins| == |s| && PairKeys(ins) == s
    && (forall i :: 0 <= i < |ins| ==> EKey(ins[i].0, ins[i].1) in s && ins[i] == KeyEnds(EKey(ins[i].0, ins[i].1)))
    && (forall i, j :: 0 <= i < j < |ins| ==> EKey(ins[i].0, ins[i].1) != EKey(ins[j].0, ins[j].1))
  }

  lemma NoPairs()
    ensures ListsPairs([], {})
  {}

  lemma PairNext(ins: seq<(nat, nat)>, s: set<nat>, k: nat)
    requires ListsPairs(ins, s) && k !in s && EKey(KeyEnds(k).0, KeyEnds(k).1) == k
    ensures ListsPairs(ins + [KeyEnds(k)], s + {k})
  {
    hide EKey;
    var p := KeyEnds(k);
    hide KeyEnds;
    var q := ins + [p];
    forall x ensures x in PairKeys(q) <==> x in PairKeys(ins) || x == k {
      if x in PairKeys(ins) {
        var j :| 0 <= j < |ins| && x == EKey(ins[j].0, ins[j].1);
        assert q[j] == ins[j];
      }
      if x in PairKeys(q) {
        var j :| 0 <= j < |q| && x == EKey(q[j].0, q[j].1);
        assert j < |ins| ==> ins[j] == q[j];
      }
      assert q[|ins|] == p;
    }
  }

  /** Deleting edges deletes their keys. */
  lemma KeysDeleteSet(g: Graph, d: set<nat>)
    requires Simple(g) && SmallEnds(g)
    ensures Keys(g - d) == Keys(g) - KeysAt(g, d)
  {
    KeysInjective(g);
    hide Simple, SmallEnds, EKey;
    var h := g - d;
    forall k ensures k in Keys(h) <==> k in Keys(g) && k !in KeysAt(g, d) {
      if k in Keys(h) {
        var e :| e in h && KeyOf(h, e) == k;
        assert e in g && KeyOf(g, e) == k && e !in d;
      }
      if k in Keys(g) && k !in KeysAt(g, d) {
        var e :| e in g && KeyOf(g, e) == k;
        assert e !in d;
        assert KeyOf(h, e) == k;
      }
    }
  }

  /** Deletions are present, insertions absent, and both are proper edges in range. */
  lemma BatchFacts(keys: set<nat>, raw: seq<Op>, n: nat)
    requires OpsInRange(raw, n)
    ensures Deleted(keys, raw) <= keys && Inserted(keys, raw) !! keys
    ensures BatchKeys(keys, raw) == keys - Deleted(keys, raw) + Inserted(keys, raw)
    ensures |BatchKeys(keys, raw)| == |keys - Deleted(keys, raw)| + |Inserted(keys, raw)|
    ensures forall k :: k in Inserted(keys, raw) ==>
                          && KeyEnds(k).0 != KeyEnds(k).1 && EKey(KeyEnds(k).0, KeyEnds(k).1) == k
                          && KeyEnds(k).0 < n && KeyEnds(k).1 < n
  {
    forall k | k in Inserted(keys, raw)
      ensures k !in keys && KeyEnds(k).0 != KeyEnds(k).1 && EKey(KeyEnds(k).0, KeyEnds(k).1) == k
      ensures KeyEnds(k).0 < n && KeyEnds(k).1 < n
    {
      var i :| 0 <= i < |raw| && raw[i].Proper() && !raw[i].del && raw[i].Key() !in keys && k == raw[i].Key();
      KeyRoundTrip(raw[i].u, raw[i].v);
    }
    assert keys - Deleted(keys, raw) !! Inserted(keys, raw);
  }

  lemma NoDeletions(g: Graph, dels: seq<nat>)
    requires dels == []
    ensures g - Elements(dels) == g
  {}

  lemma NoInsertions(ins: seq<(nat, nat)>, insset: set<nat>)
    requires ins == [] && ListsPairs(ins, insset)
    ensures insset == {}
  {}

  lemma InsertionsNew(g: Graph, keys: set<nat>, delset: set<nat>, insset: set<nat>, ins: seq<(nat, nat)>, n: nat)
    requires Keys(g) == keys - delset && insset !! keys
    requires forall k :: k in insset ==> KeyEnds(k).0 != KeyEnds(k).1 && KeyEnds(k).0 < n && KeyEnds(k).1 < n
    requires ListsPairs(ins, insset)
    ensures NewPairs(g, ins, n) && |ins| == |insset| && PairKeys(ins) == insset
  {
    hide EKey, KeyEnds, Keys;
  }

  lemma OneInRange(raw: seq<Op>, n: nat, i: nat)
    requires OpsInRange(raw, n) && i < |raw|
    ensures OpsInRange([raw[i]], n)
  {}

  /** The edge set after a stream of merged batches. */
  ghost function StreamKeys(keys: set<nat>, stream: seq<seq<Op>>): set<nat> {
    if stream == [] then keys
    else BatchKeys(StreamKeys(keys, stream[..|stream| - 1]), stream[|stream| - 1])
  }

  lemma StreamStart(keys: set<nat>)
    ensures StreamKeys(keys, []) == keys
  {}

  lemma StreamNext(keys: set<nat>, stream: seq<seq<Op>>, i: nat)
    requires i < |stream|
    ensures StreamKeys(keys, stream[..i + 1]) == BatchKeys(StreamKeys(keys, stream[..i]), stream[i])
  {
    assert stream[..i + 1][..i] == stream[..i];
  }
}
