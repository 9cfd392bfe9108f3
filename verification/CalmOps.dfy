/** When the removal of an edge goes right (src/incremental.h), and calm operations in terms of edge keys. */
module CalmOps {
  import opened Demotion
  import opened EdgeOps
  import LocalEvaluation
  import opened RegionGrowth
  import opened Regions
  import opened SimpleGraph
  import opened Truss

  // ---------------------------------------------------------------- removals

  /**
   The evaluation can deal with every edge that the removal of x comes to: the triangle partners of
   x, and the edges that meet an edge whose trussness falls.
   */
  ghost predicate RemoveCalm(g: Graph, x: nat) {
    var g1 := g - {x};
    && (forall t, f :: t in Triangles(g) && x in t && f in t && f in g1 ==> Small(g1, f))
    && (forall e, f :: Meets(g1, e, f) && e in g && Trussness(Sys(g), e) > Trussness(Sys(g1), e) ==> Small(g1, f))
  }

  lemma RemoveCalmIff(g: Graph, x: nat, tau0: seq<nat>, tau: seq<nat>, ws: seq<Wedge>, inq: seq<bool>)
    requires Simple(g) && x in g && Exact(Sys(g), tau0) && x < |tau0| && tau == tau0[x := 0]
    requires Enumerates(Triangles(g), x, ws) && WedgesIn(ws, |ws|, inq)
    requires OnlyWedges(ws, |ws|, x, inq)
    ensures Calm(g - {x}, tau, inq) <==> RemoveCalm(g, x)
  {
    var g1 := g - {x};
    hide Simple, Triangles, Trussness, Small, Enumerates, WedgesIn, OnlyWedges;
    forall f | f in g1 ensures Flagged(inq, f) <==> exists t :: t in Triangles(g) && x in t && f in t {
      FlaggedIff(Triangles(g), x, ws, inq, f);
    }
    forall e | e in g1 ensures e in g && At(tau, e) == Trussness(Sys(g), e) {
      assert e in Sys(g).edges;
    }
  }

  lemma FlaggedIff(tris: set<Triangle>, x: nat, ws: seq<Wedge>, inq: seq<bool>, f: nat)
    requires Enumerates(tris, x, ws) && WedgesIn(ws, |ws|, inq) && OnlyWedges(ws, |ws|, x, inq) && f != x
    ensures Flagged(inq, f) <==> exists t :: t in tris && x in t && f in t
  {
    if Flagged(inq, f) {
      FlaggedTriangle(tris, x, ws, inq, f);
    }
    FlaggedPartners(tris, x, ws, inq);
    hide Flagged, Enumerates, WedgesIn, OnlyWedges;
  }

  lemma FlaggedTriangle(tris: set<Triangle>, x: nat, ws: seq<Wedge>, inq: seq<bool>, f: nat)
    requires Enumerates(tris, x, ws) && OnlyWedges(ws, |ws|, x, inq) && f != x && Flagged(inq, f)
    ensures exists t :: t in tris && x in t && f in t
  {
    var j :| 0 <= j < |ws| && (ws[j].e1 == f || ws[j].e2 == f);
    TriParts(x, ws[j]);
    assert Tri(x, ws[j]) in tris;
  }

  lemma TriParts(x: nat, w: Wedge)
    ensures Tri(x, w) == {x, w.e1, w.e2}
  {}

  /** The edges of the listed triangles are flagged. */
  lemma FlaggedPartners(tris: set<Triangle>, x: nat, ws: seq<Wedge>, inq: seq<bool>)
    requires Enumerates(tris, x, ws) && WedgesIn(ws, |ws|, inq)
    ensures forall t, h :: t in tris && x in t && h in t && h != x ==> Flagged(inq, h)
  {
    hide Flagged;
    forall t, h | t in tris && x in t && h in t && h != x ensures Flagged(inq, h) {
      var i :| 0 <= i < |ws| && t == Tri(x, ws[i]);
      assert Flagged(inq, ws[i].e1) && Flagged(inq, ws[i].e2);
    }
  }

  // ---------------------------------------------------------------- calm in terms of keys

  /** The edges whose names are in r. */
  ghost function Preimage(f: map<nat, nat>, r: set<nat>): set<nat> {
    set e | e in f && f[e] in r
  }

  lemma PreimageClosed(g: Graph, h: Graph, f: map<nat, nat>, r: set<nat>)
    requires Renames(g, h, f) && Closed(Triangles(h), r)
    ensures Closed(Triangles(g), Preimage(f, r))
  {
    forall t | t in Triangles(g) && t * Preimage(f, r) != {} ensures t <= Preimage(f, r) {
      RenamedTriangle(g, h, f, t);
      hide Triangles, Renames;
      var e :| e in t && e in Preimage(f, r);
      assert f[e] in Image(f, t) * r;
      forall d | d in t ensures d in Preimage(f, r) {
        assert f[d] in Image(f, t);
      }
    }
  }

  lemma ImageClosed(g: Graph, h: Graph, f: map<nat, nat>, c: set<nat>)
    requires Simple(g) && Renames(g, h, f) && c <= g.Keys && Closed(Triangles(g), c)
    ensures Closed(Triangles(h), Image(f, c))
  {
    var b := Inverse(g, h, f);
    PreimageClosed(h, g, b, c);
    hide Triangles, Simple, Closed;
    assert Preimage(b, c) == Image(f, c);
  }

  /** A closure is renamed with the graph. */
  lemma RenamedClosure(g: Graph, h: Graph, f: map<nat, nat>, x: nat, c: set<nat>)
    requires Simple(g) && Renames(g, h, f) && x in g && IsClosure(Sys(g), {x}, c)
    ensures c <= f.Keys && IsClosure(Sys(h), {f[x]}, Image(f, c))
  {
    ImageClosed(g, h, f, c);
    hide Triangles, Simple, Closed;
    forall d: set<nat> | {f[x]} <= d && Closed(Triangles(h), d) ensures Image(f, c) <= d {
      PreimageClosed(g, h, f, d);
      assert {x} <= Preimage(f, d);
      assert c <= Preimage(f, d);
    }
    assert Image(f, c) <= h.Keys;
  }

  lemma RenamedWithout(g: Graph, h: Graph, f: map<nat, nat>, x: nat)
    requires Simple(g) && Simple(h) && Renames(g, h, f) && x in g
    ensures Simple(g - {x}) && Simple(h - {f[x]}) && Renames(g - {x}, h - {f[x]}, f - {x})
  {
    var b := Inverse(g, h, f);
    DeleteEdges(g, {x});
    DeleteEdges(h, {f[x]});
    hide Simple, Triangles;
    forall d | d in h - {f[x]} ensures exists e :: e in g - {x} && (f - {x})[e] == d {
      assert b[d] in g - {x};
    }
  }

  lemma RenamedMeets(g: Graph, h: Graph, f: map<nat, nat>)
    requires Simple(g) && Simple(h) && Renames(g, h, f)
    ensures forall e, d :: Meets(g, e, d) ==> Meets(h, f[e], f[d])
    ensures forall e :: e in g ==> f[e] in h && (Small(h, f[e]) <==> Small(g, e))
  {
    Renaming(g, h, f);
    hide Simple, Triangles, Trussness;
    assert Sys(g).edges == g.Keys && Sys(h).edges == h.Keys;
  }

  lemma RenamedTruss(g: Graph, h: Graph, f: map<nat, nat>, e: nat)
    requires Simple(g) && Simple(h) && Renames(g, h, f) && e in g
    ensures e in f && f[e] in h && Trussness(Sys(g), e) == Trussness(Sys(h), f[e])
  {
    Renaming(g, h, f);
    hide Simple, Triangles, Trussness;
  }

  lemma RenamedFall(g: Graph, h: Graph, f: map<nat, nat>, x: nat, e: nat)
    requires Simple(g) && Simple(h) && Renames(g, h, f) && x in g && e in g && MustFall(g, x, e)
    ensures x in f && e in f && f[e] in h && MustFall(h, f[x], f[e])
  {
    hide Simple, Triangles, Trussness, Deg, Renames, OldAtLeast;
    RenamedTruss(g, h, f, x);
    RenamedTruss(g, h, f, e);
    RenamedAllDegrees(g, h, f, e);
    if e == x {
      var k := Trussness(Sys(g), x);
      var t :| t in Triangles(g) && x in t && OldAtLeast(g, x, t, k);
      RenamedTriangle(g, h, f, t);
      RenamedAtLeast(g, h, f, x, t, k);
      assert f[x] in Image(f, t);
    } else {
      RenamedWithout(g, h, f, x);
      RenamedTruss(g - {x}, h - {f[x]}, f - {x}, e);
    }
  }

  lemma RenamedAtLeast(g: Graph, h: Graph, f: map<nat, nat>, x: nat, t: Triangle, k: nat)
    requires Simple(g) && Simple(h) && Renames(g, h, f) && x in f && t <= f.Keys && OldAtLeast(g, x, t, k)
    ensures OldAtLeast(h, f[x], Image(f, t), k)
  {
    hide Simple, Triangles, Trussness, Renames;
    RenamedKeys(g, h, f);
    RenamedWithout(g, h, f, x);
    forall d | d in Image(f, t) && d != f[x] ensures d in h - {f[x]} && Trussness(Sys(h - {f[x]}), d) >= k {
      var e :| e in t && f[e] == d;
      RenamedTruss(g - {x}, h - {f[x]}, f - {x}, e);
    }
  }

  lemma RenamedKeys(g: Graph, h: Graph, f: map<nat, nat>)
    requires Renames(g, h, f)
    ensures f.Keys == g.Keys && Image(f, g.Keys) == h.Keys
  {}

  lemma RenamedAllDegrees(g: Graph, h: Graph, f: map<nat, nat>, e: nat)
    requires Simple(g) && Simple(h) && Renames(g, h, f) && e in g
    ensures e in f && Deg(Triangles(g), e) <= Deg(Triangles(h), f[e])
  {
    hide Simple, Deg, Triangles, Renames, Within;
    RenamedKeys(g, h, f);
    RenamedDegree(g, h, f, g.Keys, e);
    WithinAll(g);
    WithinAll(h);
  }

  lemma WithinAll(g: Graph)
    requires Simple(g)
    ensures Within(Triangles(g), g.Keys) == Triangles(g)
  {
    SysOk(g);
    hide Simple, Triangles;
  }

  lemma RenamedInsertCalm(g: Graph, h: Graph, f: map<nat, nat>, x: nat)
    requires Simple(g) && Simple(h) && Renames(g, h, f) && x in g && InsertCalm(h, f[x])
    ensures InsertCalm(g, x)
  {
    hide Simple, Triangles, Meets, Small, MustFall, IsClosure, Renames;
    RenamedKeys(g, h, f);
    RenamedMeets(g, h, f);
    forall c | IsClosure(Sys(g), {x}, c)
      ensures forall e :: e in c ==> e in g && Small(g, e)
      ensures forall e, d :: e in c && Meets(g, e, d) ==> e in g && d in g && (MustFall(g, x, e) ==> Small(g, d))
    {
      RenamedClosure(g, h, f, x, c);
      ClosureCalm(g, h, f, x, c);
    }
  }

  lemma ClosureCalm(g: Graph, h: Graph, f: map<nat, nat>, x: nat, c: set<nat>)
    requires Simple(g) && Simple(h) && Renames(g, h, f) && x in f && c <= f.Keys
    requires forall e :: e in Image(f, c) ==> e in h && Small(h, e)
    requires forall e, d :: e in Image(f, c) && Meets(h, e, d) && MustFall(h, f[x], e) ==> Small(h, d)
    ensures forall e :: e in c ==> e in g && Small(g, e)
    ensures forall e, d :: e in c && Meets(g, e, d) ==> e in g && d in g && (MustFall(g, x, e) ==> Small(g, d))
  {
    hide Simple, Triangles, Meets, Small, MustFall, Renames;
    RenamedKeys(g, h, f);
    RenamedMeets(g, h, f);
    forall e | e in c ensures e in g && Small(g, e) {
      assert f[e] in Image(f, c);
    }
    forall e, d | e in c && Meets(g, e, d) ensures e in g && d in g && (MustFall(g, x, e) ==> Small(g, d)) {
      MeetsIn(g, e, d);
      assert f[e] in Image(f, c);
      if MustFall(g, x, e) {
        RenamedFall(g, h, f, x, e);
      }
    }
  }

  lemma RenamedRemoveCalm(g: Graph, h: Graph, f: map<nat, nat>, x: nat)
    requires Simple(g) && Simple(h) && Renames(g, h, f) && x in g && RemoveCalm(h, f[x])
    ensures RemoveCalm(g, x)
  {
    hide Simple, Triangles, Small, Trussness, Renames;
    RenamedKeys(g, h, f);
    var g1, h1, f1 := g - {x}, h - {f[x]}, f - {x};
    RenamedWithout(g, h, f, x);
    RenamedMeets(g1, h1, f1);
    forall t, d | t in Triangles(g) && x in t && d in t && d in g1 ensures Small(g1, d) {
      RenamedPartner(g, h, f, t, x);
      RenamedPartner(g, h, f, t, d);
      assert f1[d] == f[d] && f1[d] in h1;
    }
    forall e, d | Meets(g1, e, d) && e in g && Trussness(Sys(g), e) > Trussness(Sys(g1), e) ensures Small(g1, d) {
      MeetsIn(g1, e, d);
      RenamedTruss(g, h, f, e);
      RenamedTruss(g1, h1, f1, e);
      assert f1[e] == f[e] && Meets(h1, f1[e], f1[d]);
    }
  }

  lemma RenamedPartner(g: Graph, h: Graph, f: map<nat, nat>, t: Triangle, d: nat)
    requires Renames(g, h, f) && t in Triangles(g) && d in t
    ensures t <= f.Keys && Image(f, t) in Triangles(h) && f[d] in Image(f, t)
  {
    RenamedTriangle(g, h, f, t);
    hide Triangles, Renames;
  }

  /** Whether an operation is calm does not depend on ids. */
  lemma CalmByKeys(g: Graph, x: nat)
    requires Simple(g) && SmallEnds(g) && x in g
    ensures KeyOf(g, x) in Canonical(Keys(g))
    ensures InsertCalm(g, x) <==> InsertCalm(Canonical(Keys(g)), KeyOf(g, x))
    ensures RemoveCalm(g, x) <==> RemoveCalm(Canonical(Keys(g)), KeyOf(g, x))
  {
    hide SmallEnds, InsertCalm, RemoveCalm, KeyOf, Canonical, Keys, Renames, Simple;
    var h := Canonical(Keys(g));
    var f := CanonicalRenames(g);
    var b := Inverse(g, h, f);
    if InsertCalm(g, x) { RenamedInsertCalm(h, g, b, f[x]); }
    if InsertCalm(h, f[x]) { RenamedInsertCalm(g, h, f, x); }
    if RemoveCalm(g, x) { RenamedRemoveCalm(h, g, b, f[x]); }
    if RemoveCalm(h, f[x]) { RenamedRemoveCalm(g, h, f, x); }
  }

  /** If the operation changes the graph with these edge keys, it goes right. */
  ghost predicate StepCalm(keys: set<nat>, op: Op) {
    var k := EKey(op.u, op.v);
    op.u != op.v ==>
      && (op.del && k in keys ==> RemoveCalm(Canonical(keys), k))
      && (!op.del && k !in keys ==> InsertCalm(Canonical(keys + {k}), k))
  }

  /** Inserting an edge that ends up beyond the limit is not calm. */
  lemma BeyondLimit(keys: set<nat>, op: Op)
    requires !op.del && op.u != op.v && EKey(op.u, op.v) in keys && Simple(Canonical(keys))
    requires KeyTruss(keys, EKey(op.u, op.v)) > LocalEvaluation.EVAL_LIMIT
    ensures !StepCalm(keys - {EKey(op.u, op.v)}, op)
  {
    hide Simple, InsertCalm, RemoveCalm, EKey, Trussness, Triangles, Canonical;
    var k := EKey(op.u, op.v);
    assert keys - {k} + {k} == keys;
    assert k in Canonical(keys) && !Small(Canonical(keys), k);
    NotSmall(Canonical(keys), k);
  }

  lemma NotSmall(g: Graph, x: nat)
    requires Simple(g) && x in g && !Small(g, x)
    ensures !InsertCalm(g, x)
  {
    hide Simple, Triangles, Small, Meets, MustFall, TriSys.Valid, TriSys.Linear, Closed, Minimal;
    SysOk(g);
    var c := ClosureExists(Sys(g), {x});
    ClosureFacts(Sys(g), x, c);
    hide IsClosure;
  }
}
