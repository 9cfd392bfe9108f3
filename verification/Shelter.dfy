/** A condition under which insertions and removals (src/incremental.h) go right. */
module Shelter {
  import opened CalmOps
  import opened Demotion
  import opened EdgeOps
  import LocalEvaluation
  import opened RegionGrowth
  import opened Regions
  import opened SimpleGraph
  import opened Truss

  /**
   The edge x lies in a triangle-closed set r such that every edge that meets r is within the
   evaluation.
   */
  ghost predicate Shelters(g: Graph, x: nat, r: set<nat>) {
    && x in r && r <= g.Keys && Closed(Triangles(g), r)
    && forall e, f :: e in r && Meets(g, e, f) ==> Small(g, f)
  }

  ghost predicate Sheltered(g: Graph, x: nat) {
    exists r :: Shelters(g, x, r)
  }

  /** In a graph without any trussness beyond the limit every edge is sheltered. */
  lemma EvaluableSheltered(g: Graph, x: nat)
    requires Simple(g) && x in g && LocalEvaluation.FitsEval(Sys(g))
    ensures Sheltered(g, x)
  {
    AllClosed(g);
    AllSmall(g);
    hide Triangles, Simple, Meets, Small, Closed;
    forall e, f | e in g && Meets(g, e, f) ensures Small(g, f) {
      MeetsIn(g, e, f);
    }
    assert Shelters(g, x, g.Keys);
  }

  lemma AllSmall(g: Graph)
    requires LocalEvaluation.FitsEval(Sys(g))
    ensures forall f :: f in g ==> Small(g, f)
  {
    hide Triangles, Trussness;
    assert Sys(g).edges == g.Keys;
  }

  lemma AllClosed(g: Graph)
    requires Simple(g)
    ensures Closed(Triangles(g), g.Keys)
  {
    SysOk(g);
    hide Triangles, Simple;
  }

  /** Inserting a sheltered edge is calm. */
  lemma ShelteredInsert(g: Graph, x: nat)
    requires Sheltered(g, x)
    ensures InsertCalm(g, x)
  {
    hide Triangles, Closed, Small, MustFall, Meets;
    var c0 :| Shelters(g, x, c0);
    forall c | IsClosure(Sys(g), {x}, c)
      ensures forall e :: e in c ==> e in g && Small(g, e)
      ensures forall e, f :: e in c && Meets(g, e, f) ==> f in g && Small(g, f)
    {
      assert c <= c0;
      forall e | e in c ensures e in g && Small(g, e) {
        MeetsSelf(g, e);
      }
      forall e, f | e in c && Meets(g, e, f) ensures f in g && Small(g, f) {
        MeetsIn(g, e, f);
      }
    }
  }

  /** Removing a sheltered edge is calm. */
  lemma ShelteredRemove(g: Graph, x: nat)
    requires Simple(g) && x in g && Sheltered(g, x)
    ensures RemoveCalm(g, x)
  {
    SysOk(g);
    DeleteOne(g, x);
    hide Triangles, Simple, TriSys.Valid, TriSys.Linear, Closed, Without, Small, Meets, RemoveCalm;
    var r :| Shelters(g, x, r);
    ShelterCalm(g, x, r);
  }

  /** An operation on an edge that is sheltered in the larger of the two graphs is calm. */
  lemma ShelteredStep(keys: set<nat>, op: Op)
    requires var h := Canonical(keys + {EKey(op.u, op.v)});
             Simple(h) && Sheltered(h, EKey(op.u, op.v))
    ensures StepCalm(keys, op)
  {
    hide Simple, Sheltered, InsertCalm, RemoveCalm, EKey, KeyEnds;
    var k := EKey(op.u, op.v);
    if k in keys {
      assert keys + {k} == keys;
      ShelteredRemove(Canonical(keys), k);
    } else {
      ShelteredInsert(Canonical(keys + {k}), k);
    }
  }

  /**
   Any operation is calm where no trussness exceeds 65000, in the graph with the edge of the
   operation.
   */
  lemma WithinLimitCalm(keys: set<nat>, op: Op)
    requires EdgeKeys(keys) && op.u < VERTEX_SPACE && op.v < VERTEX_SPACE
    requires var bigger := keys + {EKey(op.u, op.v)};
             op.u != op.v ==> forall k :: k in bigger ==> KeyTruss(bigger, k) <= 65000
    ensures StepCalm(keys, op)
  {
    hide Sheltered, InsertCalm, RemoveCalm, Simple, EKey, KeyTruss, Trussness;
    if op.u != op.v {
      var bigger := keys + {EKey(op.u, op.v)};
      var h := Canonical(bigger);
      OneMoreKey(keys, op.u, op.v);
      CanonicalSimple(bigger);
      KeysWithin(bigger);
      hide EdgeKeys, Canonical;
      EvaluableSheltered(h, EKey(op.u, op.v));
      ShelteredStep(keys, op);
    }
  }

  lemma OneMoreKey(keys: set<nat>, u: nat, v: nat)
    requires EdgeKeys(keys) && u != v && u < VERTEX_SPACE && v < VERTEX_SPACE
    ensures EdgeKeys(keys + {EKey(u, v)})
  {
    KeyRoundTrip(u, v);
    hide EKey, KeyEnds;
  }

  lemma KeysWithin(keys: set<nat>)
    requires forall k :: k in keys ==> KeyTruss(keys, k) <= 65000
    ensures LocalEvaluation.FitsEval(Sys(Canonical(keys)))
  {
    hide Trussness, Triangles;
    assert Sys(Canonical(keys)).edges == keys;
  }

  /** The removal of an edge is calm if all that meets a closed set around it is small. */
  lemma ShelterCalm(g: Graph, x: nat, c: set<nat>)
    requires Sys(g).Valid() && Without(Sys(g - {x}), Sys(g), x) && x in c && c <= g.Keys && Closed(Triangles(g), c)
    requires forall e, f :: e in c && Meets(g, e, f) ==> Small(g, f)
    ensures RemoveCalm(g, x)
  {
    hide Triangles, Trussness, TriSys.Valid, TriSys.Linear, Closed, Without, Small;
    var g1 := g - {x};
    PartnersInClosed(Sys(g), x, c);
    OutsideUnchanged(Sys(g1), Sys(g), x, c);
    StillSmall(g, x);
    forall t, f | t in Sys(g).tris && x in t && f in t && f in g1 ensures Small(g1, f) {
      MeetsSelf(g, f);
    }
    forall e, f | Meets(g1, e, f) && e in g && Trussness(Sys(g), e) > Trussness(Sys(g1), e) ensures Small(g1, f) {
      MeetsIn(g1, e, f);
      MeetsMore(g, x, e, f);
      assert e in Sys(g).edges;
    }
  }

  lemma MeetsMore(g: Graph, x: nat, e: nat, f: nat)
    requires Meets(g - {x}, e, f)
    ensures Meets(g, e, f)
  {}

  /** Removals raise no trussness. */
  lemma StillSmall(g: Graph, x: nat)
    requires x in g
    ensures forall f :: f in g - {x} && Small(g, f) ==> Small(g - {x}, f)
  {
    DeleteEdges(g, {x});
    hide Triangles, Trussness;
    assert Sys(g - {x}).edges <= Sys(g).edges;
    TrussMono(Sys(g - {x}), Sys(g));
    forall f | f in g - {x} && Small(g, f) ensures Small(g - {x}, f) {
      assert f in Sys(g - {x}).edges;
    }
  }
}
