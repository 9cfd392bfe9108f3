/**
 How phase_insertions in src/batch.h counts triangles: each new edge reports each of its
 triangles to the two other edges, so a triangle with several new edges is counted several times.
 */
module InsertionCounts {
  import DynamicGraph
  import opened FiniteSets
  import opened Regions
  import opened SimpleGraph
  import Stamps
  import opened Truss

  /** The reports that reach e: a new edge n other than e, with a triangle on both. */
  ghost function Mates(tris: set<Triangle>, added: set<nat>, e: nat): set<(nat, Triangle)> {
    set n, t | n in added && t in tris && n in t && e in t && n != e :: (n, t)
  }

  /** Some report reaches e exactly if it shares a triangle with another new edge. */
  lemma Mated(tris: set<Triangle>, added: set<nat>, e: nat)
    ensures Mates(tris, added, e) != {} <==>
            exists t :: t in tris && e in t && exists n :: n in added && n in t && n != e
  {
    if t :| t in tris && e in t && exists n :: n in added && n in t && n != e {
      var n :| n in added && n in t && n != e;
      assert (n, t) in Mates(tris, added, e);
    }
  }

  function Mention(w: Wedge, e: nat): nat {
    (if w.e1 == e then 1 else 0) + (if w.e2 == e then 1 else 0)
  }

  /** How often e occurs in a list of wedges. */
  ghost function Mentions(ws: seq<Wedge>, e: nat): nat {
    if ws == [] then 0 else Mentions(ws[..|ws| - 1], e) + Mention(ws[|ws| - 1], e)
  }

  lemma MentionsNext(ws: seq<Wedge>, i: nat, e: nat)
    requires i < |ws|
    ensures Mentions(ws[..i + 1], e) == Mentions(ws[..i], e) + Mention(ws[i], e)
  {
    assert ws[..i + 1][..i] == ws[..i];
  }

  lemma {:induction false} MentionsAppend(a: seq<Wedge>, b: seq<Wedge>, e: nat)
    ensures Mentions(a + b, e) == Mentions(a, e) + Mentions(b, e)
    decreases |b|
  {
    if b == [] {
      assert a + b == a;
    } else {
      MentionsAppend(a, b[..|b| - 1], e);
      assert (a + b)[..|a + b| - 1] == a + b[..|b| - 1];
    }
  }

  lemma {:induction false} MentionedAt(ws: seq<Wedge>, e: nat)
    ensures Mentions(ws, e) > 0 <==> exists i :: 0 <= i < |ws| && (ws[i].e1 == e || ws[i].e2 == e)
    decreases |ws|
  {
    if ws != [] {
      var n := |ws| - 1;
      MentionedAt(ws[..n], e);
      if Mentions(ws[..n], e) > 0 {
        var i :| 0 <= i < n && (ws[..n][i].e1 == e || ws[..n][i].e2 == e);
        assert ws[i].e1 == e || ws[i].e2 == e;
      }
      if i :| 0 <= i < n && (ws[i].e1 == e || ws[i].e2 == e) {
        assert ws[..n][i] == ws[i];
      }
    }
  }

  // ---------------------------------------------------------------- the reports of one edge

  /** The reports of the first i triangles of n that reach e. */
  ghost function Reports(n: nat, ws: seq<Wedge>, i: nat, e: nat): set<(nat, Triangle)>
    requires i <= |ws|
  {
    set j | 0 <= j < i && (ws[j].e1 == e || ws[j].e2 == e) :: (n, Tri(n, ws[j]))
  }

  lemma {:induction false} ReportsCount(tris: set<Triangle>, n: nat, ws: seq<Wedge>, i: nat, e: nat)
    requires Enumerates(tris, n, ws) && i <= |ws|
    ensures Mentions(ws[..i], e) == |Reports(n, ws, i, e)|
    decreases i
  {
    if i > 0 {
      hide Enumerates, Reports;
      ReportsCount(tris, n, ws, i - 1, e);
      MentionsNext(ws, i - 1, e);
      ReportsNext(tris, n, ws, i - 1, e);
    }
  }

  lemma ReportsNext(tris: set<Triangle>, n: nat, ws: seq<Wedge>, i: nat, e: nat)
    requires Enumerates(tris, n, ws) && i < |ws|
    ensures |Reports(n, ws, i + 1, e)| == |Reports(n, ws, i, e)| + Mention(ws[i], e)
  {
    hide Enumerates, Tri, Reports;
    DistinctReports(tris, n, ws, i, e);
    ReportsGrow(n, ws, i, e);
  }

  lemma ReportsGrow(n: nat, ws: seq<Wedge>, i: nat, e: nat)
    requires i < |ws|
    ensures Reports(n, ws, i + 1, e)
         == Reports(n, ws, i, e) + (if ws[i].e1 == e || ws[i].e2 == e then {(n, Tri(n, ws[i]))} else {})
  {
    hide Tri;
    var r, r' := Reports(n, ws, i, e), Reports(n, ws, i + 1, e);
    forall p | p in r' ensures p in r || ((ws[i].e1 == e || ws[i].e2 == e) && p == (n, Tri(n, ws[i]))) {
      var j :| 0 <= j < i + 1 && (ws[j].e1 == e || ws[j].e2 == e) && p == (n, Tri(n, ws[j]));
    }
    forall p | p in r ensures p in r' {
      var j :| 0 <= j < i && (ws[j].e1 == e || ws[j].e2 == e) && p == (n, Tri(n, ws[j]));
    }
  }

  lemma DistinctReports(tris: set<Triangle>, n: nat, ws: seq<Wedge>, i: nat, e: nat)
    requires Enumerates(tris, n, ws) && i < |ws|
    ensures (n, Tri(n, ws[i])) !in Reports(n, ws, i, e) && ws[i].e1 != ws[i].e2
  {}

  lemma ReportsAreMates(tris: set<Triangle>, n: nat, ws: seq<Wedge>, e: nat)
    requires Enumerates(tris, n, ws)
    ensures Reports(n, ws, |ws|, e) == Mates(tris, {n}, e)
  {
    forall t | t in tris && n in t && e in t && n != e ensures (n, t) in Reports(n, ws, |ws|, e) {
      var j :| 0 <= j < |ws| && t == Tri(n, ws[j]);
      assert ws[j].e1 == e || ws[j].e2 == e;
    }
    forall j | 0 <= j < |ws| && (ws[j].e1 == e || ws[j].e2 == e) ensures (n, Tri(n, ws[j])) in Mates(tris, {n}, e) {
      assert n in Tri(n, ws[j]) && e in Tri(n, ws[j]);
    }
  }

  lemma MatesNext(tris: set<Triangle>, done: set<nat>, n: nat, e: nat)
    requires n !in done
    ensures |Mates(tris, done + {n}, e)| == |Mates(tris, done, e)| + |Mates(tris, {n}, e)|
  {
    assert Mates(tris, done + {n}, e) == Mates(tris, done, e) + Mates(tris, {n}, e);
    assert Mates(tris, done, e) !! Mates(tris, {n}, e);
  }

  /** The wedges collected so far mention every edge as often as the finished jobs report to it. */
  ghost predicate Collected(tris: set<Triangle>, done: set<nat>, mates: seq<Wedge>) {
    forall e: nat :: Mentions(mates, e) == |Mates(tris, done, e)|
  }

  lemma CollectedStart(tris: set<Triangle>)
    ensures Collected(tris, {}, [])
  {
    forall e: nat ensures Mates(tris, {}, e) == {} {}
  }

  lemma CollectedNext(tris: set<Triangle>, done: set<nat>, mates: seq<Wedge>, n: nat, ws: seq<Wedge>)
    requires Collected(tris, done, mates) && n !in done && Enumerates(tris, n, ws)
    ensures Collected(tris, done + {n}, mates + ws)
  {
    hide Mates, Mentions, Reports, Enumerates;
    assert ws[..|ws|] == ws;
    forall e: nat ensures Mentions(mates + ws, e) == |Mates(tris, done + {n}, e)| {
      MentionsAppend(mates, ws, e);
      ReportsCount(tris, n, ws, |ws|, e);
      ReportsAreMates(tris, n, ws, e);
      MatesNext(tris, done, n, e);
    }
  }

  // ---------------------------------------------------------------- the passes

  /** The new edges whose jobs are finished. */
  ghost function Finished(newEids: seq<nat>, todo: set<nat>): set<nat> {
    set i | 0 <= i < |newEids| && i !in todo :: newEids[i]
  }

  lemma FinishOne(newEids: seq<nat>, todo: set<nat>, i: nat)
    requires Distinct(newEids) && i in todo && i < |newEids|
    ensures newEids[i] !in Finished(newEids, todo)
    ensures Finished(newEids, todo - {i}) == Finished(newEids, todo) + {newEids[i]}
  {}

  lemma FinishedEnds(newEids: seq<nat>, todo: set<nat>)
    ensures (forall i :: 0 <= i < |newEids| ==> i in todo) ==> Finished(newEids, todo) == {}
    ensures Finished(newEids, {}) == Elements(newEids)
  {
    forall e | e in newEids ensures e in Finished(newEids, {}) {
      var i :| 0 <= i < |newEids| && newEids[i] == e;
    }
  }

  /** The triangles on the new edges and their numbers; the jobs run in any order. */
  method CollectMates(g: DynamicGraph.DynGraph, st: Stamps.StampSet, newEids: seq<nat>) returns (wsize: seq<nat>,
                      mates: seq<Wedge>)
    requires g.Valid() && st.Valid() && |st.s| >= g.n
    requires Distinct(newEids) && forall e :: e in newEids ==> e in g.G()
    modifies st
    ensures st.Valid() && |st.s| == old(|st.s|)
    ensures |wsize| == |newEids|
    ensures forall i :: 0 <= i < |newEids| ==> wsize[i] == Deg(Triangles(g.G()), newEids[i])
    ensures forall i :: 0 <= i < |mates| ==> mates[i].e1 in g.G() && mates[i].e2 in g.G()
    ensures Collected(Triangles(g.G()), Elements(newEids), mates)
  {
    hide DynamicGraph.GraphInv, DynamicGraph.DynGraph.TableOk, DynamicGraph.TableMatches, DynamicGraph.GraphOf,
         Triangles, Stamps.StampSet.Marks, Stamps.StampSet.Valid, DynamicGraph.DynGraph.Valid, Simple, SmallEnds, Deg,
         Enumerates, Interval, Collected, Finished, Elements, Distinct;
    wsize := seq(|newEids|, _ => 0);
    mates := [];
    g.InvBounds();
    ghost var tris := Triangles(g.G());
    var todo := Interval(|newEids|);
    FinishedEnds(newEids, todo);
    CollectedStart(tris);
    while todo != {}
      invariant st.Valid() && |st.s| == old(|st.s|)
      invariant todo <= Interval(|newEids|) && |wsize| == |newEids|
      invariant forall i :: 0 <= i < |newEids| && i !in todo ==> wsize[i] == Deg(tris, newEids[i])
      invariant forall i :: 0 <= i < |mates| ==> mates[i].e1 in g.G() && mates[i].e2 in g.G()
      invariant Collected(tris, Finished(newEids, todo), mates)
    {
      var i :| i in todo;
      assert newEids[i] in newEids;
      var ws := g.EdgeTriangles(newEids[i], st);
      EnumerationCount(tris, newEids[i], ws);
      WedgeIds(g.G(), newEids[i], ws);
      FinishOne(newEids, todo, i);
      CollectedNext(tris, Finished(newEids, todo), mates, newEids[i], ws);
      mates := mates + ws;
      wsize := wsize[i := |ws|];
      todo := todo - {i};
    }
    FinishedEnds(newEids, {});
  }

  method StoreSizes(list: seq<nat>, sizes: seq<nat>, sup: seq<nat>) returns (sup': seq<nat>)
    requires |sizes| == |list| && Distinct(list) && forall e :: e in list ==> e < |sup|
    ensures |sup'| == |sup| && forall e :: e !in list ==> At(sup', e) == At(sup, e)
    ensures forall i :: 0 <= i < |list| ==> At(sup', list[i]) == sizes[i]
  {
    sup' := sup;
    for i := 0 to |list|
      invariant |sup'| == |sup| && forall e :: e !in list ==> At(sup', e) == At(sup, e)
      invariant forall j :: 0 <= j < i ==> At(sup', list[j]) == sizes[j]
    {
      assert list[i] in list;
      sup' := sup'[list[i] := sizes[i]];
    }
  }

  /** Resets the delta counts of the mates, then counts every mate once more in both arrays. */
  method BumpMates(mates: seq<Wedge>, sup: seq<nat>, dcount: seq<nat>) returns (sup': seq<nat>, dcount': seq<nat>)
    requires forall i :: 0 <= i < |mates| ==> mates[i].e1 < |sup| && mates[i].e2 < |sup|
    requires |dcount| == |sup|
    ensures |sup'| == |dcount'| == |sup|
    ensures forall e: nat :: e < |sup| ==> sup'[e] == sup[e] + Mentions(mates, e)
    ensures forall e: nat :: e < |sup| && Mentions(mates, e) > 0 ==> dcount'[e] == Mentions(mates, e)
  {
    hide Mentions;
    dcount' := ResetMates(mates, dcount);
    ghost var zero := dcount';
    sup' := sup;
    forall e: nat ensures Mentions(mates[..0], e) == 0 { NoMention(e); }
    for i := 0 to |mates|
      invariant |sup'| == |dcount'| == |sup|
      invariant forall e: nat :: e < |sup| ==> sup'[e] == sup[e] + Mentions(mates[..i], e)
      invariant forall e: nat :: e < |sup| ==> dcount'[e] == zero[e] + Mentions(mates[..i], e)
    {
      var e1, e2 := mates[i].e1, mates[i].e2;
      forall e: nat ensures Mentions(mates[..i + 1], e) == Mentions(mates[..i], e) + Mention(mates[i], e) {
        MentionsNext(mates, i, e);
      }
      sup' := sup'[e1 := sup'[e1] + 1];
      sup' := sup'[e2 := sup'[e2] + 1];
      dcount' := dcount'[e1 := dcount'[e1] + 1];
      dcount' := dcount'[e2 := dcount'[e2] + 1];
    }
    assert mates[..|mates|] == mates;
    forall e: nat | e < |sup| && Mentions(mates, e) > 0 ensures zero[e] == 0 {
      MentionedAt(mates, e);
    }
  }

  lemma NoMention(e: nat)
    ensures Mentions([], e) == 0
  {}

  method ResetMates(mates: seq<Wedge>, dcount: seq<nat>) returns (dcount': seq<nat>)
    requires forall i :: 0 <= i < |mates| ==> mates[i].e1 < |dcount| && mates[i].e2 < |dcount|
    ensures |dcount'| == |dcount|
    ensures forall i :: 0 <= i < |mates| ==> dcount'[mates[i].e1] == 0 && dcount'[mates[i].e2] == 0
  {
    dcount' := dcount;
    for i := 0 to |mates|
      invariant |dcount'| == |dcount|
      invariant forall j :: 0 <= j < i ==> dcount'[mates[j].e1] == 0 && dcount'[mates[j].e2] == 0
    {
      dcount' := dcount'[mates[i].e1 := 0];
      dcount' := dcount'[mates[i].e2 := 0];
    }
  }

  /** The seeds: the new edges and every edge whose delta count is not zero. */
  method SeedMates(newEids: seq<nat>, mates: seq<Wedge>, dcount: seq<nat>) returns (seeds: seq<nat>)
    requires forall i :: 0 <= i < |mates| ==> mates[i].e1 < |dcount| && mates[i].e2 < |dcount|
    requires forall e: nat :: e < |dcount| && Mentions(mates, e) > 0 ==> dcount[e] == Mentions(mates, e)
    ensures forall e :: e in seeds <==> e in newEids || Mentions(mates, e) > 0
  {
    hide Mentions;
    seeds := newEids;
    forall e: nat
      ensures Mentions(mates, e) > 0 <==> exists i :: 0 <= i < |mates| && (mates[i].e1 == e || mates[i].e2 == e)
    {
      MentionedAt(mates, e);
    }
    for i := 0 to |mates|
      invariant forall e :: e in seeds ==> e in newEids || Mentions(mates, e) > 0
      invariant forall e :: e in newEids ==> e in seeds
      invariant forall j :: 0 <= j < i ==> mates[j].e1 in seeds && mates[j].e2 in seeds
    {
      assert Mentions(mates, mates[i].e1) > 0 && Mentions(mates, mates[i].e2) > 0;
      if dcount[mates[i].e1] > 0 {
        seeds := seeds + [mates[i].e1];
      }
      if dcount[mates[i].e2] > 0 {
        seeds := seeds + [mates[i].e2];
      }
    }
  }

  lemma SizesStored(newEids: seq<nat>, wsize: seq<nat>, tris: set<Triangle>, sizes: seq<nat>)
    requires |wsize| == |newEids| && forall i :: 0 <= i < |newEids| ==> wsize[i] == Deg(tris, newEids[i])
    requires forall i :: 0 <= i < |newEids| ==> At(sizes, newEids[i]) == wsize[i]
    ensures forall e :: e in newEids ==> At(sizes, e) == Deg(tris, e)
  {
    hide Deg;
    forall e | e in newEids ensures At(sizes, e) == Deg(tris, e) {
      var i :| 0 <= i < |newEids| && newEids[i] == e;
    }
  }

  lemma MentionedMates(tris: set<Triangle>, added: set<nat>, mates: seq<Wedge>)
    requires Collected(tris, added, mates)
    ensures forall e: nat :: Mentions(mates, e) == |Mates(tris, added, e)|
    ensures forall e: nat :: Mentions(mates, e) > 0 <==> Mates(tris, added, e) != {}
  {
    hide Mentions, Mates;
  }

  // ---------------------------------------------------------------- by how much the counts are too high

  ghost predicate SeveralNew(t: Triangle, added: set<nat>) {
    exists a, b :: a in t && b in t && a != b && a in added && b in added
  }

  /** A triangle on e has several new edges. */
  ghost predicate Crowded(tris: set<Triangle>, added: set<nat>, e: nat) {
    exists t :: t in tris && e in t && SeveralNew(t, added)
  }

  /** The triangles on e that the insertion creates. */
  ghost function Created(tris: set<Triangle>, added: set<nat>, e: nat): set<Triangle> {
    set t | t in tris && e in t && t * added != {}
  }

  ghost function OneOf(s: set<nat>): nat {
    if s == {} then 0 else var n :| n in s; n
  }

  /**
   The recorded count of an edge is never below its triangle count in the enlarged graph, and
   right exactly when no triangle on it has several new edges.
   */
  lemma OverCount(tris: set<Triangle>, added: set<nat>, e: nat)
    ensures var start := if e in added then Deg(tris, e) else Deg(Avoiding(tris, added), e);
            var counted := start + |Mates(tris, added, e)|;
            && counted >= Deg(tris, e)
            && (counted == Deg(tris, e) <==> !Crowded(tris, added, e))
  {
    if e in added {
      NewEdgeMates(tris, added, e);
    } else {
      CreatedCount(tris, added, e);
      MatesAtLeast(tris, added, e);
      if !Crowded(tris, added, e) {
        MatesAtMost(tris, added, e);
      }
    }
  }

  lemma NewEdgeMates(tris: set<Triangle>, added: set<nat>, e: nat)
    requires e in added
    ensures Mates(tris, added, e) == {} <==> !Crowded(tris, added, e)
  {
    if p :| p in Mates(tris, added, e) {
      assert p.1 in tris && p.0 in p.1 && e in p.1 && SeveralNew(p.1, added);
    }
    if Crowded(tris, added, e) {
      var t :| t in tris && e in t && SeveralNew(t, added);
      var a :| a in t && a in added && a != e;
      assert (a, t) in Mates(tris, added, e);
    }
  }

  lemma CreatedCount(tris: set<Triangle>, added: set<nat>, e: nat)
    ensures Deg(tris, e) == Deg(Avoiding(tris, added), e) + |Created(tris, added, e)|
  {
    assert Inc(tris, e) == Inc(Avoiding(tris, added), e) + Created(tris, added, e);
    assert Inc(Avoiding(tris, added), e) !! Created(tris, added, e);
  }

  /** Every created triangle is reported to e; a crowded one more than once. */
  lemma MatesAtLeast(tris: set<Triangle>, added: set<nat>, e: nat)
    requires e !in added
    ensures |Mates(tris, added, e)| >= |Created(tris, added, e)|
    ensures Crowded(tris, added, e) ==> |Mates(tris, added, e)| > |Created(tris, added, e)|
  {
    var all, made := Mates(tris, added, e), Created(tris, added, e);
    var first := (t: Triangle) => (OneOf(t * added), t);
    forall t | t in made ensures first(t) in all {
      assert OneOf(t * added) in t * added;
    }
    assert InjectiveOn(first, made);
    ImageInto(first, made, all);
    if Crowded(tris, added, e) {
      var p := SecondReport(tris, added, e);
      hide Mates, Created;
      ImageInto(first, made, all - {p});
    }
  }

  lemma SecondReport(tris: set<Triangle>, added: set<nat>, e: nat) returns (p: (nat, Triangle))
    requires e !in added && Crowded(tris, added, e)
    ensures p in Mates(tris, added, e) && p.0 != OneOf(p.1 * added)
  {
    var t :| t in tris && e in t && SeveralNew(t, added);
    var n :| n in t && n in added && n != OneOf(t * added);
    p := (n, t);
  }

  lemma MatesAtMost(tris: set<Triangle>, added: set<nat>, e: nat)
    requires !Crowded(tris, added, e)
    ensures |Mates(tris, added, e)| <= |Created(tris, added, e)|
  {
    var all, made := Mates(tris, added, e), Created(tris, added, e);
    var triangle := (p: (nat, Triangle)) => p.1;
    forall p | p in all ensures triangle(p) in made {
      assert p.0 in p.1 * added;
    }
    assert InjectiveOn(triangle, all);
    ImageInto(triangle, all, made);
  }
}
