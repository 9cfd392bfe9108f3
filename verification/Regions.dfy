/** Edge regions kept as a list with membership flags, and their closure under triangles. */
module Regions {
  import FiniteSets
  import opened SimpleGraph
  import opened Truss

  function Elements(s: seq<nat>): set<nat> {
    set e | e in s
  }

  ghost predicate Distinct(s: seq<nat>) {
    forall i, j :: 0 <= i < j < |s| ==> s[i] != s[j]
  }

  /** The flagged edges are the listed ones, each listed once, all live. */
  ghost predicate RegionOk(sys: TriSys, region: seq<nat>, inreg: seq<bool>) {
    && Distinct(region)
    && (forall e :: 0 <= e < |inreg| ==> (inreg[e] <==> e in region))
    && (forall e :: e in region ==> e in sys.edges && e < |inreg|)
  }

  lemma RegionAt(sys: TriSys, region: seq<nat>, inreg: seq<bool>, i: nat)
    requires RegionOk(sys, region, inreg) && i < |region|
    ensures region[i] in sys.edges && region[i] < |inreg| && Flagged(inreg, region[i]) && Distinct(region)
  {
    assert region[i] in region;
  }

  lemma RegionAdd(sys: TriSys, region: seq<nat>, inreg: seq<bool>, e: nat)
    requires RegionOk(sys, region, inreg) && e in sys.edges && e < |inreg| && !inreg[e]
    ensures RegionOk(sys, region + [e], inreg[e := true])
    ensures Elements(region + [e]) == Elements(region) + {e} && e !in Elements(region)
  {}

  ghost predicate FlagsKept(a: seq<bool>, b: seq<bool>) {
    |a| == |b| && forall e :: 0 <= e < |a| && a[e] ==> b[e]
  }

  predicate Flagged(inreg: seq<bool>, e: nat) {
    e < |inreg| && inreg[e]
  }

  lemma KeptFlag(a: seq<bool>, b: seq<bool>, e: nat)
    requires FlagsKept(a, b)
    ensures |a| == |b| && (Flagged(a, e) ==> Flagged(b, e))
  {}

  lemma KeptTrans(a: seq<bool>, b: seq<bool>, c: seq<bool>)
    requires FlagsKept(a, b) && FlagsKept(b, c)
    ensures FlagsKept(a, c)
  {}

  /** The first n triangles on x have their edges flagged. */
  ghost predicate WedgesIn(ws: seq<Wedge>, n: nat, inreg: seq<bool>) {
    forall j :: 0 <= j < n && j < |ws| ==> Flagged(inreg, ws[j].e1) && Flagged(inreg, ws[j].e2)
  }

  lemma WedgesStep(ws: seq<Wedge>, n: nat, a: seq<bool>, b: seq<bool>, c: seq<bool>)
    requires n < |ws| && WedgesIn(ws, n, a) && FlagsKept(a, b) && FlagsKept(b, c)
    requires Flagged(b, ws[n].e1) && Flagged(c, ws[n].e2)
    ensures WedgesIn(ws, n + 1, c) && FlagsKept(a, c)
  {
    hide Flagged;
    forall j | 0 <= j < n + 1 && j < |ws| ensures Flagged(c, ws[j].e1) && Flagged(c, ws[j].e2) {
      KeptTrans(a, b, c);
      KeptFlag(a, c, ws[j].e1);
      KeptFlag(a, c, ws[j].e2);
      KeptFlag(b, c, ws[j].e1);
    }
  }

  lemma NoWedges(ws: seq<Wedge>, inreg: seq<bool>)
    ensures WedgesIn(ws, 0, inreg) && FlagsKept(inreg, inreg)
  {}

  lemma WedgeOf(sys: TriSys, x: nat, ws: seq<Wedge>, i: nat)
    requires sys.Valid() && Enumerates(sys.tris, x, ws) && i < |ws|
    ensures Tri(x, ws[i]) in sys.tris
    ensures ws[i].e1 in sys.edges && ws[i].e2 in sys.edges && ws[i].e1 != x && ws[i].e2 != x && ws[i].e1 != ws[i].e2
  {
    assert ws[i].e1 in Tri(x, ws[i]) && ws[i].e2 in Tri(x, ws[i]);
  }

  /** All edges that share a triangle with f are flagged. */
  ghost predicate PartnersIn(tris: set<Triangle>, f: nat, inreg: seq<bool>) {
    forall t, h :: t in tris && f in t && h in t ==> h < |inreg| && inreg[h]
  }

  /** x and the first n edges of the queue have been expanded. */
  ghost predicate ExpandedTo(tris: set<Triangle>, x: nat, queue: seq<nat>, n: nat, inreg: seq<bool>) {
    PartnersIn(tris, x, inreg) && forall j :: 0 <= j < n && j < |queue| ==> PartnersIn(tris, queue[j], inreg)
  }

  lemma ExpandedStep(tris: set<Triangle>, x: nat, queue: seq<nat>, n: nat, inreg: seq<bool>, queue': seq<nat>,
                     inreg': seq<bool>)
    requires ExpandedTo(tris, x, queue, n, inreg) && n < |queue| && queue <= queue'
    requires FlagsKept(inreg, inreg') && PartnersIn(tris, queue[n], inreg')
    ensures ExpandedTo(tris, x, queue', n + 1, inreg')
  {
    PartnersKeep(tris, x, inreg, inreg');
    hide PartnersIn, FlagsKept;
    forall j | 0 <= j < n + 1 ensures PartnersIn(tris, queue'[j], inreg') {
      if j < n {
        PartnersKeep(tris, queue[j], inreg, inreg');
      }
    }
  }

  lemma PartnersListed(tris: set<Triangle>, f: nat, ws: seq<Wedge>, inreg: seq<bool>)
    requires Enumerates(tris, f, ws) && Flagged(inreg, f) && WedgesIn(ws, |ws|, inreg)
    ensures PartnersIn(tris, f, inreg)
  {
    forall t, h | t in tris && f in t && h in t ensures h < |inreg| && inreg[h] {
      var i :| 0 <= i < |ws| && t == Tri(f, ws[i]);
      assert Flagged(inreg, ws[i].e1) && Flagged(inreg, ws[i].e2);
    }
  }

  lemma PartnersKeep(tris: set<Triangle>, f: nat, inreg: seq<bool>, inreg': seq<bool>)
    requires PartnersIn(tris, f, inreg) && FlagsKept(inreg, inreg')
    ensures PartnersIn(tris, f, inreg')
  {}

  lemma RegionSize(sys: TriSys, region: seq<nat>, inreg: seq<bool>)
    requires RegionOk(sys, region, inreg)
    ensures |region| <= |sys.edges|
  {
    FiniteSets.DistinctCard(region, Elements(region));
    FiniteSets.SubsetCard(Elements(region), sys.edges);
  }

  method ClearFlags(list: seq<nat>, flags: seq<bool>) returns (flags': seq<bool>)
    requires forall e :: e in list ==> e < |flags|
    ensures |flags'| == |flags|
    ensures forall e :: 0 <= e < |flags| ==> (flags'[e] <==> flags[e] && e !in list)
  {
    flags' := flags;
    for i := 0 to |list|
      invariant |flags'| == |flags|
      invariant forall e :: 0 <= e < |flags| ==> (flags'[e] <==> flags[e] && e !in list[..i])
    {
      assert list[i] in list;
      flags' := flags'[list[i] := false];
    }
    assert list[..|list|] == list;
  }

  // ---------------------------------------------------------------- closures

  ghost predicate MeetsRegion(t: Triangle, inReg: seq<bool>) {
    exists f :: f in t && Flagged(inReg, f)
  }

  /** Some triangle has the edge e and an edge of the region. */
  ghost predicate Touches(tris: set<Triangle>, inReg: seq<bool>, e: nat) {
    exists t :: t in tris && e in t && MeetsRegion(t, inReg)
  }

  /** r is the least triangle-closed set of edges that contains s. */
  ghost predicate IsClosure(sys: TriSys, s: set<nat>, r: set<nat>) {
    && s <= r <= sys.edges
    && Closed(sys.tris, r)
    && Minimal(sys, s, r)
  }

  ghost predicate Minimal(sys: TriSys, s: set<nat>, r: set<nat>) {
    forall c: set<nat> :: s <= c && Closed(sys.tris, c) ==> r <= c
  }

  /** Every set of edges has a closure. */
  lemma ClosureExists(sys: TriSys, s: set<nat>) returns (c: set<nat>)
    requires sys.Valid() && s <= sys.edges
    ensures IsClosure(sys, s, c)
  {
    c := set e | e in sys.edges && forall d: set<nat> :: s <= d && Closed(sys.tris, d) ==> e in d;
    forall t | t in sys.tris && t * c != {} ensures t <= c {
      var f :| f in t && f in c;
      forall e | e in t ensures e in c {
        forall d: set<nat> | s <= d && Closed(sys.tris, d) ensures e in d {
          assert f in t * d;
        }
      }
    }
  }

  /** An edge on a triangle with the region belongs to every closed set around it. */
  lemma MinimalAdd(sys: TriSys, s: set<nat>, region: seq<nat>, inReg: seq<bool>, e: nat)
    requires RegionOk(sys, region, inReg) && Minimal(sys, s, Elements(region)) && Touches(sys.tris, inReg, e)
    ensures Minimal(sys, s, Elements(region + [e]))
  {
    var t :| t in sys.tris && e in t && MeetsRegion(t, inReg);
    var f :| f in t && Flagged(inReg, f);
    assert f in Elements(region);
    forall c: set<nat> | s <= c && Closed(sys.tris, c) ensures Elements(region + [e]) <= c {
      assert f in t * c;
      assert t <= c;
    }
  }

  /** The other edges of a triangle on a flagged edge touch the region. */
  lemma WedgeTouches(sys: TriSys, f: nat, ws: seq<Wedge>, i: nat, inReg: seq<bool>)
    requires i < |ws| && Tri(f, ws[i]) in sys.tris && Flagged(inReg, f)
    ensures Touches(sys.tris, inReg, ws[i].e1) && Touches(sys.tris, inReg, ws[i].e2)
  {
    var t := Tri(f, ws[i]);
    assert f in t && ws[i].e1 in t && ws[i].e2 in t;
    assert MeetsRegion(t, inReg);
  }

  /** What touches a region touches a larger one. */
  lemma TouchesMore(tris: set<Triangle>, a: seq<bool>, b: seq<bool>, e: nat)
    requires Touches(tris, a, e) && FlagsKept(a, b)
    ensures Touches(tris, b, e)
  {
    var t :| t in tris && e in t && MeetsRegion(t, a);
    var f :| f in t && Flagged(a, f);
    assert Flagged(b, f);
    assert MeetsRegion(t, b);
  }
}
