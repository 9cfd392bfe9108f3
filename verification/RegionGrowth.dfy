/**
 The first half of an insertion (insert in src/incremental.h): the new edge and the edges around
 it get values that bound their new trussness from above.
 */
module RegionGrowth {
  import opened Demotion
  import DynamicGraph
  import opened LocalEvaluation
  import opened Peeling
  import opened Regions
  import opened SimpleGraph
  import opened StaticDecomposition
  import opened Truss
  import opened Worklist

  // ---------------------------------------------------------------- raising

  /** The arrays and lists that grow together while the region of a new edge is collected. */
  datatype Growth = Growth(tau: seq<nat>, inreg: seq<bool>, region: seq<nat>, queue: seq<nat>, inq: seq<bool>)

  /** The values fit into 16 bits. */
  ghost predicate Words(tau: seq<nat>) {
    forall e :: 0 <= e < |tau| ==> tau[e] < TAU_SPACE
  }

  /**
   Values of old edges inside the region bound their new trussness from above, unless that is
   beyond the evaluation anyway; outside they are untouched.
   */
  ghost predicate RaisedOk(sys: TriSys, tau0: seq<nat>, x: nat, tau: seq<nat>, inreg: seq<bool>) {
    && |tau| == |tau0| == |inreg|
    && (forall e :: e in sys.edges ==> e < |tau| && (!inreg[e] ==> tau[e] == tau0[e]))
    && (forall e :: e in sys.edges && e != x && inreg[e] ==>
                      tau[e] >= Trussness(sys, e) || Trussness(sys, e) > EVAL_LIMIT)
  }

  /** An old edge keeps its trussness or gains one. */
  ghost predicate RisesByOne(sys: TriSys, tau0: seq<nat>, x: nat) {
    forall e :: e in sys.edges && e != x ==>
                  At(tau0, e) <= Trussness(sys, e) <= At(tau0, e) + 1 && At(tau0, e) < TAU_SPACE
  }

  /**
   The state while the region of the new edge x is collected: x first, then what was ever
   queued, all of it inside every triangle-closed set around x.
   */
  ghost predicate Growing(sys: TriSys, tau0: seq<nat>, x: nat, r: Growth, head: nat) {
    && RegionOk(sys, r.region, r.inreg) && RaisedOk(sys, tau0, x, r.tau, r.inreg) && RisesByOne(sys, tau0, x)
    && QueueOk(r.queue, r.inq, head) && r.region == [x] + r.queue
    && |r.inq| == |r.inreg| == |r.tau|
    && (forall f :: f in sys.edges ==> f < |r.tau|)
    && (forall f :: 0 <= f < |r.inq| && r.inq[f] ==> r.inreg[f])
    && x < |r.inreg| && r.inreg[x]
    && Minimal(sys, {x}, Elements(r.region)) && Words(r.tau)
  }

  /** No old value is above the triangle count plus two. */
  ghost predicate RoomToRise(sys: TriSys, tau0: seq<nat>, sup: seq<nat>, x: nat) {
    forall e :: e in sys.edges && e != x ==> At(tau0, e) <= At(sup, e) + 2
  }

  /** The bound of an old edge: one more than its old value, and at most its triangle count plus two. */
  function Bound(tau0: seq<nat>, sup: seq<nat>, e: nat): nat {
    Min(At(sup, e) + 2, At(tau0, e) + 1)
  }

  /** Every old edge of the region is at its bound, as far as 16 bits hold it. */
  ghost predicate AtBounds(sys: TriSys, tau0: seq<nat>, sup: seq<nat>, x: nat, r: Growth) {
    forall e :: e in sys.edges && e != x && Flagged(r.inreg, e) ==> At(r.tau, e) == Word(Bound(tau0, sup, e))
  }

  /** Raising the value of e to min(sup+2, tau+1), if that is a raise, keeps it above the trussness. */
  lemma RaiseStep(sys: TriSys, tau0: seq<nat>, tau: seq<nat>, inreg: seq<bool>, sup: seq<nat>, x: nat, e: nat)
    requires CountsTriangles(sys, sup) && RoomToRise(sys, tau0, sup, x)
    requires RaisedOk(sys, tau0, x, tau, inreg) && RisesByOne(sys, tau0, x)
    requires e in sys.edges && e < |sup| && e < |inreg| && e < |tau| && !inreg[e] && e != x
    ensures var cf := Min(sup[e] + 2, tau[e] + 1);
            && tau[e] <= cf && cf == Bound(tau0, sup, e) && (cf == tau[e] ==> Word(cf) == cf)
            && RaisedOk(sys, tau0, x, tau[e := Word(cf)], inreg[e := true])
  {
    assert Trussness(sys, e) <= sup[e] + 2;
    hide InTruss, Deg, CountsTriangles, Word;
  }

  lemma BoundStep(sys: TriSys, tau0: seq<nat>, sup: seq<nat>, x: nat, r: Growth, e: nat, r': Growth)
    requires AtBounds(sys, tau0, sup, x, r) && e < |r.tau| && e < |r.inreg|
    requires r'.tau == r.tau[e := Word(Bound(tau0, sup, e))] && r'.inreg == r.inreg[e := true]
    ensures AtBounds(sys, tau0, sup, x, r')
  {
    hide Bound, Word;
  }

  /**
   Adds an edge on a triangle with the region to it unless it is there, raising its value
   to its bound.
   */
  method AddToRegion(e: nat, sup: seq<nat>, r: Growth, ghost sys: TriSys, ghost tau0: seq<nat>, ghost x: nat,
                     ghost head: nat)
    returns (r': Growth)
    requires CountsTriangles(sys, sup) && RoomToRise(sys, tau0, sup, x) && |sup| == |r.tau|
    requires Growing(sys, tau0, x, r, head) && e in sys.edges && Touches(sys.tris, r.inreg, e)
    requires AtBounds(sys, tau0, sup, x, r)
    ensures Growing(sys, tau0, x, r', head) && AtBounds(sys, tau0, sup, x, r')
    ensures |r'.tau| == |r.tau| && FlagsKept(r.inreg, r'.inreg) && Flagged(r'.inreg, e)
    ensures r.queue <= r'.queue && At(r'.tau, x) == At(r.tau, x)
  {
    hide Growing, QueueOk, RegionOk, RaisedOk, RisesByOne, CountsTriangles, RoomToRise, Minimal, Elements, Touches,
         AtBounds, Word, Bound, FlagsKept, Flagged;
    r' := r;
    GrowingRoom(sys, tau0, x, r, head, e);
    if !r.inreg[e] {
      RaiseStep(sys, tau0, r.tau, r.inreg, sup, x, e);
      var cf := Min(sup[e] + 2, r.tau[e] + 1);
      var tau := if cf > r.tau[e] then r.tau[e := Word(cf)] else r.tau;
      assert tau == r.tau[e := Word(cf)];
      var queue, inq := Push(r.queue, r.inq, e, head);
      r' := Growth(tau, r.inreg[e := true], r.region + [e], queue, inq);
      GrowByOne(sys, tau0, sup, x, r, head, e, r');
    }
  }

  /** What an edge that may join the region finds. */
  lemma GrowingRoom(sys: TriSys, tau0: seq<nat>, x: nat, r: Growth, head: nat, e: nat)
    requires Growing(sys, tau0, x, r, head) && e in sys.edges
    ensures |r.tau| == |r.inreg| == |r.inq| && e < |r.tau| && QueueOk(r.queue, r.inq, head)
    ensures RaisedOk(sys, tau0, x, r.tau, r.inreg) && RisesByOne(sys, tau0, x)
    ensures FlagsKept(r.inreg, r.inreg) && (r.inreg[e] <==> Flagged(r.inreg, e)) && (!r.inreg[e] ==> e != x)
  {
    hide QueueOk, RaisedOk, RisesByOne, RegionOk, Minimal;
  }

  /** An edge that touches the region joins it at its bound and is queued. */
  lemma GrowByOne(sys: TriSys, tau0: seq<nat>, sup: seq<nat>, x: nat, r: Growth, head: nat, e: nat, r': Growth)
    requires Growing(sys, tau0, x, r, head) && e in sys.edges && Touches(sys.tris, r.inreg, e)
    requires e < |r.tau| && e < |r.inreg| && e < |r.inq| && !r.inreg[e]
    requires AtBounds(sys, tau0, sup, x, r) && RaisedOk(sys, tau0, x, r'.tau, r'.inreg)
    requires r'.tau == r.tau[e := Word(Bound(tau0, sup, e))] && r'.inreg == r.inreg[e := true]
             && r'.region == r.region + [e]
    requires QueueOk(r'.queue, r'.inq, head) && r'.inq == r.inq[e := true]
    requires r'.queue == if r.inq[e] then r.queue else r.queue + [e]
    ensures Growing(sys, tau0, x, r', head) && AtBounds(sys, tau0, sup, x, r')
    ensures FlagsKept(r.inreg, r'.inreg) && Flagged(r'.inreg, e) && r.queue <= r'.queue
    ensures e != x && At(r'.tau, x) == At(r.tau, x)
  {
    hide QueueOk, RegionOk, RaisedOk, RisesByOne, Minimal, Elements, Touches, AtBounds, Bound;
    BoundStep(sys, tau0, sup, x, r, e, r');
    RegionAdd(sys, r.region, r.inreg, e);
    MinimalAdd(sys, {x}, r.region, r.inreg, e);
    assert !r.inq[e];
    assert r'.region == [x] + r'.queue;
  }

  /** Counting one more triangle for e, and raising its value. */
  lemma WitnessStep(sys: TriSys, tau0: seq<nat>, tau: seq<nat>, inreg: seq<bool>, sup: seq<nat>, x: nat, e: nat)
    requires RaisedOk(sys, tau0, x, tau, inreg) && RisesByOne(sys, tau0, x) && RoomToRise(sys, tau0, sup, x)
    requires e in sys.edges && e < |sup| && e < |inreg| && e < |tau| && e != x
    ensures RoomToRise(sys, tau0, sup[e := sup[e] + 1], x)
    ensures var cf := Min(sup[e] + 1 + 2, tau[e] + 1);
            !inreg[e] ==>
              && tau[e] < cf && cf == Bound(tau0, sup[e := sup[e] + 1], e)
              && RaisedOk(sys, tau0, x, tau[e := Word(cf)], inreg[e := true])
  {
    hide InTruss, Deg, Word;
  }

  lemma CountedBound(sys: TriSys, tau0: seq<nat>, sup: seq<nat>, x: nat, r: Growth, e: nat)
    requires AtBounds(sys, tau0, sup, x, r) && !Flagged(r.inreg, e) && e < |sup|
    ensures AtBounds(sys, tau0, sup[e := sup[e] + 1], x, r)
  {}

  /** Counts one more triangle for e, and puts e into the region with a raised value. */
  method RaiseWitness(e: nat, sup: seq<nat>, r: Growth, ghost sys: TriSys, ghost tau0: seq<nat>, ghost x: nat)
    returns (sup': seq<nat>, r': Growth)
    requires Growing(sys, tau0, x, r, 0) && RoomToRise(sys, tau0, sup, x)
    requires |sup| == |r.tau| && e in sys.edges && e < |sup| && e != x && Touches(sys.tris, r.inreg, e)
    requires AtBounds(sys, tau0, sup, x, r) && !Flagged(r.inreg, e)
    ensures Growing(sys, tau0, x, r', 0) && RoomToRise(sys, tau0, sup', x)
    ensures AtBounds(sys, tau0, sup', x, r')
    ensures |r'.tau| == |r.tau| && e < |r.inreg| && r'.inreg == r.inreg[e := true] && At(r'.tau, x) == At(r.tau, x)
    ensures sup' == sup[e := sup[e] + 1]
  {
    hide Growing, QueueOk, RegionOk, RaisedOk, RisesByOne, RoomToRise, Minimal, Elements, Touches, AtBounds, Word,
         Bound, Flagged, FlagsKept;
    r' := r;
    GrowingRoom(sys, tau0, x, r, 0, e);
    WitnessStep(sys, tau0, r.tau, r.inreg, sup, x, e);
    CountedBound(sys, tau0, sup, x, r, e);
    sup' := sup[e := sup[e] + 1];
    if !r.inreg[e] {
      var cf := Min(sup'[e] + 2, r.tau[e] + 1);
      if cf > r.tau[e] {
        var queue, inq := Push(r.queue, r.inq, e, 0);
        r' := Growth(r.tau[e := Word(cf)], r.inreg[e := true], r.region + [e], queue, inq);
        GrowByOne(sys, tau0, sup', x, r, 0, e, r');
      }
    }
  }

  /** What live has become when the first i triangles on x are there. */
  ghost function Grown(live: set<Triangle>, x: nat, ws: seq<Wedge>, i: nat): set<Triangle>
    requires i <= |ws|
  {
    if i == 0 then live else Grown(live, x, ws, i - 1) + {Tri(x, ws[i - 1])}
  }

  lemma GrownNone(live: set<Triangle>, x: nat, ws: seq<Wedge>)
    ensures Grown(live, x, ws, 0) == live
  {}

  lemma {:induction false} GrownMember(live: set<Triangle>, x: nat, ws: seq<Wedge>, i: nat, t: Triangle)
    requires i <= |ws|
    ensures t in Grown(live, x, ws, i) <==> t in live || exists j :: 0 <= j < i && t == Tri(x, ws[j])
  {
    if i > 0 {
      GrownMember(live, x, ws, i - 1, t);
    }
  }

  lemma GrownAll(tris: set<Triangle>, x: nat, ws: seq<Wedge>)
    requires Enumerates(tris, x, ws)
    ensures Grown(Avoiding(tris, {x}), x, ws, |ws|) == tris
  {
    forall t ensures t in Grown(Avoiding(tris, {x}), x, ws, |ws|) <==> t in tris {
      GrownMember(Avoiding(tris, {x}), x, ws, |ws|, t);
      assert x !in t ==> t !! {x};
    }
  }

  /** sup counts the triangles in live of all edges but x. */
  ghost predicate CountsLive(sys: TriSys, live: set<Triangle>, sup: seq<nat>, x: nat) {
    forall e :: e in sys.edges && e != x ==> At(sup, e) == Deg(live, e)
  }

  /** One more triangle on x raises the counts of its two other edges. */
  lemma CountTriangle(sys: TriSys, ws: seq<Wedge>, i: nat, sup: seq<nat>, x: nat)
    requires Enumerates(sys.tris, x, ws) && i < |ws|
    requires CountsLive(sys, Grown(Avoiding(sys.tris, {x}), x, ws, i), sup, x)
    requires ws[i].e1 < |sup| && ws[i].e2 < |sup|
    ensures var s1 := sup[ws[i].e1 := sup[ws[i].e1] + 1];
            CountsLive(sys, Grown(Avoiding(sys.tris, {x}), x, ws, i + 1), s1[ws[i].e2 := s1[ws[i].e2] + 1], x)
  {
    var live := Avoiding(sys.tris, {x});
    var t := Tri(x, ws[i]);
    GrownMember(live, x, ws, i, t);
    forall e | e in sys.edges && e != x
      ensures Deg(Grown(live, x, ws, i + 1), e)
           == Deg(Grown(live, x, ws, i), e) + (if e == ws[i].e1 || e == ws[i].e2 then 1 else 0)
    {
      DegAdd(Grown(live, x, ws, i), t, e);
    }
    hide Deg, Grown, Avoiding;
  }

  /** Only x and the edges of its first n triangles are flagged. */
  ghost predicate OnlyWedges(ws: seq<Wedge>, n: nat, x: nat, inreg: seq<bool>) {
    forall e :: 0 <= e < |inreg| && inreg[e] ==>
                  e == x || exists j :: 0 <= j < n && j < |ws| && (ws[j].e1 == e || ws[j].e2 == e)
  }

  /** The edges of the next triangle on x are new to the region, and touch it in x. */
  lemma NextWedge(sys: TriSys, ws: seq<Wedge>, i: nat, x: nat, inreg: seq<bool>)
    requires sys.Linear() && Enumerates(sys.tris, x, ws) && i < |ws|
    requires OnlyWedges(ws, i, x, inreg) && Flagged(inreg, x)
    ensures !Flagged(inreg, ws[i].e1) && !Flagged(inreg, ws[i].e2)
    ensures Touches(sys.tris, inreg, ws[i].e1) && Touches(sys.tris, inreg, ws[i].e2)
  {
    var t := Tri(x, ws[i]);
    assert ws[i].e1 in t && ws[i].e2 in t && x in t && t in sys.tris;
    assert MeetsRegion(t, inreg);
    forall j | 0 <= j < i
      ensures ws[j].e1 != ws[i].e1 && ws[j].e1 != ws[i].e2 && ws[j].e2 != ws[i].e1 && ws[j].e2 != ws[i].e2
    {
      var u := Tri(x, ws[j]);
      assert x in u && ws[j].e1 in u && ws[j].e2 in u && u in sys.tris && u != t;
    }
  }

  lemma OnlyWedgesStep(ws: seq<Wedge>, i: nat, x: nat, inreg: seq<bool>)
    requires i < |ws| && OnlyWedges(ws, i, x, inreg) && ws[i].e1 < |inreg| && ws[i].e2 < |inreg|
    ensures OnlyWedges(ws, i + 1, x, inreg[ws[i].e1 := true][ws[i].e2 := true])
  {}

  lemma FlagOne(inreg: seq<bool>, e: nat)
    requires e < |inreg|
    ensures FlagsKept(inreg, inreg[e := true]) && Flagged(inreg[e := true], e)
    ensures forall f :: f != e ==> Flagged(inreg[e := true], f) == Flagged(inreg, f)
  {}

  /** Handles the triangles that close with the new edge x. */
  method RaiseWitnesses(ws: seq<Wedge>, sup: seq<nat>, r: Growth, ghost sys: TriSys, ghost tau0: seq<nat>, x: nat)
    returns (sup': seq<nat>, r': Growth)
    requires sys.Valid() && sys.Linear() && Enumerates(sys.tris, x, ws)
    requires Growing(sys, tau0, x, r, 0) && RoomToRise(sys, tau0, sup, x) && OnlyWedges(ws, 0, x, r.inreg)
    requires |sup| == |r.tau| && forall f :: f in sys.edges ==> f < |sup|
    requires x < |sup| && sup[x] == |ws| && CountsLive(sys, Avoiding(sys.tris, {x}), sup, x)
    ensures CountsTriangles(sys, sup') && RoomToRise(sys, tau0, sup', x) && |sup'| == |r'.tau| == |r.tau|
    ensures Growing(sys, tau0, x, r', 0) && AtBounds(sys, tau0, sup', x, r')
    ensures WedgesIn(ws, |ws|, r'.inreg) && At(r'.tau, x) == At(r.tau, x)
  {
    hide Growing, RoomToRise, CountsLive, Avoiding, Deg, WedgesIn, FlagsKept, Flagged, Enumerates, Grown,
         TriSys.Valid, TriSys.Linear, AtBounds, OnlyWedges, Touches;
    sup', r' := sup, r;
    ghost var live := Avoiding(sys.tris, {x});
    NoWedges(ws, r.inreg);
    GrownNone(live, x, ws);
    GrowingFlags(sys, tau0, x, r, 0);
    NothingRaised(sys, tau0, sup, x, r, ws);
    for i := 0 to |ws|
      invariant Growing(sys, tau0, x, r', 0) && RoomToRise(sys, tau0, sup', x)
      invariant AtBounds(sys, tau0, sup', x, r') && OnlyWedges(ws, i, x, r'.inreg) && Flagged(r'.inreg, x)
      invariant |r'.tau| == |r'.inreg| == |sup'| == |r.tau| && At(r'.tau, x) == At(r.tau, x)
      invariant WedgesIn(ws, i, r'.inreg)
      invariant CountsLive(sys, Grown(live, x, ws, i), sup', x)
      invariant sup'[x] == |ws|
    {
      WedgeOf(sys, x, ws, i);
      var e1, e2 := ws[i].e1, ws[i].e2;
      CountTriangle(sys, ws, i, sup', x);
      ghost var a := r'.inreg;
      NextWedge(sys, ws, i, x, a);
      sup', r' := RaiseWitness(e1, sup', r', sys, tau0, x);
      ghost var b := r'.inreg;
      FlagOne(a, e1);
      TouchesMore(sys.tris, a, b, e2);
      sup', r' := RaiseWitness(e2, sup', r', sys, tau0, x);
      FlagOne(b, e2);
      WedgesStep(ws, i, a, b, r'.inreg);
      OnlyWedgesStep(ws, i, x, a);
    }
    GrownAll(sys.tris, x, ws);
    EnumerationCount(sys.tris, x, ws);
    AllCounted(sys, sup', x);
  }

  lemma NothingRaised(sys: TriSys, tau0: seq<nat>, sup: seq<nat>, x: nat, r: Growth, ws: seq<Wedge>)
    requires OnlyWedges(ws, 0, x, r.inreg)
    ensures AtBounds(sys, tau0, sup, x, r)
  {}

  lemma GrowingFlags(sys: TriSys, tau0: seq<nat>, x: nat, r: Growth, head: nat)
    requires Growing(sys, tau0, x, r, head)
    ensures |r.inreg| == |r.tau| && Flagged(r.inreg, x)
  {}

  lemma AllCounted(sys: TriSys, sup: seq<nat>, x: nat)
    requires CountsLive(sys, sys.tris, sup, x) && At(sup, x) == Deg(sys.tris, x)
    ensures CountsTriangles(sys, sup)
  {
    hide Deg;
  }

  /** Brings all edges that share a triangle with f into the region. */
  method ExpandEdge(f: nat, ws: seq<Wedge>, sup: seq<nat>, r: Growth, ghost sys: TriSys, ghost tau0: seq<nat>,
                    ghost x: nat, ghost head: nat)
    returns (r': Growth)
    requires sys.Valid() && Enumerates(sys.tris, f, ws)
    requires CountsTriangles(sys, sup) && RoomToRise(sys, tau0, sup, x) && |sup| == |r.tau|
    requires Growing(sys, tau0, x, r, head) && AtBounds(sys, tau0, sup, x, r) && Flagged(r.inreg, f)
    ensures Growing(sys, tau0, x, r', head) && AtBounds(sys, tau0, sup, x, r')
    ensures |r'.tau| == |r.tau| && FlagsKept(r.inreg, r'.inreg) && PartnersIn(sys.tris, f, r'.inreg)
    ensures r.queue <= r'.queue && At(r'.tau, x) == At(r.tau, x)
  {
    hide Growing, CountsTriangles, RoomToRise, AtBounds, PartnersIn, WedgesIn, FlagsKept, Flagged, Touches,
         Enumerates, TriSys.Valid;
    r' := r;
    NoWedges(ws, r.inreg);
    for i := 0 to |ws|
      invariant Growing(sys, tau0, x, r', head) && AtBounds(sys, tau0, sup, x, r')
      invariant |r'.tau| == |r.tau| && FlagsKept(r.inreg, r'.inreg) && WedgesIn(ws, i, r'.inreg)
      invariant r.queue <= r'.queue && At(r'.tau, x) == At(r.tau, x)
    {
      WedgeOf(sys, f, ws, i);
      var e1, e2 := ws[i].e1, ws[i].e2;
      ghost var a := r'.inreg;
      KeptFlag(r.inreg, a, f);
      WedgeTouches(sys, f, ws, i, a);
      r' := AddToRegion(e1, sup, r', sys, tau0, x, head);
      ghost var b := r'.inreg;
      TouchesMore(sys.tris, a, b, e2);
      r' := AddToRegion(e2, sup, r', sys, tau0, x, head);
      WedgesStep(ws, i, a, b, r'.inreg);
      KeptTrans(r.inreg, a, r'.inreg);
    }
    KeptFlag(r.inreg, r'.inreg, f);
    PartnersListed(sys.tris, f, ws, r'.inreg);
  }

  /** A region whose edges all have their triangle partners inside is the closure of the new edge. */
  lemma RegionClosed(sys: TriSys, tau0: seq<nat>, x: nat, r: Growth, head: nat)
    requires Growing(sys, tau0, x, r, head)
    requires ExpandedTo(sys.tris, x, r.queue, |r.queue|, r.inreg)
    ensures IsClosure(sys, {x}, Elements(r.region))
  {
    hide RaisedOk, RisesByOne, QueueOk, Minimal;
    assert r.region[0] == x;
    forall t | t in sys.tris && t * Elements(r.region) != {} ensures t <= Elements(r.region) {
      var f :| f in t && f in Elements(r.region);
      var i :| 0 <= i < |r.region| && r.region[i] == f;
      assert i > 0 ==> r.queue[i - 1] == f;
      assert PartnersIn(sys.tris, f, r.inreg);
      forall h | h in t ensures h in r.region {
        assert h < |r.inreg| && r.inreg[h];
      }
    }
  }

  // ---------------------------------------------------------------- the insertion argument

  /** In a k-truss with k above 2, some triangle on x has all its edges in the k-truss. */
  lemma TriangleInCore(sys: TriSys, x: nat, ws: seq<Wedge>, k: nat) returns (i: nat)
    requires sys.Valid() && Enumerates(sys.tris, x, ws) && x in sys.edges
    requires 3 <= k <= Trussness(sys, x)
    ensures i < |ws| && ws[i].e1 in sys.edges && ws[i].e2 in sys.edges && ws[i].e1 != x && ws[i].e2 != x
    ensures Trussness(sys, ws[i].e1) >= k && Trussness(sys, ws[i].e2) >= k
  {
    var c := Core(sys, k);
    CoreSupports(sys, k);
    assert x in c;
    assert Deg(Within(sys.tris, c), x) >= 1;
    assert Inc(Within(sys.tris, c), x) != {};
    hide Trussness, Supports, Deg;
    var t :| t in Inc(Within(sys.tris, c), x);
    i :| 0 <= i < |ws| && t == Tri(x, ws[i]);
    WedgeOf(sys, x, ws, i);
    assert ws[i].e1 in t && ws[i].e2 in t;
  }

  /** The new edge x cannot do better than its triangle count and the best of its triangles allow. */
  lemma NewEdgeBound(sys: TriSys, x: nat, tau0: seq<nat>, ws: seq<Wedge>, k0: nat)
    requires sys.Valid() && Enumerates(sys.tris, x, ws) && x in sys.edges && ws != []
    requires RisesByOne(sys, tau0, x)
    requires forall e :: e in sys.edges && e != x ==> At(tau0, e) >= 2
    requires forall i :: 0 <= i < |ws| ==> WedgeMin(tau0, ws[i]) <= k0
    ensures Trussness(sys, x) <= Min(|ws| + 2, k0 + 1) && k0 >= 2
  {
    EnumerationCount(sys.tris, x, ws);
    WedgeOf(sys, x, ws, 0);
    assert WedgeMin(tau0, ws[0]) <= k0;
    var k := Trussness(sys, x);
    hide Enumerates, InTruss, Deg;
    if k >= 3 {
      var i := TriangleInCore(sys, x, ws, k);
      assert WedgeMin(tau0, ws[i]) <= k0;
    }
  }

  /** Outside a closed region that contains the new edge nothing changes. */
  lemma OutsideUnchanged(small: TriSys, big: TriSys, x: nat, r: set<nat>)
    requires big.Valid() && Without(small, big, x) && x in r && r <= big.edges && Closed(big.tris, r)
    ensures forall f :: f in big.edges && f !in r ==> Trussness(small, f) == Trussness(big, f)
  {
    var c := big.edges - r;
    forall t | t in big.tris && t * c != {} ensures t <= c {
      assert t * r == {};
      forall f | f in t ensures f in c {
        assert f !in t * r;
      }
    }
    forall t | t in Within(big.tris, c) ensures t in Within(small.tris, c) {
      assert x !in t;
    }
    assert Within(small.tris, c) == Within(big.tris, c);
    Locality(small, big, c);
  }

  /** The value of the new edge bounds its trussness, unless a partner is beyond the evaluation. */
  ghost predicate NewValueOk(sys: TriSys, x: nat, v: nat)
    requires x in sys.edges
  {
    v >= Trussness(sys, x)
    || exists t, h :: t in sys.tris && x in t && h in t && h in sys.edges && Trussness(sys, h) > EVAL_LIMIT
  }

  /**
   After the raise, and if no edge of the region is beyond the evaluation, values are at or above
   the trussness and stable outside the region.
   */
  lemma ReadyToDemote(small: TriSys, big: TriSys, x: nat, tau0: seq<nat>, tau: seq<nat>, inreg: seq<bool>,
                      region: seq<nat>, inq: seq<bool>)
    requires big.Valid() && Without(small, big, x) && Exact(small, tau0)
    requires RegionOk(big, region, inreg) && RaisedOk(big, tau0, x, tau, inreg) && NewValueOk(big, x, At(tau, x))
    requires Closed(big.tris, Elements(region)) && x in Elements(region)
    requires |inq| == |inreg| && forall e :: e in region ==> e < |inq| && inq[e]
    requires forall e :: e in region ==> Trussness(big, e) <= EVAL_LIMIT
    ensures Above(big, tau) && StableUnlessQueued(big, tau, inq)
  {
    OutsideUnchanged(small, big, x, Elements(region));
    PartnersInClosed(big, x, Elements(region));
    hide Closed;
    forall e | e in big.edges
      ensures At(tau, e) >= Trussness(big, e) && (e !in region ==> At(tau, e) == Trussness(big, e))
    {
      if e !in region {
        assert e in small.edges;
      }
    }
    hide Without;
    forall e | e in big.edges && !inq[e] ensures Stable(big, tau, e) {
      assert e !in region;
      FAboveTruss(big, tau, e);
      FAtLeast(big, tau, e, At(tau, e));
    }
  }

  lemma PartnersInClosed(sys: TriSys, x: nat, c: set<nat>)
    requires Closed(sys.tris, c) && x in c
    ensures forall t, h :: t in sys.tris && x in t && h in t ==> h in c
  {
    forall t, h | t in sys.tris && x in t && h in t ensures h in c {
      assert x in t * c;
    }
  }

  /** The starting point of the raise: only the new edge is in the region. */
  lemma GrowthStart(small: TriSys, big: TriSys, x: nat, tau0: seq<nat>, r: Growth)
    requires small.Valid() && big.Valid() && big.Linear() && Without(small, big, x) && Exact(small, tau0)
    requires Words(tau0) && Words(r.tau)
    requires |r.inq| == |r.inreg| == |r.tau| == |tau0| && x < |r.inreg| && forall f :: f in big.edges ==> f < |r.tau|
    requires forall e :: 0 <= e < |r.inq| ==> !r.inq[e]
    requires forall e :: 0 <= e < |r.inreg| ==> (r.inreg[e] <==> e == x)
    requires r.tau == tau0[x := r.tau[x]] && r.region == [x] && r.queue == []
    ensures Growing(big, tau0, x, r, 0)
  {
    OneEdgeSensitivity(small, big, x);
    QueueStart(r.inq);
    hide QueueOk, InTruss, Deg;
    assert Elements(r.region) == {x};
  }

  lemma OneFlag(ws: seq<Wedge>, x: nat, inreg: seq<bool>, inreg': seq<bool>)
    requires x < |inreg| && (forall e :: 0 <= e < |inreg| ==> !inreg[e]) && inreg' == inreg[x := true]
    ensures forall e :: 0 <= e < |inreg'| ==> (inreg'[e] <==> e == x)
    ensures OnlyWedges(ws, 0, x, inreg')
  {}

  /** The value that the new edge starts from, before it is cut to 16 bits. */
  ghost predicate SeedValue(ws: seq<Wedge>, tau0: seq<nat>, v: nat) {
    if ws == [] then v == 2
    else exists k0: nat :: BestOf(ws, tau0, k0) && v == Min(|ws| + 2, k0 + 1)
  }

  ghost predicate SeedStored(ws: seq<Wedge>, tau0: seq<nat>, w: nat) {
    exists v: nat :: SeedValue(ws, tau0, v) && w == Word(v)
  }

  /** k0 is the largest of the minima over the triangles in ws, or 0 if there are none. */
  ghost predicate BestOf(ws: seq<Wedge>, tau: seq<nat>, k0: nat) {
    && (forall i :: 0 <= i < |ws| ==> WedgeMin(tau, ws[i]) <= k0)
    && (k0 == 0 || exists i :: 0 <= i < |ws| && WedgeMin(tau, ws[i]) == k0)
  }

  /**
   The value of the new edge x, one above its best witness and at most its triangle count plus
   two, and the raised values of its triangle partners, which start the region.
   */
  method SeedValues(x: nat, ws: seq<Wedge>, sup0: seq<nat>, tau0: seq<nat>, inreg0: seq<bool>, inq0: seq<bool>,
                    ghost small: TriSys, ghost big: TriSys)
    returns (sup: seq<nat>, r: Growth)
    requires small.Valid() && big.Valid() && big.Linear() && Without(small, big, x)
    requires Exact(small, tau0) && Words(tau0) && CountsTriangles(small, sup0) && Enumerates(big.tris, x, ws)
    requires |sup0| == |tau0| == |inreg0| == |inq0| && x < |sup0| && forall f :: f in big.edges ==> f < |tau0|
    requires forall i :: 0 <= i < |ws| ==> ws[i].e1 < |tau0| && ws[i].e2 < |tau0|
    requires forall e :: 0 <= e < |inq0| ==> !inq0[e] && !inreg0[e]
    ensures CountsTriangles(big, sup) && RoomToRise(big, tau0, sup, x) && |sup| == |r.tau| == |tau0|
    ensures Growing(big, tau0, x, r, 0) && AtBounds(big, tau0, sup, x, r) && SeedStored(ws, tau0, At(r.tau, x))
    ensures x in big.edges && NewValueOk(big, x, At(r.tau, x)) && PartnersIn(big.tris, x, r.inreg)
  {
    hide Exact, CountsTriangles, Deg, Enumerates, Growing, PartnersIn, InTruss, Supports, Without, WedgesIn,
         RoomToRise, CountsLive, Avoiding, TriSys.Valid, TriSys.Linear, AtBounds, OnlyWedges, BestOf, Word,
         NewValueOk;
    var w := |ws|;
    sup := sup0[x := w];
    var k0 := BestWedge(ws, tau0);
    var ce := if w == 0 then 2 else Min(w + 2, k0 + 1);
    SeedFacts(small, big, x, tau0, sup0, ws, k0);
    OneFlag(ws, x, inreg0, inreg0[x := true]);
    r := Growth(tau0[x := Word(ce)], inreg0[x := true], [x], [], inq0);
    GrowthStart(small, big, x, tau0, r);
    sup, r := RaiseWitnesses(ws, sup, r, big, tau0, x);
    SeedPartners(big, tau0, x, r, ws);
  }

  lemma SeedRanges(g: DynamicGraph.DynGraph, eid: nat, ws: seq<Wedge>)
    requires g.Valid() && eid in g.G() && Enumerates(Triangles(g.G()), eid, ws)
    ensures forall f :: f in g.G() ==> f < g.capEdges
    ensures forall i :: 0 <= i < |ws| ==> ws[i].e1 < g.capEdges && ws[i].e2 < g.capEdges
  {
    hide DynamicGraph.GraphInv, DynamicGraph.DynGraph.TableOk, DynamicGraph.TableMatches, DynamicGraph.GraphOf,
         Triangles, Simple, SmallEnds, Enumerates;
    g.InvBounds();
    WedgeIds(g.G(), eid, ws);
  }

  /** Queues the region for demotion. */
  method QueueRegion(region: seq<nat>, inq: seq<bool>) returns (queue': seq<nat>, inq': seq<bool>)
    requires forall e :: 0 <= e < |inq| ==> !inq[e]
    requires forall i :: 0 <= i < |region| ==> region[i] < |inq|
    ensures QueueOk(queue', inq', 0) && |inq'| == |inq|
    ensures forall e :: 0 <= e < |inq| ==> (inq'[e] <==> e in region)
  {
    queue', inq' := [], inq;
    QueueStart(inq);
    hide QueueOk;
    for i := 0 to |region|
      invariant QueueOk(queue', inq', 0) && |inq'| == |inq|
      invariant forall e :: 0 <= e < |inq| ==> (inq'[e] <==> e in region[..i])
    {
      assert region[..i + 1] == region[..i] + [region[i]];
      queue', inq' := Push(queue', inq', region[i], 0);
    }
    assert region[..|region|] == region;
  }

  /** The best of the triangles on the new edge. */
  method BestWedge(ws: seq<Wedge>, tau: seq<nat>) returns (k0: nat)
    requires forall i :: 0 <= i < |ws| ==> ws[i].e1 < |tau| && ws[i].e2 < |tau|
    ensures BestOf(ws, tau, k0)
  {
    k0 := 0;
    for i := 0 to |ws|
      invariant forall j :: 0 <= j < i ==> WedgeMin(tau, ws[j]) <= k0
      invariant k0 == 0 || exists j :: 0 <= j < |ws| && WedgeMin(tau, ws[j]) == k0
    {
      var a, b := tau[ws[i].e1], tau[ws[i].e2];
      var mmn := if a < b then a else b;
      if mmn > k0 {
        assert WedgeMin(tau, ws[i]) == mmn;
        k0 := mmn;
      }
    }
  }

  // ---------------------------------------------------------------- facts for the loops

  lemma GrowingPop(sys: TriSys, tau0: seq<nat>, x: nat, r: Growth, head: nat)
    requires Growing(sys, tau0, x, r, head) && head < |r.queue|
    ensures r.queue[head] < |r.inq| && r.queue[head] in sys.edges && Flagged(r.inreg, r.queue[head])
    ensures Growing(sys, tau0, x, r.(inq := r.inq[r.queue[head] := false]), head + 1)
  {
    hide QueueOk, RaisedOk, RisesByOne, Minimal, Elements, RegionOk;
    PopOk(r.queue, r.inq, head);
    QueueHead(r.queue, r.inq, head);
    assert r.region[head + 1] == r.queue[head];
    RegionAt(sys, r.region, r.inreg, head + 1);
  }

  lemma GrowthPop(sys: TriSys, tau0: seq<nat>, sup: seq<nat>, x: nat, r: Growth, f: nat)
    requires AtBounds(sys, tau0, sup, x, r) && f < |r.inq|
    ensures AtBounds(sys, tau0, sup, x, r.(inq := r.inq[f := false]))
  {}

  lemma GrowingSize(sys: TriSys, tau0: seq<nat>, x: nat, r: Growth, head: nat)
    requires Growing(sys, tau0, x, r, head)
    ensures |r.region| == 1 + |r.queue| <= |sys.edges|
  {
    RegionSize(sys, r.region, r.inreg);
  }

  lemma ClosureFacts(sys: TriSys, x: nat, region: set<nat>)
    requires IsClosure(sys, {x}, region)
    ensures Closed(sys.tris, region) && x in region && region <= sys.edges
  {}

  lemma SeedFacts(small: TriSys, big: TriSys, x: nat, tau0: seq<nat>, sup0: seq<nat>, ws: seq<Wedge>, k0: nat)
    requires small.Valid() && big.Valid() && big.Linear() && Without(small, big, x)
    requires Exact(small, tau0) && Words(tau0) && CountsTriangles(small, sup0)
    requires Enumerates(big.tris, x, ws) && x < |sup0|
    requires BestOf(ws, tau0, k0)
    ensures x in big.edges && NewValueOk(big, x, Word(if |ws| == 0 then 2 else Min(|ws| + 2, k0 + 1)))
    ensures RoomToRise(big, tau0, sup0[x := |ws|], x)
    ensures CountsLive(big, Avoiding(big.tris, {x}), sup0[x := |ws|], x)
  {
    hide InTruss, Deg, Enumerates, Without, CountsTriangles, Exact, TriSys.Valid, TriSys.Linear, Word, BestOf;
    SeedBounds(small, big, x, tau0, sup0);
    EnumerationCount(big.tris, x, ws);
    assert x in big.edges by { hide *; NewIsThere(small, big, x); }
    if ws != [] {
      BestIsBound(ws, tau0, k0);
      NewEdgeBound(big, x, tau0, ws, k0);
      if k0 + 1 >= TAU_SPACE {
        BestIsBig(big, x, tau0, ws, k0);
      }
    }
  }

  lemma BestIsBound(ws: seq<Wedge>, tau0: seq<nat>, k0: nat)
    requires BestOf(ws, tau0, k0)
    ensures forall i :: 0 <= i < |ws| ==> WedgeMin(tau0, ws[i]) <= k0
  {}

  /** A best witness that leaves no room in 16 bits has partners beyond the evaluation. */
  lemma BestIsBig(sys: TriSys, x: nat, tau0: seq<nat>, ws: seq<Wedge>, k0: nat)
    requires sys.Valid() && Enumerates(sys.tris, x, ws) && RisesByOne(sys, tau0, x) && BestOf(ws, tau0, k0)
    requires x in sys.edges && k0 + 1 >= TAU_SPACE
    ensures exists t, h :: t in sys.tris && x in t && h in t && h in sys.edges && Trussness(sys, h) > EVAL_LIMIT
  {
    var i :| 0 <= i < |ws| && WedgeMin(tau0, ws[i]) == k0;
    WedgeOf(sys, x, ws, i);
    var t := Tri(x, ws[i]);
    assert x in t && ws[i].e1 in t && t in sys.tris;
    hide Enumerates, Trussness, TriSys.Valid;
    assert Trussness(sys, ws[i].e1) > EVAL_LIMIT;
  }

  lemma SeedBounds(small: TriSys, big: TriSys, x: nat, tau0: seq<nat>, sup0: seq<nat>)
    requires small.Valid() && big.Valid() && big.Linear() && Without(small, big, x)
    requires Exact(small, tau0) && Words(tau0) && CountsTriangles(small, sup0)
    ensures RisesByOne(big, tau0, x)
    ensures forall e :: e in big.edges && e != x ==> 2 <= At(tau0, e) <= At(sup0, e) + 2
    ensures CountsLive(big, Avoiding(big.tris, {x}), sup0, x)
  {
    OneEdgeSensitivity(small, big, x);
    hide InTruss, Avoiding, TriSys.Linear;
    forall e | e in big.edges && e != x ensures 2 <= At(tau0, e) <= At(sup0, e) + 2 {
      assert e in small.edges;
    }
  }

  lemma NewIsThere(small: TriSys, big: TriSys, x: nat)
    requires Without(small, big, x)
    ensures x in big.edges
  {}

  lemma SeedPartners(sys: TriSys, tau0: seq<nat>, x: nat, r: Growth, ws: seq<Wedge>)
    requires Growing(sys, tau0, x, r, 0)
    requires Enumerates(sys.tris, x, ws) && WedgesIn(ws, |ws|, r.inreg)
    ensures PartnersIn(sys.tris, x, r.inreg) && |r.inreg| == |r.inq| == |r.tau|
  {
    PartnersListed(sys.tris, x, ws, r.inreg);
  }

  lemma GrowingFacts(sys: TriSys, tau0: seq<nat>, x: nat, r: Growth)
    requires Growing(sys, tau0, x, r, |r.queue|)
    ensures |r.inq| == |r.inreg| == |r.tau| && forall e :: 0 <= e < |r.inq| ==> !r.inq[e]
    ensures RegionOk(sys, r.region, r.inreg) && RaisedOk(sys, tau0, x, r.tau, r.inreg) && Words(r.tau)
    ensures forall i :: 0 <= i < |r.region| ==> r.region[i] < |r.inq|
    ensures forall e :: 0 <= e < |r.inreg| && r.inreg[e] ==> e in r.region
  {
    QueueEmpty(r.queue, r.inq, |r.queue|);
    hide RaisedOk, RisesByOne, QueueOk, Minimal;
    forall i | 0 <= i < |r.region| ensures r.region[i] < |r.inq| {
      assert r.region[i] in r.region;
    }
  }

  lemma RegionBelow(sys: TriSys, region: seq<nat>, inreg: seq<bool>, inq: seq<bool>, bound: nat)
    requires RegionOk(sys, region, inreg)
    requires forall e :: 0 <= e < |inq| ==> (inq[e] <==> e in region)
    requires forall e :: e in sys.edges ==> e < bound
    ensures FlagsBelow(inq, bound)
  {}

  lemma GrowingParts(sys: TriSys, tau0: seq<nat>, x: nat, r: Growth)
    requires Growing(sys, tau0, x, r, |r.queue|)
    ensures RegionOk(sys, r.region, r.inreg) && RaisedOk(sys, tau0, x, r.tau, r.inreg) && RisesByOne(sys, tau0, x)
    ensures |r.inreg| == |r.tau|
  {
    hide RaisedOk, RisesByOne, QueueOk, Minimal, RegionOk;
  }

  // ---------------------------------------------------------------- when an insertion is right

  /**
   The value that the insertion of x gives e has to fall again: e has triangles to spare, and it is
   an old edge that gains nothing, or the new edge with a triangle that is as good as e.
   */
  ghost predicate MustFall(g: Graph, x: nat, e: nat)
    requires e in g
  {
    && Trussness(Sys(g), e) < Deg(Triangles(g), e) + 2
    && if e == x then exists t :: t in Triangles(g) && x in t && OldAtLeast(g, x, t, Trussness(Sys(g), x))
       else e in g - {x} && Trussness(Sys(g - {x}), e) == Trussness(Sys(g), e)
  }

  /** Without x, the other edges of t have trussness at least k. */
  ghost predicate OldAtLeast(g: Graph, x: nat, t: Triangle, k: nat) {
    forall h :: h in t && h != x ==> h in g - {x} && Trussness(Sys(g - {x}), h) >= k
  }

  /**
   The evaluation can deal with every edge that the insertion of x comes to: the triangle closure
   of x, and the edges that meet an edge of the closure whose value has to fall.
   */
  ghost predicate InsertCalm(g: Graph, x: nat) {
    forall c :: IsClosure(Sys(g), {x}, c) ==>
                  && (forall e :: e in c ==> e in g && Small(g, e))
                  && (forall e, f :: e in c && Meets(g, e, f) && MustFall(g, x, e) ==> Small(g, f))
  }

  lemma ClosureUnique(sys: TriSys, s: set<nat>, c: set<nat>, d: set<nat>)
    requires IsClosure(sys, s, c) && IsClosure(sys, s, d)
    ensures c == d
  {}

  /** The grown values are calm exactly if the insertion is. */
  lemma InsertCalmIff(g: Graph, x: nat, tau0: seq<nat>, sup: seq<nat>, ws: seq<Wedge>, r: Growth, inq: seq<bool>)
    requires Simple(g) && x in g && Exact(Sys(g - {x}), tau0) && Enumerates(Triangles(g), x, ws)
    requires IsClosure(Sys(g), {x}, Elements(r.region)) && RegionOk(Sys(g), r.region, r.inreg)
    requires RaisedOk(Sys(g), tau0, x, r.tau, r.inreg) && RisesByOne(Sys(g), tau0, x)
    requires CountsTriangles(Sys(g), sup) && AtBounds(Sys(g), tau0, sup, x, r) && SeedStored(ws, tau0, At(r.tau, x))
    requires forall f: nat :: Flagged(inq, f) <==> f in r.region
    ensures Calm(g, r.tau, inq) <==> InsertCalm(g, x)
  {
    hide Simple, Exact, Enumerates, IsClosure, RegionOk, RaisedOk, RisesByOne, CountsTriangles, AtBounds, SeedStored,
         Meets, Small, MustFall, Triangles, Trussness;
    var c := Elements(r.region);
    forall d | IsClosure(Sys(g), {x}, d) ensures d == c {
      ClosureUnique(Sys(g), {x}, c, d);
    }
    RegionLive(g, r.region, r.inreg);
    if forall e :: e in c ==> Small(g, e) {
      forall e | e in g ensures At(r.tau, e) > Trussness(Sys(g), e) <==> e in c && MustFall(g, x, e) {
        FallsIff(g, x, tau0, sup, ws, r, e);
      }
    }
  }

  lemma RegionLive(g: Graph, region: seq<nat>, inreg: seq<bool>)
    requires RegionOk(Sys(g), region, inreg)
    ensures forall e :: e in Elements(region) ==> e in g
  {}

  lemma FallsIff(g: Graph, x: nat, tau0: seq<nat>, sup: seq<nat>, ws: seq<Wedge>, r: Growth, e: nat)
    requires Simple(g) && x in g && e in g && Exact(Sys(g - {x}), tau0) && Enumerates(Triangles(g), x, ws)
    requires IsClosure(Sys(g), {x}, Elements(r.region)) && RegionOk(Sys(g), r.region, r.inreg)
    requires RaisedOk(Sys(g), tau0, x, r.tau, r.inreg) && RisesByOne(Sys(g), tau0, x)
    requires CountsTriangles(Sys(g), sup) && AtBounds(Sys(g), tau0, sup, x, r) && SeedStored(ws, tau0, At(r.tau, x))
    requires forall f :: f in Elements(r.region) ==> f in g && Small(g, f)
    ensures At(r.tau, e) > Trussness(Sys(g), e) <==> e in Elements(r.region) && MustFall(g, x, e)
  {
    if e == x {
      NewFallsIff(g, x, tau0, ws, r);
    } else if e in Elements(r.region) {
      OldFallsIff(g, x, tau0, sup, r, e);
    } else {
      OutsideStays(g, x, tau0, r, e);
    }
  }

  lemma OutsideStays(g: Graph, x: nat, tau0: seq<nat>, r: Growth, e: nat)
    requires Simple(g) && x in g && e in g && Exact(Sys(g - {x}), tau0)
    requires IsClosure(Sys(g), {x}, Elements(r.region)) && RegionOk(Sys(g), r.region, r.inreg)
    requires RaisedOk(Sys(g), tau0, x, r.tau, r.inreg) && e !in Elements(r.region)
    ensures At(r.tau, e) == Trussness(Sys(g), e)
  {
    SysOk(g);
    DeleteOne(g, x);
    hide Simple, Triangles, TriSys.Valid, TriSys.Linear, Minimal;
    OutsideUnchanged(Sys(g - {x}), Sys(g), x, Elements(r.region));
    hide Closed, Trussness, Without;
    assert e in Sys(g - {x}).edges;
  }

  lemma OldFallsIff(g: Graph, x: nat, tau0: seq<nat>, sup: seq<nat>, r: Growth, e: nat)
    requires x in g && e in g && e != x && Exact(Sys(g - {x}), tau0) && e in Elements(r.region)
    requires RegionOk(Sys(g), r.region, r.inreg) && RisesByOne(Sys(g), tau0, x) && Small(g, e)
    requires CountsTriangles(Sys(g), sup) && AtBounds(Sys(g), tau0, sup, x, r)
    ensures At(r.tau, e) > Trussness(Sys(g), e) <==> MustFall(g, x, e)
  {
    hide Triangles, Trussness, Deg, Distinct, Word;
    assert e in Sys(g).edges && e in Sys(g - {x}).edges;
    assert Flagged(r.inreg, e);
    assert Bound(tau0, sup, e) < TAU_SPACE;
  }

  lemma NewFallsIff(g: Graph, x: nat, tau0: seq<nat>, ws: seq<Wedge>, r: Growth)
    requires Simple(g) && x in g && Exact(Sys(g - {x}), tau0) && Enumerates(Triangles(g), x, ws)
    requires IsClosure(Sys(g), {x}, Elements(r.region)) && SeedStored(ws, tau0, At(r.tau, x))
    requires RisesByOne(Sys(g), tau0, x) && forall f :: f in Elements(r.region) ==> f in g && Small(g, f)
    ensures x in Elements(r.region)
    ensures At(r.tau, x) > Trussness(Sys(g), x) <==> MustFall(g, x, x)
  {
    hide Triangles, Trussness, Deg, Enumerates, Word, Minimal, Simple, RisesByOne, Exact;
    EnumerationCount(Triangles(g), x, ws);
    var k := Trussness(Sys(g), x);
    var v: nat :| SeedValue(ws, tau0, v) && At(r.tau, x) == Word(v);
    if ws == [] {
      assert v == 2 && Word(2) == 2;
    } else {
      var k0: nat :| BestOf(ws, tau0, k0) && v == Min(|ws| + 2, k0 + 1);
      BestIsSmall(g, x, tau0, ws, k0, Elements(r.region));
      BestReaches(g, x, tau0, ws, k0, k);
    }
  }

  /** The best witness is within the limit if all partners are. */
  lemma BestIsSmall(g: Graph, x: nat, tau0: seq<nat>, ws: seq<Wedge>, k0: nat, c: set<nat>)
    requires Simple(g) && x in g && Enumerates(Triangles(g), x, ws) && BestOf(ws, tau0, k0)
    requires RisesByOne(Sys(g), tau0, x) && IsClosure(Sys(g), {x}, c) && forall f :: f in c ==> f in g && Small(g, f)
    ensures k0 <= EVAL_LIMIT
  {
    hide Triangles, Trussness, Minimal, Simple, Enumerates, TriSys.Valid, TriSys.Linear, Closed, BestOf;
    SysOk(g);
    if k0 > 0 {
      var i := BestIndex(ws, tau0, k0);
      WedgeOf(Sys(g), x, ws, i);
      PartnersInClosed(Sys(g), x, c);
      InTriple(x, ws[i]);
      assert ws[i].e1 in c;
    }
  }

  lemma BestIndex(ws: seq<Wedge>, tau0: seq<nat>, k0: nat) returns (i: nat)
    requires BestOf(ws, tau0, k0) && k0 > 0
    ensures i < |ws| && WedgeMin(tau0, ws[i]) == k0
  {
    i :| 0 <= i < |ws| && WedgeMin(tau0, ws[i]) == k0;
  }

  lemma InTriple(x: nat, w: Wedge)
    ensures x in Tri(x, w) && w.e1 in Tri(x, w) && w.e2 in Tri(x, w)
  {}

  /** The best witness reaches k exactly if some triangle on x does. */
  lemma BestReaches(g: Graph, x: nat, tau0: seq<nat>, ws: seq<Wedge>, k0: nat, k: nat)
    requires Simple(g) && x in g && Enumerates(Triangles(g), x, ws) && BestOf(ws, tau0, k0) && ws != []
    requires Exact(Sys(g - {x}), tau0)
    ensures k0 >= k <==> exists t :: t in Triangles(g) && x in t && OldAtLeast(g, x, t, k)
  {
    hide Triangles, Trussness, Simple, Enumerates, TriSys.Valid, TriSys.Linear, Exact, OldAtLeast;
    SysOk(g);
    forall i | 0 <= i < |ws| ensures WedgeMin(tau0, ws[i]) >= k <==> OldAtLeast(g, x, Tri(x, ws[i]), k) {
      WedgeOf(Sys(g), x, ws, i);
      WedgeReaches(g, x, tau0, ws[i], k);
    }
    if k0 >= k {
      var i := 0;
      if k0 > 0 {
        i := BestIndex(ws, tau0, k0);
      }
      WedgeOf(Sys(g), x, ws, i);
      InTriple(x, ws[i]);
      assert OldAtLeast(g, x, Tri(x, ws[i]), k);
    }
    if t :| t in Triangles(g) && x in t && OldAtLeast(g, x, t, k) {
      var i := ListedAt(Triangles(g), x, ws, t);
      assert WedgeMin(tau0, ws[i]) >= k;
    }
  }

  lemma ListedAt(tris: set<Triangle>, x: nat, ws: seq<Wedge>, t: Triangle) returns (i: nat)
    requires Enumerates(tris, x, ws) && t in tris && x in t
    ensures i < |ws| && t == Tri(x, ws[i])
  {
    i :| 0 <= i < |ws| && t == Tri(x, ws[i]);
  }

  lemma WedgeReaches(g: Graph, x: nat, tau0: seq<nat>, w: Wedge, k: nat)
    requires x in g && Exact(Sys(g - {x}), tau0) && w.e1 in g && w.e2 in g && w.e1 != x && w.e2 != x
    ensures WedgeMin(tau0, w) >= k <==> OldAtLeast(g, x, Tri(x, w), k)
  {
    hide Triangles, Trussness;
    assert w.e1 in Tri(x, w) && w.e2 in Tri(x, w);
    assert w.e1 in Sys(g - {x}).edges && w.e2 in Sys(g - {x}).edges;
  }
}
