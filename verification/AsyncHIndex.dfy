/**
 The asynchronous h-index computation of trussness with change notification
 (baselines/AccTrussDecomposition/h-idx/pnd/local23_yche.cpp). Its values are trussness
 less two, so they are compared with the specification after a shift.
 */
module AsyncHIndex {
  import DynamicGraph
  import FiniteSets
  import opened Galloping
  import opened LocalEvaluation
  import opened SimpleGraph
  import opened Truss
  import opened Worklist

  // ---------------------------------------------------------------- the indexed graph

  /** The graph of the endpoint array; an edge's ends come in either order. */
  ghost function GraphOfEnds(el: seq<(nat, nat)>): Graph {
    map e: nat | e < |el| :: if el[e].0 < el[e].1 then el[e] else (el[e].1, el[e].0)
  }

  /** The range of x lies in adj, increases, and can be searched with 32-bit offsets. */
  ghost predicate RangeOk(xadj: seq<nat>, adj: seq<nat>, x: nat)
    requires x + 1 < |xadj|
  {
    && xadj[x] <= xadj[x + 1] <= |adj| && Increasing(adj, xadj[x], xadj[x + 1])
    && xadj[x + 1] < OFFSET_SPACE && Searchable(xadj[x], xadj[x + 1])
  }

  ghost predicate RangesOk(xadj: seq<nat>, adj: seq<nat>) {
    forall x: nat :: x + 1 < |xadj| ==> RangeOk(xadj, adj, x)
  }

  /** The range of x holds the neighbours of x, rev giving the ids of the edges to them. */
  ghost predicate LinksOk(g: Graph, xadj: seq<nat>, adj: seq<nat>, rev: seq<nat>) {
    && |rev| == |adj|
    && (forall x: nat, i: nat :: x + 1 < |xadj| && xadj[x] <= i < xadj[x + 1] && i < |adj| ==>
            Joins(g, rev[i], x, adj[i]))
    && (forall e: nat, x: nat, y: nat :: Joins(g, e, x, y) ==> x + 1 < |xadj|)
    && (forall e: nat, x: nat, y: nat :: Joins(g, e, x, y) && x + 1 < |xadj| ==>
            exists i :: xadj[x] <= i < xadj[x + 1] && i < |adj| && adj[i] == y)
  }

  ghost predicate IndexOk(xadj: seq<nat>, adj: seq<nat>, el: seq<(nat, nat)>, rev: seq<nat>) {
    && Simple(GraphOfEnds(el))
    && RangesOk(xadj, adj)
    && LinksOk(GraphOfEnds(el), xadj, adj, rev)
  }

  function Linked(rev: seq<nat>, p: seq<nat>, q: seq<nat>): (ws: seq<Wedge>)
    ensures |ws| == |p|
    ensures forall k :: 0 <= k < |p| ==> ws[k] == Wedge(At(rev, p[k]), At(rev, At(q, k)))
  {
    seq(|p|, k requires 0 <= k < |p| => Wedge(At(rev, p[k]), At(rev, At(q, k))))
  }

  /** The matched offsets of two ranges are the common neighbours of their vertices. */
  lemma MatchesAreCommon(g: Graph, xadj: seq<nat>, adj: seq<nat>, rev: seq<nat>, u: nat, v: nat, p: seq<nat>,
                         q: seq<nat>, nb: seq<nat>)
    requires LinksOk(g, xadj, adj, rev) && RangesOk(xadj, adj) && u + 1 < |xadj| && v + 1 < |xadj|
    requires MatchesBelow(adj, xadj[u], xadj[u + 1], xadj[v], xadj[v + 1], xadj[u + 1], xadj[v + 1], p, q)
    requires |nb| == |p| && forall k :: 0 <= k < |p| ==> nb[k] == At(adj, p[k])
    ensures DynamicGraph.ListsCommon(g, u, v, nb, Linked(rev, p, q))
  {
    hide Joins, Increasing, Searchable;
    var ws := Linked(rev, p, q);
    assert RangeOk(xadj, adj, u) && RangeOk(xadj, adj, v);
    forall k | 0 <= k < |nb| ensures Joins(g, ws[k].e1, u, nb[k]) && Joins(g, ws[k].e2, v, nb[k]) {
      assert xadj[u] <= p[k] < xadj[u + 1] && xadj[v] <= q[k] < xadj[v + 1];
    }
    DistinctMatches(adj, xadj[u], xadj[u + 1], xadj[v], xadj[v + 1], p, q);
    forall w, e1, e2 | Joins(g, e1, u, w) && Joins(g, e2, v, w) ensures w in nb {
      var x :| xadj[u] <= x < xadj[u + 1] && x < |adj| && adj[x] == w;
      var y :| xadj[v] <= y < xadj[v + 1] && y < |adj| && adj[y] == w;
      assert x in p;
      var k :| 0 <= k < |p| && p[k] == x;
      assert nb[k] == w;
    }
  }

  lemma DistinctMatches(adj: seq<nat>, u0: nat, u1: nat, v0: nat, v1: nat, p: seq<nat>, q: seq<nat>)
    requires MatchesBelow(adj, u0, u1, v0, v1, u1, v1, p, q) && Increasing(adj, u0, u1)
    ensures forall i, j :: 0 <= i < j < |p| ==> At(adj, p[i]) != At(adj, p[j])
  {}

  lemma EndsJoin(el: seq<(nat, nat)>, ind: nat)
    requires ind < |el|
    ensures Joins(GraphOfEnds(el), ind, el[ind].0, el[ind].1)
    ensures Joins(GraphOfEnds(el), ind, el[ind].1, el[ind].0)
  {}

  lemma EndRanges(xadj: seq<nat>, adj: seq<nat>, el: seq<(nat, nat)>, rev: seq<nat>, ind: nat)
    requires IndexOk(xadj, adj, el, rev) && ind < |el|
    ensures |rev| == |adj| && el[ind].0 + 1 < |xadj| && el[ind].1 + 1 < |xadj|
    ensures RangeOk(xadj, adj, el[ind].0) && RangeOk(xadj, adj, el[ind].1)
  {
    hide Simple, Joins, GraphOfEnds;
    EndsJoin(el, ind);
  }

  /** The number of writes to each buffer when the triangles on an edge are listed; they go to 0, 1, ... in turn. */
  ghost function Writes(xadj: seq<nat>, adj: seq<nat>, el: seq<(nat, nat)>, ind: nat): nat
    requires ind < |el| && el[ind].0 + 1 < |xadj| && el[ind].1 + 1 < |xadj|
  {
    var (u, v) := el[ind];
    |Common(adj, xadj[u], xadj[u + 1], xadj[v], xadj[v + 1])|
  }

  /** Listing the triangles on the edge ind writes to element k of the buffers. */
  ghost predicate WritesTo(xadj: seq<nat>, adj: seq<nat>, el: seq<(nat, nat)>, ind: nat, k: nat) {
    && ind < |el| && el[ind].0 + 1 < |xadj| && el[ind].1 + 1 < |xadj|
    && k < Writes(xadj, adj, el, ind)
  }

  /** There are as many writes as triangles on the edge. */
  lemma WritesAreTriangles(xadj: seq<nat>, adj: seq<nat>, el: seq<(nat, nat)>, rev: seq<nat>, ind: nat)
    requires IndexOk(xadj, adj, el, rev) && ind < |el|
    ensures el[ind].0 + 1 < |xadj| && el[ind].1 + 1 < |xadj|
    ensures Writes(xadj, adj, el, ind) == Deg(Triangles(GraphOfEnds(el)), ind)
  {
    hide Triangles, Simple, GraphOfEnds, Enumerates, RangesOk, LinksOk, MatchesBelow, Increasing, Searchable, Joins,
         Common, DynamicGraph.ListsCommon;
    var g := GraphOfEnds(el);
    var u, v := el[ind].0, el[ind].1;
    EndsJoin(el, ind);
    EndRanges(xadj, adj, el, rev, ind);
    var p, q := ListMatches(adj, xadj[u], xadj[u + 1], xadj[v], xadj[v + 1]);
    MatchCount(adj, xadj[u], xadj[u + 1], xadj[v], xadj[v + 1], xadj[u + 1], xadj[v + 1], p, q);
    MatchesEnumerate(xadj, adj, el, rev, ind, p, q);
    EnumerationCount(Triangles(g), ind, Linked(rev, p, q));
  }

  /** The matches of the ranges of an edge's ends are its triangles. */
  lemma MatchesEnumerate(xadj: seq<nat>, adj: seq<nat>, el: seq<(nat, nat)>, rev: seq<nat>, ind: nat, p: seq<nat>,
                         q: seq<nat>)
    requires IndexOk(xadj, adj, el, rev) && ind < |el| && el[ind].0 + 1 < |xadj| && el[ind].1 + 1 < |xadj|
    requires var (u, v) := el[ind];
             MatchesBelow(adj, xadj[u], xadj[u + 1], xadj[v], xadj[v + 1], xadj[u + 1], xadj[v + 1], p, q)
    ensures Enumerates(Triangles(GraphOfEnds(el)), ind, Linked(rev, p, q))
  {
    hide Triangles, Simple, GraphOfEnds, Enumerates, RangesOk, LinksOk, MatchesBelow, Joins, DynamicGraph.ListsCommon;
    EndsJoin(el, ind);
    var nb := seq(|p|, k requires 0 <= k < |p| => At(adj, p[k]));
    MatchesAreCommon(GraphOfEnds(el), xadj, adj, rev, el[ind].0, el[ind].1, p, q, nb);
    DynamicGraph.CommonAreTriangles(GraphOfEnds(el), ind, el[ind].0, el[ind].1, nb, Linked(rev, p, q));
  }

  /**
   All writes to the intersection buffers, for all edges, are inside them exactly when no edge
   lies in more than 2^21 triangles.
   */
  lemma BuffersIff(xadj: seq<nat>, adj: seq<nat>, el: seq<(nat, nat)>, rev: seq<nat>)
    requires IndexOk(xadj, adj, el, rev)
    ensures forall ind :: 0 <= ind < |el| ==> el[ind].0 + 1 < |xadj| && el[ind].1 + 1 < |xadj|
    ensures (forall ind: nat, k: nat :: WritesTo(xadj, adj, el, ind, k) ==> k < MAX_INTERSECTION_SIZE)
            <==> FewTriangles(el)
  {
    hide IndexOk, Triangles, GraphOfEnds, Deg, Writes;
    forall ind | 0 <= ind < |el|
      ensures el[ind].0 + 1 < |xadj| && el[ind].1 + 1 < |xadj|
      ensures Writes(xadj, adj, el, ind) == Deg(Triangles(GraphOfEnds(el)), ind)
    {
      WritesAreTriangles(xadj, adj, el, rev, ind);
    }
    if e :| 0 <= e < |el| && Deg(Triangles(GraphOfEnds(el)), e) > MAX_INTERSECTION_SIZE {
      assert WritesTo(xadj, adj, el, e, MAX_INTERSECTION_SIZE);
    }
  }

  /** No edge lies in more than 2^21 triangles. */
  ghost predicate FewTriangles(el: seq<(nat, nat)>) {
    forall e :: 0 <= e < |el| ==> Deg(Triangles(GraphOfEnds(el)), e) <= 0x20_0000
  }

  /** The triangles on an edge, as the offsets of the common neighbours of its ends. */
  method TrianglesOf(ind: nat, xadj: seq<nat>, adj: seq<nat>, el: seq<(nat, nat)>, rev: seq<nat>)
    returns (p: seq<nat>, q: seq<nat>)
    requires IndexOk(xadj, adj, el, rev) && ind < |el|
    requires Deg(Triangles(GraphOfEnds(el)), ind) <= 0x20_0000
    ensures |p| == |q| && forall k :: 0 <= k < |p| ==> p[k] < |rev| && q[k] < |rev|
    ensures forall k :: 0 <= k < |p| ==> rev[p[k]] < |el| && rev[q[k]] < |el|
    ensures Enumerates(Triangles(GraphOfEnds(el)), ind, Linked(rev, p, q))
  {
    hide Simple, Triangles, Joins, DynamicGraph.ListsCommon, Enumerates, MatchesBelow, Increasing, Searchable,
         GraphOfEnds, RangesOk, LinksOk, Deg, Common;
    var u, v := el[ind].0, el[ind].1;
    EndRanges(xadj, adj, el, rev, ind);
    WritesAreTriangles(xadj, adj, el, rev, ind);
    var ptr1, ptr2 := new nat[MAX_INTERSECTION_SIZE], new nat[MAX_INTERSECTION_SIZE];
    var size := SetIntersectGalloping(ptr1, ptr2, xadj, adj, u, v);
    p, q := ptr1[..size], ptr2[..size];
    MatchesEnumerate(xadj, adj, el, rev, ind, p, q);
    MatchOffsets(adj, rev, xadj[u], xadj[u + 1], xadj[v], xadj[v + 1], p, q);
    LinkedIds(el, ind, rev, p, q);
  }

  lemma MatchOffsets(adj: seq<nat>, rev: seq<nat>, u0: nat, u1: nat, v0: nat, v1: nat, p: seq<nat>, q: seq<nat>)
    requires MatchesBelow(adj, u0, u1, v0, v1, u1, v1, p, q) && |rev| == |adj|
    ensures |p| == |q| && forall k :: 0 <= k < |p| ==> p[k] < |rev| && q[k] < |rev|
  {}

  lemma LinkedIds(el: seq<(nat, nat)>, ind: nat, rev: seq<nat>, p: seq<nat>, q: seq<nat>)
    requires Simple(GraphOfEnds(el)) && Enumerates(Triangles(GraphOfEnds(el)), ind, Linked(rev, p, q))
    requires |p| == |q| && forall k :: 0 <= k < |p| ==> p[k] < |rev| && q[k] < |rev|
    ensures forall k :: 0 <= k < |p| ==> rev[p[k]] < |el| && rev[q[k]] < |el|
  {
    hide Simple, Triangles, Enumerates;
    var ws := Linked(rev, p, q);
    WedgeIds(GraphOfEnds(el), ind, ws);
    forall k | 0 <= k < |p| ensures rev[p[k]] < |el| && rev[q[k]] < |el| {
      assert ws[k].e1 in GraphOfEnds(el) && ws[k].e2 in GraphOfEnds(el);
    }
  }

  // ---------------------------------------------------------------- h-indices

  /** h is the h-index of s: the largest number such that h of the values reach it. */
  ghost predicate IsHIndex(s: seq<nat>, h: nat) {
    CountAtLeast(s, h) >= h && CountAtLeast(s, h + 1) < h + 1
  }

  lemma {:induction false} CountSnoc(s: seq<nat>, x: nat, k: nat)
    ensures CountAtLeast(s + [x], k) == CountAtLeast(s, k) + (if x >= k then 1 else 0)
    decreases |s|
  {
    if s == [] {
      assert (s + [x])[1..] == [];
    } else {
      CountSnoc(s[1..], x, k);
      assert (s + [x])[1..] == s[1..] + [x];
    }
  }

  /** The values two higher. */
  ghost function Shift(t: seq<nat>): (r: seq<nat>)
    ensures |r| == |t| && forall e :: 0 <= e < |t| ==> r[e] == t[e] + 2
  {
    seq(|t|, e requires 0 <= e < |t| => t[e] + 2)
  }

  ghost predicate WedgesBelow(ws: seq<Wedge>, n: nat) {
    forall i :: 0 <= i < |ws| ==> ws[i].e1 < n && ws[i].e2 < n
  }

  lemma {:induction false} CountShift(t: seq<nat>, ws: seq<Wedge>, k: nat)
    requires WedgesBelow(ws, |t|)
    ensures CountAtLeast(WedgeMins(Shift(t), ws), k + 2) == CountAtLeast(WedgeMins(t, ws), k)
    decreases |ws|
  {
    if ws != [] {
      assert ws[0] in ws && WedgesBelow(ws[1..], |t|);
      CountShift(t, ws[1..], k);
      assert WedgeMins(t, ws)[1..] == WedgeMins(t, ws[1..]);
      assert WedgeMins(Shift(t), ws)[1..] == WedgeMins(Shift(t), ws[1..]);
    }
  }

  /** The number of minima that reach k is the number of witnesses of k + 2. */
  lemma CountIsWitnesses(sys: TriSys, e: nat, t: seq<nat>, ws: seq<Wedge>, k: nat)
    requires Enumerates(sys.tris, e, ws) && WedgesBelow(ws, |t|)
    ensures CountAtLeast(WedgeMins(t, ws), k) == |Witnesses(sys, Shift(t), e, k + 2)|
  {
    hide Enumerates, Witnesses, WedgeMins, CountAtLeast, WedgesBelow;
    CountShift(t, ws, k);
    CountWitnesses(sys, e, Shift(t), ws, k + 2);
  }

  /** The h-index of the minima over the triangles of e is F(e), shifted by two. */
  lemma HIndexIsF(sys: TriSys, e: nat, t: seq<nat>, ws: seq<Wedge>, h: nat)
    requires Enumerates(sys.tris, e, ws) && WedgesBelow(ws, |t|)
    ensures IsHIndex(WedgeMins(t, ws), h) <==> F(sys, Shift(t), e) == h + 2
  {
    hide Enumerates, Witnesses, WedgeMins, CountAtLeast, WedgesBelow;
    CountIsWitnesses(sys, e, t, ws, h);
    CountIsWitnesses(sys, e, t, ws, h + 1);
    FAtLeast(sys, Shift(t), e, h + 2);
    FAtLeast(sys, Shift(t), e, h + 3);
  }

  // ---------------------------------------------------------------- the online h-index

  function Stored(gmap: map<nat, nat>, x: nat): nat {
    if x in gmap then gmap[x] else 0
  }

  ghost function CountEqual(s: seq<nat>, x: nat): int {
    CountAtLeast(s, x) - CountAtLeast(s, x + 1)
  }

  /**
   What the single pass keeps: h is the h-index of the values seen, greaters of them exceed
   h, equals more of value h complete the h, and gmap counts the values above h.
   */
  ghost predicate OnlineOk(s: seq<nat>, h: nat, equals: nat, greaters: nat, gmap: map<nat, nat>) {
    && greaters == CountAtLeast(s, h + 1)
    && equals + greaters == h
    && equals <= CountEqual(s, h)
    && forall x: nat :: x > h ==> Stored(gmap, x) == CountEqual(s, x)
  }

  lemma OnlineStart()
    ensures OnlineOk([], 0, 0, 0, map[])
  {}

  lemma OnlineIsHIndex(s: seq<nat>, h: nat, equals: nat, greaters: nat, gmap: map<nat, nat>)
    requires OnlineOk(s, h, equals, greaters, gmap)
    ensures IsHIndex(s, h)
  {}

  /** How the counts change with one more value. */
  lemma CountEqualSnoc(s: seq<nat>, x: nat, k: nat)
    ensures CountEqual(s + [x], k) == CountEqual(s, k) + (if x == k then 1 else 0)
    ensures CountAtLeast(s + [x], k) == CountAtLeast(s, k) + (if x >= k then 1 else 0)
  {
    CountSnoc(s, x, k);
    CountSnoc(s, x, k + 1);
  }

  /** A value not above h changes nothing. */
  lemma OnlineSmall(s: seq<nat>, x: nat, h: nat, equals: nat, greaters: nat, gmap: map<nat, nat>)
    requires OnlineOk(s, h, equals, greaters, gmap) && x <= h
    ensures OnlineOk(s + [x], h, equals, greaters, gmap)
  {
    hide CountEqual, CountAtLeast;
    CountEqualSnoc(s, x, h);
    CountEqualSnoc(s, x, h + 1);
    forall y: nat | y > h ensures Stored(gmap, y) == CountEqual(s + [x], y) {
      CountEqualSnoc(s, x, y);
    }
  }

  /** A larger value takes the place of one equal to h. */
  lemma OnlineReplace(s: seq<nat>, x: nat, h: nat, equals: nat, greaters: nat, gmap: map<nat, nat>)
    requires OnlineOk(s, h, equals, greaters, gmap) && x > h && equals > 0
    ensures OnlineOk(s + [x], h, equals - 1, greaters + 1, gmap[x := Stored(gmap, x) + 1])
  {
    hide CountEqual, CountAtLeast;
    var gmap' := gmap[x := Stored(gmap, x) + 1];
    CountEqualSnoc(s, x, h);
    CountEqualSnoc(s, x, h + 1);
    forall y: nat | y > h ensures Stored(gmap', y) == CountEqual(s + [x], y) {
      CountEqualSnoc(s, x, y);
    }
  }

  lemma EqualSplit(s: seq<nat>, h: nat)
    ensures CountAtLeast(s, h) == CountEqual(s, h) + CountAtLeast(s, h + 1)
  {}

  /** With no value equal to h left over, a larger value raises h. */
  lemma OnlineRaise(s: seq<nat>, x: nat, h: nat, greaters: nat, gmap: map<nat, nat>, gmap': map<nat, nat>)
    requires OnlineOk(s, h, 0, greaters, gmap) && x > h
    requires gmap' == if x == h + 1 then gmap - {h + 1} else (gmap - {h + 1})[x := Stored(gmap, x) + 1]
    ensures Stored(gmap, h + 1) <= greaters
    ensures OnlineOk(s + [x], h + 1,
                     Stored(gmap, h + 1) + (if x == h + 1 then 1 else 0),
                     greaters - Stored(gmap, h + 1) + (if x == h + 1 then 0 else 1), gmap')
  {
    hide CountEqual, CountAtLeast;
    EqualSplit(s, h + 1);
    CountEqualSnoc(s, x, h + 1);
    CountEqualSnoc(s, x, h + 2);
    forall y: nat | y > h + 1 ensures Stored(gmap', y) == CountEqual(s + [x], y) {
      CountEqualSnoc(s, x, y);
    }
  }

  /** One value of the single pass. */
  method OnlineStep(sm: nat, h: nat, equals: nat, greaters: nat, gmap: map<nat, nat>, ghost s: seq<nat>)
    returns (h': nat, equals': nat, greaters': nat, gmap': map<nat, nat>)
    requires OnlineOk(s, h, equals, greaters, gmap)
    ensures OnlineOk(s + [sm], h', equals', greaters', gmap')
  {
    hide OnlineOk;
    h', equals', greaters', gmap' := h, equals, greaters, gmap;
    if sm == h + 1 {
      if equals > 0 {
        OnlineReplace(s, sm, h, equals, greaters, gmap);
        equals', greaters' := equals - 1, greaters + 1;
        gmap' := gmap[sm := Stored(gmap, sm) + 1];
      } else {
        OnlineRaise(s, sm, h, greaters, gmap, gmap - {h + 1});
        h' := h + 1;
        var gH := Stored(gmap, h');
        gmap' := gmap - {h'};
        equals', greaters' := gH + 1, greaters - gH;
      }
    } else if sm > h + 1 {
      if equals > 0 {
        OnlineReplace(s, sm, h, equals, greaters, gmap);
        equals', greaters' := equals - 1, greaters + 1;
        gmap' := gmap[sm := Stored(gmap, sm) + 1];
      } else {
        OnlineRaise(s, sm, h, greaters, gmap, (gmap - {h + 1})[sm := Stored(gmap, sm) + 1]);
        h' := h + 1;
        var gH := Stored(gmap, h');
        gmap' := gmap - {h'};
        equals', greaters' := gH, greaters + 1 - gH;
        gmap' := gmap'[sm := Stored(gmap', sm) + 1];
      }
    } else {
      OnlineSmall(s, sm, h, equals, greaters, gmap);
    }
  }

  /** The h-index of the minima over the triangles of an edge, in a single pass. */
  method OnlineHIndex(P: seq<nat>, rev: seq<nat>, p: seq<nat>, q: seq<nat>) returns (h: nat)
    requires |p| == |q| && forall k :: 0 <= k < |p| ==>
                     p[k] < |rev| && q[k] < |rev| && rev[p[k]] < |P| && rev[q[k]] < |P|
    ensures IsHIndex(WedgeMins(P, Linked(rev, p, q)), h)
  {
    hide OnlineOk, IsHIndex;
    ghost var all := WedgeMins(P, Linked(rev, p, q));
    var equals, greaters, gmap: map<nat, nat> := 0, 0, map[];
    h := 0;
    ghost var s: seq<nat> := [];
    OnlineStart();
    for ri := 0 to |p|
      invariant s == all[..ri]
      invariant OnlineOk(s, h, equals, greaters, gmap)
    {
      var sm := Min(P[rev[p[ri]]], P[rev[q[ri]]]);
      h, equals, greaters, gmap := OnlineStep(sm, h, equals, greaters, gmap, s);
      s := s + [sm];
    }
    assert s == all;
    OnlineIsHIndex(s, h, equals, greaters, gmap);
  }

  /**
   mapInitialHIRevLink: replaces the value of one edge by the h-index over its triangles,
   and says whether that lowered it.
   */
  method MapInitialHI(ind: nat, xadj: seq<nat>, adj: seq<nat>, el: seq<(nat, nat)>, P: array<nat>,
                      rev: seq<nat>) returns (r: nat)
    requires IndexOk(xadj, adj, el, rev) && ind < |el| == P.Length
    requires Deg(Triangles(GraphOfEnds(el)), ind) <= 0x20_0000
    modifies P
    ensures F(Sys(GraphOfEnds(el)), Shift(old(P[..])), ind) >= 2
    ensures P[..] == old(P[..])[ind := F(Sys(GraphOfEnds(el)), Shift(old(P[..])), ind) - 2]
    ensures r == if P[ind] < old(P[ind]) then 1 else 0
  {
    hide IndexOk, Enumerates, IsHIndex, WedgesBelow, Triangles, Justified, Deg;
    var p, q := TrianglesOf(ind, xadj, adj, el, rev);
    var h := OnlineHIndex(P[..], rev, p, q);
    LinkedBelow(rev, p, q, |el|);
    HIndexIsF(Sys(GraphOfEnds(el)), ind, P[..], Linked(rev, p, q), h);
    var oP := P[ind];
    P[ind] := h;
    r := if h < oP then 1 else 0;
  }

  lemma LinkedBelow(rev: seq<nat>, p: seq<nat>, q: seq<nat>, n: nat)
    requires |p| == |q| && forall k :: 0 <= k < |p| ==> p[k] < |rev| && q[k] < |rev| && rev[p[k]] < n && rev[q[k]] < n
    ensures WedgesBelow(Linked(rev, p, q), n)
  {}

  // ---------------------------------------------------------------- re-evaluation and notification

  /** neigs holds the partners of an edge in the listed triangles, and nothing else. */
  ghost predicate ListsPartners(neigs: seq<nat>, ws: seq<Wedge>) {
    && (forall i :: 0 <= i < |ws| ==> ws[i].e1 in neigs && ws[i].e2 in neigs)
    && (forall f :: f in neigs ==> exists i :: 0 <= i < |ws| && (f == ws[i].e1 || f == ws[i].e2))
  }

  ghost predicate SharesTriangle(tris: set<Triangle>, e: nat, f: nat) {
    e != f && exists t :: t in tris && e in t && f in t
  }

  lemma PartnersShare(tris: set<Triangle>, e: nat, ws: seq<Wedge>, neigs: seq<nat>, f: nat)
    requires Enumerates(tris, e, ws) && ListsPartners(neigs, ws)
    ensures f in neigs <==> SharesTriangle(tris, f, e)
  {
    if f in neigs {
      var i :| 0 <= i < |ws| && (f == ws[i].e1 || f == ws[i].e2);
      ListedShares(tris, e, ws, i);
    }
    if SharesTriangle(tris, f, e) {
      var i := SharedListed(tris, e, ws, f);
      assert ws[i].e1 in neigs && ws[i].e2 in neigs;
    }
    hide Enumerates, SharesTriangle;
  }

  /** The edges listed with e share a triangle with it. */
  lemma ListedShares(tris: set<Triangle>, e: nat, ws: seq<Wedge>, i: nat)
    requires Enumerates(tris, e, ws) && i < |ws|
    ensures SharesTriangle(tris, ws[i].e1, e) && SharesTriangle(tris, ws[i].e2, e)
  {
    assert Tri(e, ws[i]) in tris;
    assert e in Tri(e, ws[i]) && ws[i].e1 in Tri(e, ws[i]) && ws[i].e2 in Tri(e, ws[i]);
  }

  /** The edges that share a triangle with e are listed with it. */
  lemma SharedListed(tris: set<Triangle>, e: nat, ws: seq<Wedge>, f: nat) returns (i: nat)
    requires Enumerates(tris, e, ws) && SharesTriangle(tris, f, e)
    ensures i < |ws| && (f == ws[i].e1 || f == ws[i].e2)
  {
    var t :| t in tris && f in t && e in t;
    i :| 0 <= i < |ws| && t == Tri(e, ws[i]);
    hide Enumerates;
  }

  lemma AddPartners(neigs: seq<nat>, ws: seq<Wedge>, k: nat)
    requires k < |ws| && ListsPartners(neigs, ws[..k])
    ensures ListsPartners(neigs + [ws[k].e1] + [ws[k].e2], ws[..k + 1])
  {
    var neigs' := neigs + [ws[k].e1] + [ws[k].e2];
    var head, head' := ws[..k], ws[..k + 1];
    forall i | 0 <= i < |head'| ensures head'[i].e1 in neigs' && head'[i].e2 in neigs' {
      if i < k {
        assert head[i] == ws[i];
      } else {
        assert neigs'[|neigs|] == ws[k].e1 && neigs'[|neigs| + 1] == ws[k].e2;
      }
    }
    forall f | f in neigs' ensures exists i :: 0 <= i < |head'| && (f == head'[i].e1 || f == head'[i].e2) {
      if f in neigs {
        var i :| 0 <= i < |head| && (f == head[i].e1 || f == head[i].e2);
        assert head'[i] == head[i];
      } else {
        assert head'[k] == ws[k];
      }
    }
  }

  /** The counters after the values s: how many reach prev, and how many equal each smaller value. */
  ghost predicate CountersOk(s: seq<nat>, prev: nat, greaterequals: nat, smallers: seq<nat>) {
    && greaterequals == CountAtLeast(s, prev)
    && |smallers| == prev
    && forall x :: 0 <= x < prev ==> smallers[x] == CountEqual(s, x)
  }

  lemma CountersStep(s: seq<nat>, x: nat, prev: nat, greaterequals: nat, smallers: seq<nat>)
    requires CountersOk(s, prev, greaterequals, smallers)
    ensures x >= prev ==> CountersOk(s + [x], prev, greaterequals + 1, smallers)
    ensures x < prev ==> CountersOk(s + [x], prev, greaterequals, smallers[x := smallers[x] + 1])
  {
    hide CountEqual, CountAtLeast;
    CountEqualSnoc(s, x, prev);
    forall y: nat ensures CountEqual(s + [x], y) == CountEqual(s, y) + (if x == y then 1 else 0) {
      CountEqualSnoc(s, x, y);
    }
  }

  /** A prefix has no more values that reach k than the whole. */
  lemma {:induction false} CountPrefix(s: seq<nat>, n: nat, k: nat)
    requires n <= |s|
    ensures CountAtLeast(s[..n], k) <= CountAtLeast(s, k)
    decreases n
  {
    if n > 0 {
      CountPrefix(s[1..], n - 1, k);
      assert s[..n][1..] == s[1..][..n - 1];
    }
  }

  /**
   Scans the triangles until prev of them reach prev; without that, the counters cover all
   triangles and neigs has all partners.
   */
  method ScanTriangles(T: seq<nat>, rev: seq<nat>, p: seq<nat>, q: seq<nat>, prev: nat)
    returns (yep: bool, greaterequals: nat, smallers: seq<nat>, neigs: seq<nat>)
    requires |p| == |q| && forall k :: 0 <= k < |p| ==>
                     p[k] < |rev| && q[k] < |rev| && rev[p[k]] < |T| && rev[q[k]] < |T|
    requires prev > 0 || |p| == 0
    ensures yep ==> CountAtLeast(WedgeMins(T, Linked(rev, p, q)), prev) >= prev
    ensures !yep ==> CountersOk(WedgeMins(T, Linked(rev, p, q)), prev, greaterequals, smallers)
    ensures !yep ==> ListsPartners(neigs, Linked(rev, p, q))
    ensures !yep && |p| > 0 ==> greaterequals < prev
  {
    hide ListsPartners, CountersOk, CountAtLeast, CountEqual;
    ghost var ws := Linked(rev, p, q);
    ghost var all := WedgeMins(T, ws);
    yep, greaterequals, smallers, neigs := false, 0, seq(prev, _ => 0), [];
    NothingCounted(prev, smallers);
    assert ws[..0] == [] && all[..0] == [];
    for ri := 0 to |p|
      invariant !yep && CountersOk(all[..ri], prev, greaterequals, smallers)
      invariant ListsPartners(neigs, ws[..ri])
      invariant |p| > 0 ==> greaterequals < prev
      invariant |smallers| == prev
    {
      var id1, id2 := rev[p[ri]], rev[q[ri]];
      AddPartners(neigs, ws, ri);
      neigs := neigs + [id1] + [id2];
      var curT := if T[id1] <= T[id2] then T[id1] else T[id2];
      assert curT == all[ri] && all[..ri + 1] == all[..ri] + [curT];
      CountersStep(all[..ri], curT, prev, greaterequals, smallers);
      if curT >= prev {
        greaterequals := greaterequals + 1;
      } else {
        smallers := smallers[curT := smallers[curT] + 1];
      }
      if greaterequals == prev {
        yep := true;
        CountedAll(all, ri + 1, prev, greaterequals, smallers);
        break;
      }
    }
    if !yep {
      assert ws[..|p|] == ws && all[..|p|] == all;
    }
  }

  lemma NothingCounted(prev: nat, smallers: seq<nat>)
    requires |smallers| == prev && forall x :: 0 <= x < prev ==> smallers[x] == 0
    ensures CountersOk([], prev, 0, smallers) && ListsPartners([], [])
  {}

  lemma CountedAll(all: seq<nat>, n: nat, prev: nat, greaterequals: nat, smallers: seq<nat>)
    requires n <= |all| && CountersOk(all[..n], prev, greaterequals, smallers) && greaterequals == prev
    ensures CountAtLeast(all, prev) >= prev
  {
    CountPrefix(all, n, prev);
  }

  /** The h-index, by adding up the counters downwards from prev. */
  method LargestBelow(prev: nat, greaterequals: nat, smallers: seq<nat>, ghost s: seq<nat>) returns (j: nat)
    requires CountersOk(s, prev, greaterequals, smallers) && greaterequals < prev
    ensures j < prev && IsHIndex(s, j)
  {
    hide CountAtLeast;
    var ge := greaterequals;
    j := prev - 1;
    while j > 0
      invariant 0 <= j < prev
      invariant ge == CountAtLeast(s, j + 1) < j + 1
    {
      EqualSplit(s, j);
      ge := ge + smallers[j];
      if ge >= j {
        break;
      }
      j := j - 1;
    }
  }

  /** Sets the new value and flags the edge and every partner whose value is not below it. */
  method UpdateAndNotify(ind: nat, P: array<nat>, newP: nat, neigs: seq<nat>, changed: array<bool>)
    requires ind < P.Length == changed.Length && forall k :: 0 <= k < |neigs| ==> neigs[k] < P.Length
    modifies P, changed
    ensures P[..] == old(P[..])[ind := newP]
    ensures forall e :: 0 <= e < changed.Length ==>
                          changed[e] == (old(changed[e]) || e == ind || (e in neigs && P[e] >= newP))
  {
    P[ind] := newP;
    changed[ind] := true;
    for k := 0 to |neigs|
      invariant P[..] == old(P[..])[ind := newP]
      invariant forall e :: 0 <= e < changed.Length ==>
                              changed[e] == (old(changed[e]) || e == ind || (e in neigs[..k] && P[e] >= newP))
    {
      if P[neigs[k]] >= P[ind] {
        changed[neigs[k]] := true;
      }
      assert neigs[..k + 1] == neigs[..k] + [neigs[k]];
    }
    assert neigs[..|neigs|] == neigs;
  }

  /** The flags after the value of ind dropped: its partners at or above the new value are told. */
  ghost predicate Notified(tris: set<Triangle>, T: seq<nat>, before: seq<bool>, after: seq<bool>, ind: nat) {
    && |after| == |before|
    && forall e :: 0 <= e < |after| ==>
                     after[e] == (before[e] || e == ind || (SharesTriangle(tris, e, ind) && At(T, e) >= At(T, ind)))
  }

  /**
   efficientUpdateHIRevLink: when F no longer supports the value of an edge, lowers it to F
   and notifies; otherwise changes nothing.
   */
  method EfficientUpdate(ind: nat, xadj: seq<nat>, adj: seq<nat>, el: seq<(nat, nat)>, T: array<nat>,
                         changed: array<bool>, rev: seq<nat>)
    returns (r: nat)
    requires IndexOk(xadj, adj, el, rev) && ind < |el| == T.Length == changed.Length
    requires Deg(Triangles(GraphOfEnds(el)), ind) <= 0x20_0000
    requires T[ind] == 0 <==> Deg(Triangles(GraphOfEnds(el)), ind) == 0
    modifies T, changed
    ensures r == if F(Sys(GraphOfEnds(el)), Shift(old(T[..])), ind) < old(T[ind]) + 2 then 1 else 0
    ensures r == 0 ==> T[..] == old(T[..]) && changed[..] == old(changed[..])
    ensures r == 1 ==> T[..] == old(T[..])[ind := F(Sys(GraphOfEnds(el)), Shift(old(T[..])), ind) - 2]
    ensures r == 1 ==> Notified(Triangles(GraphOfEnds(el)), T[..], old(changed[..]), changed[..], ind)
  {
    hide IndexOk, Enumerates, IsHIndex, WedgesBelow, Triangles, Justified, CountersOk, ListsPartners, CountAtLeast,
         GraphOfEnds, SharesTriangle, Deg;
    ghost var sys, T0 := Sys(GraphOfEnds(el)), T[..];
    var prev := T[ind];
    var p, q := TrianglesOf(ind, xadj, adj, el, rev);
    ghost var ws := Linked(rev, p, q);
    LinkedBelow(rev, p, q, |el|);
    EnumerationCount(sys.tris, ind, ws);
    var yep, greaterequals, smallers, neigs := ScanTriangles(T[..], rev, p, q, prev);
    if !yep && |p| != 0 {
      var j := LargestBelow(prev, greaterequals, smallers, WedgeMins(T0, ws));
      HIndexIsF(sys, ind, T0, ws, j);
      PartnersBelow(ws, neigs, |el|);
      UpdateAndNotify(ind, T, j, neigs, changed);
      forall e ensures e in neigs <==> SharesTriangle(sys.tris, e, ind) {
        PartnersShare(sys.tris, ind, ws, neigs, e);
      }
      r := 1;
    } else {
      r := 0;
      if yep {
        SupportedValue(sys, ind, T0, ws, prev);
      }
    }
  }

  lemma PartnersBelow(ws: seq<Wedge>, neigs: seq<nat>, n: nat)
    requires WedgesBelow(ws, n) && ListsPartners(neigs, ws)
    ensures forall k :: 0 <= k < |neigs| ==> neigs[k] < n
  {
    forall k | 0 <= k < |neigs| ensures neigs[k] < n {
      assert neigs[k] in neigs;
    }
  }

  lemma SupportedValue(sys: TriSys, e: nat, t: seq<nat>, ws: seq<Wedge>, prev: nat)
    requires Enumerates(sys.tris, e, ws) && WedgesBelow(ws, |t|) && CountAtLeast(WedgeMins(t, ws), prev) >= prev
    ensures F(sys, Shift(t), e) >= prev + 2
  {
    hide Enumerates, Witnesses, WedgeMins, CountAtLeast, WedgesBelow;
    CountIsWitnesses(sys, e, t, ws, prev);
    FAtLeast(sys, Shift(t), e, prev + 2);
  }

  // ---------------------------------------------------------------- the main loop

  /** The edge ids are the first n numbers. */
  ghost predicate Numbered(sys: TriSys, n: nat) {
    forall e: nat :: e in sys.edges <==> e < n
  }

  ghost predicate StableUnlessChanged(sys: TriSys, T: seq<nat>, changed: seq<bool>) {
    forall e :: e in sys.edges && e < |changed| && !changed[e] ==> Stable(sys, Shift(T), e)
  }

  /** The values are zero exactly for the edges in no triangle. */
  ghost predicate ZeroIffBare(sys: TriSys, T: seq<nat>) {
    forall e :: 0 <= e < |T| ==> (T[e] == 0 <==> Deg(sys.tris, e) == 0)
  }

  ghost predicate AtMostDegree(sys: TriSys, T: seq<nat>) {
    forall e :: 0 <= e < |T| ==> T[e] <= Deg(sys.tris, e)
  }

  /** Notifying only the partners at or above the new value is enough. */
  lemma NotifySuffices(sys: TriSys, T: seq<nat>, T': seq<nat>, before: seq<bool>, after: seq<bool>, ind: nat)
    requires ind < |T| && |before| == |T| && StableUnlessChanged(sys, T, before[ind := true])
    requires |T'| == |T| && T' == T[ind := T'[ind]] && T'[ind] <= T[ind]
    requires Notified(sys.tris, T', before, after, ind) && Numbered(sys, |T|)
    ensures |after| == |T| && StableUnlessChanged(sys, T', after)
  {
    forall e | e in sys.edges && e < |after| && !after[e] ensures Stable(sys, Shift(T'), e) {
      assert e != ind && Stable(sys, Shift(T), e);
      var k := T[e] + 2;
      forall t | t in Witnesses(sys, Shift(T), e, k) ensures t in Witnesses(sys, Shift(T'), e, k) {
        if ind in t {
          assert SharesTriangle(sys.tris, e, ind);
        }
      }
      FiniteSets.SubsetCard(Witnesses(sys, Shift(T), e, k), Witnesses(sys, Shift(T'), e, k));
    }
  }

  lemma ShiftUpdate(T: seq<nat>, i: nat, x: nat)
    requires i < |T|
    ensures Shift(T[i := x]) == Shift(T)[i := x + 2]
  {}

  /** Lowering a value to F keeps all values at or above the trussness. */
  lemma LowerToF(sys: TriSys, T: seq<nat>, ind: nat)
    requires sys.Valid() && Above(sys, Shift(T)) && ind in sys.edges && ind < |T|
    ensures F(sys, Shift(T), ind) >= 2 && Above(sys, Shift(T[ind := F(sys, Shift(T), ind) - 2]))
  {
    hide Trussness, F;
    FAboveTruss(sys, Shift(T), ind);
    ShiftUpdate(T, ind, F(sys, Shift(T), ind) - 2);
  }

  lemma InTriangleTruss(sys: TriSys, e: nat)
    requires sys.Valid() && e in sys.edges && Deg(sys.tris, e) > 0
    ensures Trussness(sys, e) >= 3
  {
    assert Inc(sys.tris, e) != {};
    var t :| t in Inc(sys.tris, e);
    forall f | f in t ensures Deg(Within(sys.tris, t), f) + 2 >= 3 {
      FiniteSets.SubsetCard({t}, Inc(Within(sys.tris, t), f));
    }
    SupportsBound(sys, t, 3);
  }

  lemma ZeroOnlyBare(sys: TriSys, T: seq<nat>)
    requires sys.Valid() && Above(sys, Shift(T)) && AtMostDegree(sys, T) && Numbered(sys, |T|)
    ensures ZeroIffBare(sys, T)
  {
    hide Deg, Trussness;
    forall e: nat | e < |T| && Deg(sys.tris, e) > 0 ensures T[e] > 0 {
      InTriangleTruss(sys, e);
    }
  }

  /** The edges of an endpoint array are numbered from zero. */
  lemma EndsSys(el: seq<(nat, nat)>)
    requires Simple(GraphOfEnds(el))
    ensures Sys(GraphOfEnds(el)).Valid() && Numbered(Sys(GraphOfEnds(el)), |el|)
  {
    SysOk(GraphOfEnds(el));
  }

  /** The triangle counts are at or above the trussness. */
  lemma CountsAbove(sys: TriSys, T: seq<nat>)
    requires Numbered(sys, |T|) && forall e :: 0 <= e < |T| ==> T[e] == Deg(sys.tris, e)
    ensures Above(sys, Shift(T)) && AtMostDegree(sys, T)
  {
    hide Deg;
    forall e | e in sys.edges ensures At(Shift(T), e) >= Trussness(sys, e) {
      assert Trussness(sys, e) <= Deg(sys.tris, e) + 2;
    }
  }

  /** When no edge is flagged any more the values are exact. */
  lemma QuietIsExact(sys: TriSys, T: seq<nat>, changed: seq<bool>)
    requires sys.Valid() && Numbered(sys, |T|) && |changed| == |T|
    requires Above(sys, Shift(T)) && StableUnlessChanged(sys, T, changed)
    requires forall e :: 0 <= e < |changed| ==> !changed[e]
    ensures forall e :: 0 <= e < |T| ==> e in sys.edges && T[e] + 2 == Trussness(sys, e)
  {
    hide Stable, Trussness;
    StableBelow(sys, Shift(T));
    forall e: nat | e < |T| ensures e in sys.edges && T[e] + 2 == Trussness(sys, e) {
      assert At(Shift(T), e) == T[e] + 2;
    }
  }

  /** One visit of the main loop: what it keeps, and that a change lowers the sum of the values. */
  lemma VisitKeeps(sys: TriSys, T: seq<nat>, T': seq<nat>, before: seq<bool>, after: seq<bool>, ind: nat, r: nat)
    requires sys.Valid() && Numbered(sys, |T|) && |before| == |T| && ind < |T|
    requires ZeroIffBare(sys, T) && Above(sys, Shift(T)) && AtMostDegree(sys, T)
    requires StableUnlessChanged(sys, T, before[ind := true])
    requires r == if F(sys, Shift(T), ind) < T[ind] + 2 then 1 else 0
    requires r == 0 ==> T' == T && after == before
    requires r == 1 ==> T' == T[ind := F(sys, Shift(T), ind) - 2] && Notified(sys.tris, T', before, after, ind)
    ensures |T'| == |T| && |after| == |T|
    ensures ZeroIffBare(sys, T') && Above(sys, Shift(T')) && AtMostDegree(sys, T')
    ensures StableUnlessChanged(sys, T', after)
    ensures r == 1 ==> Sum(T') < Sum(T)
  {
    hide ZeroIffBare, Above, Notified, F, Deg, Sum, Justified, Witnesses, Numbered, TriSys.Valid, StableUnlessChanged;
    if r == 1 {
      InitialKeeps(sys, T, ind);
      NotifySuffices(sys, T, T', before, after, ind);
      ZeroOnlyBare(sys, T');
      SumUpdate(T, ind, T'[ind]);
    } else {
      FAtLeast(sys, Shift(T), ind, T[ind] + 2);
      StableWhenSupported(sys, T, before, ind);
    }
  }

  lemma StableWhenSupported(sys: TriSys, T: seq<nat>, before: seq<bool>, ind: nat)
    requires ind < |T| && |before| == |T| && StableUnlessChanged(sys, T, before[ind := true])
    requires Justified(sys, Shift(T), ind, T[ind] + 2)
    ensures StableUnlessChanged(sys, T, before)
  {
    hide Justified;
    forall e | e in sys.edges && e < |before| && !before[e] ensures Stable(sys, Shift(T), e) {
      assert e != ind ==> !before[ind := true][e];
    }
  }

  /**
   nmLocal23: from the triangle counts to the exact values. It visits the flagged edges until
   a pass changes nothing.
   */
  method NmLocal23(xadj: seq<nat>, adj: seq<nat>, el: seq<(nat, nat)>, rev: seq<nat>, T: array<nat>)
    requires IndexOk(xadj, adj, el, rev) && T.Length == |el|
    requires forall e :: 0 <= e < |el| ==> T[e] == Deg(Triangles(GraphOfEnds(el)), e)
    requires forall e :: 0 <= e < |el| ==> T[e] <= 0x20_0000
    modifies T
    ensures forall e :: 0 <= e < |el| ==>
                          e in Sys(GraphOfEnds(el)).edges && T[e] + 2 == Trussness(Sys(GraphOfEnds(el)), e)
  {
    hide IndexOk, Triangles, Justified, GraphOfEnds, Deg, Numbered, Above, AtMostDegree, ZeroIffBare,
         StableUnlessChanged, Notified, Sum, F, Shift, Trussness, TriSys.Valid;
    ghost var sys := Sys(GraphOfEnds(el));
    var nEdge := |el|;
    IndexedSys(xadj, adj, el, rev);
    CountsAbove(sys, T[..]);
    assert forall e :: 0 <= e < |el| ==> Deg(Triangles(GraphOfEnds(el)), e) <= MAX_INTERSECTION_SIZE;
    for ind := 0 to nEdge
      invariant Above(sys, Shift(T[..])) && AtMostDegree(sys, T[..])
    {
      ghost var before := T[..];
      var lowered := MapInitialHI(ind, xadj, adj, el, T, rev);
      InitialKeeps(sys, before, ind);
    }
    ZeroOnlyBare(sys, T[..]);
    var changed := new bool[nEdge](_ => true);
    AllChanged(sys, T[..], changed[..]);
    var flag := true;
    while flag
      invariant Above(sys, Shift(T[..])) && AtMostDegree(sys, T[..]) && ZeroIffBare(sys, T[..])
      invariant StableUnlessChanged(sys, T[..], changed[..])
      invariant !flag ==> forall e :: 0 <= e < nEdge ==> !changed[e]
      decreases Sum(T[..]), flag
    {
      ghost var total := Sum(T[..]);
      flag := false;
      for ind := 0 to nEdge
        invariant Above(sys, Shift(T[..])) && AtMostDegree(sys, T[..]) && ZeroIffBare(sys, T[..])
        invariant StableUnlessChanged(sys, T[..], changed[..])
        invariant !flag ==> forall e :: 0 <= e < ind ==> !changed[e]
        invariant if flag then Sum(T[..]) < total else Sum(T[..]) == total
      {
        if !changed[ind] {
          continue;
        }
        ghost var T0, changed0 := T[..], changed[..];
        changed[ind] := false;
        ghost var cleared := changed[..];
        assert cleared == changed0[ind := false] && cleared[ind := true] == changed0;
        BareIsZero(sys, T0, ind);
        var a := EfficientUpdate(ind, xadj, adj, el, T, changed, rev);
        VisitKeeps(sys, T0, T[..], cleared, changed[..], ind, a);
        if a == 1 {
          flag := true;
        }
      }
    }
    QuietIsExact(sys, T[..], changed[..]);
  }

  lemma BareIsZero(sys: TriSys, T: seq<nat>, ind: nat)
    requires ZeroIffBare(sys, T) && ind < |T|
    ensures T[ind] == 0 <==> Deg(sys.tris, ind) == 0
  {}

  lemma AllChanged(sys: TriSys, T: seq<nat>, changed: seq<bool>)
    requires |changed| == |T| && forall e :: 0 <= e < |changed| ==> changed[e]
    ensures StableUnlessChanged(sys, T, changed)
  {}

  lemma IndexedSys(xadj: seq<nat>, adj: seq<nat>, el: seq<(nat, nat)>, rev: seq<nat>)
    requires IndexOk(xadj, adj, el, rev)
    ensures Sys(GraphOfEnds(el)).Valid() && Numbered(Sys(GraphOfEnds(el)), |el|)
  {
    EndsSys(el);
  }

  lemma InitialKeeps(sys: TriSys, T: seq<nat>, ind: nat)
    requires sys.Valid() && Numbered(sys, |T|) && ind < |T|
    requires Above(sys, Shift(T)) && AtMostDegree(sys, T)
    ensures F(sys, Shift(T), ind) >= 2
    ensures Above(sys, Shift(T[ind := F(sys, Shift(T), ind) - 2]))
    ensures AtMostDegree(sys, T[ind := F(sys, Shift(T), ind) - 2])
  {
    hide F, Deg, Above, TriSys.Valid;
    LowerToF(sys, T, ind);
  }

  // ---------------------------------------------------------------- any order of visits

  datatype Progress = Progress(values: seq<nat>, changed: seq<bool>)

  ghost predicate ProgressOk(sys: TriSys, st: Progress) {
    && Numbered(sys, |st.values|) && |st.changed| == |st.values|
    && ZeroIffBare(sys, st.values) && Above(sys, Shift(st.values)) && AtMostDegree(sys, st.values)
    && StableUnlessChanged(sys, st.values, st.changed)
  }

  /** One whole visit of an edge, as the loop body makes it. */
  ghost predicate Visit(sys: TriSys, st: Progress, st': Progress, ind: nat) {
    && ind < |st.values| == |st.changed|
    && if !st.changed[ind] then st' == st
       else if F(sys, Shift(st.values), ind) < st.values[ind] + 2 then
         && st'.values == st.values[ind := F(sys, Shift(st.values), ind) - 2]
         && Notified(sys.tris, st'.values, st.changed[ind := false], st'.changed, ind)
       else st' == Progress(st.values, st.changed[ind := false])
  }

  ghost function Lowered(sys: TriSys, st: Progress, ind: nat): nat {
    if ind < |st.values| && ind < |st.changed| && st.changed[ind]
        && F(sys, Shift(st.values), ind) < st.values[ind] + 2 then 1 else 0
  }

  /** The number of visits in a run that lower a value. */
  ghost function LoweringVisits(sys: TriSys, run: seq<Progress>, order: seq<nat>): nat
    requires |run| == |order| + 1
  {
    if order == [] then 0 else Lowered(sys, run[0], order[0]) + LoweringVisits(sys, run[1..], order[1..])
  }

  lemma OneVisit(sys: TriSys, st: Progress, st': Progress, ind: nat)
    requires sys.Valid() && ProgressOk(sys, st) && Visit(sys, st, st', ind)
    ensures ProgressOk(sys, st')
    ensures Sum(st'.values) + Lowered(sys, st, ind) <= Sum(st.values)
  {
    hide ZeroIffBare, Above, AtMostDegree, Notified, F, Sum, TriSys.Valid, StableUnlessChanged, Shift, Numbered;
    if st.changed[ind] {
      var cleared := st.changed[ind := false];
      assert cleared[ind := true] == st.changed;
      var r := Lowered(sys, st, ind);
      VisitKeeps(sys, st.values, st'.values, cleared, st'.changed, ind, r);
    }
  }

  /**
   Edges visited in any order whatever: the values stay at or above the trussness, at most
   the sum of the starting values many visits lower one, and once no edge is flagged the
   values are exact.
   */
  lemma {:induction false} AnyOrder(sys: TriSys, run: seq<Progress>, order: seq<nat>)
    requires sys.Valid() && |run| == |order| + 1 && ProgressOk(sys, run[0])
    requires forall i :: 0 <= i < |order| ==> Visit(sys, run[i], run[i + 1], order[i])
    ensures Above(sys, Shift(run[|order|].values))
    ensures LoweringVisits(sys, run, order) <= Sum(run[0].values)
    ensures (forall e :: 0 <= e < |run[|order|].changed| ==> !run[|order|].changed[e]) ==>
            Exact(sys, Shift(run[|order|].values))
    decreases |order|
  {
    hide Sum, Lowered, TriSys.Valid, Visit, Above, Exact;
    if order == [] {
      QuietProgress(sys, run[0]);
    } else {
      OneVisit(sys, run[0], run[1], order[0]);
      forall i | 0 <= i < |order[1..]| ensures Visit(sys, run[1..][i], run[1..][i + 1], order[1..][i]) {
        assert run[1..][i] == run[i + 1] && run[1..][i + 1] == run[i + 2] && order[1..][i] == order[i + 1];
      }
      AnyOrder(sys, run[1..], order[1..]);
    }
  }

  lemma QuietProgress(sys: TriSys, st: Progress)
    requires sys.Valid() && ProgressOk(sys, st)
    ensures Above(sys, Shift(st.values))
    ensures (forall e :: 0 <= e < |st.changed| ==> !st.changed[e]) ==> Exact(sys, Shift(st.values))
  {
    hide Above, ZeroIffBare, AtMostDegree, StableUnlessChanged, Trussness;
    if forall e :: 0 <= e < |st.changed| ==> !st.changed[e] {
      QuietIsExact(sys, st.values, st.changed);
    }
  }
}
