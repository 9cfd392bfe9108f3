/**
 The dynamic graph of src/graph.h: adjacency lists with back-pointers, endpoint arrays,
 a free list of edge ids, and the open-addressing table from edge keys to ids.
 */
module DynamicGraph {
  import opened HashTable
  import opened SimpleGraph
  import opened Stamps
  import opened Truss

  datatype EdgeRef = EdgeRef(nbr: nat, eid: nat)

  /** The adjacency lists, and where in the lists of its two ends the halves of each edge are. */
  datatype Halves = Halves(adj: seq<seq<EdgeRef>>, slot0: seq<nat>, slot1: seq<nat>) {
    /** Both halves of e appended. */
    function Joined(e: nat, u: nat, v: nat): Halves
      requires u < v < |adj| && e < |slot0| && e < |slot1|
    {
      Halves(adj[u := adj[u] + [EdgeRef(v, e)]][v := adj[v] + [EdgeRef(u, e)]],
             slot0[e := |adj[u]|], slot1[e := |adj[v]|])
    }

    /** The last half in the list of x moved to position p; it is the first half of its edge, or the second. */
    function Moved(x: nat, p: nat, first: bool): Halves
      requires x < |adj| && p < |adj[x]|
      requires adj[x][|adj[x]| - 1].eid < |slot0| && adj[x][|adj[x]| - 1].eid < |slot1|
    {
      var last := adj[x][|adj[x]| - 1];
      Halves(adj[x := adj[x][p := last][..|adj[x]| - 1]],
             if first then slot0[last.eid := p] else slot0, if first then slot1 else slot1[last.eid := p])
    }
  }

  /** The contents of a graph object, but for the table. */
  datatype Arrays = Arrays(n: nat, m: nat, capEdges: nat, eu: seq<nat>, ev: seq<nat>, h: Halves, freeIds: seq<nat>) {
    ghost function G(): Graph {
      GraphOf(eu, ev)
    }

    function Grown(cap: nat, ns: nat): Arrays {
      Arrays(n, m, cap, Resize(eu, ns, NIL), Resize(ev, ns, NIL),
             Halves(h.adj, Resize(h.slot0, ns, 0), Resize(h.slot1, ns, 0)), freeIds)
    }

    function Attached(e: nat, u: nat, v: nat): Arrays
      requires u < v < |h.adj| && e < |h.slot0| && e < |h.slot1| && e < |eu| && e < |ev|
    {
      Arrays(n, m + 1, capEdges, eu[e := u], ev[e := v], h.Joined(e, u, v), freeIds)
    }

    function Detached(e: nat, h': Halves): Arrays
      requires m > 0 && e < |eu| && e < |ev|
    {
      Arrays(n, m - 1, capEdges, eu[e := NIL], ev[e := NIL], h', freeIds + [e])
    }
  }

  // ---------------------------------------------------------------- array contents

  /** The live edges: those whose first endpoint is not NIL. */
  ghost function GraphOf(eu: seq<nat>, ev: seq<nat>): Graph {
    map e: nat | e < |eu| && e < |ev| && eu[e] != NIL :: (eu[e], ev[e])
  }

  /** The entry r in position i of the list of x is the half of its edge that points there. */
  ghost predicate EntryOk(g: Graph, h: Halves, x: nat, i: nat, r: EdgeRef) {
    && r.eid in g && r.eid < |h.slot0| && r.eid < |h.slot1|
    && ((g[r.eid] == (x, r.nbr) && h.slot0[r.eid] == i) || (g[r.eid] == (r.nbr, x) && h.slot1[r.eid] == i))
  }

  /** x's list has, in position i, the half of edge e that leads to y. */
  ghost predicate HalfAt(adj: seq<seq<EdgeRef>>, x: nat, i: nat, y: nat, e: nat) {
    x < |adj| && i < |adj[x]| && adj[x][i] == EdgeRef(y, e)
  }

  /** Every list entry is a half of a live edge and sits where that edge's slot says. */
  ghost predicate EntriesOk(g: Graph, h: Halves) {
    forall x, i :: 0 <= x < |h.adj| && 0 <= i < |h.adj[x]| ==> EntryOk(g, h, x, i, h.adj[x][i])
  }

  /** Both slots of every live edge point at its two halves. */
  ghost predicate SlotsOk(g: Graph, h: Halves) {
    forall e :: e in g ==>
                  && e < |h.slot0| && e < |h.slot1|
                  && HalfAt(h.adj, g[e].0, h.slot0[e], g[e].1, e)
                  && HalfAt(h.adj, g[e].1, h.slot1[e], g[e].0, e)
  }

  ghost predicate AdjacencyOk(g: Graph, h: Halves) {
    EntriesOk(g, h) && SlotsOk(g, h)
  }

  /** The table holds exactly the keys of the live edges. */
  ghost predicate TableMatches(g: Graph, table: map<nat, nat>) {
    && (forall e :: e in g ==> KeyOf(g, e) in table && table[KeyOf(g, e)] == e)
    && (forall k :: k in table ==> table[k] in g && KeyOf(g, table[k]) == k)
  }

  /** Free ids are dead and listed once. */
  ghost predicate FreeOk(freeIds: seq<nat>, eu: seq<nat>, capEdges: nat) {
    && (forall i :: 0 <= i < |freeIds| ==> freeIds[i] < capEdges && freeIds[i] < |eu| && eu[freeIds[i]] == NIL)
    && (forall i, j :: 0 <= i < j < |freeIds| ==> freeIds[i] != freeIds[j])
  }

  /** nb lists the common neighbours of u and v once each, ws the two edges to each of them. */
  ghost predicate ListsCommon(g: Graph, u: nat, v: nat, nb: seq<nat>, ws: seq<Wedge>) {
    && |nb| == |ws|
    && (forall i :: 0 <= i < |nb| ==> Joins(g, ws[i].e1, u, nb[i]) && Joins(g, ws[i].e2, v, nb[i]))
    && (forall i, j :: 0 <= i < j < |nb| ==> nb[i] != nb[j])
    && (forall w, e1, e2 :: Joins(g, e1, u, w) && Joins(g, e2, v, w) ==> w in nb)
  }

  /** The common neighbours of the ends of an edge are its triangles. */
  lemma CommonAreTriangles(g: Graph, e: nat, u: nat, v: nat, nb: seq<nat>, ws: seq<Wedge>)
    requires Simple(g) && Joins(g, e, u, v) && ListsCommon(g, u, v, nb, ws)
    ensures Enumerates(Triangles(g), e, ws)
  {
    hide Triangles;
    forall i | 0 <= i < |ws|
      ensures ws[i].e1 != e && ws[i].e2 != e && ws[i].e1 != ws[i].e2 && Tri(e, ws[i]) in Triangles(g)
    {
      TriangleOn(g, e, u, v, nb[i], ws[i].e1, ws[i].e2);
    }
    forall i, j | 0 <= i < j < |ws| ensures Tri(e, ws[i]) != Tri(e, ws[j]) {
      TriangleOn(g, e, u, v, nb[i], ws[i].e1, ws[i].e2);
      TriangleOn(g, e, u, v, nb[j], ws[j].e1, ws[j].e2);
      assert ws[i].e1 in Tri(e, ws[i]) && ws[i].e1 != e;
      assert ws[i].e1 != ws[j].e1 && ws[i].e1 != ws[j].e2;
    }
    forall t | t in Triangles(g) && e in t ensures exists i :: 0 <= i < |ws| && t == Tri(e, ws[i]) {
      var i := ListedTriangle(g, e, u, v, nb, ws, t);
    }
  }

  lemma ListedTriangle(g: Graph, e: nat, u: nat, v: nat, nb: seq<nat>, ws: seq<Wedge>, t: Triangle) returns (i: nat)
    requires Simple(g) && Joins(g, e, u, v) && ListsCommon(g, u, v, nb, ws)
    requires t in Triangles(g) && e in t
    ensures i < |ws| && t == Tri(e, ws[i])
  {
    hide Triangles;
    var w, e1, e2 := ThirdVertex(g, t, e);
    if g[e] == (u, v) {
      assert w in nb;
      i :| 0 <= i < |nb| && nb[i] == w;
      JoinsUnique(g, e1, ws[i].e1, u, w);
      JoinsUnique(g, e2, ws[i].e2, v, w);
    } else {
      assert Joins(g, e2, u, w) && Joins(g, e1, v, w);
      assert w in nb;
      i :| 0 <= i < |nb| && nb[i] == w;
      JoinsUnique(g, e2, ws[i].e1, u, w);
      JoinsUnique(g, e1, ws[i].e2, v, w);
    }
  }

  /** Joining u and v does not change their common neighbours. */
  lemma CommonAfterJoin(g: Graph, u: nat, v: nat, e: nat, nb: seq<nat>, ws: seq<Wedge>)
    requires Simple(g) && u != v && e !in g && ListsCommon(g, u, v, nb, ws)
    ensures ListsCommon(g[e := if u < v then (u, v) else (v, u)], u, v, nb, ws)
  {
    var g' := g[e := if u < v then (u, v) else (v, u)];
    forall w, e1, e2 | Joins(g', e1, u, w) && Joins(g', e2, v, w) ensures w in nb {
      assert e1 != e && e2 != e;
      assert Joins(g, e1, u, w) && Joins(g, e2, v, w);
    }
  }

  lemma EntriesDistinct(g: Graph, h: Halves, x: nat, i: nat, j: nat)
    requires Simple(g) && AdjacencyOk(g, h)
    requires x < |h.adj| && i < |h.adj[x]| && j < |h.adj[x]| && h.adj[x][i].nbr == h.adj[x][j].nbr
    ensures i == j
  {
    assert EntryOk(g, h, x, i, h.adj[x][i]);
    assert EntryOk(g, h, x, j, h.adj[x][j]);
    JoinsUnique(g, h.adj[x][i].eid, h.adj[x][j].eid, x, h.adj[x][i].nbr);
  }

  /** An edge at x has its half in the list of x. */
  lemma EntryOf(g: Graph, h: Halves, e: nat, x: nat, y: nat) returns (i: nat)
    requires AdjacencyOk(g, h) && Joins(g, e, x, y)
    ensures x < |h.adj| && i < |h.adj[x]| && h.adj[x][i] == EdgeRef(y, e)
  {
    i := if g[e] == (x, y) then h.slot0[e] else h.slot1[e];
  }

  /** The table answers whether two vertices are joined. */
  lemma HasKey(g: Graph, table: map<nat, nat>, u: nat, v: nat)
    requires SmallEnds(g) && TableMatches(g, table) && u < VERTEX_SPACE && v < VERTEX_SPACE
    ensures EKey(u, v) in table <==> exists e :: Joins(g, e, u, v)
    ensures EKey(u, v) in table ==> Joins(g, table[EKey(u, v)], u, v)
  {
    KeyRoundTrip(u, v);
    if EKey(u, v) in table {
      var e := table[EKey(u, v)];
      KeyInjective(u, v, g[e].0, g[e].1);
      assert Joins(g, e, u, v);
    }
    if e :| Joins(g, e, u, v) {
      assert KeyOf(g, e) == EKey(u, v);
    }
  }

  // ---------------------------------------------------------------- adding and removing halves

  /** Appending the two halves of a new edge keeps the lists and slots consistent. */
  lemma AppendHalves(g: Graph, h: Halves, e: nat, u: nat, v: nat)
    requires AdjacencyOk(g, h) && e !in g && u < v < |h.adj| && e < |h.slot0| && e < |h.slot1|
    ensures AdjacencyOk(g[e := (u, v)], h.Joined(e, u, v))
  {
    var g', h' := g[e := (u, v)], h.Joined(e, u, v);
    forall x, i | 0 <= x < |h'.adj| && 0 <= i < |h'.adj[x]| ensures EntryOk(g', h', x, i, h'.adj[x][i]) {
      if i < |h.adj[x]| {
        assert EntryOk(g, h, x, i, h.adj[x][i]);
      }
    }
  }

  /** Slots are right except for the halves of e in the lists of the vertices in gone. */
  ghost predicate SlotsOkBut(g: Graph, h: Halves, e: nat, gone: set<nat>) {
    forall f :: f in g ==>
                  && f < |h.slot0| && f < |h.slot1|
                  && (f != e || g[f].0 !in gone ==> HalfAt(h.adj, g[f].0, h.slot0[f], g[f].1, f))
                  && (f != e || g[f].1 !in gone ==> HalfAt(h.adj, g[f].1, h.slot1[f], g[f].0, f))
  }

  /** The lists of the vertices in gone have no half of e. */
  ghost predicate NoHalf(adj: seq<seq<EdgeRef>>, e: nat, gone: set<nat>) {
    forall x, i :: x in gone && x < |adj| && 0 <= i < |adj[x]| ==> adj[x][i].eid != e
  }

  /** The situation in which the half of e is taken off the list of x. */
  ghost predicate HalfReady(g: Graph, h: Halves, x: nat, p: nat, e: nat, gone: set<nat>) {
    && (forall f :: f in g ==> g[f].0 < g[f].1)
    && EntriesOk(g, h) && SlotsOkBut(g, h, e, gone) && NoHalf(h.adj, e, gone)
    && e in g && x !in gone
    && ((x == g[e].0 && p == h.slot0[e]) || (x == g[e].1 && p == h.slot1[e]))
  }

  lemma HalfInList(g: Graph, h: Halves, x: nat, p: nat, e: nat, gone: set<nat>)
    requires HalfReady(g, h, x, p, e, gone)
    ensures x < |h.adj| && p < |h.adj[x]| && h.adj[x][p].eid == e
    ensures EntryOk(g, h, x, |h.adj[x]| - 1, h.adj[x][|h.adj[x]| - 1])
    ensures forall i :: 0 <= i < |h.adj[x]| && h.adj[x][i].eid == e ==> i == p
  {
    forall i | 0 <= i < |h.adj[x]| && h.adj[x][i].eid == e ensures i == p {
      assert EntryOk(g, h, x, i, h.adj[x][i]);
    }
  }

  /** The last half in the list of x can be moved to position p. */
  ghost predicate LastHalf(g: Graph, h: Halves, x: nat, p: nat, first: bool) {
    && x < |h.adj| && p < |h.adj[x]|
    && EntryOk(g, h, x, |h.adj[x]| - 1, h.adj[x][|h.adj[x]| - 1])
    && first == (g[h.adj[x][|h.adj[x]| - 1].eid].0 == x)
  }

  lemma MovedEntries(g: Graph, h: Halves, x: nat, p: nat, e: nat, gone: set<nat>, first: bool)
    requires HalfReady(g, h, x, p, e, gone) && LastHalf(g, h, x, p, first)
    ensures EntriesOk(g, h.Moved(x, p, first))
  {
    var h' := h.Moved(x, p, first);
    hide SlotsOkBut, NoHalf;
    forall y, i | 0 <= y < |h'.adj| && 0 <= i < |h'.adj[y]| ensures EntryOk(g, h', y, i, h'.adj[y][i]) {
      assert EntryOk(g, h, y, i, h.adj[y][i]);
    }
  }

  /** Where a half other than the one taken off is after the move. */
  lemma MovedHalf(g: Graph, h: Halves, x: nat, p: nat, first: bool, y: nat, i: nat, z: nat, f: nat)
    requires LastHalf(g, h, x, p, first) && HalfAt(h.adj, y, i, z, f) && (y == x ==> i != p)
    ensures HalfAt(h.Moved(x, p, first).adj, y, if y == x && i == |h.adj[x]| - 1 then p else i, z, f)
  {}

  lemma MovedSlotsOk(g: Graph, h: Halves, x: nat, p: nat, e: nat, gone: set<nat>, first: bool)
    requires HalfReady(g, h, x, p, e, gone) && LastHalf(g, h, x, p, first)
    ensures SlotsOkBut(g, h.Moved(x, p, first), e, gone + {x})
  {
    MovedFirstEnds(g, h, x, p, e, gone, first);
    MovedSecondEnds(g, h, x, p, e, gone, first);
    hide HalfAt, EntriesOk, NoHalf;
  }

  lemma MovedFirstEnds(g: Graph, h: Halves, x: nat, p: nat, e: nat, gone: set<nat>, first: bool)
    requires HalfReady(g, h, x, p, e, gone) && LastHalf(g, h, x, p, first)
    ensures var h' := h.Moved(x, p, first);
            forall f :: f in g && (f != e || g[f].0 !in gone + {x}) ==>
                          HalfAt(h'.adj, g[f].0, At(h'.slot0, f), g[f].1, f)
  {
    HalfInList(g, h, x, p, e, gone);
    hide EntriesOk, NoHalf;
    var h' := h.Moved(x, p, first);
    forall f | f in g && (f != e || g[f].0 !in gone + {x})
      ensures HalfAt(h'.adj, g[f].0, At(h'.slot0, f), g[f].1, f)
    {
      MovedHalf(g, h, x, p, first, g[f].0, h.slot0[f], g[f].1, f);
    }
  }

  lemma MovedSecondEnds(g: Graph, h: Halves, x: nat, p: nat, e: nat, gone: set<nat>, first: bool)
    requires HalfReady(g, h, x, p, e, gone) && LastHalf(g, h, x, p, first)
    ensures var h' := h.Moved(x, p, first);
            forall f :: f in g && (f != e || g[f].1 !in gone + {x}) ==>
                          HalfAt(h'.adj, g[f].1, At(h'.slot1, f), g[f].0, f)
  {
    HalfInList(g, h, x, p, e, gone);
    hide EntriesOk, NoHalf;
    var h' := h.Moved(x, p, first);
    forall f | f in g && (f != e || g[f].1 !in gone + {x})
      ensures HalfAt(h'.adj, g[f].1, At(h'.slot1, f), g[f].0, f)
    {
      MovedHalf(g, h, x, p, first, g[f].1, h.slot1[f], g[f].0, f);
    }
  }

  lemma MovedNoHalf(g: Graph, h: Halves, x: nat, p: nat, e: nat, gone: set<nat>, first: bool)
    requires HalfReady(g, h, x, p, e, gone) && LastHalf(g, h, x, p, first)
    ensures NoHalf(h.Moved(x, p, first).adj, e, gone + {x})
  {
    HalfInList(g, h, x, p, e, gone);
    hide EntriesOk, SlotsOkBut;
  }

  lemma FirstHalfReady(s: Arrays, e: nat)
    requires GraphInv(s) && e in s.G()
    ensures HalfReady(s.G(), s.h, s.eu[e], s.h.slot0[e], e, {})
  {
    hide EntriesOk;
  }

  lemma SecondHalfReady(g: Graph, h: Halves, p: nat, e: nat)
    requires forall f :: f in g ==> g[f].0 < g[f].1
    requires e in g && e < |h.slot1| && p == h.slot1[e]
    requires EntriesOk(g, h) && SlotsOkBut(g, h, e, {} + {g[e].0})
             && NoHalf(h.adj, e, {} + {g[e].0})
    ensures HalfReady(g, h, g[e].1, p, e, {g[e].0})
  {
    assert {} + {g[e].0} == {g[e].0};
    hide EntriesOk, SlotsOkBut, NoHalf;
  }

  /** Overwrites the half of e in the list of x by the last half there and re-points its slot. */
  method RemoveHalf(h: Halves, eu: seq<nat>, x: nat, p: nat, ghost g: Graph, ghost e: nat, ghost gone: set<nat>)
    returns (h': Halves)
    requires HalfReady(g, h, x, p, e, gone)
    requires forall f :: f in g ==> f < |eu| && eu[f] == g[f].0
    ensures |h'.adj| == |h.adj| && |h'.slot0| == |h.slot0| && |h'.slot1| == |h.slot1|
    ensures x == g[e].0 && g[e].1 !in gone ==> h'.slot1[e] == h.slot1[e]
    ensures EntriesOk(g, h') && SlotsOkBut(g, h', e, gone + {x}) && NoHalf(h'.adj, e, gone + {x})
  {
    hide HalfReady, EntriesOk, SlotsOkBut, NoHalf, LastHalf;
    LastReady(g, h, x, p, e, gone);
    var last := h.adj[x][|h.adj[x]| - 1];
    var first := eu[last.eid] == x;
    HalfMoved(g, h, x, p, e, gone, first);
    if first {
      h' := h.(slot0 := h.slot0[last.eid := p]);
    } else {
      h' := h.(slot1 := h.slot1[last.eid := p]);
    }
    h' := h'.(adj := h.adj[x := h.adj[x][p := last][..|h.adj[x]| - 1]]);
  }

  lemma LastReady(g: Graph, h: Halves, x: nat, p: nat, e: nat, gone: set<nat>)
    requires HalfReady(g, h, x, p, e, gone)
    ensures x < |h.adj| && p < |h.adj[x]|
    ensures var last := h.adj[x][|h.adj[x]| - 1].eid;
            last in g && last < |h.slot0| && last < |h.slot1| && LastHalf(g, h, x, p, g[last].0 == x)
    ensures e in g && e < |h.slot1|
  {
    HalfInList(g, h, x, p, e, gone);
    hide EntriesOk, NoHalf;
  }

  /** What the move of the last half does. */
  lemma HalfMoved(g: Graph, h: Halves, x: nat, p: nat, e: nat, gone: set<nat>, first: bool)
    requires HalfReady(g, h, x, p, e, gone) && LastHalf(g, h, x, p, first)
    ensures var h' := h.Moved(x, p, first);
            && (e < |h.slot1| && (x == g[e].0 && g[e].1 !in gone ==> h'.slot1[e] == h.slot1[e]))
            && EntriesOk(g, h') && SlotsOkBut(g, h', e, gone + {x}) && NoHalf(h'.adj, e, gone + {x})
  {
    HalfInList(g, h, x, p, e, gone);
    MovedEntries(g, h, x, p, e, gone, first);
    MovedSlotsOk(g, h, x, p, e, gone, first);
    MovedNoHalf(g, h, x, p, e, gone, first);
    SlotKept(g, h, x, p, e, gone, first);
    hide EntriesOk, SlotsOkBut, NoHalf, EntryOk;
  }

  lemma SlotKept(g: Graph, h: Halves, x: nat, p: nat, e: nat, gone: set<nat>, first: bool)
    requires HalfReady(g, h, x, p, e, gone) && LastHalf(g, h, x, p, first)
    ensures e < |h.slot1| && (x == g[e].0 && g[e].1 !in gone ==> h.Moved(x, p, first).slot1[e] == h.slot1[e])
  {
    hide EntriesOk, NoHalf;
  }

  /** Without any half of e left, the lists describe the graph without e. */
  lemma HalvesGone(g: Graph, h: Halves, e: nat)
    requires EntriesOk(g, h) && e in g
    requires SlotsOkBut(g, h, e, {g[e].0, g[e].1}) && NoHalf(h.adj, e, {g[e].0, g[e].1})
    ensures AdjacencyOk(g - {e}, h)
  {
    forall x, i | 0 <= x < |h.adj| && 0 <= i < |h.adj[x]| ensures EntryOk(g - {e}, h, x, i, h.adj[x][i]) {
      assert EntryOk(g, h, x, i, h.adj[x][i]);
    }
  }

  ghost function SkippedIds(capEdges: nat, freeIds: seq<nat>, g: Graph): int {
    capEdges - |freeIds| - |g|
  }

  /** A removed edge's id is free, not skipped. */
  lemma RemovalSkipsNone(capEdges: nat, freeIds: seq<nat>, g: Graph, e: nat)
    requires e in g
    ensures SkippedIds(capEdges, freeIds + [e], g - {e}) == SkippedIds(capEdges, freeIds, g)
  {
    assert (g - {e}).Keys == g.Keys - {e};
  }

  lemma WithoutKey(table: map<nat, nat>, k: nat)
    ensures k !in table ==> table - {k} == table
    ensures k in table ==> |table - {k}| == |table| - 1
  {
    assert (table - {k}).Keys == table.Keys - {k};
  }

  /** Adding a fresh pair of ends under a fresh id keeps the table in step with the graph. */
  lemma TableAdd(g: Graph, table: map<nat, nat>, e: nat, u: nat, v: nat)
    requires SmallEnds(g) && Simple(g) && TableMatches(g, table) && e !in g && u < v < VERTEX_SPACE
    requires forall f :: f in g ==> g[f] != (u, v)
    ensures EKey(u, v) !in table
    ensures TableMatches(g[e := (u, v)], table[EKey(u, v) := e])
  {
    forall f | f in g ensures KeyOf(g, f) != EKey(u, v) {
      KeyInjective(g[f].0, g[f].1, u, v);
    }
  }

  lemma TableRemove(g: Graph, table: map<nat, nat>, e: nat)
    requires TableMatches(g, table) && e in g
    ensures TableMatches(g - {e}, table - {KeyOf(g, e)})
  {}

  function Resize(s: seq<nat>, size: nat, fill: nat): (r: seq<nat>)
    ensures |r| == size
    ensures forall i :: 0 <= i < size ==> r[i] == if i < |s| then s[i] else fill
  {
    if size <= |s| then s[..size] else s + seq(size - |s|, _ => fill)
  }

  lemma ResizeSame(a: seq<nat>, b: seq<nat>, c: seq<nat>, d: seq<nat>)
    requires |a| == |b| == |c| == |d|
    ensures Resize(a, |a|, NIL) == a && Resize(b, |a|, NIL) == b && Resize(c, |a|, 0) == c && Resize(d, |a|, 0) == d
  {}

  // ---------------------------------------------------------------- the representation invariant

  /** The arrays of a graph: endpoint arrays, slots, adjacency lists and free ids fit together. */
  ghost predicate GraphInv(s: Arrays) {
    && |s.eu| == |s.ev| == |s.h.slot0| == |s.h.slot1|
    && s.capEdges <= |s.eu| && s.capEdges < NIL
    && (forall e :: s.capEdges <= e < |s.eu| ==> s.eu[e] == NIL)
    && |s.h.adj| == s.n <= NIL
    && Simple(s.G()) && (forall e :: e in s.G() ==> s.G()[e].1 < s.n)
    && AdjacencyOk(s.G(), s.h)
    && FreeOk(s.freeIds, s.eu, s.capEdges)
    && s.m == |s.G()|
  }

  lemma ArraysBounds(s: Arrays)
    requires GraphInv(s)
    ensures |s.eu| == |s.ev| == |s.h.slot0| == |s.h.slot1| >= s.capEdges && |s.h.adj| == s.n <= NIL
    ensures s.capEdges < NIL && Simple(s.G()) && SmallEnds(s.G())
    ensures forall e :: e in s.G() ==> e < s.capEdges && s.G()[e] == (s.eu[e], s.ev[e]) && s.eu[e] != NIL
    ensures forall e :: e in s.G() ==> s.G()[e].0 < s.G()[e].1 < s.n
    ensures forall e: nat :: e < |s.eu| && s.eu[e] != NIL ==> e in s.G()
    ensures forall e :: e in s.freeIds ==> e < s.capEdges && s.eu[e] == NIL
  {
    hide AdjacencyOk;
  }

  /** A graph without edges. */
  lemma EmptyInv(s: Arrays)
    requires s.n <= NIL && s.capEdges < NIL && |s.h.adj| == s.n && s.m == 0 && s.freeIds == []
    requires |s.eu| == |s.ev| == |s.h.slot0| == |s.h.slot1| == s.capEdges
    requires forall x :: 0 <= x < s.n ==> s.h.adj[x] == []
    requires forall e :: 0 <= e < s.capEdges ==> s.eu[e] == NIL
    ensures s.G() == map[] && GraphInv(s) && TableMatches(s.G(), map[])
  {}

  /** Growing the arrays, or moving the id limit up, adds only dead ids. */
  lemma GrowInv(s: Arrays, cap: nat, ns: nat)
    requires GraphInv(s)
    requires s.capEdges <= cap <= ns && cap < NIL
    ensures s.Grown(cap, ns).G() == s.G() && GraphInv(s.Grown(cap, ns))
    ensures forall e: nat :: s.capEdges <= e < ns ==> s.Grown(cap, ns).eu[e] == NIL && e !in s.G()
  {
    hide AdjacencyOk, Simple, FreeOk;
    var s' := s.Grown(cap, ns);
    assert s'.G() == s.G();
    SlotsAgree(s.G(), s.h, s'.h);
    FreeAgree(s.freeIds, s.eu, s.capEdges, s'.eu, cap);
  }

  lemma FreeAgree(freeIds: seq<nat>, eu: seq<nat>, capEdges: nat, eu': seq<nat>, cap: nat)
    requires FreeOk(freeIds, eu, capEdges) && capEdges <= cap
    requires forall e :: 0 <= e < |eu| && eu[e] == NIL && e < capEdges ==> e < |eu'| && eu'[e] == NIL
    ensures FreeOk(freeIds, eu', cap)
  {}

  /** Only the slots of live edges matter. */
  lemma SlotsAgree(g: Graph, h: Halves, h': Halves)
    requires AdjacencyOk(g, h) && h'.adj == h.adj
    requires forall e :: e in g ==> e < |h'.slot0| && e < |h'.slot1| && e < |h.slot0| && e < |h.slot1|
                                    && h'.slot0[e] == h.slot0[e] && h'.slot1[e] == h.slot1[e]
    ensures AdjacencyOk(g, h')
  {
    forall x, i | 0 <= x < |h.adj| && 0 <= i < |h.adj[x]| ensures EntryOk(g, h', x, i, h.adj[x][i]) {
      assert EntryOk(g, h, x, i, h.adj[x][i]);
    }
  }

  /** Taking the last free id off the list. */
  lemma PopFreeInv(s: Arrays)
    requires GraphInv(s) && s.freeIds != []
    ensures GraphInv(s.(freeIds := s.freeIds[..|s.freeIds| - 1]))
    ensures var e := s.freeIds[|s.freeIds| - 1];
            e < s.capEdges && s.eu[e] == NIL && e !in s.freeIds[..|s.freeIds| - 1] && e !in s.G()
  {
    hide AdjacencyOk;
  }

  /** Entering an edge under a dead id. */
  lemma AttachInv(s: Arrays, e: nat, u: nat, v: nat)
    requires GraphInv(s)
    requires e < s.capEdges && s.eu[e] == NIL && e !in s.freeIds && u < v < s.n
    requires forall f :: f in s.G() ==> s.G()[f] != (u, v)
    ensures s.Attached(e, u, v).G() == s.G()[e := (u, v)] && GraphInv(s.Attached(e, u, v))
  {
    hide AdjacencyOk, Simple, FreeOk;
    var g := s.G();
    assert s.Attached(e, u, v).G() == g[e := (u, v)];
    assert Simple(g[e := (u, v)]) by { SimpleJoin(g, e, u, v); }
    FreeUse(s.freeIds, s.eu, s.capEdges, e, u);
    AppendHalves(g, s.h, e, u, v);
  }

  lemma SimpleJoin(g: Graph, e: nat, u: nat, v: nat)
    requires Simple(g) && e !in g && u < v && forall f :: f in g ==> g[f] != (u, v)
    ensures Simple(g[e := (u, v)])
  {}

  lemma FreeUse(freeIds: seq<nat>, eu: seq<nat>, capEdges: nat, e: nat, u: nat)
    requires FreeOk(freeIds, eu, capEdges) && e !in freeIds && e < |eu|
    ensures FreeOk(freeIds, eu[e := u], capEdges)
  {}

  /** Dropping an edge once both its halves are off the lists. */
  lemma DetachInv(s: Arrays, e: nat, h': Halves)
    requires GraphInv(s) && e in s.G()
    requires |h'.adj| == s.n && |h'.slot0| == |h'.slot1| == |s.eu|
    requires AdjacencyOk(s.G() - {e}, h')
    ensures s.m > 0 && e < |s.eu| == |s.ev|
    ensures s.Detached(e, h').G() == s.G() - {e} && GraphInv(s.Detached(e, h'))
  {
    hide AdjacencyOk, Simple;
    var g := s.G();
    assert (g - {e}).Keys == g.Keys - {e};
    assert s.Detached(e, h').G() == g - {e};
    assert Simple(g - {e}) by {
      DeleteEdges(g, {e});
    }
  }

  /** The endpoint arrays as the removal of an edge reads them. */
  lemma LiveEnds(s: Arrays, e: nat)
    requires GraphInv(s) && e in s.G()
    ensures |s.eu| == |s.ev| == |s.h.slot0| == |s.h.slot1| && |s.h.adj| == s.n && e < |s.eu|
            && s.G()[e] == (s.eu[e], s.ev[e])
    ensures forall f :: f in s.G() ==> s.G()[f].0 < s.G()[f].1
    ensures forall f :: f in s.G() ==> f < |s.eu| && s.eu[f] == s.G()[f].0
  {
    hide AdjacencyOk, FreeOk;
  }

  /** Takes both halves of e off the lists. */
  method DetachHalves(s: Arrays, e: nat) returns (h': Halves)
    requires GraphInv(s) && e in s.G()
    ensures s.m > 0 && e < |s.eu| == |s.ev|
    ensures s.Detached(e, h').G() == s.G() - {e} && GraphInv(s.Detached(e, h'))
  {
    hide GraphInv, GraphOf, HalfReady, AdjacencyOk, EntriesOk, SlotsOkBut, NoHalf;
    ghost var g := s.G();
    LiveEnds(s, e);
    var u, v := s.eu[e], s.ev[e];
    var p0, p1 := s.h.slot0[e], s.h.slot1[e];
    FirstHalfReady(s, e);
    h' := RemoveHalf(s.h, s.eu, u, p0, g, e, {});
    SecondHalfReady(g, h', p1, e);
    h' := RemoveHalf(h', s.eu, v, p1, g, e, {u});
    assert {u} + {v} == {u, v};
    HalvesGone(g, h', e);
    DetachInv(s, e, h');
  }

  /** What a scan of the list of x sees: its edges once each. */
  ghost predicate ListsNeighbours(g: Graph, x: nat, list: seq<EdgeRef>) {
    && (forall i :: 0 <= i < |list| ==> Joins(g, list[i].eid, x, list[i].nbr))
    && (forall i, j :: 0 <= i < j < |list| ==> list[i].nbr != list[j].nbr)
    && (forall y, e :: Joins(g, e, x, y) ==> EdgeRef(y, e) in list)
  }

  lemma ListFacts(s: Arrays, x: nat)
    requires GraphInv(s) && x < s.n
    ensures ListsNeighbours(s.G(), x, s.h.adj[x])
    ensures forall i :: 0 <= i < |s.h.adj[x]| ==> s.h.adj[x][i].nbr < s.n && s.h.adj[x][i].eid in s.G()
  {
    var g := s.G();
    hide GraphOf, FreeOk;
    forall i | 0 <= i < |s.h.adj[x]|
      ensures Joins(g, s.h.adj[x][i].eid, x, s.h.adj[x][i].nbr) && s.h.adj[x][i].nbr < s.n
    {
      assert EntryOk(g, s.h, x, i, s.h.adj[x][i]);
    }
    forall i, j | 0 <= i < j < |s.h.adj[x]| ensures s.h.adj[x][i].nbr != s.h.adj[x][j].nbr {
      if s.h.adj[x][i].nbr == s.h.adj[x][j].nbr {
        EntriesDistinct(g, s.h, x, i, j);
      }
    }
    forall y, e | Joins(g, e, x, y) ensures EdgeRef(y, e) in s.h.adj[x] {
      var i := EntryOf(g, s.h, e, x, y);
    }
  }

  /** e is among the first n entries of the list. */
  ghost predicate HasEid(list: seq<EdgeRef>, n: nat, e: nat) {
    exists j :: 0 <= j < n && j < |list| && list[j].eid == e
  }

  lemma EidsNext(list: seq<EdgeRef>, i: nat)
    requires i < |list|
    ensures forall e: nat :: HasEid(list, i + 1, e) <==> HasEid(list, i, e) || list[i].eid == e
  {
    forall e: nat ensures HasEid(list, i + 1, e) <==> HasEid(list, i, e) || list[i].eid == e {
      if HasEid(list, i, e) {
        var j :| 0 <= j < i && j < |list| && list[j].eid == e;
        assert list[j].eid == e;
      }
      if list[i].eid == e {
        assert HasEid(list, i + 1, e);
      }
    }
  }

  /** The entries in the lists of both ends of e are the edges that meet it. */
  lemma ListsMeet(g: Graph, e: nat, listU: seq<EdgeRef>, listV: seq<EdgeRef>)
    requires Simple(g) && e in g
    requires ListsNeighbours(g, g[e].0, listU) && ListsNeighbours(g, g[e].1, listV)
    ensures forall f: nat :: Meets(g, e, f) <==>
                             || (exists i :: 0 <= i < |listU| && listU[i].eid == f)
                             || (exists i :: 0 <= i < |listV| && listV[i].eid == f)
  {
    forall f: nat | Meets(g, e, f)
      ensures (exists i :: 0 <= i < |listU| && listU[i].eid == f) || (exists i :: 0 <= i < |listV| && listV[i].eid == f)
    {
      if g[f].0 == g[e].0 || g[f].1 == g[e].0 {
        var y := if g[f].0 == g[e].0 then g[f].1 else g[f].0;
        assert EdgeRef(y, f) in listU;
      } else {
        var y := if g[f].0 == g[e].1 then g[f].1 else g[f].0;
        assert EdgeRef(y, f) in listV;
      }
    }
    forall i | 0 <= i < |listU| ensures Meets(g, e, listU[i].eid) {}
    forall i | 0 <= i < |listV| ensures Meets(g, e, listV[i].eid) {}
  }

  /** The marks are the neighbours of u with their edges. */
  ghost predicate MarksNeighbours(g: Graph, u: nat, marks: map<nat, nat>) {
    && (forall w, e :: Joins(g, e, u, w) ==> w in marks && marks[w] == e)
    && (forall w :: w in marks ==> Joins(g, marks[w], u, w))
  }

  lemma MarksComplete(g: Graph, u: nat, list: seq<EdgeRef>, marks: map<nat, nat>)
    requires Simple(g) && ListsNeighbours(g, u, list)
    requires forall j :: 0 <= j < |list| ==> list[j].nbr in marks
    requires forall w :: w in marks ==> Joins(g, marks[w], u, w)
    ensures MarksNeighbours(g, u, marks)
  {
    forall w, e | Joins(g, e, u, w) ensures w in marks && marks[w] == e {
      assert EdgeRef(w, e) in list;
      JoinsUnique(g, e, marks[w], u, w);
    }
  }

  /** Scanning the list of v for marked neighbours of u finds the common neighbours. */
  lemma CommonComplete(g: Graph, u: nat, v: nat, list: seq<EdgeRef>, marks: map<nat, nat>,
                       nb: seq<nat>, ws: seq<Wedge>, src: seq<nat>)
    requires ListsNeighbours(g, v, list) && MarksNeighbours(g, u, marks)
    requires |nb| == |ws| == |src|
    requires forall j :: 0 <= j < |src| ==>
                           && src[j] < |list| && nb[j] == list[src[j]].nbr && nb[j] in marks
                           && ws[j] == Wedge(marks[nb[j]], list[src[j]].eid)
    requires forall j, l :: 0 <= j < l < |src| ==> src[j] < src[l]
    requires forall l :: 0 <= l < |list| && list[l].nbr in marks ==> list[l].nbr in nb
    ensures ListsCommon(g, u, v, nb, ws)
  {
    hide Joins;
    forall w, e1, e2 | Joins(g, e1, u, w) && Joins(g, e2, v, w) ensures w in nb {
      assert EdgeRef(w, e2) in list;
      assert w in marks;
    }
  }

  /** Picks the marked entries of a list; src says where each came from. */
  method ScanList(list: seq<EdgeRef>, st: StampSet) returns (ghost nb: seq<nat>, ws: seq<Wedge>, ghost src: seq<nat>)
    requires st.Valid() && forall i :: 0 <= i < |list| ==> list[i].nbr < |st.s|
    ensures |nb| == |ws| == |src|
    ensures forall j :: 0 <= j < |src| ==>
                          && src[j] < |list| && nb[j] == list[src[j]].nbr && nb[j] in st.Marks()
                          && ws[j] == Wedge(st.Marks()[nb[j]], list[src[j]].eid)
    ensures forall j, l :: 0 <= j < l < |src| ==> src[j] < src[l]
    ensures forall l :: 0 <= l < |list| && list[l].nbr in st.Marks() ==> list[l].nbr in nb
  {
    hide StampSet.Marks, StampSet.Valid;
    ghost var marks := st.Marks();
    nb, ws, src := [], [], [];
    for i := 0 to |list|
      invariant |nb| == |ws| == |src|
      invariant forall j :: 0 <= j < |src| ==>
                              && src[j] < i && nb[j] == list[src[j]].nbr && nb[j] in marks
                              && ws[j] == Wedge(marks[nb[j]], list[src[j]].eid)
      invariant forall j, l :: 0 <= j < l < |src| ==> src[j] < src[l]
      invariant forall l :: 0 <= l < i && list[l].nbr in marks ==> list[l].nbr in nb
    {
      var r := list[i];
      if st.Test(r.nbr) {
        nb := nb + [r.nbr];
        ws := ws + [Wedge(st.MarkedEid(r.nbr), r.eid)];
        src := src + [i];
      }
    }
  }

  // ---------------------------------------------------------------- the object

  class DynGraph {
    /** The mixing function of the table; nothing depends on which one it is. */
    const hash: nat -> nat

    var n: nat
    var m: nat
    var capEdges: nat
    var adj: seq<seq<EdgeRef>>
    var eu: seq<nat>
    var ev: seq<nat>
    var slot0: seq<nat>
    var slot1: seq<nat>
    var freeIds: seq<nat>

    var hkey: seq<nat>
    var hval: seq<nat>
    var hmask: nat
    var hused: nat
    var hcount: nat
    /** The map the table stands for. */
    ghost var table: map<nat, nat>

    ghost predicate TableOk()
      reads `hkey, `hval, `hmask, `hused, `hcount, `table
    {
      && hmask + 1 >= 16 && PowerOfTwo(hmask + 1) && |hval| == hmask + 1
      && Represents(hash, hkey, hval, table)
      && |Used(hval)| <= hused && 2 * hused <= hmask + 1
      && hcount == |table| <= hused
    }

    /** The live edges with their endpoints. */
    ghost function G(): Graph
      reads `eu, `ev
    {
      GraphOf(eu, ev)
    }

    function Arr(): Arrays
      reads this
    {
      Arrays(n, m, capEdges, eu, ev, Halves(adj, slot0, slot1), freeIds)
    }

    ghost predicate Valid()
      reads this
    {
      && GraphInv(Arr())
      && TableOk() && TableMatches(G(), table)
    }

    /** set_vertices, reserve_edges and init_hash, as the loader calls them. */
    constructor (vertices: nat, edges: nat, hashCap: nat, mix: nat -> nat)
      requires vertices <= 0xFFFF_FFFF && edges < 0xFFFF_FFFF
      ensures Valid() && G() == map[] && n == vertices && hash == mix
    {
      hide GraphInv, GraphOf, Represents, Used, PowerOfTwo, TableOk;
      hash := mix;
      n := vertices;
      m := 0;
      adj := seq(vertices, _ => []);
      capEdges := edges;
      eu := seq(edges, _ => NIL);
      ev := seq(edges, _ => NIL);
      slot0 := seq(edges, _ => 0);
      slot1 := seq(edges, _ => 0);
      freeIds := [];
      new;
      InitHash(hashCap) by { hide GraphInv; }
      EmptyInv(Arr());
    }

    /** How many ids below the limit are neither live nor free: reserve_edges passed over them. */
    ghost function Skipped(): int
      reads this
    {
      SkippedIds(capEdges, freeIds, G())
    }

    /** There are ids for a graph with this many edges. */
    ghost predicate Room(edges: nat)
      reads this
    {
      edges + Skipped() < 0xFFFF_FFFF
    }

    /** The ids passed over count against the room. */
    lemma RoomIs(edges: nat)
      ensures Room(edges) <==> edges + (capEdges - |freeIds| - |G()|) < 0xFFFF_FFFF
    {}

    lemma RoomForOne(edges: nat)
      requires |G()| < edges && edges + Skipped() < 0xFFFF_FFFF
      ensures freeIds != [] || capEdges + 1 < 0xFFFF_FFFF
    {}

    predicate Alive(e: nat)
      requires e < |eu|
      reads `eu
    {
      eu[e] != NIL
    }

    method InitHash(cap: nat)
      modifies `hkey, `hval, `hmask, `hused, `hcount, `table
      ensures TableOk() && table == map[] && hmask + 1 >= 2 * cap
    {
      hide Represents, Used, PowerOfTwo;
      var sz := 16;
      SixteenIsPower();
      while sz < cap * 2
        invariant sz >= 16 && PowerOfTwo(sz)
        decreases cap * 2 - sz
      {
        DoublePower(sz);
        sz := sz * 2;
      }
      hkey := seq(sz, _ => 0);
      hval := seq(sz, _ => 0);
      hmask := sz - 1;
      hused := 0;
      hcount := 0;
      table := map[];
      EmptyTable(hash, hkey, hval);
    }

    /** Writes an absent key into the first empty or deleted slot of its probe path. */
    method RawInsert(k: nat, v: nat)
      requires |hval| == hmask + 1 && Represents(hash, hkey, hval, table)
      requires |Used(hval)| < |hval| && k !in table && v != 0 && v != TOMBSTONE
      modifies `hkey, `hval, `table
      ensures |hval| == hmask + 1 && Represents(hash, hkey, hval, table)
      ensures table == old(table)[k := v - 1]
      ensures |Used(hval)| <= old(|Used(hval)|) + 1
    {
      assert |hkey| == |hval|;
      hide Represents, PathFull;
      var i := FreeSlot(hash, hval, k);
      InsertSlot(hash, hkey, hval, table, k, v, i);
      hkey := hkey[i := k];
      hval := hval[i := v];
      table := table[k := v - 1];
    }

    /** Moves all live entries into fresh arrays of the given size; the map stays the same. */
    method Rehash(sz: nat)
      requires |hval| == hmask + 1 && Represents(hash, hkey, hval, table)
      requires sz > |table|
      modifies `hkey, `hval, `hmask, `hused, `hcount, `table
      ensures |hval| == hmask + 1 == sz && Represents(hash, hkey, hval, table)
      ensures table == old(table)
      ensures |Used(hval)| <= hused == hcount == |table|
    {
      hide Represents, Used, BitAnd;
      assert Represents(hash, hkey, hval, table);
      var ok, ov := LiveEntries(hkey, hval, table) by { RepresentsParts(hash, hkey, hval, table); }
      ghost var tab := table;
      hkey := seq(sz, _ => 0);
      hval := seq(sz, _ => 0);
      hmask := sz - 1;
      hused := |ok|;
      hcount := |ok|;
      table := map[];
      EmptyTable(hash, hkey, hval);
      ReinsertAll(ok, ov, tab);
    }

    /** Puts the saved entries into the fresh arrays. */
    method ReinsertAll(ok: seq<nat>, ov: seq<nat>, ghost tab: map<nat, nat>)
      requires |hval| == hmask + 1 && Represents(hash, hkey, hval, table) && table == map[] && |Used(hval)| == 0
      requires |ok| == |ov| == |tab| < |hval|
      requires forall j, l :: 0 <= j < l < |ok| ==> ok[j] != ok[l]
      requires forall k :: k in tab <==> k in ok
      requires forall j :: 0 <= j < |ok| ==> ok[j] in tab && ov[j] == tab[ok[j]] + 1 && ov[j] != TOMBSTONE
      modifies `hkey, `hval, `table
      ensures |hval| == hmask + 1 && Represents(hash, hkey, hval, table)
      ensures table == tab && |Used(hval)| <= |tab|
    {
      hide Represents, Used;
      for i := 0 to |ok|
        invariant |hval| == hmask + 1 && Represents(hash, hkey, hval, table)
        invariant |Used(hval)| <= i
        invariant forall k :: k in table <==> k in ok[..i]
        invariant forall k :: k in table ==> table[k] == tab[k]
      {
        RawInsert(ok[i], ov[i]);
      }
      assert ok[..|ok|] == ok;
      assert table == tab;
    }

    method HashInsert(k: nat, v: nat)
      requires TableOk() && k !in table && v != 0 && v != TOMBSTONE
      modifies `hkey, `hval, `hmask, `hused, `hcount, `table
      ensures TableOk() && table == old(table)[k := v - 1]
    {
      hide Represents, Used, PowerOfTwo;
      DoublePower(hmask + 1);
      if (hused + 1) * 2 > hmask + 1 {
        Rehash((hmask + 1) * 2);
      }
      RawInsert(k, v);
      hused := hused + 1;
      hcount := hcount + 1;
    }

    /** The id stored under k, or -1; also before the table is set up. */
    method Find(k: nat) returns (r: int)
      requires TableOk() || (hmask == 0 && table == map[])
      ensures r == if k in table then table[k] else -1
    {
      if hmask == 0 {
        return -1;
      }
      var i := KeySlot(hash, hkey, hval, table, k);
      r := if hval[i] == 0 then -1 else hval[i] - 1;
    }

    /** Deletes k if it is present. */
    method HashDelete(k: nat)
      requires TableOk()
      modifies `hval, `hcount, `table
      ensures TableOk() && table == old(table) - {k}
    {
      hide Represents, Used, PowerOfTwo;
      assert Represents(hash, hkey, hval, table) && |Used(hval)| < |hval|;
      var i := KeySlot(hash, hkey, hval, table, k);
      WithoutKey(table, k);
      if hval[i] != 0 {
        DeleteSlot(hash, hkey, hval, table, i);
        hval := hval[i := TOMBSTONE];
        hcount := hcount - 1;
        table := table - {k};
      }
    }

    method Has(u: nat, v: nat) returns (b: bool)
      requires Valid() && u < VERTEX_SPACE && v < VERTEX_SPACE
      ensures b <==> exists e :: Joins(G(), e, u, v)
    {
      var r := Find(EKey(u, v));
      HasKey(G(), table, u, v);
      b := r >= 0;
    }

    /** reserve_edges: makes room for ids below cap; the ids it skips stay dead and off the free list. */
    method ReserveEdges(cap: nat)
      requires Valid() && cap < 0xFFFF_FFFF
      modifies `capEdges, `eu, `ev, `slot0, `slot1
      ensures Valid() && G() == old(G())
      ensures capEdges == if cap <= old(capEdges) then old(capEdges) else cap
    {
      hide GraphInv, TableOk, TableMatches;
      if cap <= capEdges {
        return;
      }
      GrowInv(Arr(), cap, cap);
      capEdges := cap;
      eu := Resize(eu, cap, NIL);
      ev := Resize(ev, cap, NIL);
      slot0 := Resize(slot0, cap, 0);
      slot1 := Resize(slot1, cap, 0);
    }

    /** Takes an id off the free list, or the next unused one. */
    method TakeId() returns (eid: nat)
      requires Valid() && (freeIds != [] || capEdges + 1 < 0xFFFF_FFFF)
      modifies `capEdges, `eu, `ev, `slot0, `slot1, `freeIds
      ensures Valid() && G() == old(G())
      ensures eid < capEdges <= |eu| && !Alive(eid) && eid !in freeIds && eid !in G()
      ensures capEdges - |freeIds| == old(capEdges - |freeIds|) + 1
      ensures capEdges == old(capEdges) || (capEdges == old(capEdges) + 1 && eid + 1 == capEdges)
    {
      hide GraphInv, TableOk, TableMatches, GraphOf, Simple, SmallEnds, Resize;
      Sizes();
      if freeIds != [] {
        PopFreeInv(Arr());
        eid := freeIds[|freeIds| - 1];
        freeIds := freeIds[..|freeIds| - 1];
      } else {
        var ns := if capEdges + 1 > |eu| then |eu| * 2 + 1024 else |eu|;
        GrowInv(Arr(), capEdges + 1, ns);
        eid := capEdges;
        capEdges := capEdges + 1;
        if capEdges > |eu| {
          eu := Resize(eu, ns, NIL);
          ev := Resize(ev, ns, NIL);
          slot0 := Resize(slot0, ns, 0);
          slot1 := Resize(slot1, ns, 0);
        } else {
          ResizeSame(eu, ev, slot0, slot1);
        }
      }
    }

    /** Enters the edge uv under a dead id. */
    method AttachEdge(eid: nat, u: nat, v: nat)
      requires Valid() && eid < capEdges <= |eu| && !Alive(eid) && eid !in freeIds
      requires u < v < n && forall f :: f in G() ==> G()[f] != (u, v)
      modifies this
      ensures Valid() && G() == old(G())[eid := (u, v)]
      ensures n == old(n) && capEdges == old(capEdges) && freeIds == old(freeIds) && |eu| == old(|eu|)
    {
      hide GraphInv, TableOk, TableMatches, GraphOf, Simple, SmallEnds;
      Sizes();
      DeadEdge(eid);
      AttachInv(Arr(), eid, u, v);
      TableAdd(G(), table, eid, u, v);
      eu := eu[eid := u];
      ev := ev[eid := v];
      slot0 := slot0[eid := |adj[u]|];
      slot1 := slot1[eid := |adj[v]|];
      adj := adj[u := adj[u] + [EdgeRef(v, eid)]][v := adj[v] + [EdgeRef(u, eid)]];
      HashInsert(EKey(u, v), eid + 1);
      m := m + 1;
    }

    /** What callers need of the invariant. */
    lemma InvBounds()
      requires Valid()
      ensures |eu| == |ev| == |slot0| == |slot1| >= capEdges && |adj| == n <= NIL && capEdges < NIL
      ensures Simple(G()) && SmallEnds(G())
      ensures forall e :: e in G() ==> e < capEdges && G()[e] == (eu[e], ev[e]) && Alive(e)
      ensures forall e :: e in G() ==> G()[e].0 < G()[e].1 < n
      ensures forall e: nat :: e < |eu| && Alive(e) ==> e in G()
      ensures forall e :: e in freeIds ==> e < capEdges && !Alive(e)
    {
      ArraysBounds(Arr());
      hide GraphInv, TableOk, TableMatches, GraphOf, Simple, SmallEnds;
    }

    lemma Sizes()
      requires Valid()
      ensures |eu| == |ev| == |slot0| == |slot1| >= capEdges && |adj| == n <= NIL && capEdges < NIL
      ensures Simple(G()) && SmallEnds(G())
    {
      hide TableOk, TableMatches;
      InvBounds();
    }

    lemma LiveEdge(e: nat)
      requires Valid() && e in G()
      ensures e < |eu| && e < |ev| && G()[e] == (eu[e], ev[e])
    {
      hide TableOk, TableMatches, GraphInv;
    }

    lemma EdgeEnds(e: nat, u: nat, v: nat)
      requires Valid() && Joins(G(), e, u, v)
      ensures e in G() && u < n && v < n && n <= NIL
    {
      hide TableOk, TableMatches, GraphOf;
      InvBounds();
    }

    lemma DeadEdge(e: nat)
      requires Valid() && e < |eu| && !Alive(e)
      ensures e !in G()
    {
      hide TableOk, TableMatches, GraphInv;
    }

    lemma IdsBelow()
      requires Valid()
      ensures capEdges <= |eu| && forall e :: e in G() ==> e < capEdges
    {
      hide GraphInv, TableOk, TableMatches, GraphOf, Simple, SmallEnds;
      InvBounds();
    }

    /** The triangles of the graph form a proper system. */
    lemma SysProper()
      requires Valid()
      ensures Sys(G()).Valid() && Sys(G()).Linear()
    {
      hide GraphInv, TableOk, TableMatches, GraphOf, Simple, Triangles, TriSys.Valid, TriSys.Linear;
      InvBounds();
      SysOk(G());
    }

    /** What a scan of a list sees. */
    lemma ListOk(x: nat)
      requires Valid() && x < n
      ensures x < |adj| && ListsNeighbours(G(), x, adj[x])
      ensures forall i :: 0 <= i < |adj[x]| ==> adj[x][i].nbr < n && adj[x][i].eid in G() && adj[x][i].eid < capEdges
    {
      hide GraphInv, TableOk, TableMatches, GraphOf;
      InvBounds();
      ListFacts(Arr(), x);
    }

    method AddEdge(a: nat, b: nat) returns (eid: nat)
      requires Valid() && a < n && b < n && a != b && (freeIds != [] || capEdges + 1 < 0xFFFF_FFFF)
      requires !exists e :: Joins(G(), e, a, b)
      modifies this
      ensures Valid() && n == old(n) && eid !in old(G()) && Skipped() == old(Skipped())
      ensures capEdges == old(capEdges) || (capEdges == old(capEdges) + 1 && eid + 1 == capEdges)
      ensures G() == old(G())[eid := if a < b then (a, b) else (b, a)]
    {
      hide GraphInv, TableOk, TableMatches, Valid, GraphOf;
      var u, v := a, b;
      if u > v {
        u, v := v, u;
      }
      assert forall f :: f in G() && G()[f] == (u, v) ==> Joins(G(), f, a, b);
      eid := TakeId();
      AttachEdge(eid, u, v);
    }

    method RemoveEdge(eid: nat)
      requires Valid() && eid in G()
      modifies this
      ensures Valid() && G() == old(G()) - {eid}
      ensures n == old(n) && capEdges == old(capEdges) && |eu| == old(|eu|)
      ensures freeIds == old(freeIds) + [eid] && Skipped() == old(Skipped())
    {
      hide TableOk, TableMatches, GraphInv, GraphOf, Simple, SmallEnds, EKey, SkippedIds;
      LiveEdge(eid);
      TableRemove(G(), table, eid);
      RemovalSkipsNone(capEdges, freeIds, G(), eid);
      var u, v := eu[eid], ev[eid];
      var h := DetachHalves(Arr(), eid);
      adj, slot0, slot1 := h.adj, h.slot0, h.slot1;
      HashDelete(EKey(u, v));
      eu := eu[eid := NIL];
      ev := ev[eid := NIL];
      freeIds := freeIds + [eid];
      m := m - 1;
    }

    /** Marks the neighbours of u, recording the edge to each. */
    method MarkNeighbours(u: nat, st: StampSet)
      requires Valid() && u < n && st.Valid() && |st.s| >= n
      modifies st
      ensures st.Valid() && |st.s| == old(|st.s|)
      ensures MarksNeighbours(G(), u, st.Marks())
    {
      hide GraphInv, TableOk, TableMatches, GraphOf, Joins, StampSet.Marks, StampSet.Valid;
      InvBounds();
      ListFacts(Arr(), u);
      st.NextEpoch();
      ghost var g := G();
      for i := 0 to |adj[u]|
        invariant st.Valid() && |st.s| == old(|st.s|)
        invariant forall j :: 0 <= j < i ==> adj[u][j].nbr in st.Marks()
        invariant forall w :: w in st.Marks() ==> Joins(g, st.Marks()[w], u, w)
      {
        var r := adj[u][i];
        st.Mark(r.nbr, r.eid);
      }
      MarksComplete(g, u, adj[u], st.Marks());
    }

    /** Lists the common neighbours of u and v with the two edges to each. */
    method CommonNeighbours(u: nat, v: nat, st: StampSet) returns (ghost nb: seq<nat>, ws: seq<Wedge>)
      requires Valid() && u < n && v < n && st.Valid() && |st.s| >= n
      modifies st
      ensures st.Valid() && |st.s| == old(|st.s|)
      ensures ListsCommon(G(), u, v, nb, ws)
    {
      hide GraphInv, TableOk, TableMatches, GraphOf, Joins, MarksNeighbours, ListsCommon, StampSet.Marks,
           StampSet.Valid;
      InvBounds();
      ListFacts(Arr(), v);
      MarkNeighbours(u, st);
      ghost var src;
      nb, ws, src := ScanList(adj[v], st);
      CommonComplete(G(), u, v, adj[v], st.Marks(), nb, ws, src);
    }

    /** Lists the triangles on a live edge. */
    method EdgeTriangles(e: nat, st: StampSet) returns (ws: seq<Wedge>)
      requires Valid() && e in G() && st.Valid() && |st.s| >= n
      modifies st
      ensures st.Valid() && |st.s| == old(|st.s|)
      ensures Enumerates(Triangles(G()), e, ws)
    {
      hide GraphInv, TableOk, TableMatches, GraphOf, ListsCommon, Enumerates, Triangles;
      InvBounds();
      ghost var nb;
      nb, ws := CommonNeighbours(eu[e], ev[e], st);
      CommonAreTriangles(G(), e, eu[e], ev[e], nb, ws);
    }
  }
}
