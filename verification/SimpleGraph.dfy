/**
 Simple undirected graphs whose edges carry ids, their triangles, and the key that
 packs an edge's endpoints into one number.
 */
module SimpleGraph {
  import opened FiniteSets
  import opened Truss

  /** Edge id to endpoints, the smaller endpoint first. */
  type Graph = map<nat, (nat, nat)>

  ghost predicate Simple(g: Graph) {
    && (forall e :: e in g ==> g[e].0 < g[e].1)
    && (forall e, f :: e in g && f in g && g[e] == g[f] ==> e == f)
  }

  ghost predicate Joins(g: Graph, e: nat, x: nat, y: nat) {
    e in g && (g[e] == (x, y) || g[e] == (y, x))
  }

  /** a, b and c are the edges xy, xz and yz of some vertices x < y < z. */
  ghost predicate Corner(g: Graph, a: nat, b: nat, c: nat) {
    && a in g && b in g && c in g
    && g[a].0 == g[b].0 && g[a].1 == g[c].0 && g[b].1 == g[c].1
  }

  ghost function Triangles(g: Graph): set<Triangle> {
    set a, b, c | a in g && b in g && c in g && Corner(g, a, b, c) :: {a, b, c}
  }

  ghost function Sys(g: Graph): TriSys {
    TriSys(g.Keys, Triangles(g))
  }

  lemma CornerOf(g: Graph, t: Triangle) returns (a: nat, b: nat, c: nat)
    requires t in Triangles(g)
    ensures Corner(g, a, b, c) && t == {a, b, c}
  {
    a, b, c :| a in g && b in g && c in g && Corner(g, a, b, c) && t == {a, b, c};
  }

  /** Two edges at the ends of e that meet in a vertex w close a triangle with e. */
  lemma TriangleOn(g: Graph, e: nat, u: nat, v: nat, w: nat, e1: nat, e2: nat)
    requires Simple(g)
    requires Joins(g, e, u, v) && Joins(g, e1, u, w) && Joins(g, e2, v, w)
    ensures {e, e1, e2} in Triangles(g)
    ensures e != e1 && e != e2 && e1 != e2
  {
    if u < v {
      if w < u {
        assert Corner(g, e1, e2, e) && {e, e1, e2} == {e1, e2, e};
      } else if w < v {
        assert Corner(g, e1, e, e2) && {e, e1, e2} == {e1, e, e2};
      } else {
        assert Corner(g, e, e1, e2);
      }
    } else {
      if w < v {
        assert Corner(g, e2, e1, e) && {e, e1, e2} == {e2, e1, e};
      } else if w < u {
        assert Corner(g, e2, e, e1) && {e, e1, e2} == {e2, e, e1};
      } else {
        assert Corner(g, e, e2, e1) && {e, e1, e2} == {e, e2, e1};
      }
    }
  }

  /** Every triangle on the edge e = uv has a third vertex w joined to u and to v. */
  lemma ThirdVertex(g: Graph, t: Triangle, e: nat) returns (w: nat, e1: nat, e2: nat)
    requires Simple(g) && t in Triangles(g) && e in t
    ensures e in g && t == {e, e1, e2}
    ensures Joins(g, e1, g[e].0, w) && Joins(g, e2, g[e].1, w)
  {
    var a, b, c := CornerOf(g, t);
    if e == a {
      w, e1, e2 := g[b].1, b, c;
    } else if e == b {
      w, e1, e2 := g[a].1, a, c;
    } else {
      w, e1, e2 := g[a].0, a, b;
    }
  }

  lemma JoinsUnique(g: Graph, e: nat, f: nat, x: nat, y: nat)
    requires Simple(g) && Joins(g, e, x, y) && Joins(g, f, x, y)
    ensures e == f
  {}

  lemma SysOk(g: Graph)
    requires Simple(g)
    ensures Sys(g).Valid() && Sys(g).Linear()
    ensures forall t :: t in Triangles(g) ==> |t| == 3
  {
    forall t | t in Triangles(g) ensures t <= g.Keys && |t| == 3 {
      var a, b, c := CornerOf(g, t);
      assert |{a, b, c}| == 3;
    }
    forall t1, t2, a, b |
      t1 in Triangles(g) && t2 in Triangles(g) && a != b && a in t1 && b in t1 && a in t2 && b in t2
      ensures t1 == t2
    {
      SharedPair(g, t1, t2, a, b);
    }
  }

  lemma SharedPair(g: Graph, t1: Triangle, t2: Triangle, a: nat, b: nat)
    requires Simple(g) && t1 in Triangles(g) && t2 in Triangles(g)
    requires a != b && a in t1 && b in t1 && a in t2 && b in t2
    ensures t1 == t2
  {
    var w, e1, e2 := ThirdVertex(g, t1, a);
    var x, f1, f2 := ThirdVertex(g, t2, a);
    assert b == e1 || b == e2;
    assert b == f1 || b == f2;
    assert x == w;
    JoinsUnique(g, e1, f1, g[a].0, w);
    JoinsUnique(g, e2, f2, g[a].1, w);
  }

  /** Deleting a set of edges destroys exactly the triangles that use one of them. */
  lemma DeleteEdges(g: Graph, d: set<nat>)
    ensures Triangles(g - d) == Avoiding(Triangles(g), d)
    ensures Simple(g) ==> Simple(g - d)
  {
    var h := g - d;
    forall t | t in Triangles(h) ensures t in Avoiding(Triangles(g), d) {
      var a, b, c := CornerOf(h, t);
      assert Corner(g, a, b, c);
    }
    forall t | t in Avoiding(Triangles(g), d) ensures t in Triangles(h) {
      var a, b, c := CornerOf(g, t);
      assert a in t && b in t && c in t;
      assert Corner(h, a, b, c);
    }
  }

  /** Deleting one edge from a graph is removing it from the triangle system. */
  lemma DeleteOne(g: Graph, e: nat)
    requires e in g
    ensures Without(Sys(g - {e}), Sys(g), e)
  {
    DeleteEdges(g, {e});
    assert (g - {e}).Keys == g.Keys - {e};
  }

  // ---------------------------------------------------------------- triangle enumeration

  /** The ids of the edges uw and vw of a triangle on the edge uv. */
  datatype Wedge = Wedge(e1: nat, e2: nat)

  function Tri(e: nat, w: Wedge): Triangle {
    {e, w.e1, w.e2}
  }

  /** ws lists every triangle on e exactly once. */
  ghost predicate Enumerates(tris: set<Triangle>, e: nat, ws: seq<Wedge>) {
    && (forall i :: 0 <= i < |ws| ==>
                      ws[i].e1 != e && ws[i].e2 != e && ws[i].e1 != ws[i].e2 && Tri(e, ws[i]) in tris)
    && (forall i, j :: 0 <= i < j < |ws| ==> Tri(e, ws[i]) != Tri(e, ws[j]))
    && (forall t :: t in tris && e in t ==> exists i :: 0 <= i < |ws| && t == Tri(e, ws[i]))
  }

  lemma EnumerationCount(tris: set<Triangle>, e: nat, ws: seq<Wedge>)
    requires Enumerates(tris, e, ws)
    ensures |ws| == Deg(tris, e)
  {
    var s := seq(|ws|, i requires 0 <= i < |ws| => Tri(e, ws[i]));
    forall t | t in Inc(tris, e) ensures t in s {
      var i :| 0 <= i < |ws| && t == Tri(e, ws[i]);
      assert s[i] == t;
    }
    DistinctCard(s, Inc(tris, e));
  }

  // ---------------------------------------------------------------- edge keys

  const VERTEX_SPACE: nat := 0x1_0000_0000

  /** The packed endpoints of an edge; independent of the order they are given in. */
  function EKey(u: nat, v: nat): (k: nat) {
    if u < v then u * VERTEX_SPACE + v else v * VERTEX_SPACE + u
  }

  function KeyEnds(k: nat): (nat, nat) {
    (k / VERTEX_SPACE, k % VERTEX_SPACE)
  }

  lemma KeyRoundTrip(u: nat, v: nat)
    requires u < 0x1_0000_0000 && v < 0x1_0000_0000
    ensures EKey(u, v) == EKey(v, u)
    ensures KeyEnds(EKey(u, v)) == if u < v then (u, v) else (v, u)
    ensures EKey(u, v) < 0x1_0000_0000_0000_0000
  {}

  lemma KeyInjective(u: nat, v: nat, x: nat, y: nat)
    requires u < VERTEX_SPACE && v < VERTEX_SPACE && x < VERTEX_SPACE && y < VERTEX_SPACE
    ensures EKey(u, v) == EKey(x, y) <==> (u == x && v == y) || (u == y && v == x)
  {
    KeyRoundTrip(u, v);
    KeyRoundTrip(x, y);
  }

  ghost predicate SmallEnds(g: Graph) {
    forall e :: e in g ==> g[e].0 < VERTEX_SPACE && g[e].1 < VERTEX_SPACE
  }

  function KeyOf(g: Graph, e: nat): nat
    requires e in g
  {
    EKey(g[e].0, g[e].1)
  }

  /** The graph as a plain set of edge keys, without ids. */
  ghost function Keys(g: Graph): set<nat> {
    set e | e in g :: KeyOf(g, e)
  }

  /** The graph in which every edge is its own key. */
  ghost function Canonical(keys: set<nat>): Graph {
    map k | k in keys :: KeyEnds(k)
  }

  ghost predicate EdgeKeys(keys: set<nat>) {
    forall k :: k in keys ==> KeyEnds(k).0 < KeyEnds(k).1
  }

  /** The trussness of an edge in the graph with the given edge keys: ids play no part. */
  ghost function KeyTruss(keys: set<nat>, k: nat): nat
    requires k in keys
  {
    Trussness(Sys(Canonical(keys)), k)
  }

  lemma KeysOk(g: Graph)
    requires Simple(g) && SmallEnds(g)
    ensures EdgeKeys(Keys(g))
    ensures forall e, f :: e in g && f in g && KeyOf(g, e) == KeyOf(g, f) ==> e == f
    ensures Simple(Canonical(Keys(g)))
    ensures forall e :: e in g ==> KeyOf(g, e) in Canonical(Keys(g)) && Canonical(Keys(g))[KeyOf(g, e)] == g[e]
  {
    forall e | e in g ensures KeyEnds(KeyOf(g, e)) == g[e] {
      KeyRoundTrip(g[e].0, g[e].1);
    }
    CanonicalSimple(Keys(g));
  }

  lemma CanonicalSimple(keys: set<nat>)
    requires EdgeKeys(keys)
    ensures Simple(Canonical(keys))
  {
    forall j, k | j in keys && k in keys && KeyEnds(j) == KeyEnds(k) ensures j == k {
      assert j == KeyEnds(j).0 * VERTEX_SPACE + KeyEnds(j).1;
    }
  }

  lemma KeysInjective(g: Graph)
    requires Simple(g) && SmallEnds(g)
    ensures forall e, f :: e in g && f in g && KeyOf(g, e) == KeyOf(g, f) ==> e == f
  {
    forall e, f | e in g && f in g && KeyOf(g, e) == KeyOf(g, f) ensures e == f {
      KeyInjective(g[e].0, g[e].1, g[f].0, g[f].1);
    }
  }

  ghost function EdgeWith(g: Graph, k: nat): nat {
    if e :| e in g && KeyOf(g, e) == k then e else 0
  }

  /** A graph has as many keys as edges. */
  lemma KeysCard(g: Graph)
    requires Simple(g) && SmallEnds(g)
    ensures |Keys(g)| == |g|
  {
    KeysInjective(g);
    hide Simple, SmallEnds, EKey;
    var key := e => if e in g then KeyOf(g, e) else 0;
    var edge := k => EdgeWith(g, k);
    assert InjectiveOn(key, g.Keys);
    ImageInto(key, g.Keys, Keys(g));
    forall k | k in Keys(g) ensures edge(k) in g.Keys && KeyOf(g, edge(k)) == k {}
    assert InjectiveOn(edge, Keys(g));
    ImageInto(edge, Keys(g), g.Keys);
  }

  /** Every edge renamed to its key. */
  lemma CanonicalRenames(g: Graph) returns (f: map<nat, nat>)
    requires Simple(g) && SmallEnds(g)
    ensures Simple(Canonical(Keys(g))) && Renames(g, Canonical(Keys(g)), f)
    ensures f.Keys == g.Keys && forall e :: e in g ==> f[e] == KeyOf(g, e) && f[e] in Keys(g)
  {
    hide Simple, SmallEnds, KeyEnds, Renames, EdgeKeys;
    KeysOk(g);
    f := map e | e in g :: KeyOf(g, e);
    assert Canonical(Keys(g)).Keys == Keys(g);
    KeyMapRenames(g, Canonical(Keys(g)), f);
  }

  lemma KeyMapRenames(g: Graph, h: Graph, f: map<nat, nat>)
    requires f.Keys == g.Keys && h.Keys == Keys(g)
    requires forall e :: e in g ==> f[e] == KeyOf(g, e) && f[e] in h && h[f[e]] == g[e]
    ensures Renames(g, h, f)
  {
    hide KeyOf;
    forall d | d in h ensures exists e :: e in g && f[e] == d {
      assert d in Keys(g);
      var e :| e in g && KeyOf(g, e) == d;
      assert f[e] == d;
    }
  }

  /** The same endpoint pairs under a renaming of edge ids. */
  ghost predicate Renames(g: Graph, h: Graph, f: map<nat, nat>) {
    && f.Keys == g.Keys
    && (forall e :: e in g ==> f[e] in h && h[f[e]] == g[e])
    && (forall d :: d in h ==> exists e :: e in g && f[e] == d)
  }

  ghost function Image(f: map<nat, nat>, s: set<nat>): set<nat>
    requires s <= f.Keys
  {
    set e | e in s :: f[e]
  }

  lemma ImageInjective(g: Graph, h: Graph, f: map<nat, nat>, s: set<nat>, t: set<nat>)
    requires Simple(g) && Renames(g, h, f) && s <= g.Keys && t <= g.Keys
    requires Image(f, s) <= Image(f, t)
    ensures s <= t
  {
    forall e | e in s ensures e in t {
      assert f[e] in Image(f, t);
    }
  }

  /** Renaming edge ids does not change any trussness. */
  lemma Renaming(g: Graph, h: Graph, f: map<nat, nat>)
    requires Simple(g) && Simple(h) && Renames(g, h, f)
    ensures forall e :: e in g ==> Trussness(Sys(g), e) == Trussness(Sys(h), f[e])
  {
    var b := Inverse(g, h, f);
    hide Renames, Simple;
    RenamingBelow(g, h, f);
    RenamingBelow(h, g, b);
  }

  /** A renaming of simple graphs can be undone. */
  lemma Inverse(g: Graph, h: Graph, f: map<nat, nat>) returns (b: map<nat, nat>)
    requires Simple(g) && Renames(g, h, f)
    ensures Renames(h, g, b)
    ensures f.Keys == g.Keys && b.Keys == h.Keys
    ensures forall e :: e in g ==> f[e] in h && b[f[e]] == e
  {
    b := map d | d in h :: (var e :| e in g && f[e] == d; e);
    forall d | d in h ensures b[d] in g && g[b[d]] == h[d] {}
    forall e | e in g ensures b[f[e]] == e {}
  }

  lemma RenamingBelow(g: Graph, h: Graph, f: map<nat, nat>)
    requires Simple(g) && Simple(h) && Renames(g, h, f)
    ensures forall e :: e in g ==> Trussness(Sys(g), e) <= Trussness(Sys(h), f[e])
  {
    forall e | e in g ensures Trussness(Sys(g), e) <= Trussness(Sys(h), f[e]) {
      var k := Trussness(Sys(g), e);
      var s: set<nat> :| s <= g.Keys && e in s && Supports(Triangles(g), s, k);
      var s' := Image(f, s);
      forall d | d in s' ensures Deg(Within(Triangles(h), s'), d) + 2 >= k {
        var x :| x in s && f[x] == d;
        RenamedDegree(g, h, f, s, x);
      }
      SupportsBound(Sys(h), s', k);
    }
  }

  /** The image of a triangle is a triangle on the images of its edges. */
  lemma RenamedTriangle(g: Graph, h: Graph, f: map<nat, nat>, t: Triangle)
    requires Renames(g, h, f) && t in Triangles(g)
    ensures t <= f.Keys && Image(f, t) in Triangles(h)
  {
    var a, b, c := CornerOf(g, t);
    assert Corner(h, f[a], f[b], f[c]);
    assert Image(f, t) == {f[a], f[b], f[c]};
  }

  ghost function ImageOrEmpty(f: map<nat, nat>, s: set<nat>): set<nat> {
    if s <= f.Keys then Image(f, s) else {}
  }

  lemma RenamedDegree(g: Graph, h: Graph, f: map<nat, nat>, s: set<nat>, x: nat)
    requires Simple(g) && Simple(h) && Renames(g, h, f) && s <= g.Keys && x in s
    ensures Deg(Within(Triangles(g), s), x) <= Deg(Within(Triangles(h), Image(f, s)), f[x])
  {
    var dom := Inc(Within(Triangles(g), s), x);
    var all := Inc(Within(Triangles(h), Image(f, s)), f[x]);
    forall t | t in dom ensures ImageOrEmpty(f, t) in all {
      RenamedTriangle(g, h, f, t);
    }
    assert InjectiveOn(t => ImageOrEmpty(f, t), dom) by {
      RenamedApart(g, h, f);
      hide Triangles, ImageOrEmpty;
    }
    ImageInto(t => ImageOrEmpty(f, t), dom, all);
  }

  /** Different triangles have different images. */
  lemma RenamedApart(g: Graph, h: Graph, f: map<nat, nat>)
    requires Simple(g) && Renames(g, h, f)
    ensures forall t1, t2 :: t1 in Triangles(g) && t2 in Triangles(g) && ImageOrEmpty(f, t1) == ImageOrEmpty(f, t2) ==>
                    t1 == t2
  {
    hide Triangles, Image;
    forall t1, t2 | t1 in Triangles(g) && t2 in Triangles(g)
        && ImageOrEmpty(f, t1) == ImageOrEmpty(f, t2) ensures t1 == t2 {
      RenamedTriangle(g, h, f, t1);
      RenamedTriangle(g, h, f, t2);
      ImageInjective(g, h, f, t1, t2);
      ImageInjective(g, h, f, t2, t1);
    }
  }

  /** The trussness of an edge is determined by the set of edge keys alone. */
  lemma TrussByKeys(g: Graph)
    requires Simple(g) && SmallEnds(g)
    ensures forall e :: e in g ==> KeyOf(g, e) in Keys(g) && Trussness(Sys(g), e) == KeyTruss(Keys(g), KeyOf(g, e))
  {
    var f := CanonicalRenames(g);
    hide Renames, Simple, Canonical, Keys, KeyOf;
    Renaming(g, Canonical(Keys(g)), f);
  }

  lemma KeyHolder(g: Graph, k: nat) returns (e: nat)
    requires k in Keys(g)
    ensures e in g && KeyOf(g, e) == k
  {
    e :| e in g && KeyOf(g, e) == k;
  }

  /** A bound on all values of a graph can be read off its keys. */
  lemma TrussBoundByKeys(g: Graph, bound: nat)
    requires Simple(g) && SmallEnds(g)
    ensures (forall e :: e in Sys(g).edges ==> Trussness(Sys(g), e) <= bound)
            <==> (forall k :: k in Keys(g) ==> KeyTruss(Keys(g), k) <= bound)
  {
    hide KeyTruss, Trussness, Simple, SmallEnds, KeyOf, Keys, Triangles;
    TrussByKeys(g);
    if forall e :: e in Sys(g).edges ==> Trussness(Sys(g), e) <= bound {
      forall k | k in Keys(g) ensures KeyTruss(Keys(g), k) <= bound {
        var e := KeyHolder(g, k);
        assert e in Sys(g).edges;
      }
    }
  }

  /** The number of triangles on an edge, in the graph with the given edge keys. */
  ghost function KeyDegree(keys: set<nat>, k: nat): nat {
    Deg(Triangles(Canonical(keys)), k)
  }

  /** The triangle count of an edge is determined by the set of edge keys alone. */
  lemma DegreeByKeys(g: Graph)
    requires Simple(g) && SmallEnds(g)
    ensures forall e :: e in g ==> Deg(Triangles(g), e) == KeyDegree(Keys(g), KeyOf(g, e))
  {
    var f := CanonicalRenames(g);
    var h := Canonical(Keys(g));
    var b := Inverse(g, h, f);
    hide Keys, Canonical, Renames, Simple, Deg;
    forall e | e in g ensures Deg(Triangles(g), e) == Deg(Triangles(h), f[e]) {
      DegreeBelow(g, h, f, e);
      DegreeBelow(h, g, b, f[e]);
    }
  }

  lemma DegreeBelow(g: Graph, h: Graph, f: map<nat, nat>, e: nat)
    requires Simple(g) && Simple(h) && Renames(g, h, f) && e in g
    ensures f.Keys == g.Keys && Deg(Triangles(g), e) <= Deg(Triangles(h), f[e])
  {
    AllWithin(g);
    RenamedDegree(g, h, f, g.Keys, e);
    hide Triangles, Deg, Image, Simple;
    DegMono(Within(Triangles(h), Image(f, g.Keys)), Triangles(h), f[e]);
  }

  lemma AllWithin(g: Graph)
    requires Simple(g)
    ensures Within(Triangles(g), g.Keys) == Triangles(g)
  {
    SysOk(g);
    hide Triangles, Simple;
  }

  /** Edges that share a triangle share a vertex. */
  lemma TriangleMeets(g: Graph, t: Triangle, e: nat, f: nat) returns (x: nat, y: nat)
    requires Simple(g) && t in Triangles(g) && e in t && f in t
    ensures e in g && Joins(g, f, x, y) && (x == g[e].0 || x == g[e].1)
  {
    var w, e1, e2 := ThirdVertex(g, t, e);
    if f == e {
      x, y := g[e].0, g[e].1;
    } else if f == e1 {
      x, y := g[e].0, w;
    } else {
      x, y := g[e].1, w;
    }
  }

  /** The keys after adding or deleting edges. */
  lemma KeysAdd(g: Graph, e: nat, u: nat, v: nat)
    requires e !in g
    ensures Keys(g[e := (u, v)]) == Keys(g) + {EKey(u, v)}
  {
    var h := g[e := (u, v)];
    forall k | k in Keys(g) ensures k in Keys(h) {
      var f :| f in g && KeyOf(g, f) == k;
      assert KeyOf(h, f) == k;
    }
    assert KeyOf(h, e) == EKey(u, v);
    forall k | k in Keys(h) ensures k in Keys(g) + {EKey(u, v)} {
      var f :| f in h && KeyOf(h, f) == k;
      assert f != e ==> KeyOf(g, f) == k;
    }
  }

  lemma KeysDelete(g: Graph, e: nat)
    requires Simple(g) && SmallEnds(g) && e in g
    ensures Keys(g - {e}) == Keys(g) - {KeyOf(g, e)}
  {
    var h := g - {e};
    KeysInjective(g);
    hide Simple, SmallEnds, EKey;
    forall k | k in Keys(g) && k != KeyOf(g, e) ensures k in Keys(h) {
      var f :| f in g && KeyOf(g, f) == k;
      assert KeyOf(h, f) == k;
    }
    forall k | k in Keys(h) ensures k in Keys(g) - {KeyOf(g, e)} {
      var f :| f in h && KeyOf(h, f) == k;
      assert KeyOf(g, f) == k;
    }
  }

  lemma KeyPresent(g: Graph, u: nat, v: nat)
    requires SmallEnds(g) && u < VERTEX_SPACE && v < VERTEX_SPACE
    ensures EKey(u, v) in Keys(g) <==> exists e :: Joins(g, e, u, v)
  {
    KeyRoundTrip(u, v);
    if EKey(u, v) in Keys(g) {
      var e :| e in g && KeyOf(g, e) == EKey(u, v);
      KeyInjective(u, v, g[e].0, g[e].1);
      assert Joins(g, e, u, v);
    }
    if e :| Joins(g, e, u, v) {
      assert KeyOf(g, e) == EKey(u, v);
    }
  }

  /** The ids in an enumeration are live. */
  lemma WedgeIds(g: Graph, e: nat, ws: seq<Wedge>)
    requires Simple(g) && Enumerates(Triangles(g), e, ws)
    ensures forall i :: 0 <= i < |ws| ==> ws[i].e1 in g && ws[i].e2 in g
  {
    SysOk(g);
    forall i | 0 <= i < |ws| ensures ws[i].e1 in g && ws[i].e2 in g {
      assert ws[i].e1 in Tri(e, ws[i]) && ws[i].e2 in Tri(e, ws[i]);
    }
  }

  /** e and f have an end in common; every edge meets itself. */
  ghost predicate Meets(g: Graph, e: nat, f: nat) {
    && e in g && f in g
    && (g[f].0 == g[e].0 || g[f].0 == g[e].1 || g[f].1 == g[e].0 || g[f].1 == g[e].1)
  }

  lemma MeetsSelf(g: Graph, e: nat)
    requires e in g
    ensures Meets(g, e, e)
  {}

  lemma MeetsIn(g: Graph, e: nat, f: nat)
    requires Meets(g, e, f)
    ensures e in g && f in g
  {}
}
