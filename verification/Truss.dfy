/**
 Trussness over a triangle system: a finite set of edge ids together with the finite
 set of triangles, each triangle being the set of its edge ids.
 */
module Truss {
  import opened FiniteSets

  type Triangle = set<nat>

  datatype TriSys = TriSys(edges: set<nat>, tris: set<Triangle>) {
    ghost predicate Valid() {
      forall t :: t in tris ==> t <= edges
    }

    /** Two different edges lie in at most one common triangle. */
    ghost predicate Linear() {
      forall t1, t2, a, b ::
        t1 in tris && t2 in tris && a != b && a in t1 && b in t1 && a in t2 && b in t2 ==> t1 == t2
    }
  }

  // ---------------------------------------------------------------- counting

  ghost function Inc(tris: set<Triangle>, e: nat): set<Triangle> {
    set t | t in tris && e in t
  }

  ghost function Deg(tris: set<Triangle>, e: nat): nat {
    |Inc(tris, e)|
  }

  ghost function Within(tris: set<Triangle>, s: set<nat>): set<Triangle> {
    set t | t in tris && t <= s
  }

  /** The triangles none of whose edges is in dead. */
  ghost function Avoiding(tris: set<Triangle>, dead: set<nat>): set<Triangle> {
    set t | t in tris && t !! dead
  }

  lemma DegMono(l1: set<Triangle>, l2: set<Triangle>, e: nat)
    requires Inc(l1, e) <= Inc(l2, e)
    ensures Deg(l1, e) <= Deg(l2, e)
  {
    SubsetCard(Inc(l1, e), Inc(l2, e));
  }

  lemma DegRemove(l: set<Triangle>, t: Triangle, e: nat)
    requires t in l
    ensures Deg(l - {t}, e) == Deg(l, e) - (if e in t then 1 else 0)
  {
    if e in t {
      assert Inc(l - {t}, e) == Inc(l, e) - {t};
    } else {
      assert Inc(l - {t}, e) == Inc(l, e);
    }
  }

  lemma DegAdd(l: set<Triangle>, t: Triangle, e: nat)
    requires t !in l
    ensures Deg(l + {t}, e) == Deg(l, e) + (if e in t then 1 else 0)
  {
    DegRemove(l + {t}, t, e);
    assert (l + {t}) - {t} == l;
  }

  // ---------------------------------------------------------------- specification

  /** Every edge of s lies in at least k-2 triangles made of edges of s. */
  ghost predicate Supports(tris: set<Triangle>, s: set<nat>, k: nat) {
    forall f :: f in s ==> Deg(Within(tris, s), f) + 2 >= k
  }

  /** e belongs to some k-truss. */
  ghost predicate InTruss(sys: TriSys, k: nat, e: nat) {
    exists s: set<nat> :: s <= sys.edges && e in s && Supports(sys.tris, s, k)
  }

  /** The trussness of e: the largest k such that e belongs to some k-truss. */
  ghost function Trussness(sys: TriSys, e: nat): (k: nat)
    requires e in sys.edges
    ensures InTruss(sys, k, e)
    ensures forall j: nat :: j > k ==> !InTruss(sys, j, e)
    ensures 2 <= k <= Deg(sys.tris, e) + 2
  {
    TrussBound(sys, e);
    assert InTruss(sys, 2, e) by {
      assert Supports(sys.tris, {e}, 2);
    }
    LargestInTruss(sys, e, Deg(sys.tris, e) + 2)
  }

  ghost function LargestInTruss(sys: TriSys, e: nat, k: nat): (r: nat)
    requires k >= 2 && InTruss(sys, 2, e)
    requires forall j: nat :: j > k ==> !InTruss(sys, j, e)
    ensures 2 <= r <= k && InTruss(sys, r, e)
    ensures forall j: nat :: j > r ==> !InTruss(sys, j, e)
  {
    if k == 2 || InTruss(sys, k, e) then k else LargestInTruss(sys, e, k - 1)
  }

  lemma TrussBound(sys: TriSys, e: nat)
    ensures forall k: nat :: InTruss(sys, k, e) ==> k <= Deg(sys.tris, e) + 2
  {
    forall k: nat | InTruss(sys, k, e) ensures k <= Deg(sys.tris, e) + 2 {
      var s: set<nat> :| s <= sys.edges && e in s && Supports(sys.tris, s, k);
      DegMono(Within(sys.tris, s), sys.tris, e);
    }
  }

  /** A k-truss is a j-truss for every smaller j, so membership is a threshold test. */
  lemma AtLeast(sys: TriSys, e: nat, k: nat)
    requires e in sys.edges
    ensures k <= Trussness(sys, e) <==> InTruss(sys, k, e)
  {
    if k <= Trussness(sys, e) {
      var s: set<nat> :| s <= sys.edges && e in s && Supports(sys.tris, s, Trussness(sys, e));
      assert Supports(sys.tris, s, k);
    }
  }

  /** A set in which every edge keeps k-2 triangles bounds the trussness of its edges below. */
  lemma SupportsBound(sys: TriSys, s: set<nat>, k: nat)
    requires s <= sys.edges && Supports(sys.tris, s, k)
    ensures forall e :: e in s ==> k <= Trussness(sys, e)
  {
    forall e | e in s ensures k <= Trussness(sys, e) {
      AtLeast(sys, e, k);
    }
  }

  /** The k-truss of the system: all edges of trussness at least k. */
  ghost function Core(sys: TriSys, k: nat): set<nat> {
    set e | e in sys.edges && Trussness(sys, e) >= k
  }

  /** All edges of trussness at least k form a k-truss together. */
  lemma CoreSupports(sys: TriSys, k: nat)
    ensures Supports(sys.tris, Core(sys, k), k)
  {
    var c := Core(sys, k);
    forall f | f in c ensures Deg(Within(sys.tris, c), f) + 2 >= k {
      AtLeast(sys, f, k);
      var s: set<nat> :| s <= sys.edges && f in s && Supports(sys.tris, s, k);
      SupportsBound(sys, s, k);
      DegMono(Within(sys.tris, s), Within(sys.tris, c), f);
    }
  }

  // ---------------------------------------------------------------- the local operator

  /** Array read that is total, so that specifications need no bounds. */
  function At(tau: seq<nat>, e: nat): nat {
    if e < |tau| then tau[e] else 0
  }

  /** The other edges of t have value at least k. */
  ghost predicate PartnersAtLeast(tau: seq<nat>, t: Triangle, e: nat, k: nat) {
    forall f :: f in t && f != e ==> At(tau, f) >= k
  }

  /** The triangles that witness the value k for e. */
  ghost function Witnesses(sys: TriSys, tau: seq<nat>, e: nat, k: nat): set<Triangle> {
    set t | t in sys.tris && e in t && PartnersAtLeast(tau, t, e, k)
  }

  /** e has enough witnesses for the value k. */
  ghost predicate Justified(sys: TriSys, tau: seq<nat>, e: nat, k: nat) {
    |Witnesses(sys, tau, e, k)| + 2 >= k
  }

  ghost predicate Stable(sys: TriSys, tau: seq<nat>, e: nat) {
    Justified(sys, tau, e, At(tau, e))
  }

  ghost predicate Above(sys: TriSys, tau: seq<nat>) {
    forall e :: e in sys.edges ==> At(tau, e) >= Trussness(sys, e)
  }

  ghost predicate Exact(sys: TriSys, tau: seq<nat>) {
    forall e :: e in sys.edges ==> At(tau, e) == Trussness(sys, e)
  }

  lemma WitnessMono(sys: TriSys, tau1: seq<nat>, tau2: seq<nat>, e: nat, k1: nat, k2: nat)
    requires k2 <= k1
    requires forall t, f :: t in sys.tris && e in t && f in t && f != e ==> At(tau1, f) <= At(tau2, f)
    ensures Witnesses(sys, tau1, e, k1) <= Witnesses(sys, tau2, e, k2)
    ensures |Witnesses(sys, tau1, e, k1)| <= |Witnesses(sys, tau2, e, k2)|
  {
    forall t | t in Witnesses(sys, tau1, e, k1) ensures t in Witnesses(sys, tau2, e, k2) {
      forall f | f in t && f != e ensures At(tau2, f) >= k2 {
        assert At(tau1, f) >= k1;
      }
    }
    SubsetCard(Witnesses(sys, tau1, e, k1), Witnesses(sys, tau2, e, k2));
  }

  /** The local operator F(e): the largest k with at least k-2 witnesses. */
  ghost function F(sys: TriSys, tau: seq<nat>, e: nat): (k: nat)
    ensures k >= 2 && Justified(sys, tau, e, k)
    ensures forall j: nat :: j > k ==> !Justified(sys, tau, e, j)
    ensures k <= Deg(sys.tris, e) + 2
  {
    forall j: nat ensures |Witnesses(sys, tau, e, j)| <= Deg(sys.tris, e) {
      SubsetCard(Witnesses(sys, tau, e, j), Inc(sys.tris, e));
    }
    LargestJustified(sys, tau, e, Deg(sys.tris, e) + 2)
  }

  ghost function LargestJustified(sys: TriSys, tau: seq<nat>, e: nat, k: nat): (r: nat)
    requires k >= 2
    requires forall j: nat :: j > k ==> !Justified(sys, tau, e, j)
    ensures 2 <= r <= k && Justified(sys, tau, e, r)
    ensures forall j: nat :: j > r ==> !Justified(sys, tau, e, j)
  {
    if k == 2 || Justified(sys, tau, e, k) then k else LargestJustified(sys, tau, e, k - 1)
  }

  /** Justification is a threshold too: F(e) >= k exactly when k is justified. */
  lemma FAtLeast(sys: TriSys, tau: seq<nat>, e: nat, k: nat)
    ensures k <= F(sys, tau, e) <==> Justified(sys, tau, e, k)
  {
    if k <= F(sys, tau, e) {
      WitnessMono(sys, tau, tau, e, F(sys, tau, e), k);
    }
  }

  /** F is monotone in the values of the triangle partners. */
  lemma FMonotone(sys: TriSys, tau1: seq<nat>, tau2: seq<nat>, e: nat)
    requires forall t, f :: t in sys.tris && e in t && f in t && f != e ==> At(tau1, f) <= At(tau2, f)
    ensures F(sys, tau1, e) <= F(sys, tau2, e)
  {
    var k := F(sys, tau1, e);
    WitnessMono(sys, tau1, tau2, e, k, k);
    FAtLeast(sys, tau2, e, k);
  }

  /** Values that all have their witnesses never exceed the trussness. */
  lemma StableBelow(sys: TriSys, tau: seq<nat>)
    requires sys.Valid()
    requires forall e :: e in sys.edges ==> Stable(sys, tau, e)
    ensures forall e :: e in sys.edges ==> At(tau, e) <= Trussness(sys, e)
  {
    forall e | e in sys.edges ensures At(tau, e) <= Trussness(sys, e) {
      var k := At(tau, e);
      var s := set f | f in sys.edges && At(tau, f) >= k;
      forall f | f in s ensures Deg(Within(sys.tris, s), f) + 2 >= k {
        var w := Witnesses(sys, tau, f, At(tau, f));
        assert Stable(sys, tau, f);
        forall t | t in w ensures t in Inc(Within(sys.tris, s), f) {
          forall g | g in t ensures g in s {}
        }
        SubsetCard(w, Inc(Within(sys.tris, s), f));
      }
      SupportsBound(sys, s, k);
    }
  }

  /** Evaluating F on values at or above the trussness stays at or above it. */
  lemma FAboveTruss(sys: TriSys, tau: seq<nat>, e: nat)
    requires sys.Valid() && Above(sys, tau) && e in sys.edges
    ensures F(sys, tau, e) >= Trussness(sys, e)
  {
    var k := Trussness(sys, e);
    var c := Core(sys, k);
    CoreSupports(sys, k);
    forall t | t in Inc(Within(sys.tris, c), e) ensures t in Witnesses(sys, tau, e, k) {}
    SubsetCard(Inc(Within(sys.tris, c), e), Witnesses(sys, tau, e, k));
    assert e in c;
    FAtLeast(sys, tau, e, k);
  }

  /** Trussness is the greatest fixpoint of F. */
  lemma GreatestFixpoint(sys: TriSys, tau: seq<nat>)
    requires sys.Valid()
    ensures Exact(sys, tau) ==> forall e :: e in sys.edges ==> F(sys, tau, e) == At(tau, e)
    ensures (forall e :: e in sys.edges ==> At(tau, e) <= F(sys, tau, e)) ==>
              forall e :: e in sys.edges ==> At(tau, e) <= Trussness(sys, e)
  {
    if forall e :: e in sys.edges ==> At(tau, e) <= F(sys, tau, e) {
      forall e | e in sys.edges ensures Stable(sys, tau, e) {
        FAtLeast(sys, tau, e, At(tau, e));
      }
      StableBelow(sys, tau);
    }
    if Exact(sys, tau) {
      FixpointAtTruss(sys, tau);
    }
  }

  lemma FixpointAtTruss(sys: TriSys, tau: seq<nat>)
    requires sys.Valid() && Exact(sys, tau)
    ensures forall e :: e in sys.edges ==> F(sys, tau, e) == At(tau, e)
  {
    forall e | e in sys.edges ensures F(sys, tau, e) == Trussness(sys, e) {
      FAboveTruss(sys, tau, e);
      var k := F(sys, tau, e);
      CoreAndOne(sys, tau, e, k);
      SupportsBound(sys, Core(sys, k) + {e}, k);
    }
  }

  /** The edges of trussness at least k, together with an edge justified at k, form a k-truss. */
  lemma CoreAndOne(sys: TriSys, tau: seq<nat>, e: nat, k: nat)
    requires sys.Valid() && Exact(sys, tau) && e in sys.edges && Justified(sys, tau, e, k)
    ensures Supports(sys.tris, Core(sys, k) + {e}, k)
  {
    var s := Core(sys, k) + {e};
    CoreSupports(sys, k);
    var w := Witnesses(sys, tau, e, k);
    forall t | t in w ensures t in Inc(Within(sys.tris, s), e) {
      forall g | g in t ensures g in s {}
    }
    SubsetCard(w, Inc(Within(sys.tris, s), e));
    hide Inc, Within, Witnesses, Trussness;
    forall f | f in s ensures Deg(Within(sys.tris, s), f) + 2 >= k {
      if f in Core(sys, k) {
        CoreWithin(sys, k, s, f);
      }
    }
  }

  lemma CoreWithin(sys: TriSys, k: nat, s: set<nat>, f: nat)
    requires Core(sys, k) <= s
    ensures Deg(Within(sys.tris, Core(sys, k)), f) <= Deg(Within(sys.tris, s), f)
  {
    DegMono(Within(sys.tris, Core(sys, k)), Within(sys.tris, s), f);
  }

  // ---------------------------------------------------------------- locality

  /** No triangle has edges both inside and outside r. */
  ghost predicate Closed(tris: set<Triangle>, r: set<nat>) {
    forall t :: t in tris && t * r != {} ==> t <= r
  }

  /** Exact values are stable. */
  lemma StableAtTruss(sys: TriSys, tau: seq<nat>, e: nat)
    requires sys.Valid() && Exact(sys, tau) && e in sys.edges
    ensures Stable(sys, tau, e)
  {
    FixpointAtTruss(sys, tau);
    FAtLeast(sys, tau, e, At(tau, e));
  }

  /** Trussness inside a closed set depends only on the triangles inside it. */
  lemma Locality(a: TriSys, b: TriSys, r: set<nat>)
    requires r <= a.edges && r <= b.edges
    requires Closed(a.tris, r) && Closed(b.tris, r)
    requires Within(a.tris, r) == Within(b.tris, r)
    ensures forall e :: e in r ==> Trussness(a, e) == Trussness(b, e)
  {
    LocalityBelow(a, b, r);
    LocalityBelow(b, a, r);
  }

  lemma LocalityBelow(a: TriSys, b: TriSys, r: set<nat>)
    requires r <= a.edges && r <= b.edges
    requires Closed(a.tris, r)
    requires Within(a.tris, r) <= Within(b.tris, r)
    ensures forall e :: e in r ==> Trussness(a, e) <= Trussness(b, e)
  {
    forall e | e in r ensures Trussness(a, e) <= Trussness(b, e) {
      var k := Trussness(a, e);
      var s: set<nat> :| s <= a.edges && e in s && Supports(a.tris, s, k);
      var s' := s * r;
      forall f | f in s' ensures Deg(Within(b.tris, s'), f) + 2 >= k {
        forall t | t in Inc(Within(a.tris, s), f) ensures t in Inc(Within(b.tris, s'), f) {
          assert f in t * r;
          assert t in Within(a.tris, r);
          assert t in Within(b.tris, r);
        }
        DegMono(Within(a.tris, s), Within(b.tris, s'), f);
      }
      SupportsBound(b, s', k);
    }
  }

  /** Truss restricted to a closed set is the truss of the system restricted to it. */
  lemma RestrictToClosed(sys: TriSys, r: set<nat>)
    requires r <= sys.edges && Closed(sys.tris, r)
    ensures forall e :: e in r ==> Trussness(TriSys(r, Within(sys.tris, r)), e) == Trussness(sys, e)
  {
    var sub := TriSys(r, Within(sys.tris, r));
    assert Within(sub.tris, r) == Within(sys.tris, r);
    Locality(sys, sub, r);
  }

  /** More triangles and more edges never lower a trussness. */
  lemma TrussMono(a: TriSys, b: TriSys)
    requires a.edges <= b.edges && a.tris <= b.tris
    ensures forall e :: e in a.edges ==> Trussness(a, e) <= Trussness(b, e)
  {
    forall e | e in a.edges ensures Trussness(a, e) <= Trussness(b, e) {
      var k := Trussness(a, e);
      var s: set<nat> :| s <= a.edges && e in s && Supports(a.tris, s, k);
      forall f | f in s ensures Deg(Within(b.tris, s), f) + 2 >= k {
        DegMono(Within(a.tris, s), Within(b.tris, s), f);
      }
      SupportsBound(b, s, k);
    }
  }

  // ---------------------------------------------------------------- one-edge sensitivity

  /** small is big without the edge x and the triangles on it. */
  ghost predicate Without(small: TriSys, big: TriSys, x: nat) {
    && x in big.edges
    && small.edges == big.edges - {x}
    && small.tris == Avoiding(big.tris, {x})
  }

  /** Removing one edge lowers the trussness of any other edge by at most one. */
  lemma OneEdgeSensitivity(small: TriSys, big: TriSys, x: nat)
    requires big.Valid() && big.Linear() && Without(small, big, x)
    ensures forall f :: f in small.edges ==>
                          Trussness(small, f) <= Trussness(big, f) <= Trussness(small, f) + 1
  {
    TrussMono(small, big);
    forall f | f in small.edges ensures Trussness(big, f) <= Trussness(small, f) + 1 {
      var k := Trussness(big, f);
      var s: set<nat> :| s <= big.edges && f in s && Supports(big.tris, s, k);
      var s' := s - {x};
      forall g | g in s' ensures Deg(Within(small.tris, s'), g) + 2 >= k - 1 {
        LoseOneTriangle(small, big, x, s, g);
      }
      SupportsBound(small, s', k - 1);
    }
  }

  lemma LoseOneTriangle(small: TriSys, big: TriSys, x: nat, s: set<nat>, g: nat)
    requires big.Linear() && Without(small, big, x) && g != x
    ensures Deg(Within(small.tris, s - {x}), g) >= Deg(Within(big.tris, s), g) - 1
  {
    var l := Inc(Within(big.tris, s), g);
    var lost := set t | t in l && x in t;
    AtMostOne(lost);
    assert l - lost <= Inc(Within(small.tris, s - {x}), g);
    SubsetCard(l - lost, Inc(Within(small.tris, s - {x}), g));
  }
}
