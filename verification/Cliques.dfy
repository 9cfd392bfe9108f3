/**
 Complete graphs, whose edges have trussness equal to the number of vertices: the graphs on
 which the 16-bit values (src/truss_static.h) and the limited evaluation (src/fixpoint.h) fail.
 */
module Cliques {
  import CalmOps
  import EdgeOps
  import FiniteSets
  import LocalEvaluation
  import opened Peeling
  import opened SimpleGraph
  import StaticDecomposition
  import opened Truss

  /** The edge keys of the complete graph on n vertices. */
  ghost function CliqueKeys(n: nat): set<nat> {
    set u, v | 0 <= u < n && 0 <= v < n && u < v :: EKey(u, v)
  }

  ghost function Clique(n: nat): Graph {
    Canonical(CliqueKeys(n))
  }

  lemma CliqueEnds(n: nat, k: nat) returns (u: nat, v: nat)
    requires n <= VERTEX_SPACE && k in CliqueKeys(n)
    ensures u < v < n && k == EKey(u, v) && Clique(n)[k] == (u, v)
  {
    u :| 0 <= u < n && exists v :: 0 <= v < n && u < v && k == EKey(u, v);
    v :| 0 <= v < n && u < v && k == EKey(u, v);
    KeyRoundTrip(u, v);
  }

  lemma CliqueSimple(n: nat)
    requires n <= VERTEX_SPACE
    ensures Simple(Clique(n)) && Clique(n).Keys == CliqueKeys(n)
  {
    hide EKey, KeyEnds;
    var g := Clique(n);
    forall k | k in g ensures g[k].0 < g[k].1 {
      var u, v := CliqueEnds(n, k);
    }
    forall j, k | j in g && k in g && g[j] == g[k] ensures j == k {
      var u, v := CliqueEnds(n, j);
      var x, y := CliqueEnds(n, k);
    }
  }

  lemma CliqueJoins(n: nat, u: nat, v: nat)
    requires n <= VERTEX_SPACE && u < n && v < n && u != v
    ensures Joins(Clique(n), EKey(u, v), u, v)
  {
    KeyRoundTrip(u, v);
    hide KeyEnds;
    assert EKey(u, v) in CliqueKeys(n) by {
      if u < v {
      } else {
        assert EKey(v, u) in CliqueKeys(n);
      }
    }
  }

  /** The triangle that the vertex w closes with the edge uv. */
  function Over(u: nat, v: nat, w: nat): Triangle {
    {EKey(u, v), EKey(u, w), EKey(v, w)}
  }

  lemma OverInjective(u: nat, v: nat, w: nat, x: nat)
    requires u < VERTEX_SPACE && v < VERTEX_SPACE && w < VERTEX_SPACE && x < VERTEX_SPACE
    requires u != v && w != u && w != v && x != u && x != v && Over(u, v, w) == Over(u, v, x)
    ensures w == x
  {
    assert EKey(u, w) in Over(u, v, x);
    KeyInjective(u, w, u, v);
    KeyInjective(u, w, u, x);
    KeyInjective(u, w, v, x);
  }

  lemma OverTriangle(n: nat, k: nat, u: nat, v: nat, w: nat)
    requires n <= VERTEX_SPACE && u < v < n && w < n && w != u && w != v && k == EKey(u, v)
    ensures Over(u, v, w) in Inc(Triangles(Clique(n)), k)
  {
    CliqueSimple(n);
    CliqueJoins(n, u, v);
    CliqueJoins(n, u, w);
    CliqueJoins(n, v, w);
    hide Triangles, EKey, Clique, Simple;
    TriangleOn(Clique(n), k, u, v, w, EKey(u, w), EKey(v, w));
  }

  /** Every edge of the complete graph lies in a triangle with every other vertex. */
  lemma CliqueDegree(n: nat, k: nat)
    requires n <= VERTEX_SPACE && k in CliqueKeys(n)
    ensures Deg(Triangles(Clique(n)), k) == n - 2
  {
    hide Triangles, EKey, Over, Simple, CliqueKeys, Clique, FiniteSets.Interval, Canonical;
    var u, v := CliqueEnds(n, k);
    CliqueSimple(n);
    var others := FiniteSets.Interval(n) - {u, v};
    OthersCount(n, u, v);
    forall w | w in others ensures Over(u, v, w) in Inc(Triangles(Clique(n)), k) {
      OverTriangle(n, k, u, v, w);
    }
    forall t | t in Inc(Triangles(Clique(n)), k) ensures exists w :: w in others && t == Over(u, v, w) {
      var w := CliqueThird(n, k, u, v, t);
    }
    OneToOne(n, u, v, others, Inc(Triangles(Clique(n)), k));
  }

  lemma OthersCount(n: nat, u: nat, v: nat)
    requires u < v < n
    ensures |FiniteSets.Interval(n) - {u, v}| == n - 2
  {
    assert |{u, v}| == 2;
    assert {u, v} <= FiniteSets.Interval(n);
  }

  lemma CliqueThird(n: nat, k: nat, u: nat, v: nat, t: Triangle) returns (w: nat)
    requires n <= VERTEX_SPACE && u < v < n && k == EKey(u, v) && k in Clique(n) && Clique(n)[k] == (u, v)
    requires t in Triangles(Clique(n)) && k in t
    ensures w < n && w != u && w != v && t == Over(u, v, w)
  {
    var g := Clique(n);
    CliqueSimple(n);
    var e1, e2;
    w, e1, e2 := ThirdVertex(g, t, k);
    hide Triangles, EKey;
    JoinsKey(n, e1, u, w);
    JoinsKey(n, e2, v, w);
  }

  lemma JoinsKey(n: nat, e: nat, u: nat, w: nat)
    requires n <= VERTEX_SPACE && Joins(Clique(n), e, u, w)
    ensures u < n && w < n && u != w && e == EKey(u, w)
  {
    var x, y := CliqueEnds(n, e);
  }

  lemma OneToOne(n: nat, u: nat, v: nat, others: set<nat>, tris: set<Triangle>)
    requires n <= VERTEX_SPACE && u < v < n && forall w :: w in others ==> w < n && w != u && w != v
    requires forall w :: w in others ==> Over(u, v, w) in tris
    requires forall t :: t in tris ==> exists w :: w in others && t == Over(u, v, w)
    ensures |tris| == |others|
  {
    var over := w => Over(u, v, w);
    hide Over;
    forall w, x | w in others && x in others && over(w) == over(x) ensures w == x {
      OverInjective(u, v, w, x);
    }
    FiniteSets.ImageInto(over, others, tris);
    var third := t => if w :| w in others && t == Over(u, v, w) then w else 0;
    forall t | t in tris ensures third(t) in others && t == Over(u, v, third(t)) {}
    FiniteSets.ImageInto(third, tris, others);
  }

  /** Every edge of the complete graph on n vertices has trussness n. */
  lemma CliqueTruss(n: nat)
    requires 2 <= n <= VERTEX_SPACE
    ensures EKey(0, 1) in CliqueKeys(n)
    ensures forall k :: k in CliqueKeys(n) ==> KeyTruss(CliqueKeys(n), k) == n
  {
    CliqueJoins(n, 0, 1);
    CliqueSimple(n);
    AllWithin(Clique(n));
    var sys := Sys(Clique(n));
    hide Triangles, CliqueKeys, Deg, Simple, Clique, EKey;
    forall k | k in sys.edges ensures Deg(sys.tris, k) == n - 2 {
      CliqueDegree(n, k);
    }
    SupportsBound(sys, sys.edges, n);
  }

  /** On the complete graph with 65536 vertices the stored values are 0. */
  lemma WordsFail()
    ensures !StaticDecomposition.KeysFit(CliqueKeys(65536)) && EKey(0, 1) in CliqueKeys(65536)
    ensures forall k :: k in CliqueKeys(65536) ==> Word(KeyTruss(CliqueKeys(65536), k)) == 0
  {
    hide KeyTruss, CliqueKeys, EKey;
    CliqueTruss(65536);
    assert KeyTruss(CliqueKeys(65536), EKey(0, 1)) == 65536;
  }

  /** The complete graph with 65001 vertices is beyond the evaluation, although its values fit. */
  lemma EvaluationFails()
    ensures StaticDecomposition.KeysFit(CliqueKeys(65001)) && !LocalEvaluation.KeysEvaluable(CliqueKeys(65001))
  {
    hide KeyTruss, CliqueKeys, EKey;
    CliqueTruss(65001);
    assert KeyTruss(CliqueKeys(65001), EKey(0, 1)) == 65001;
  }

  /**
   Completing the complete graph with 65001 vertices, one edge at a time, goes wrong at the last
   edge at the latest.
   */
  lemma InsertionFails()
    ensures var keys, k := CliqueKeys(65001), EKey(0, 1);
            k in keys && !CalmOps.StepCalm(keys - {k}, EdgeOps.Op(false, 0, 1))
  {
    hide KeyTruss, CliqueKeys, EKey, CalmOps.StepCalm, Simple;
    var n := 65001;
    CliqueSimple(n);
    CliqueTruss(n);
    assert KeyTruss(CliqueKeys(n), EKey(0, 1)) == n;
    CalmOps.BeyondLimit(CliqueKeys(n), EdgeOps.Op(false, 0, 1));
  }
}
