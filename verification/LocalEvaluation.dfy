/** The local re-evaluation of an edge's trussness (src/fixpoint.h). */
module LocalEvaluation {
  import DynamicGraph
  import FiniteSets
  import opened SimpleGraph
  import Stamps
  import opened Truss

  /** The evaluation never reports more than this. */
  const EVAL_LIMIT: nat := 65000

  function Min(a: nat, b: nat): nat {
    if a < b then a else b
  }

  function WedgeMin(tau: seq<nat>, w: Wedge): nat {
    Min(At(tau, w.e1), At(tau, w.e2))
  }

  ghost function CountAtLeast(s: seq<nat>, k: nat): (c: nat)
    ensures c <= |s|
  {
    if s == [] then 0 else (if s[0] >= k then 1 else 0) + CountAtLeast(s[1..], k)
  }

  ghost predicate Descending(s: seq<nat>) {
    forall i, j :: 0 <= i < j < |s| ==> s[i] >= s[j]
  }

  function InsertDesc(x: nat, s: seq<nat>): (r: seq<nat>)
    ensures |r| == |s| + 1
  {
    if s == [] || x >= s[0] then [x] + s else [s[0]] + InsertDesc(x, s[1..])
  }

  /** std::sort with std::greater. */
  function SortDesc(s: seq<nat>): (r: seq<nat>)
    ensures |r| == |s|
  {
    if s == [] then [] else InsertDesc(s[0], SortDesc(s[1..]))
  }

  lemma {:induction false} InsertDescending(x: nat, s: seq<nat>)
    requires Descending(s)
    ensures Descending(InsertDesc(x, s))
    ensures forall y :: y in InsertDesc(x, s) ==> y == x || y in s
    decreases |s|
  {
    if s != [] && x < s[0] {
      assert Descending(s[1..]);
      InsertDescending(x, s[1..]);
      var t := InsertDesc(x, s[1..]);
      forall i | 0 <= i < |t| ensures t[i] <= s[0] {
        assert t[i] in t;
        assert t[i] == x || exists j :: 0 <= j < |s[1..]| && s[1..][j] == t[i];
      }
      forall i, j | 0 <= i < j < |t| + 1 ensures ([s[0]] + t)[i] >= ([s[0]] + t)[j] {}
    }
  }

  lemma {:induction false} InsertCount(x: nat, s: seq<nat>, k: nat)
    ensures CountAtLeast(InsertDesc(x, s), k) == CountAtLeast(s, k) + (if x >= k then 1 else 0)
    decreases |s|
  {
    if s == [] || x >= s[0] {
      assert ([x] + s)[1..] == s;
    } else {
      InsertCount(x, s[1..], k);
      assert ([s[0]] + InsertDesc(x, s[1..]))[1..] == InsertDesc(x, s[1..]);
    }
  }

  /** Sorting keeps, for every threshold, the number of values that reach it. */
  lemma {:induction false} SortKeepsCounts(s: seq<nat>)
    ensures Descending(SortDesc(s))
    ensures forall k :: CountAtLeast(SortDesc(s), k) == CountAtLeast(s, k)
    decreases |s|
  {
    if s != [] {
      SortKeepsCounts(s[1..]);
      InsertDescending(s[0], SortDesc(s[1..]));
      forall k ensures CountAtLeast(SortDesc(s), k) == CountAtLeast(s, k) {
        InsertCount(s[0], SortDesc(s[1..]), k);
      }
    }
  }

  /** In descending order, at least c values reach k exactly when the c-th one does. */
  lemma {:induction false} SortedCount(s: seq<nat>, k: nat, c: nat)
    requires Descending(s) && c > 0
    ensures CountAtLeast(s, k) >= c <==> c <= |s| && s[c - 1] >= k
    decreases |s|
  {
    if s != [] {
      assert Descending(s[1..]);
      if c > 1 {
        SortedCount(s[1..], k, c - 1);
        assert c <= |s| ==> s[c - 1] == s[1..][c - 2] && s[0] >= s[c - 1];
      } else if s[0] < k && |s| > 1 {
        SortedCount(s[1..], k, 1);
      }
    }
  }

  // ---------------------------------------------------------------- witnesses and values

  ghost function WedgeMins(tau: seq<nat>, ws: seq<Wedge>): (r: seq<nat>)
    ensures |r| == |ws| && forall i :: 0 <= i < |ws| ==> r[i] == WedgeMin(tau, ws[i])
  {
    seq(|ws|, i requires 0 <= i < |ws| => WedgeMin(tau, ws[i]))
  }

  ghost function TriSet(e: nat, tau: seq<nat>, ws: seq<Wedge>, k: nat): set<Triangle> {
    set i | 0 <= i < |ws| && WedgeMin(tau, ws[i]) >= k :: Tri(e, ws[i])
  }

  lemma {:induction false} TriSetCount(e: nat, tau: seq<nat>, ws: seq<Wedge>, k: nat)
    requires forall i, j :: 0 <= i < j < |ws| ==> Tri(e, ws[i]) != Tri(e, ws[j])
    ensures |TriSet(e, tau, ws, k)| == CountAtLeast(WedgeMins(tau, ws), k)
    decreases |ws|
  {
    if ws != [] {
      hide TriSet, Tri, WedgeMin;
      var rest := ws[1..];
      TriSetCons(e, tau, ws, k);
      assert WedgeMins(tau, ws)[1..] == WedgeMins(tau, rest);
      assert forall i :: 0 <= i < |rest| ==> rest[i] == ws[i + 1];
      TriSetCount(e, tau, rest, k);
    } else {
      assert TriSet(e, tau, ws, k) == {};
    }
  }

  /** The first triangle comes on top of the others. */
  lemma TriSetCons(e: nat, tau: seq<nat>, ws: seq<Wedge>, k: nat)
    requires ws != [] && forall j :: 0 < j < |ws| ==> Tri(e, ws[0]) != Tri(e, ws[j])
    ensures Tri(e, ws[0]) !in TriSet(e, tau, ws[1..], k)
    ensures TriSet(e, tau, ws, k)
         == TriSet(e, tau, ws[1..], k) + (if WedgeMin(tau, ws[0]) >= k then {Tri(e, ws[0])} else {})
  {
    hide Tri, WedgeMin;
    var rest := ws[1..];
    forall t | t in TriSet(e, tau, ws, k) && t != Tri(e, ws[0]) ensures t in TriSet(e, tau, rest, k) {
      var i :| 0 <= i < |ws| && WedgeMin(tau, ws[i]) >= k && t == Tri(e, ws[i]);
      assert rest[i - 1] == ws[i];
    }
    forall t | t in TriSet(e, tau, rest, k) ensures t in TriSet(e, tau, ws, k) && t != Tri(e, ws[0]) {
      var i :| 0 <= i < |rest| && WedgeMin(tau, rest[i]) >= k && t == Tri(e, rest[i]);
      assert rest[i] == ws[i + 1];
    }
  }

  /** The values collected from the triangles of e count its witnesses at every threshold. */
  lemma CountWitnesses(sys: TriSys, e: nat, tau: seq<nat>, ws: seq<Wedge>, k: nat)
    requires Enumerates(sys.tris, e, ws)
    ensures CountAtLeast(WedgeMins(tau, ws), k) == |Witnesses(sys, tau, e, k)|
  {
    hide Witnesses, WedgeMins, CountAtLeast, TriSet;
    TriSetCount(e, tau, ws, k);
    TriSetIsWitnesses(sys, e, tau, ws, k);
  }

  lemma TriSetIsWitnesses(sys: TriSys, e: nat, tau: seq<nat>, ws: seq<Wedge>, k: nat)
    requires Enumerates(sys.tris, e, ws)
    ensures TriSet(e, tau, ws, k) == Witnesses(sys, tau, e, k)
  {
    forall i | 0 <= i < |ws| ensures Tri(e, ws[i]) in Witnesses(sys, tau, e, k) <==> WedgeMin(tau, ws[i]) >= k {
      WitnessWedge(sys, e, tau, ws, k, i);
    }
    hide WedgeMin, Tri;
    forall t | t in Witnesses(sys, tau, e, k) ensures t in TriSet(e, tau, ws, k) {
      var i :| 0 <= i < |ws| && t == Tri(e, ws[i]);
    }
  }

  /** A listed triangle is a witness of k if the smaller of its two other values reaches k. */
  lemma WitnessWedge(sys: TriSys, e: nat, tau: seq<nat>, ws: seq<Wedge>, k: nat, i: nat)
    requires Enumerates(sys.tris, e, ws) && i < |ws|
    ensures Tri(e, ws[i]) in Witnesses(sys, tau, e, k) <==> WedgeMin(tau, ws[i]) >= k
  {
    var t := Tri(e, ws[i]);
    assert t in sys.tris && e in t && ws[i].e1 in t && ws[i].e2 in t;
    hide Enumerates;
  }

  /** The value at the position that decides whether k is reached. */
  ghost predicate Reaches(sorted: seq<nat>, k: nat) {
    k <= 2 || (k - 3 < |sorted| && sorted[k - 3] >= k)
  }

  /** F(e) read off the sorted values. */
  lemma FFromSorted(sys: TriSys, e: nat, tau: seq<nat>, ws: seq<Wedge>, sorted: seq<nat>, k: nat)
    requires Enumerates(sys.tris, e, ws) && Descending(sorted)
    requires CountAtLeast(sorted, k) == CountAtLeast(WedgeMins(tau, ws), k)
    ensures k <= F(sys, tau, e) <==> Reaches(sorted, k)
  {
    FAtLeast(sys, tau, e, k);
    CountWitnesses(sys, e, tau, ws, k);
    hide Witnesses, WedgeMins, CountAtLeast, Enumerates;
    if k > 2 {
      SortedCount(sorted, k, k - 2);
    }
  }

  /** The scan over the sorted values; it stops at the limit. */
  method ScanSorted(mbuf: seq<nat>) returns (best: nat)
    requires Descending(mbuf)
    ensures 2 <= best <= EVAL_LIMIT
    ensures forall k: nat :: k <= EVAL_LIMIT ==> (k <= best <==> Reaches(mbuf, k))
  {
    best := 2;
    var j := 0;
    ghost var stop := false;
    while j < |mbuf|
      invariant 0 <= j <= |mbuf|
      invariant 2 <= best <= EVAL_LIMIT
      invariant forall l :: 0 <= l < j && l + 3 <= EVAL_LIMIT ==> best >= Min(mbuf[l], l + 3)
      invariant best == 2 || exists l :: 0 <= l < j && best == Min(mbuf[l], l + 3)
    {
      var need := j + 3;
      var cand := if mbuf[j] < need then mbuf[j] else need;
      if j + 3 > EVAL_LIMIT {
        break;
      }
      assert cand == Min(mbuf[j], j + 3);
      if cand > best {
        best := cand;
      }
      j := j + 1;
    }
    forall k: nat | k <= EVAL_LIMIT ensures k <= best <==> Reaches(mbuf, k) {
      if k > 2 && Reaches(mbuf, k) {
        assert Min(mbuf[k - 3], k - 3 + 3) == k;
      }
    }
  }

  /**
   Re-evaluates an edge: F(e), cut off at 65000. The two differ only for edges whose
   F exceeds that, which takes at least 64999 triangles.
   */
  method EvalTrussness(g: DynamicGraph.DynGraph, e: nat, tau: seq<nat>, st: Stamps.StampSet) returns (r: nat)
    requires g.Valid() && e in g.G() && st.Valid() && |st.s| >= g.n
    requires forall f :: f in g.G() ==> f < |tau|
    modifies st
    ensures st.Valid() && |st.s| == old(|st.s|)
    ensures r == Min(F(Sys(g.G()), tau, e), 65000)
    ensures Deg(Triangles(g.G()), e) <= 64998 ==> r == F(Sys(g.G()), tau, e)
  {
    hide DynamicGraph.GraphInv, DynamicGraph.DynGraph.TableOk, DynamicGraph.TableMatches, DynamicGraph.GraphOf,
         Triangles, Stamps.StampSet.Marks, Stamps.StampSet.Valid, DynamicGraph.DynGraph.Valid, Enumerates, Justified,
         Witnesses, Descending, CountAtLeast, Simple, SmallEnds, Reaches;
    ghost var sys := Sys(g.G());
    g.InvBounds();
    var ws := g.EdgeTriangles(e, st);
    WedgeIds(g.G(), e, ws);
    var mbuf: seq<nat> := [];
    for i := 0 to |ws|
      invariant |mbuf| == i
      invariant forall j :: 0 <= j < i ==> mbuf[j] == WedgeMin(tau, ws[j])
    {
      var e1, e2 := ws[i].e1, ws[i].e2;
      mbuf := mbuf + [if tau[e1] < tau[e2] then tau[e1] else tau[e2]];
    }
    assert mbuf == WedgeMins(tau, ws);
    var sorted := SortDesc(mbuf);
    SortKeepsCounts(mbuf);
    r := ScanSorted(sorted);
    forall k: nat ensures k <= F(sys, tau, e) <==> Reaches(sorted, k) {
      FFromSorted(sys, e, tau, ws, sorted, k);
    }
    SameThresholds(F(sys, tau, e), r, sorted);
  }

  lemma SameThresholds(f: nat, r: nat, sorted: seq<nat>)
    requires forall k: nat :: k <= f <==> Reaches(sorted, k)
    requires r <= EVAL_LIMIT
    requires forall k: nat :: k <= EVAL_LIMIT ==> (k <= r <==> Reaches(sorted, k))
    ensures r == Min(f, EVAL_LIMIT)
  {
    hide Reaches;
    assert Reaches(sorted, r);
    assert Reaches(sorted, Min(f, EVAL_LIMIT));
  }

  /** No trussness is beyond the limit of the evaluation. */
  ghost predicate FitsEval(sys: TriSys) {
    forall e :: e in sys.edges ==> Trussness(sys, e) <= 65000
  }

  /** What the evaluation of e returns for the values tau. */
  ghost function Evaluated(sys: TriSys, tau: seq<nat>, limit: nat, e: nat): nat {
    Min(F(sys, tau, e), limit)
  }

  /** Exact values survive the evaluation of every edge exactly when no trussness is beyond the limit. */
  lemma ExactSurvivesIff(sys: TriSys, tau: seq<nat>)
    requires sys.Valid() && Exact(sys, tau)
    ensures (forall e :: e in sys.edges ==> Evaluated(sys, tau, EVAL_LIMIT, e) == At(tau, e))
            <==> FitsEval(sys)
  {
    FixpointAtTruss(sys, tau);
    hide F, Trussness, TriSys.Valid;
    if e :| e in sys.edges && Trussness(sys, e) > EVAL_LIMIT {
      assert Evaluated(sys, tau, EVAL_LIMIT, e) != At(tau, e);
    }
  }

  /** A bound that a caller can check: no edge lies in more than 64998 triangles. */
  lemma FewTrianglesEvaluate(sys: TriSys)
    requires forall e :: e in sys.edges ==> Deg(sys.tris, e) <= 64998
    ensures FitsEval(sys)
  {
    hide Deg;
  }

  /**
   The evaluation of e equals F(e) for every 16-bit value array exactly when e has at most
   64998 triangles.
   */
  lemma EvalExactWhen(sys: TriSys, e: nat)
    ensures (forall tau: seq<nat> :: (forall f :: 0 <= f < |tau| ==> tau[f] < 0x1_0000) ==>
              Evaluated(sys, tau, EVAL_LIMIT, e) == F(sys, tau, e))
            <==> Deg(sys.tris, e) <= 64998
  {
    if Deg(sys.tris, e) + 2 > EVAL_LIMIT {
      var n := TopId(sys.tris);
      var tau: seq<nat> := seq(n, _ => EVAL_LIMIT + 1);
      forall t | t in Inc(sys.tris, e) ensures t in Witnesses(sys, tau, e, EVAL_LIMIT + 1) {}
      FiniteSets.SubsetCard(Inc(sys.tris, e), Witnesses(sys, tau, e, EVAL_LIMIT + 1));
      FAtLeast(sys, tau, e, EVAL_LIMIT + 1);
      assert Min(F(sys, tau, e), EVAL_LIMIT) != F(sys, tau, e);
    }
  }

  lemma {:induction false} TopId(tris: set<Triangle>) returns (n: nat)
    ensures forall t, f :: t in tris && f in t ==> f < n
    decreases |tris|
  {
    n := 0;
    if t :| t in tris {
      n := TopId(tris - {t});
      var m := TopOf(t);
      n := if n < m then m else n;
    }
  }

  lemma {:induction false} TopOf(s: set<nat>) returns (n: nat)
    ensures forall f :: f in s ==> f < n
    decreases |s|
  {
    n := 0;
    if f :| f in s {
      n := TopOf(s - {f});
      n := if n <= f then f + 1 else n;
      assert forall x :: x in s ==> x == f || x in s - {f};
    }
  }

  /** No trussness in the graph with these keys is beyond the limit of the evaluation. */
  ghost predicate KeysEvaluable(keys: set<nat>) {
    forall k :: k in keys ==> KeyTruss(keys, k) <= 65000
  }
}
