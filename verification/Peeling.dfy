/**
 Bucket peeling, the argument shared by the static decomposition (src/truss_static.h)
 and the regional one (src/batch.h). Edges of a region die level by level; a boundary
 of edges with known trussness dies on schedule.
 */
module Peeling {
  import opened SimpleGraph
  import opened Truss

  // ---------------------------------------------------------------- stored values

  /** tau values are 16-bit. */
  const TAU_SPACE: nat := 0x1_0000

  /** A value as a 16-bit array element keeps it. */
  function Word(k: nat): (r: nat)
    ensures r < 65536 && (k < 65536 ==> r == k) && (k - r) % 65536 == 0
  {
    k % TAU_SPACE
  }

  /** tau holds the trussness of every edge, as far as 16 bits can. */
  ghost predicate Stored(sys: TriSys, tau: seq<nat>) {
    forall e :: e in sys.edges ==> At(tau, e) == Word(Trussness(sys, e))
  }

  /** Every trussness fits into 16 bits. */
  ghost predicate Fits(sys: TriSys) {
    forall e :: e in sys.edges ==> Trussness(sys, e) < 65536
  }

  /** The stored values are the trussness exactly when every trussness fits. */
  lemma StoredExactIff(sys: TriSys, tau: seq<nat>)
    requires Stored(sys, tau)
    ensures Exact(sys, tau) <==> Fits(sys)
  {
    hide Trussness;
    if e :| e in sys.edges && Trussness(sys, e) >= 65536 {
      assert At(tau, e) != Trussness(sys, e);
    }
  }

  /** A bound that a caller can check: no edge lies in more than 65533 triangles. */
  lemma FewTrianglesFit(sys: TriSys)
    requires forall e :: e in sys.edges ==> Deg(sys.tris, e) <= 65533
    ensures Fits(sys)
  {
    hide Deg;
  }

  // ---------------------------------------------------------------- counters and buckets

  /**
   At level s a counter above s is the exact number of live triangles of its edge, and
   a counter equal to s, where decrements stop, bounds that number.
   */
  ghost predicate CountsOk(live: set<Triangle>, todo: set<nat>, psup: seq<nat>, s: nat) {
    forall m :: m in todo ==>
                  && m < |psup| && psup[m] >= s
                  && (if psup[m] > s then Deg(live, m) == psup[m] else Deg(live, m) <= s)
  }

  ghost predicate Waits(bucket: seq<nat>, m: nat, from: nat) {
    exists j :: from <= j < |bucket| && bucket[j] == m
  }

  /** Where the unscanned part of a bucket starts when the scan of bucket s is at i. */
  function From(bucket: nat, s: nat, i: nat): nat {
    if bucket == s then i else 0
  }

  /** Every edge still to be peeled waits in the bucket of its counter, unscanned. */
  ghost predicate Queued(buckets: seq<seq<nat>>, todo: set<nat>, psup: seq<nat>, s: nat, i: nat) {
    forall m :: m in todo ==>
                  m < |psup| && psup[m] < |buckets| && Waits(buckets[psup[m]], m, From(psup[m], s, i))
  }

  ghost predicate BucketsIn(buckets: seq<seq<nat>>, region: set<nat>) {
    forall k, j :: 0 <= k < |buckets| && 0 <= j < |buckets[k]| ==> buckets[k][j] in region
  }

  /** The clamped decrement. */
  function Lower(psup: seq<nat>, m: nat, s: nat): (r: seq<nat>)
    requires m < |psup|
    ensures |r| == |psup|
  {
    if psup[m] > s then psup[m := psup[m] - 1] else psup
  }

  /** The move to the bucket of the decremented counter; stale entries stay behind. */
  function Requeue(buckets: seq<seq<nat>>, psup: seq<nat>, m: nat, s: nat): (r: seq<seq<nat>>)
    requires m < |psup| && psup[m] < |buckets|
    ensures |r| == |buckets|
  {
    if psup[m] > s then buckets[psup[m] - 1 := buckets[psup[m] - 1] + [m]] else buckets
  }

  lemma RequeueOk(buckets: seq<seq<nat>>, region: set<nat>, todo: set<nat>, psup: seq<nat>, s: nat, i: nat, m: nat)
    requires m in todo && todo <= region
    requires Queued(buckets, todo, psup, s, i) && BucketsIn(buckets, region)
    requires s < |buckets| && i <= |buckets[s]|
    ensures Queued(Requeue(buckets, psup, m, s), todo, Lower(psup, m, s), s, i)
    ensures BucketsIn(Requeue(buckets, psup, m, s), region)
    ensures |Requeue(buckets, psup, m, s)[s]| >= |buckets[s]|
  {
    if psup[m] > s {
      var k := psup[m] - 1;
      var buckets' := Requeue(buckets, psup, m, s);
      var psup' := Lower(psup, m, s);
      forall f | f in todo ensures Waits(buckets'[psup'[f]], f, From(psup'[f], s, i)) {
        if f == m {
          assert buckets'[k][|buckets[k]|] == m;
        } else {
          assert Waits(buckets[psup[f]], f, From(psup[f], s, i));
          var j :| From(psup[f], s, i) <= j < |buckets[psup[f]]| && buckets[psup[f]][j] == f;
          assert buckets'[psup'[f]][j] == f;
        }
      }
    }
  }

  /** The counters after the triangle t = {x, e1, e2} has lost its edge x. */
  function LowerBoth(psup: seq<nat>, region: set<nat>, e1: nat, e2: nat, s: nat): seq<nat>
    requires (e1 in region ==> e1 < |psup|) && (e2 in region ==> e2 < |psup|)
  {
    var p := if e1 in region then Lower(psup, e1, s) else psup;
    if e2 in region then Lower(p, e2, s) else p
  }

  /** Removing a live triangle and lowering its surviving region edges keeps the counters right. */
  lemma LowerCounts(live: set<Triangle>, region: set<nat>, todo: set<nat>, psup: seq<nat>, s: nat, x: nat, e1: nat,
                    e2: nat)
    requires CountsOk(live, todo, psup, s) && todo <= region && x !in todo && e1 != e2
    requires {x, e1, e2} in live
    requires (e1 in region ==> e1 in todo) && (e2 in region ==> e2 in todo)
    ensures CountsOk(live - {{x, e1, e2}}, todo, LowerBoth(psup, region, e1, e2, s), s)
  {
    var t := {x, e1, e2};
    forall m | m in todo ensures Deg(live - {t}, m) == Deg(live, m) - (if m == e1 || m == e2 then 1 else 0) {
      DegRemove(live, t, m);
    }
    hide Deg;
  }

  /** Removing a triangle without edges to be peeled changes no counter. */
  lemma SkipCounts(live: set<Triangle>, todo: set<nat>, psup: seq<nat>, s: nat, t: Triangle)
    requires CountsOk(live, todo, psup, s) && (t in live ==> t !! todo)
    ensures CountsOk(live - {t}, todo, psup, s)
  {
    forall m | m in todo ensures Deg(live - {t}, m) == Deg(live, m) {
      if t in live {
        DegRemove(live, t, m);
      } else {
        assert live - {t} == live;
      }
    }
    hide Deg;
  }

  /** Lowers the counter of m, unless it is down at the level, and requeues m. */
  method LowerAndRequeue(psup: seq<nat>, buckets: seq<seq<nat>>, m: nat, s: nat) returns (psup': seq<nat>,
                         buckets': seq<seq<nat>>)
    requires m < |psup| && psup[m] < |buckets|
    ensures psup' == Lower(psup, m, s)
    ensures buckets' == Requeue(buckets, psup, m, s)
  {
    psup', buckets' := psup, buckets;
    if psup'[m] > s {
      psup' := psup'[m := psup'[m] - 1];
      buckets' := buckets'[psup'[m] := buckets'[psup'[m]] + [m]];
    }
  }

  lemma QueuedBounds(buckets: seq<seq<nat>>, todo: set<nat>, psup: seq<nat>, s: nat, i: nat)
    requires Queued(buckets, todo, psup, s, i)
    ensures forall m :: m in todo ==> m < |psup| && psup[m] < |buckets|
  {}

  /** Counters and buckets in the middle of a scan of bucket s at position i. */
  ghost predicate ScanInv(live: set<Triangle>, region: set<nat>, todo: set<nat>, psup: seq<nat>,
                          buckets: seq<seq<nat>>, s: nat, i: nat) {
    && todo <= region
    && CountsOk(live, todo, psup, s)
    && Queued(buckets, todo, psup, s, i) && BucketsIn(buckets, region)
    && s < |buckets| && i <= |buckets[s]|
  }

  lemma WaitsAppend(bucket: seq<nat>, e: nat, f: nat)
    ensures Waits(bucket + [e], e, 0)
    ensures Waits(bucket, f, 0) ==> Waits(bucket + [e], f, 0)
  {
    var b := bucket + [e];
    assert b[|bucket|] == e;
    if Waits(bucket, f, 0) {
      var j :| 0 <= j < |bucket| && bucket[j] == f;
      assert b[j] == f;
    }
  }

  lemma BucketEntry(buckets: seq<seq<nat>>, region: set<nat>, s: nat, i: nat)
    requires BucketsIn(buckets, region) && s < |buckets| && i < |buckets[s]|
    ensures buckets[s][i] in region
  {}

  /** A stale entry, or one of a dead edge, can be skipped. */
  lemma ScanPast(buckets: seq<seq<nat>>, todo: set<nat>, psup: seq<nat>, s: nat, i: nat)
    requires Queued(buckets, todo, psup, s, i) && s < |buckets| && i < |buckets[s]|
    requires buckets[s][i] in todo ==> psup[buckets[s][i]] != s
    ensures Queued(buckets, todo, psup, s, i + 1)
  {
    forall m | m in todo ensures Waits(buckets[psup[m]], m, From(psup[m], s, i + 1)) {
      var j :| From(psup[m], s, i) <= j < |buckets[psup[m]]| && buckets[psup[m]][j] == m;
    }
  }

  /** After a full scan no edge is left at the level. */
  lemma ScanDone(buckets: seq<seq<nat>>, todo: set<nat>, psup: seq<nat>, s: nat)
    requires s < |buckets| && Queued(buckets, todo, psup, s, |buckets[s]|)
    ensures forall m :: m in todo ==> m < |psup| && psup[m] != s
    ensures Queued(buckets, todo, psup, s + 1, 0)
  {
    forall m | m in todo ensures psup[m] != s {
      assert Waits(buckets[psup[m]], m, From(psup[m], s, |buckets[s]|));
    }
  }

  // ---------------------------------------------------------------- the triangles of one edge

  /** What is left of live after the first i triangles on x. */
  ghost function Dropped(live: set<Triangle>, x: nat, ws: seq<Wedge>, i: nat): set<Triangle>
    requires i <= |ws|
  {
    if i == 0 then live else Dropped(live, x, ws, i - 1) - {Tri(x, ws[i - 1])}
  }

  lemma DroppedNone(live: set<Triangle>, x: nat, ws: seq<Wedge>)
    ensures Dropped(live, x, ws, 0) == live
  {}

  lemma DroppedNext(live: set<Triangle>, x: nat, ws: seq<Wedge>, i: nat)
    requires i < |ws|
    ensures Dropped(live, x, ws, i + 1) == Dropped(live, x, ws, i) - {Tri(x, ws[i])}
  {}

  lemma {:induction false} DroppedMember(live: set<Triangle>, x: nat, ws: seq<Wedge>, i: nat, t: Triangle)
    requires i <= |ws|
    ensures t in Dropped(live, x, ws, i) <==> t in live && forall j :: 0 <= j < i ==> t != Tri(x, ws[j])
  {
    if i > 0 {
      DroppedMember(live, x, ws, i - 1, t);
    }
  }

  /** A triangle on x is still there until its turn comes. */
  lemma DroppedLater(tris: set<Triangle>, live: set<Triangle>, x: nat, ws: seq<Wedge>, i: nat)
    requires Enumerates(tris, x, ws) && i < |ws|
    ensures Tri(x, ws[i]) in Dropped(live, x, ws, i) <==> Tri(x, ws[i]) in live
  {
    DroppedMember(live, x, ws, i, Tri(x, ws[i]));
  }

  lemma DroppedAll(tris: set<Triangle>, dead: set<nat>, x: nat, ws: seq<Wedge>)
    requires Enumerates(tris, x, ws)
    ensures Dropped(Avoiding(tris, dead), x, ws, |ws|) == Avoiding(tris, dead + {x})
  {
    var live := Avoiding(tris, dead);
    forall t ensures t in Dropped(live, x, ws, |ws|) <==> t in Avoiding(tris, dead + {x}) {
      DroppedMember(live, x, ws, |ws|, t);
      if t in live {
        assert x in t <==> exists j :: 0 <= j < |ws| && t == Tri(x, ws[j]);
      }
    }
  }

  // ---------------------------------------------------------------- the peeling invariant

  /**
   The state between two steps at level s, when the edges in dead have been peeled:
   - dead edges have trussness at most s+2, and those of the region have their final value;
   - the others have trussness at least s+2, and the counters say how many live
     triangles those of the region have left.
   */
  ghost predicate PeelInv(sys: TriSys, region: set<nat>, boundary: set<nat>, dead: set<nat>, s: nat,
                          psup: seq<nat>, tau: seq<nat>) {
    && region <= sys.edges && boundary <= sys.edges && region !! boundary
    && dead <= region + boundary
    && CountsOk(Avoiding(sys.tris, dead), region - dead, psup, s)
    && (forall f :: f in dead && f in region ==> At(tau, f) == Word(Trussness(sys, f)))
    && (forall f :: f in dead ==> Trussness(sys, f) <= s + 2)
    && (forall f :: f in region + boundary && f !in dead ==> Trussness(sys, f) >= s + 2)
  }

  /** Every triangle that touches the region lies in the region and its boundary. */
  ghost predicate Surrounded(tris: set<Triangle>, region: set<nat>, boundary: set<nat>) {
    forall t :: t in tris && t * region != {} ==> t <= region + boundary
  }

  lemma PeelStart(sys: TriSys, region: set<nat>, boundary: set<nat>, psup: seq<nat>, tau: seq<nat>)
    requires region <= sys.edges && boundary <= sys.edges && region !! boundary
    requires forall m :: m in region ==> m < |psup| && psup[m] == Deg(sys.tris, m)
    ensures PeelInv(sys, region, boundary, {}, 0, psup, tau)
  {
    assert Avoiding(sys.tris, {}) == sys.tris;
  }

  /** An edge whose counter is down at the level has exactly that trussness. */
  lemma PopIsExact(sys: TriSys, region: set<nat>, boundary: set<nat>, dead: set<nat>, s: nat,
                   psup: seq<nat>, tau: seq<nat>, x: nat)
    requires sys.Valid() && PeelInv(sys, region, boundary, dead, s, psup, tau)
    requires x in region - dead && psup[x] == s
    ensures Trussness(sys, x) == s + 2
  {
    var live := Avoiding(sys.tris, dead);
    if Trussness(sys, x) >= s + 3 {
      var c := Core(sys, s + 3);
      CoreSupports(sys, s + 3);
      assert x in c;
      assert Inc(Within(sys.tris, c), x) <= Inc(live, x);
      DegMono(Within(sys.tris, c), live, x);
      assert false;
    }
  }

  /** When no counter is down at the level any more, all remaining edges belong to the next level. */
  lemma LevelUp(sys: TriSys, region: set<nat>, boundary: set<nat>, dead: set<nat>, s: nat,
                psup: seq<nat>, tau: seq<nat>)
    requires sys.Valid() && PeelInv(sys, region, boundary, dead, s, psup, tau)
    requires Surrounded(sys.tris, region, boundary)
    requires forall m :: m in region - dead ==> psup[m] != s
    requires forall f :: f in boundary - dead ==> Trussness(sys, f) != s + 2
    ensures PeelInv(sys, region, boundary, dead, s + 1, psup, tau)
  {
    var live := Avoiding(sys.tris, dead);
    var c := Core(sys, s + 3);
    var k := (region - dead) + c;
    CoreSupports(sys, s + 3);
    forall f | f in k ensures Deg(Within(sys.tris, k), f) + 2 >= s + 3 {
      if f in c {
        DegMono(Within(sys.tris, c), Within(sys.tris, k), f);
      } else {
        forall t | t in Inc(live, f) ensures t in Inc(Within(sys.tris, k), f) {
          assert f in t * region;
          assert t <= region + boundary;
        }
        DegMono(live, Within(sys.tris, k), f);
      }
    }
    SupportsBound(sys, k, s + 3);
  }

  /** Once an edge of the level is gone and its triangles are accounted for, the invariant holds without it. */
  lemma PeelOne(sys: TriSys, region: set<nat>, boundary: set<nat>, dead: set<nat>, s: nat,
                psup: seq<nat>, tau: seq<nat>, x: nat, psup': seq<nat>, tau': seq<nat>)
    requires PeelInv(sys, region, boundary, dead, s, psup, tau)
    requires x in region + boundary && x !in dead && Trussness(sys, x) == s + 2
    requires CountsOk(Avoiding(sys.tris, dead + {x}), region - (dead + {x}), psup', s)
    requires (x in region ==> At(tau', x) == Word(s + 2)) && forall f :: f != x ==> At(tau', f) == At(tau, f)
    ensures PeelInv(sys, region, boundary, dead + {x}, s, psup', tau')
  {
    hide CountsOk, Word;
  }

  /** When x is popped, the scan goes on behind it with the others. */
  lemma ScanPop(sys: TriSys, region: set<nat>, boundary: set<nat>, dead: set<nat>, s: nat,
                psup: seq<nat>, tau: seq<nat>, buckets: seq<seq<nat>>, i: nat, x: nat)
    requires PeelInv(sys, region, boundary, dead, s, psup, tau)
    requires Queued(buckets, region - dead, psup, s, i) && BucketsIn(buckets, region)
    requires s < |buckets| && i < |buckets[s]| && buckets[s][i] == x
    ensures ScanInv(Avoiding(sys.tris, dead), region, region - (dead + {x}), psup, buckets, s, i + 1)
  {
    hide Deg, Avoiding, Trussness;
    QueuedBounds(buckets, region - dead, psup, s, i);
    assert forall m :: m in region - (dead + {x}) ==> m in region - dead;
    forall m | m in region - (dead + {x}) ensures Waits(buckets[psup[m]], m, From(psup[m], s, i + 1)) {
      var j :| From(psup[m], s, i) <= j < |buckets[psup[m]]| && buckets[psup[m]][j] == m;
    }
  }

  /** When the last level is done every edge of the region has been peeled, with its trussness. */
  lemma PeelEnd(sys: TriSys, region: set<nat>, boundary: set<nat>, dead: set<nat>, s: nat,
                psup: seq<nat>, tau: seq<nat>, buckets: seq<seq<nat>>)
    requires PeelInv(sys, region, boundary, dead, s, psup, tau)
    requires Queued(buckets, region - dead, psup, s, 0) && |buckets| <= s
    ensures region <= dead
    ensures forall e :: e in region ==> At(tau, e) == Word(Trussness(sys, e))
  {
    hide Deg, Trussness, Waits, Word;
    var rest := region - dead;
    QueuedBounds(buckets, rest, psup, s, 0);
    assert forall m :: m in rest ==> At(psup, m) >= s;
    assert rest == {};
    assert forall m :: m in region ==> m in dead || m in rest;
  }
}
