/**
 The book graph with m pages, two adjacent vertices 0 and 1 and m vertices joined to both of them,
 in the indexed form that the asynchronous algorithm
 (baselines/AccTrussDecomposition/h-idx/pnd/local23_yche.cpp) works on: a small graph whose first
 edge lies in m triangles.
 */
module Books {
  import opened AsyncHIndex
  import FiniteSets
  import opened Galloping
  import opened SimpleGraph
  import Truss

  /** Edge 0 is the spine; page w - 2 has the edges 2w - 3 to vertex 0 and 2w - 2 to vertex 1. */
  function SpineEnds(e: nat): (nat, nat) {
    if e == 0 then (0, 1) else if e % 2 == 1 then (0, e / 2 + 2) else (1, e / 2 + 1)
  }

  function Ends(m: nat): (el: seq<(nat, nat)>)
    ensures |el| == 2 * m + 1 && forall e :: 0 <= e < |el| ==> el[e] == SpineEnds(e)
  {
    seq(2 * m + 1, e requires 0 <= e => SpineEnds(e))
  }

  function Start(m: nat, x: nat): nat {
    if x == 0 then 0 else if x == 1 then m + 1 else 2 * m + 2 + 2 * (x - 2)
  }

  function Offsets(m: nat): (xadj: seq<nat>)
    ensures |xadj| == m + 3 && forall x :: 0 <= x < |xadj| ==> xadj[x] == Start(m, x)
  {
    seq(m + 3, x requires 0 <= x => Start(m, x))
  }

  function Neighbour(m: nat, i: nat): nat {
    if i < m + 1 then i + 1
    else if i == m + 1 then 0
    else if i < 2 * m + 2 then i - m
    else i % 2
  }

  function Neighbours(m: nat): (adj: seq<nat>)
    ensures |adj| == 4 * m + 2 && forall i :: 0 <= i < |adj| ==> adj[i] == Neighbour(m, i)
  {
    seq(4 * m + 2, i requires 0 <= i => Neighbour(m, i))
  }

  function Link(m: nat, i: nat): nat {
    if i == 0 || i == m + 1 then 0
    else if i < m + 1 then 2 * i - 1
    else if i < 2 * m + 2 then 2 * (i - m - 1)
    else i - 2 * m - 1
  }

  function Links(m: nat): (rev: seq<nat>)
    ensures |rev| == 4 * m + 2 && forall i :: 0 <= i < |rev| ==> rev[i] == Link(m, i)
  {
    seq(4 * m + 2, i requires 0 <= i => Link(m, i))
  }

  lemma BookSimple(m: nat)
    ensures Simple(GraphOfEnds(Ends(m)))
    ensures forall e :: 0 <= e < 2 * m + 1 ==> GraphOfEnds(Ends(m))[e] == SpineEnds(e)
    ensures GraphOfEnds(Ends(m)).Keys == FiniteSets.Interval(2 * m + 1)
  {
    var g := GraphOfEnds(Ends(m));
    forall e | e in g ensures g[e].0 < g[e].1 && g[e] == SpineEnds(e) {}
    forall e, f | e in g && f in g && g[e] == g[f] ensures e == f {
      SpineInjective(e, f);
    }
  }

  lemma SpineInjective(e: nat, f: nat)
    requires SpineEnds(e) == SpineEnds(f)
    ensures e == f
  {}

  lemma BookRanges(m: nat)
    requires 4 * m + 2 <= 0x8000_0000
    ensures RangesOk(Offsets(m), Neighbours(m))
  {
    var xadj, adj := Offsets(m), Neighbours(m);
    forall x: nat | x + 1 < |xadj| ensures RangeOk(xadj, adj, x) {
      ShortRangesFit(xadj[x], xadj[x + 1]);
      BookIncreasing(m, x);
      hide Searchable, Increasing;
    }
  }

  lemma BookIncreasing(m: nat, x: nat)
    requires x < m + 2
    ensures Start(m, x) <= Start(m, x + 1) <= 4 * m + 2
    ensures Increasing(Neighbours(m), Start(m, x), Start(m, x + 1))
  {
    forall i, j | Start(m, x) <= i < j < Start(m, x + 1) ensures Neighbours(m)[i] < Neighbours(m)[j] {
      assert Neighbour(m, i) < Neighbour(m, j) by {
        if x >= 2 {
          assert i == 2 * m + 2 + 2 * (x - 2) && j == i + 1;
          assert i % 2 == 0 && j % 2 == 1;
        }
      }
    }
  }

  /** The entry i of the range of x is an edge from x. */
  lemma EntryJoins(m: nat, x: nat, i: nat)
    requires x < m + 2 && Start(m, x) <= i < Start(m, x + 1)
    ensures Link(m, i) < 2 * m + 1
    ensures SpineEnds(Link(m, i)) == (x, Neighbour(m, i)) || SpineEnds(Link(m, i)) == (Neighbour(m, i), x)
  {
    if x >= 2 {
      var k := i - (2 * m + 2 + 2 * (x - 2));
      assert k == 0 || k == 1;
      assert i % 2 == k;
    }
  }

  /** Where the edge e stands in the range of its end x. */
  lemma EntryOfEdge(m: nat, e: nat, x: nat, y: nat) returns (i: nat)
    requires e < 2 * m + 1 && (SpineEnds(e) == (x, y) || SpineEnds(e) == (y, x))
    ensures x < m + 2 && Start(m, x) <= i < Start(m, x + 1) && i < 4 * m + 2 && Neighbour(m, i) == y
  {
    if x == 0 {
      i := y - 1;
    } else if x == 1 {
      i := if y == 0 then m + 1 else y + m;
    } else {
      i := 2 * m + 2 + 2 * (x - 2) + y;
    }
  }

  lemma EntriesJoin(m: nat)
    ensures var xadj, adj := Offsets(m), Neighbours(m);
            forall x: nat, i: nat :: x + 1 < |xadj| && xadj[x] <= i < xadj[x + 1] && i < |adj| ==>
                                       Joins(GraphOfEnds(Ends(m)), Links(m)[i], x, adj[i])
  {
    BookSimple(m);
    hide Simple, GraphOfEnds, SpineEnds, Start, Neighbour, Link;
    var xadj, adj := Offsets(m), Neighbours(m);
    forall x: nat, i: nat | x + 1 < |xadj| && xadj[x] <= i < xadj[x + 1] && i < |adj|
      ensures Joins(GraphOfEnds(Ends(m)), Links(m)[i], x, adj[i])
    {
      EntryJoins(m, x, i);
    }
  }

  lemma BookLinks(m: nat)
    ensures LinksOk(GraphOfEnds(Ends(m)), Offsets(m), Neighbours(m), Links(m))
  {
    BookSimple(m);
    hide Simple, GraphOfEnds, SpineEnds, Start, Neighbour, Link;
    var g, xadj, adj, rev := GraphOfEnds(Ends(m)), Offsets(m), Neighbours(m), Links(m);
    EntriesJoin(m);
    forall e: nat, x: nat, y: nat | Joins(g, e, x, y)
      ensures x + 1 < |xadj| && exists i :: xadj[x] <= i < xadj[x + 1] && i < |adj| && adj[i] == y
    {
      assert e in FiniteSets.Interval(2 * m + 1);
      var i := EntryOfEdge(m, e, x, y);
      assert adj[i] == y;
    }
  }

  lemma BookIndex(m: nat)
    requires 4 * m + 2 <= 0x8000_0000
    ensures IndexOk(Offsets(m), Neighbours(m), Ends(m), Links(m))
  {
    BookSimple(m);
    BookRanges(m);
    BookLinks(m);
    hide Simple, RangesOk, LinksOk;
  }

  /** The spine lies in a triangle with every page. */
  lemma SpineTriangles(m: nat)
    requires 4 * m + 2 <= 0x8000_0000
    ensures Truss.Deg(Triangles(GraphOfEnds(Ends(m))), 0) == m
  {
    BookIndex(m);
    WritesAreTriangles(Offsets(m), Neighbours(m), Ends(m), Links(m), 0);
    hide Triangles, GraphOfEnds, IndexOk, Truss.Deg, Writes, Offsets, Neighbours, Links;
    SpineWrites(m);
  }

  lemma SpineWrites(m: nat)
    ensures |Ends(m)| > 0 && Ends(m)[0].0 + 1 < |Offsets(m)| && Ends(m)[0].1 + 1 < |Offsets(m)|
    ensures Writes(Offsets(m), Neighbours(m), Ends(m), 0) == m
  {
    SpineCommon(m);
    hide Common, Neighbours;
  }

  lemma SpineCommon(m: nat)
    ensures |Common(Neighbours(m), 0, m + 1, m + 1, 2 * m + 2)| == m
  {
    var adj := Neighbours(m);
    var pages := seq(m, i requires 0 <= i => i + 2);
    var all := Common(adj, 0, m + 1, m + 1, 2 * m + 2);
    forall w: nat | 2 <= w < m + 2 ensures w in all {
      assert adj[w - 1] == w && adj[w + m] == w;
      assert InRange(adj, m + 1, 2 * m + 2, adj[w - 1]);
    }
    forall val: int | val in all ensures 2 <= val < m + 2 {
      var x :| 0 <= x < m + 1 && InRange(adj, m + 1, 2 * m + 2, adj[x]) && adj[x] == val;
      var y :| m + 1 <= y < 2 * m + 2 && adj[y] == adj[x];
    }
    forall val: int | val in all ensures val in pages {
      assert pages[val - 2] == val;
    }
    var ints: seq<int> := pages;
    FiniteSets.DistinctCard(ints, all);
  }

  /**
   A graph of about four million edges, well indexed, on which the intersection writes behind
   the end of its buffers.
   */
  lemma BuffersOverflow()
    ensures var m := 0x20_0001;
            && IndexOk(Offsets(m), Neighbours(m), Ends(m), Links(m))
            && WritesTo(Offsets(m), Neighbours(m), Ends(m), 0, MAX_INTERSECTION_SIZE)
  {
    var m := 0x20_0001;
    BookIndex(m);
    SpineTriangles(m);
    WritesAreTriangles(Offsets(m), Neighbours(m), Ends(m), Links(m), 0);
    hide IndexOk, Triangles, GraphOfEnds, Truss.Deg, Writes;
  }
}
