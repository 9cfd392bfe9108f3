/** Merged batches, unmerged batches, single operations and recomputation agree. */
module Agreement {
  import opened Batch
  import CalmOps
  import opened DynamicGraph
  import opened EdgeOps
  import Peeling
  import opened SimpleGraph
  import Stamps
  import StaticDecomposition
  import opened Truss
  import PerEdge

  /**
   The program's own check of maintained values against a recomputation from scratch
   (verify_now): it accepts exactly the values that are the trussness in 16 bits.
   */
  method VerifyNow(g: DynGraph, tau: seq<nat>) returns (ok: bool)
    requires g.Valid() && g.capEdges <= |tau|
    ensures ok <==> Peeling.Stored(Sys(g.G()), tau)
    ensures Peeling.Fits(Sys(g.G())) ==> (ok <==> Exact(Sys(g.G()), tau))
  {
    hide GraphInv, DynGraph.TableOk, TableMatches, GraphOf, Triangles, Stamps.StampSet.Marks, Stamps.StampSet.Valid,
         DynGraph.Valid, Simple, SmallEnds, Deg, InTruss, Peeling.Word, Trussness;
    g.InvBounds();
    var st := new Stamps.StampSet(g.n);
    var truth, sup := StaticDecomposition.StaticTruss(g, st);
    for e := 0 to g.capEdges
      invariant forall f :: f in g.G() && f < e ==> tau[f] == truth[f]
    {
      if g.Alive(e) && tau[e] != truth[e] {
        assert e in Sys(g.G()).edges;
        return false;
      }
    }
    return true;
  }

  /** Maintainers whose graphs have the same edges hold the same value for every endpoint pair. */
  lemma SameValues(a: BatchMaintainer, b: PerEdge.PerEdgeMaintainer)
    requires a.Valid() && b.Valid() && Keys(a.g.G()) == Keys(b.g.G())
    ensures forall e, f :: e in a.g.G() && f in b.g.G() && KeyOf(a.g.G(), e) == KeyOf(b.g.G(), f) ==>
                    At(a.tau, e) == At(b.tau, f)
  {
    hide BatchMaintainer.Valid, PerEdge.PerEdgeMaintainer.Valid, KeyTruss, Keys, KeyOf, Peeling.Word;
    a.ValuesByKeys();
    b.ValuesByKeys();
  }

  lemma SameBatchValues(a: BatchMaintainer, b: BatchMaintainer)
    requires a.Valid() && b.Valid() && Keys(a.g.G()) == Keys(b.g.G())
    ensures forall e, f :: e in a.g.G() && f in b.g.G() && KeyOf(a.g.G(), e) == KeyOf(b.g.G(), f) ==>
                    At(a.tau, e) == At(b.tau, f)
  {
    hide BatchMaintainer.Valid, KeyTruss, Keys, KeyOf, Peeling.Word;
    a.ValuesByKeys();
    b.ValuesByKeys();
  }

  /**
   From the same edges, one batch applied merged, unmerged, and operation by operation ends
   with the same edges and the same values, provided the order of operations on one key
   cannot matter.
   */
  method ThreeWays(a: BatchMaintainer, b: BatchMaintainer, c: PerEdge.PerEdgeMaintainer, raw: seq<Op>)
    requires a.Valid() && b.Valid() && c.Valid()
    requires a != b && a.g != b.g && b.g != c.g && a.g != c.g && a.st != b.st && b.st != c.st && a.st != c.st
    requires Keys(a.g.G()) == Keys(b.g.G()) == Keys(c.g.G())
    requires OrderIrrelevant(Keys(a.g.G()), raw)
    requires forall i :: 0 <= i < |raw| ==> CalmOps.StepCalm(SeqKeys(Keys(a.g.G()), raw[..i]), raw[i])
    requires OpsInRange(raw, a.g.n) && OpsInRange(raw, b.g.n) && OpsInRange(raw, c.g.n)
    requires forall i :: 0 <= i <= |raw| ==>
                           && a.g.Room(|SeqKeys(Keys(a.g.G()), raw[..i])|)
                           && b.g.Room(|SeqKeys(Keys(a.g.G()), raw[..i])|)
                           && c.g.Room(|SeqKeys(Keys(a.g.G()), raw[..i])|)
    modifies a, a.g, a.st, b, b.g, b.st, c, c.g, c.st
    ensures a.Valid() && b.Valid() && c.Valid()
    ensures Keys(a.g.G()) == Keys(b.g.G()) == Keys(c.g.G()) == SeqKeys(old(Keys(a.g.G())), raw)
    ensures forall e, f :: e in a.g.G() && f in b.g.G() && KeyOf(a.g.G(), e) == KeyOf(b.g.G(), f) ==>
                    At(a.tau, e) == At(b.tau, f)
    ensures forall e, f :: e in a.g.G() && f in c.g.G() && KeyOf(a.g.G(), e) == KeyOf(c.g.G(), f) ==>
                    At(a.tau, e) == At(c.tau, f)
  {
    hide BatchMaintainer.Valid, PerEdge.PerEdgeMaintainer.Valid, Keys, KeyOf, SeqKeys, BatchKeys, OrderIrrelevant,
         OpsInRange, CalmOps.StepCalm, DynGraph.Skipped, DynGraph.Room;
    MergedIsSequentialIff(Keys(a.g.G()), raw);
    assert raw[..|raw|] == raw;
    var okA := a.ApplyBatch(raw);
    var okB := b.ApplyBatchNoMerge(raw);
    c.Run(raw);
    SameBatchValues(a, b);
    SameValues(a, c);
  }
}
