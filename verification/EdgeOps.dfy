/** What a batch of edge operations asks for, in terms of edge keys. */
module EdgeOps {
  import opened SimpleGraph

  /** An entry of an update stream (struct Op in src/common.h). */
  datatype Op = Op(del: bool, u: nat, v: nat) {
    function Key(): nat {
      EKey(u, v)
    }

    predicate Proper() {
      u != v
    }
  }

  predicate Asks(op: Op, del: bool, k: nat) {
    op.Proper() && op.del == del && op.Key() == k
  }

  ghost predicate Asked(raw: seq<Op>, del: bool, k: nat) {
    exists i :: 0 <= i < |raw| && Asks(raw[i], del, k)
  }

  /** Endpoints are 32-bit numbers, and those of insertions are vertices of the graph. */
  ghost predicate OpsInRange(raw: seq<Op>, n: nat) {
    forall i :: 0 <= i < |raw| ==>
                  && raw[i].u < VERTEX_SPACE && raw[i].v < VERTEX_SPACE
                  && (raw[i].Proper() && !raw[i].del ==> raw[i].u < n && raw[i].v < n)
  }

  /** The edges a merged batch removes: present, and some operation deletes them. */
  ghost function Deleted(keys: set<nat>, raw: seq<Op>): set<nat> {
    set k | k in keys && Asked(raw, true, k)
  }

  /** The edges a merged batch adds: absent, and some operation inserts them. */
  ghost function Inserted(keys: set<nat>, raw: seq<Op>): set<nat> {
    set i | 0 <= i < |raw| && raw[i].Proper() && !raw[i].del && raw[i].Key() !in keys :: raw[i].Key()
  }

  /** The edge set after a merged batch; presence is judged before the batch only. */
  ghost function BatchKeys(keys: set<nat>, raw: seq<Op>): set<nat> {
    keys - Deleted(keys, raw) + Inserted(keys, raw)
  }

  ghost function OneKeys(keys: set<nat>, op: Op): set<nat> {
    if !op.Proper() then keys
    else if op.del then keys - {op.Key()}
    else keys + {op.Key()}
  }

  /** The edge set after the operations one by one. */
  ghost function SeqKeys(keys: set<nat>, raw: seq<Op>): set<nat> {
    if raw == [] then keys else OneKeys(SeqKeys(keys, raw[..|raw| - 1]), raw[|raw| - 1])
  }

  lemma NoOps(keys: set<nat>)
    ensures SeqKeys(keys, []) == keys
  {}

  lemma SeqKeysNext(keys: set<nat>, raw: seq<Op>, i: nat)
    requires i < |raw|
    ensures SeqKeys(keys, raw[..i + 1]) == OneKeys(SeqKeys(keys, raw[..i]), raw[i])
  {
    assert raw[..i + 1][..i] == raw[..i];
  }

  lemma InsertedMember(keys: set<nat>, raw: seq<Op>, k: nat)
    ensures k in Inserted(keys, raw) <==> k !in keys && Asked(raw, false, k)
  {
    if k !in keys && Asked(raw, false, k) {
      var i :| 0 <= i < |raw| && Asks(raw[i], false, k);
    }
    if k in Inserted(keys, raw) {
      var i :| 0 <= i < |raw| && raw[i].Proper() && !raw[i].del && raw[i].Key() !in keys && k == raw[i].Key();
      assert Asks(raw[i], false, k);
    }
  }

  lemma AskedNext(raw: seq<Op>, i: nat, del: bool, k: nat)
    requires i < |raw|
    ensures Asked(raw[..i + 1], del, k) <==> Asked(raw[..i], del, k) || Asks(raw[i], del, k)
  {
    var p, q := raw[..i], raw[..i + 1];
    if Asked(p, del, k) {
      var j :| 0 <= j < |p| && Asks(p[j], del, k);
      assert Asks(q[j], del, k);
    }
    if Asks(raw[i], del, k) {
      assert Asks(q[i], del, k);
    }
    if Asked(q, del, k) {
      var j :| 0 <= j < |q| && Asks(q[j], del, k);
      assert j < i ==> Asks(p[j], del, k);
    }
  }

  /** One more operation adds its key to what is deleted or inserted, if it counts. */
  lemma BatchNext(keys: set<nat>, raw: seq<Op>, i: nat)
    requires i < |raw|
    ensures var op := raw[i];
            && Deleted(keys, raw[..i + 1]) == Deleted(keys, raw[..i]) +
                 (if op.Proper() && op.del && op.Key() in keys then {op.Key()} else {})
            && Inserted(keys, raw[..i + 1]) == Inserted(keys, raw[..i]) +
                 (if op.Proper() && !op.del && op.Key() !in keys then {op.Key()} else {})
  {
    var p, q := raw[..i], raw[..i + 1];
    forall k ensures Asked(q, true, k) <==> Asked(p, true, k) || Asks(raw[i], true, k) {
      AskedNext(raw, i, true, k);
    }
    forall k: nat ensures k in Inserted(keys, q) <==> k in Inserted(keys, p) || (Asks(raw[i], false, k) && k !in keys) {
      AskedNext(raw, i, false, k);
      InsertedMember(keys, p, k);
      InsertedMember(keys, q, k);
    }
  }

  lemma SingleBatch(keys: set<nat>, op: Op)
    ensures BatchKeys(keys, [op]) == OneKeys(keys, op)
  {
    BatchNext(keys, [op], 0);
    assert [op][..1] == [op] && [op][..0] == [];
  }

  /** After a merged batch: the old edges that no operation deletes, and the absent ones that some operation inserts. */
  lemma BatchKeysAre(keys: set<nat>, raw: seq<Op>, k: nat)
    ensures k in BatchKeys(keys, raw) <==>
            if k in keys
            then forall i :: 0 <= i < |raw| && raw[i].u != raw[i].v && EKey(raw[i].u, raw[i].v) == k ==> !raw[i].del
            else exists i :: 0 <= i < |raw| && raw[i].u != raw[i].v && EKey(raw[i].u, raw[i].v) == k && !raw[i].del
  {
    hide EKey;
    InsertedMember(keys, raw, k);
    if i :| 0 <= i < |raw| && raw[i].u != raw[i].v && EKey(raw[i].u, raw[i].v) == k && raw[i].del {
      assert Asks(raw[i], true, k);
    }
    if i :| 0 <= i < |raw| && raw[i].u != raw[i].v && EKey(raw[i].u, raw[i].v) == k && !raw[i].del {
      assert Asks(raw[i], false, k);
    }
  }

  // ---------------------------------------------------------------- merged against one by one

  /** The kind of the last operation on the key k, if there is one. */
  ghost predicate LastIs(raw: seq<Op>, del: bool, k: nat) {
    exists i :: 0 <= i < |raw| && Asks(raw[i], del, k) && !Asked(raw[i + 1..], !del, k)
  }

  lemma {:induction false} SeqMember(keys: set<nat>, raw: seq<Op>, k: nat)
    ensures k in SeqKeys(keys, raw) <==>
            (if Asked(raw, true, k) && Asked(raw, false, k) then LastIs(raw, false, k)
             else if Asked(raw, true, k) then false
             else k in keys || Asked(raw, false, k))
    ensures Asked(raw, true, k) || Asked(raw, false, k) ==> LastIs(raw, true, k) != LastIs(raw, false, k)
    ensures forall d :: LastIs(raw, d, k) ==> Asked(raw, d, k)
    decreases |raw|
  {
    if raw != [] {
      var n := |raw| - 1;
      SeqMember(keys, raw[..n], k);
      assert raw[..n + 1] == raw;
      AskedNext(raw, n, true, k);
      AskedNext(raw, n, false, k);
      LastNext(raw, n, true, k);
      LastNext(raw, n, false, k);
    }
  }

  lemma LastNext(raw: seq<Op>, n: nat, del: bool, k: nat)
    requires |raw| == n + 1
    ensures LastIs(raw, del, k) <==> Asks(raw[n], del, k) || (LastIs(raw[..n], del, k) && !Asks(raw[n], !del, k))
  {
    var p := raw[..n];
    if Asks(raw[n], del, k) {
      assert raw[n + 1..] == [];
      assert !Asked(raw[n + 1..], !del, k);
    }
    if LastIs(p, del, k) && !Asks(raw[n], !del, k) {
      var i :| 0 <= i < |p| && Asks(p[i], del, k) && !Asked(p[i + 1..], !del, k);
      TailNext(raw, n, i, !del, k);
      assert Asks(raw[i], del, k);
    }
    if LastIs(raw, del, k) && !Asks(raw[n], del, k) {
      var i :| 0 <= i < |raw| && Asks(raw[i], del, k) && !Asked(raw[i + 1..], !del, k);
      TailNext(raw, n, i, !del, k);
      assert Asks(p[i], del, k);
    }
  }

  lemma TailNext(raw: seq<Op>, n: nat, i: nat, del: bool, k: nat)
    requires |raw| == n + 1 && i < n
    ensures Asked(raw[i + 1..], del, k) <==> Asked(raw[..n][i + 1..], del, k) || Asks(raw[n], del, k)
  {
    var t := raw[i + 1..];
    assert raw[..n][i + 1..] == t[..|t| - 1];
    assert t[|t| - 1] == raw[n] && t[..|t|] == t;
    AskedNext(t, |t| - 1, del, k);
  }

  /**
   After the operations one by one: the old edges that no operation deletes, and those that some
   operation inserts and none after it deletes.
   */
  lemma SeqKeysAre(keys: set<nat>, raw: seq<Op>, k: nat)
    ensures k in SeqKeys(keys, raw) <==>
            || (k in keys && forall i :: 0 <= i < |raw| && raw[i].u != raw[i].v && EKey(raw[i].u, raw[i].v) == k ==>
                                           !raw[i].del)
            || exists i :: 0 <= i < |raw| && raw[i].u != raw[i].v && EKey(raw[i].u, raw[i].v) == k && !raw[i].del
                           && forall j :: i < j < |raw| && raw[j].u != raw[j].v && EKey(raw[j].u, raw[j].v) == k ==>
                                            !raw[j].del
  {
    hide EKey, SeqKeys;
    SeqMember(keys, raw, k);
    AskedAt(raw, true, k);
    LastInserted(raw, k);
    hide Asked, LastIs;
  }

  lemma AskedAt(raw: seq<Op>, del: bool, k: nat)
    ensures Asked(raw, del, k) <==>
            exists i :: 0 <= i < |raw| && raw[i].u != raw[i].v && EKey(raw[i].u, raw[i].v) == k && raw[i].del == del
  {
    hide EKey;
    if i :| 0 <= i < |raw| && raw[i].u != raw[i].v && EKey(raw[i].u, raw[i].v) == k && raw[i].del == del {
      assert Asks(raw[i], del, k);
    }
  }

  lemma LastInserted(raw: seq<Op>, k: nat)
    ensures LastIs(raw, false, k) <==>
            exists i :: 0 <= i < |raw| && raw[i].u != raw[i].v && EKey(raw[i].u, raw[i].v) == k && !raw[i].del
                        && forall j :: i < j < |raw| && raw[j].u != raw[j].v && EKey(raw[j].u, raw[j].v) == k ==>
                                         !raw[j].del
  {
    hide EKey, Asked;
    forall i | 0 <= i < |raw| && Asks(raw[i], false, k)
      ensures Asked(raw[i + 1..], true, k) <==>
              exists j :: i < j < |raw| && raw[j].u != raw[j].v && EKey(raw[j].u, raw[j].v) == k && raw[j].del
    {
      AskedAfter(raw, i, k);
    }
    if i :| 0 <= i < |raw| && raw[i].u != raw[i].v && EKey(raw[i].u, raw[i].v) == k && !raw[i].del
            && !Asked(raw[i + 1..], true, k) {
      assert Asks(raw[i], false, k);
    }
  }

  lemma AskedAfter(raw: seq<Op>, i: nat, k: nat)
    requires i < |raw|
    ensures Asked(raw[i + 1..], true, k) <==>
            exists j :: i < j < |raw| && raw[j].u != raw[j].v && EKey(raw[j].u, raw[j].v) == k && raw[j].del
  {
    hide EKey;
    var tail := raw[i + 1..];
    AskedAt(tail, true, k);
    hide Asked;
    if j :| i < j < |raw| && raw[j].u != raw[j].v && EKey(raw[j].u, raw[j].v) == k && raw[j].del {
      assert tail[j - i - 1] == raw[j];
    }
    if j :| 0 <= j < |tail| && tail[j].u != tail[j].v && EKey(tail[j].u, tail[j].v) == k && tail[j].del {
      assert raw[i + 1 + j] == tail[j];
    }
  }

  /** Operations on the vertices of a graph are in range. */
  lemma VerticesInRange(raw: seq<Op>, n: nat)
    requires n <= 0xFFFF_FFFF && forall i :: 0 <= i < |raw| ==> raw[i].u < n && raw[i].v < n
    ensures OpsInRange(raw, n)
  {}

  /**
   A merged batch and the same operations one by one leave the same edges exactly when every
   key that is both deleted and inserted is operated on last in the sense of its old state:
   a present edge is deleted last, an absent one inserted last.
   */
  ghost predicate OrderIrrelevant(keys: set<nat>, raw: seq<Op>) {
    forall k :: Asked(raw, true, k) && Asked(raw, false, k) ==> LastIs(raw, true, k) == (k in keys)
  }

  lemma MergedIsSequentialIff(keys: set<nat>, raw: seq<Op>)
    ensures BatchKeys(keys, raw) == SeqKeys(keys, raw) <==> OrderIrrelevant(keys, raw)
  {
    forall k ensures k in BatchKeys(keys, raw) <==> (if k in keys then !Asked(raw, true, k) else Asked(raw, false, k)) {
      InsertedMember(keys, raw, k);
    }
    forall k ensures k in BatchKeys(keys, raw) <==> k in SeqKeys(keys, raw)
               <==> (Asked(raw, true, k) && Asked(raw, false, k) ==> LastIs(raw, true, k) == (k in keys))
    {
      SeqMember(keys, raw, k);
    }
    hide BatchKeys, SeqKeys, Asked, LastIs;
    if BatchKeys(keys, raw) != SeqKeys(keys, raw) {
      assert exists k :: (k in BatchKeys(keys, raw)) != (k in SeqKeys(keys, raw));
    }
  }

  /** In particular when no key is both deleted and inserted. */
  lemma NoConflict(keys: set<nat>, raw: seq<Op>)
    requires forall k :: !(Asked(raw, true, k) && Asked(raw, false, k))
    ensures BatchKeys(keys, raw) == SeqKeys(keys, raw)
  {
    MergedIsSequentialIff(keys, raw);
  }

  /** Inserting an absent edge and deleting it again: the merged batch keeps it. */
  lemma ConflictExample()
    ensures var raw := [Op(false, 0, 1), Op(true, 0, 1)];
            BatchKeys({}, raw) == {EKey(0, 1)} && SeqKeys({}, raw) == {}
  {
    var raw := [Op(false, 0, 1), Op(true, 0, 1)];
    assert Asks(raw[0], false, EKey(0, 1));
    InsertedMember({}, raw, EKey(0, 1));
    assert SeqKeys({}, raw[..1]) == {EKey(0, 1)} by {
      assert raw[..1][..0] == [];
    }
  }
}
