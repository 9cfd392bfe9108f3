/**
 The invariant of the open-addressing edge table (src/graph.h): linear probing over a
 circular array of slots, deletion by tombstones. Everything here is about the contents
 of the arrays; the operations themselves are methods of DynGraph.
 */
module HashTable {
  import FiniteSets

  const NIL: nat := 0xFFFF_FFFF
  const TOMBSTONE: nat := 0xFFFF_FFFF

  ghost predicate PowerOfTwo(n: nat) {
    n == 1 || (n > 1 && n % 2 == 0 && PowerOfTwo(n / 2))
  }

  lemma SixteenIsPower()
    ensures PowerOfTwo(16)
  {
    assert PowerOfTwo(2);
    DoublePower(2);
    DoublePower(4);
    DoublePower(8);
  }

  lemma DoublePower(n: nat)
    requires PowerOfTwo(n)
    ensures PowerOfTwo(n * 2)
  {
    assert n * 2 / 2 == n;
  }

  /** Bitwise and. */
  function BitAnd(x: nat, y: nat): (r: nat)
    ensures r <= y
  {
    if x == 0 || y == 0 then 0 else 2 * BitAnd(x / 2, y / 2) + (x % 2) * (y % 2)
  }

  /** The slot where the probe for a hash value starts. */
  function Home(x: nat, size: nat): (i: nat)
    requires size > 0
    ensures i < size
  {
    BitAnd(x, size - 1)
  }

  function Next(i: nat, size: nat): (r: nat)
    requires i < size
    ensures r < size
  {
    if i + 1 == size then 0 else i + 1
  }

  /** j lies on the probe path that starts in slot h and ends just before slot i. */
  predicate OnPath(h: nat, j: nat, i: nat) {
    if h <= i then h <= j < i else h <= j || j < i
  }

  predicate Live(hval: seq<nat>, i: nat)
    requires i < |hval|
  {
    hval[i] != 0 && hval[i] != TOMBSTONE
  }

  ghost function Used(hval: seq<nat>): set<nat> {
    set i | 0 <= i < |hval| && hval[i] != 0
  }

  /** Live slots agree with the map. */
  ghost predicate Sound(hkey: seq<nat>, hval: seq<nat>, tab: map<nat, nat>)
    requires |hkey| == |hval|
  {
    forall i :: 0 <= i < |hval| && Live(hval, i) ==> hkey[i] in tab && tab[hkey[i]] + 1 == hval[i]
  }

  ghost predicate Complete(hkey: seq<nat>, hval: seq<nat>, tab: map<nat, nat>)
    requires |hkey| == |hval|
  {
    forall k :: k in tab ==> exists i :: 0 <= i < |hval| && Live(hval, i) && hkey[i] == k
  }

  ghost predicate DistinctKeys(hkey: seq<nat>, hval: seq<nat>)
    requires |hkey| == |hval|
  {
    forall i, j :: 0 <= i < |hval| && 0 <= j < |hval| && Live(hval, i) && Live(hval, j) && hkey[i] == hkey[j] ==> i == j
  }

  /** The probe path of slot i from the home slot of key k has no empty slot. */
  ghost predicate PathFull(hash: nat -> nat, hval: seq<nat>, k: nat, i: nat)
    requires |hval| > 0
  {
    forall j :: 0 <= j < |hval| && OnPath(Home(hash(k), |hval|), j, i) ==> hval[j] != 0
  }

  ghost predicate NoHoles(hash: nat -> nat, hkey: seq<nat>, hval: seq<nat>)
    requires |hkey| == |hval|
  {
    forall i :: 0 <= i < |hval| && Live(hval, i) ==> PathFull(hash, hval, hkey[i], i)
  }

  /** The arrays hold the map tab. */
  ghost predicate Represents(hash: nat -> nat, hkey: seq<nat>, hval: seq<nat>, tab: map<nat, nat>) {
    && |hkey| == |hval| > 0
    && Sound(hkey, hval, tab) && Complete(hkey, hval, tab)
    && DistinctKeys(hkey, hval) && NoHoles(hash, hkey, hval)
  }

  lemma RepresentsParts(hash: nat -> nat, hkey: seq<nat>, hval: seq<nat>, tab: map<nat, nat>)
    requires Represents(hash, hkey, hval, tab)
    ensures |hkey| == |hval| && Sound(hkey, hval, tab) && Complete(hkey, hval, tab) && DistinctKeys(hkey, hval)
  {
    hide Sound, Complete, DistinctKeys, NoHoles;
  }

  lemma EmptyTable(hash: nat -> nat, hkey: seq<nat>, hval: seq<nat>)
    requires |hkey| == |hval| > 0 && forall i :: 0 <= i < |hval| ==> hval[i] == 0
    ensures Represents(hash, hkey, hval, map[]) && Used(hval) == {}
  {}

  lemma FullTable(hval: seq<nat>)
    requires forall i :: 0 <= i < |hval| ==> hval[i] != 0
    ensures |Used(hval)| >= |hval|
  {
    FiniteSets.SubsetCard(FiniteSets.Interval(|hval|), Used(hval));
  }

  lemma EmptySlot(hval: seq<nat>) returns (z: nat)
    requires |Used(hval)| < |hval|
    ensures z < |hval| && hval[z] == 0
  {
    if forall i :: 0 <= i < |hval| ==> hval[i] != 0 {
      FullTable(hval);
    }
    z :| z < |hval| && hval[z] == 0;
  }

  /** A key whose probe reaches an empty slot without meeting it is not in the table. */
  lemma MissMeansAbsent(hash: nat -> nat, hkey: seq<nat>, hval: seq<nat>, tab: map<nat, nat>, k: nat, i: nat)
    requires Represents(hash, hkey, hval, tab)
    requires i < |hval| && hval[i] == 0
    requires forall j :: 0 <= j < |hval| && OnPath(Home(hash(k), |hval|), j, i) && Live(hval, j) ==> hkey[j] != k
    ensures k !in tab
  {
    forall j | 0 <= j < |hval| && Live(hval, j) ensures hkey[j] != k {
      assert PathFull(hash, hval, hkey[j], j);
    }
  }

  /** Writing an absent key into the first free slot of its probe path adds it to the map. */
  lemma InsertSlot(hash: nat -> nat, hkey: seq<nat>, hval: seq<nat>, tab: map<nat, nat>, k: nat, v: nat, i: nat)
    requires Represents(hash, hkey, hval, tab) && k !in tab
    requires i < |hval| && !Live(hval, i) && v != 0 && v != TOMBSTONE
    requires PathFull(hash, hval, k, i)
    ensures Represents(hash, hkey[i := k], hval[i := v], tab[k := v - 1])
    ensures Used(hval[i := v]) == Used(hval) + {i}
  {
    var hkey', hval', tab' := hkey[i := k], hval[i := v], tab[k := v - 1];
    assert forall j :: 0 <= j < |hval| && j != i ==> Live(hval', j) == Live(hval, j) && hkey'[j] == hkey[j];
    assert Complete(hkey', hval', tab') by {
      forall x | x in tab' ensures exists j :: 0 <= j < |hval'| && Live(hval', j) && hkey'[j] == x {
        if x == k {
          assert Live(hval', i);
        } else {
          var j :| 0 <= j < |hval| && Live(hval, j) && hkey[j] == x;
          assert Live(hval', j);
        }
      }
    }
    assert NoHoles(hash, hkey', hval') by {
      forall j | 0 <= j < |hval'| && Live(hval', j) ensures PathFull(hash, hval', hkey'[j], j) {
        assert PathFull(hash, hval, hkey'[j], j);
      }
    }
  }

  /** A tombstone in the slot of a key removes it and leaves every probe path intact. */
  lemma DeleteSlot(hash: nat -> nat, hkey: seq<nat>, hval: seq<nat>, tab: map<nat, nat>, i: nat)
    requires Represents(hash, hkey, hval, tab) && i < |hval| && Live(hval, i)
    ensures Represents(hash, hkey, hval[i := TOMBSTONE], tab - {hkey[i]})
    ensures Used(hval[i := TOMBSTONE]) == Used(hval)
  {
    var hval', tab' := hval[i := TOMBSTONE], tab - {hkey[i]};
    assert forall j :: 0 <= j < |hval| && j != i ==> Live(hval', j) == Live(hval, j);
    assert Complete(hkey, hval', tab') by {
      forall x | x in tab' ensures exists j :: 0 <= j < |hval'| && Live(hval', j) && hkey[j] == x {
        var j :| 0 <= j < |hval| && Live(hval, j) && hkey[j] == x;
        assert Live(hval', j);
      }
    }
    assert NoHoles(hash, hkey, hval') by {
      forall j | 0 <= j < |hval'| && Live(hval', j) ensures PathFull(hash, hval', hkey[j], j) {
        assert PathFull(hash, hval, hkey[j], j);
      }
    }
  }

  /** One probe step towards an empty slot z: the path grows by the slot left behind. */
  lemma ProbeStep(h: nat, i: nat, z: nat, size: nat)
    requires h < size && i < size && z < size && i != z
    requires i == h || OnPath(h, i, z)
    ensures Next(i, size) == z || OnPath(h, Next(i, size), z)
    ensures forall j: nat :: j < size && OnPath(h, j, Next(i, size)) ==> j == i || OnPath(h, j, i)
    ensures Steps(Next(i, size), z, size) < Steps(i, z, size)
  {}

  /** How many probe steps lead from slot i to slot z. */
  function Steps(i: nat, z: nat, size: nat): nat
    requires i < size && z < size
  {
    if i <= z then z - i else z - i + size
  }

  /** The first empty or deleted slot on the probe path of k. */
  method FreeSlot(hash: nat -> nat, hval: seq<nat>, k: nat) returns (i: nat)
    requires |Used(hval)| < |hval|
    ensures i < |hval| && !Live(hval, i) && PathFull(hash, hval, k, i)
  {
    ghost var z := EmptySlot(hval);
    ghost var h := Home(hash(k), |hval|);
    i := Home(hash(k), |hval|);
    while hval[i] != 0 && hval[i] != TOMBSTONE
      invariant i < |hval| && (i == h || OnPath(h, i, z) || i == z)
      invariant PathFull(hash, hval, k, i)
      decreases Steps(i, z, |hval|)
    {
      ProbeStep(h, i, z, |hval|);
      i := Next(i, |hval|);
    }
  }

  /** The slot of k, or the empty slot that ends its probe path when k is absent. */
  method KeySlot(hash: nat -> nat, hkey: seq<nat>, hval: seq<nat>, ghost tab: map<nat, nat>, k: nat) returns (i: nat)
    requires Represents(hash, hkey, hval, tab) && |Used(hval)| < |hval|
    ensures i < |hval|
    ensures if k in tab then Live(hval, i) && hkey[i] == k && hval[i] == tab[k] + 1 else hval[i] == 0
  {
    ghost var z := EmptySlot(hval);
    ghost var h := Home(hash(k), |hval|);
    i := Home(hash(k), |hval|);
    while hval[i] != 0 && !(hval[i] != TOMBSTONE && hkey[i] == k)
      invariant i < |hval| && (i == h || OnPath(h, i, z) || i == z)
      invariant forall j :: 0 <= j < |hval| && OnPath(h, j, i) && Live(hval, j) ==> hkey[j] != k
      decreases Steps(i, z, |hval|)
    {
      hide Represents;
      ProbeStep(h, i, z, |hval|);
      i := Next(i, |hval|);
    }
    if hval[i] == 0 {
      MissMeansAbsent(hash, hkey, hval, tab, k, i);
    } else {
      assert Live(hval, i);
    }
  }

  /** Reads off the live entries in slot order; src says where each came from. */
  method CollectLive(hkey: seq<nat>, hval: seq<nat>) returns (ok: seq<nat>, ov: seq<nat>, ghost src: seq<nat>)
    requires |hkey| == |hval|
    ensures |ok| == |ov| == |src|
    ensures forall j :: 0 <= j < |src| ==>
                          src[j] < |hval| && Live(hval, src[j]) && ok[j] == hkey[src[j]] && ov[j] == hval[src[j]]
    ensures forall j, l :: 0 <= j < l < |src| ==> src[j] < src[l]
    ensures forall l :: 0 <= l < |hval| && Live(hval, l) ==> hkey[l] in ok
  {
    ok, ov, src := [], [], [];
    for i := 0 to |hval|
      invariant |ok| == |ov| == |src|
      invariant forall j :: 0 <= j < |src| ==>
                              src[j] < i && Live(hval, src[j]) && ok[j] == hkey[src[j]] && ov[j] == hval[src[j]]
      invariant forall j, l :: 0 <= j < l < |src| ==> src[j] < src[l]
      invariant forall l :: 0 <= l < i && Live(hval, l) ==> hkey[l] in ok
    {
      if hval[i] != 0 && hval[i] != TOMBSTONE {
        assert Live(hval, i);
        ok := ok + [hkey[i]];
        ov := ov + [hval[i]];
        src := src + [i];
      }
    }
  }

  /** The live entries: every key of the map once, with its stored value. */
  method LiveEntries(hkey: seq<nat>, hval: seq<nat>, ghost tab: map<nat, nat>) returns (ok: seq<nat>, ov: seq<nat>)
    requires |hkey| == |hval| && Sound(hkey, hval, tab) && Complete(hkey, hval, tab) && DistinctKeys(hkey, hval)
    ensures |ok| == |ov| == |tab|
    ensures forall j, l :: 0 <= j < l < |ok| ==> ok[j] != ok[l]
    ensures forall k :: k in tab <==> k in ok
    ensures forall j :: 0 <= j < |ok| ==> ok[j] in tab && ov[j] == tab[ok[j]] + 1 && ov[j] != TOMBSTONE
  {
    ghost var src;
    ok, ov, src := CollectLive(hkey, hval);
    FiniteSets.DistinctCard(ok, tab.Keys);
  }
}
