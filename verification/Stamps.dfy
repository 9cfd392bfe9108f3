/** Epoch-stamped vertex marks (src/common.h). */
module Stamps {

  /** Stamps are 32-bit counters. */
  const STAMP_SPACE: nat := 0x1_0000_0000

  class StampSet {
    var s: seq<nat>
    var mid: seq<nat>
    var e: nat

    ghost predicate Valid()
      reads this
    {
      && |s| == |mid|
      && 1 <= e < STAMP_SPACE
      && forall v :: 0 <= v < |s| ==> s[v] <= e
    }

    /** The vertices marked in the current epoch, with the edge id recorded for each. */
    ghost function Marks(): map<nat, nat>
      requires Valid()
      reads this
    {
      map v: nat | v < |s| && s[v] == e :: mid[v]
    }

    constructor (n: nat)
      ensures Valid() && |s| == n && Marks() == map[]
    {
      s := seq(n, _ => 0);
      mid := seq(n, _ => 0);
      e := 1;
    }

    /** Forgets all marks, also when the 32-bit counter wraps around. */
    method NextEpoch()
      requires Valid()
      modifies this
      ensures Valid() && |s| == old(|s|)
      ensures Marks() == map[]
    {
      e := (e + 1) % STAMP_SPACE;
      if e == 0 {
        s := seq(|s|, _ => 0);
        mid := seq(|mid|, _ => 0);
        e := 1;
      }
    }

    method Mark(v: nat, eid: nat)
      requires Valid() && v < |s|
      modifies this
      ensures Valid() && |s| == old(|s|)
      ensures Marks() == old(Marks())[v := eid]
    {
      s := s[v := e];
      mid := mid[v := eid];
    }

    predicate Test(v: nat)
      requires Valid() && v < |s|
      reads this
      ensures Test(v) <==> v in Marks()
    {
      s[v] == e
    }

    function MarkedEid(v: nat): (eid: nat)
      requires Valid() && v < |s|
      reads this
      ensures v in Marks() ==> eid == Marks()[v]
    {
      mid[v]
    }
  }
}
