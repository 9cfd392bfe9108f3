/**
 Galloping search and intersection of sorted adjacency ranges
 (GallopingSearch in pnd/main.h, SetIntersectGalloping in pnd/local23_yche.cpp).
 */
module Galloping {
  import FiniteSets

  /** Offsets are 32-bit. */
  const OFFSET_SPACE: nat := 0x1_0000_0000

  /** Capacity of the two result buffers. */
  const MAX_INTERSECTION_SIZE: nat := 2048 * 1024

  /** A sum or product of offsets, as 32-bit arithmetic leaves it. */
  function Wrap(x: nat): (r: nat)
    ensures r < 0x1_0000_0000 && (x < 0x1_0000_0000 ==> r == x)
  {
    x % OFFSET_SPACE
  }

  ghost predicate Increasing(a: seq<int>, lo: nat, hi: nat) {
    hi <= |a| && forall i, j :: lo <= i < j < hi ==> a[i] < a[j]
  }

  /** r is the first offset in the range whose value is at least val, or hi. */
  ghost predicate LowerBound(a: seq<int>, lo: nat, hi: nat, val: int, r: nat) {
    && lo <= r <= hi <= |a|
    && (forall i :: lo <= i < r ==> a[i] < val)
    && (r < hi ==> a[r] >= val)
  }

  /** BinarySearchForGallopingSearch: halves the range down to 31 elements, then scans it. */
  method BinarySearch(a: seq<int>, lo: nat, hi: nat, val: int) returns (r: nat)
    requires lo <= hi && Increasing(a, lo, hi)
    ensures LowerBound(a, lo, hi, val, r)
  {
    var beg, end := lo, hi;
    while end - beg >= 32
      invariant lo <= beg <= end <= hi
      invariant forall i :: lo <= i < beg ==> a[i] < val
      invariant end < hi ==> a[end] >= val
    {
      var mid := (beg + end) / 2;
      if a[mid] == val {
        return mid;
      } else if a[mid] < val {
        beg := mid + 1;
      } else {
        end := mid;
      }
    }
    var offset := beg;
    while offset < end
      invariant beg <= offset <= end
      invariant forall i :: lo <= i < offset ==> a[i] < val
    {
      if a[offset] >= val {
        return offset;
      }
      offset := offset + 1;
    }
    return end;
  }

  // ---------------------------------------------------------------- the galloping search

  /** How a search ends: with an offset, with a read outside its range, or not within the rounds given. */
  datatype Outcome = Returned(r: nat) | ReadOutside(offset: nat) | Unfinished

  /** The first offset from lo on, below hi, whose value is at least val, or hi. */
  ghost function FirstFrom(a: seq<int>, lo: nat, hi: nat, val: int): (r: nat)
    requires lo <= hi <= |a|
    ensures Increasing(a, lo, hi) ==> LowerBound(a, lo, hi, val, r)
    decreases hi - lo
  {
    if lo == hi || a[lo] >= val then lo else FirstFrom(a, lo + 1, hi, val)
  }

  /** At most fuel rounds of the galloping loop, with 32-bit arithmetic. */
  ghost function Rounds(a: seq<int>, lo: nat, hi: nat, val: int, jump: nat, fuel: nat): Outcome
    requires lo < hi <= |a|
    decreases fuel
  {
    if fuel == 0 then Unfinished
    else
      var peek := Wrap(lo + jump);
      if peek >= hi then Returned(Narrowed(a, jump / 2 + lo + 1, hi, val))
      else if peek < lo then ReadOutside(peek)
      else if a[peek] < val then Rounds(a, lo, hi, val, Wrap(jump * 2), fuel - 1)
      else if a[peek] == val then Returned(peek)
      else Returned(Narrowed(a, jump / 2 + lo + 1, peek + 1, val))
  }

  /** What the closing binary search finds; nothing in an inverted range. */
  ghost function Narrowed(a: seq<int>, lo: nat, hi: nat, val: int): nat
    requires hi <= |a|
  {
    if lo <= hi then FirstFrom(a, lo, hi, val) else hi
  }

  /** The whole search, with at most fuel rounds of its loop. */
  ghost function Search(a: seq<int>, lo: nat, hi: nat, val: int, fuel: nat): Outcome
    requires lo < hi <= |a|
  {
    if a[hi - 1] < val then Returned(hi)
    else if a[lo] >= val then Returned(lo)
    else if lo + 1 >= hi then ReadOutside(lo + 1)
    else if a[lo + 1] >= val then Returned(lo + 1)
    else if lo + 2 >= hi then ReadOutside(lo + 2)
    else if a[lo + 2] >= val then Returned(lo + 2)
    else Rounds(a, lo, hi, val, 4, fuel)
  }

  /** The search comes to an end, having read only inside its range, with the lower bound. */
  ghost predicate Finds(a: seq<int>, lo: nat, hi: nat, val: int)
    requires lo < hi <= |a|
  {
    exists fuel: nat :: Search(a, lo, hi, val, fuel).Returned?
        && LowerBound(a, lo, hi, val, Search(a, lo, hi, val, fuel).r)
  }

  /** The jump of round k, were it not for the 32 bits: the powers of two from 4 on. */
  function Doubled(k: nat): (j: nat)
    ensures j >= 4 && j % 2 == 0
  {
    if k == 0 then 4 else 2 * Doubled(k - 1)
  }

  /** No jump that a search of the range can come to leaves the 32-bit offsets. */
  ghost predicate JumpsFit(lo: nat, hi: nat) {
    forall k: nat :: lo + Doubled(k) / 2 < hi - 1 ==> lo + Doubled(k) < 0x1_0000_0000
  }

  /** A bound that a caller can check; it covers every search that starts later in the range, too. */
  lemma ShortRangesFit(lo: nat, hi: nat)
    requires 2 * hi - lo <= 0x1_0000_0002
    ensures JumpsFit(lo, hi) && Searchable(lo, hi)
  {}

  /** Whatever the offset in the range at which a search starts, its jumps fit. */
  ghost predicate Searchable(lo: nat, hi: nat) {
    forall i :: lo <= i < hi ==> JumpsFit(i, hi)
  }

  /**
   The lower bound of val in a non-empty increasing range, by the rounds of Search, so that
   every read is inside the range.
   */
  method GallopingSearch(a: seq<int>, lo: nat, hi: nat, val: int) returns (r: nat)
    requires lo < hi < OFFSET_SPACE && Increasing(a, lo, hi) && JumpsFit(lo, hi)
    ensures LowerBound(a, lo, hi, val, r)
    ensures exists fuel: nat :: Search(a, lo, hi, val, fuel) == Returned(r)
  {
    hide Wrap, Rounds, FirstFrom, Search, Increasing, LowerBound, InReach, Doubled, JumpsFit, Tracks;
    SearchHead(a, lo, hi, val);
    if a[hi - 1] < val {
      return hi;
    }
    if a[lo] >= val {
      return lo;
    }
    if a[lo + 1] >= val {
      return lo + 1;
    }
    if a[lo + 2] >= val {
      return lo + 2;
    }
    var jump: nat := 4;
    ghost var k: nat := 0;
    while true
      invariant jump == Doubled(k) && InReach(a, lo, hi, val, jump) && Tracks(a, lo, hi, val, k, jump)
      decreases hi - jump
    {
      var peek := Wrap(lo + jump);
      RoundFits(a, lo, hi, val, k);
      RoundStep(a, lo, hi, val, jump);
      TrackNext(a, lo, hi, val, k, jump);
      if peek >= hi {
        r := BinarySearch(a, jump / 2 + lo + 1, hi, val);
        RoundEnds(a, lo, hi, val, jump, hi, r);
        return;
      }
      if a[peek] < val {
        jump := Wrap(jump * 2);
        k := k + 1;
      } else {
        if a[peek] == val {
          FoundAt(a, lo, hi, val, peek);
          return peek;
        }
        r := BinarySearch(a, jump / 2 + lo + 1, peek + 1, val);
        RoundEnds(a, lo, hi, val, jump, peek + 1, r);
        return;
      }
    }
  }

  /** After k rounds the search goes on like the loop with this jump. */
  ghost predicate Tracks(a: seq<int>, lo: nat, hi: nat, val: int, k: nat, jump: nat)
    requires lo < hi <= |a|
  {
    forall fuel: nat :: Search(a, lo, hi, val, k + fuel) == Rounds(a, lo, hi, val, jump, fuel)
  }

  /** How the search begins. */
  lemma SearchHead(a: seq<int>, lo: nat, hi: nat, val: int)
    requires lo < hi && Increasing(a, lo, hi)
    ensures hi <= |a|
    ensures a[hi - 1] < val ==> Search(a, lo, hi, val, 0) == Returned(hi) && LowerBound(a, lo, hi, val, hi)
    ensures a[hi - 1] >= val && a[lo] >= val ==>
                    Search(a, lo, hi, val, 0) == Returned(lo) && LowerBound(a, lo, hi, val, lo)
    ensures a[hi - 1] >= val && a[lo] < val ==> lo + 1 < hi
    ensures a[hi - 1] >= val && a[lo] < val && a[lo + 1] >= val ==>
              Search(a, lo, hi, val, 0) == Returned(lo + 1) && LowerBound(a, lo, hi, val, lo + 1)
    ensures a[hi - 1] >= val && a[lo] < val && a[lo + 1] < val ==> lo + 2 < hi
    ensures a[hi - 1] >= val && a[lo] < val && a[lo + 1] < val && a[lo + 2] >= val ==>
              Search(a, lo, hi, val, 0) == Returned(lo + 2) && LowerBound(a, lo, hi, val, lo + 2)
    ensures a[hi - 1] >= val && a[lo] < val && a[lo + 1] < val && a[lo + 2] < val ==>
              Doubled(0) == 4 && InReach(a, lo, hi, val, 4) && Tracks(a, lo, hi, val, 0, 4)
  {
    hide Rounds;
  }

  lemma TrackNext(a: seq<int>, lo: nat, hi: nat, val: int, k: nat, jump: nat)
    requires lo < hi <= |a| && Tracks(a, lo, hi, val, k, jump)
    ensures Search(a, lo, hi, val, k + 1) == Rounds(a, lo, hi, val, jump, 1)
    ensures (forall fuel: nat :: Rounds(a, lo, hi, val, jump, fuel + 1) == Rounds(a, lo, hi, val, Wrap(jump * 2),
            fuel)) ==>
              Tracks(a, lo, hi, val, k + 1, Wrap(jump * 2))
  {
    hide Rounds, Search, Wrap;
    if forall fuel: nat :: Rounds(a, lo, hi, val, jump, fuel + 1) == Rounds(a, lo, hi, val, Wrap(jump * 2), fuel) {
      forall fuel: nat ensures Search(a, lo, hi, val, k + 1 + fuel) == Rounds(a, lo, hi, val, Wrap(jump * 2), fuel) {
        assert Search(a, lo, hi, val, k + (fuel + 1)) == Rounds(a, lo, hi, val, jump, fuel + 1);
      }
    }
  }

  /** The search has found nothing up to half its jump, and the range goes on. */
  ghost predicate InReach(a: seq<int>, lo: nat, hi: nat, val: int, jump: nat) {
    && hi <= |a| && lo + jump / 2 < hi && a[hi - 1] >= val
    && forall i :: lo <= i <= lo + jump / 2 ==> a[i] < val
  }

  /** A round whose jump stays inside the 32 bits either ends the search or doubles its reach. */
  lemma RoundFits(a: seq<int>, lo: nat, hi: nat, val: int, k: nat)
    requires Increasing(a, lo, hi) && JumpsFit(lo, hi) && hi < OFFSET_SPACE && InReach(a, lo, hi, val, Doubled(k))
    ensures lo + Doubled(k) / 2 < hi && lo + Doubled(k) < OFFSET_SPACE && Wrap(lo + Doubled(k)) == lo + Doubled(k)
    ensures Increasing(a, Doubled(k) / 2 + lo + 1, hi)
    ensures lo + Doubled(k) < hi ==> Increasing(a, Doubled(k) / 2 + lo + 1, lo + Doubled(k) + 1)
    ensures lo + Doubled(k) < hi && a[lo + Doubled(k)] < val ==>
              && Wrap(Doubled(k) * 2) == Doubled(k + 1) == 2 * Doubled(k) && InReach(a, lo, hi, val, Doubled(k + 1))
  {
    hide Wrap;
    assert lo + Doubled(k) / 2 < hi - 1;
    if lo + Doubled(k) < hi && a[lo + Doubled(k)] < val {
      assert Doubled(k + 1) / 2 == Doubled(k);
      assert lo + Doubled(k + 1) / 2 < hi - 1;
    }
  }

  /** What one round of Rounds does when the offset stays inside the 32 bits. */
  lemma RoundStep(a: seq<int>, lo: nat, hi: nat, val: int, jump: nat)
    requires lo < hi <= |a| && Wrap(lo + jump) == lo + jump
    ensures var peek := lo + jump;
            && (peek >= hi ==> Rounds(a, lo, hi, val, jump, 1) == Returned(Narrowed(a, jump / 2 + lo + 1, hi, val)))
            && (peek < hi && a[peek] == val ==> Rounds(a, lo, hi, val, jump, 1) == Returned(peek))
            && (peek < hi && a[peek] > val ==>
                  Rounds(a, lo, hi, val, jump, 1) == Returned(Narrowed(a, jump / 2 + lo + 1, peek + 1, val)))
            && (peek < hi && a[peek] < val ==>
                  forall fuel: nat :: Rounds(a, lo, hi, val, jump, fuel + 1) == Rounds(a, lo, hi, val,
                      Wrap(jump * 2), fuel))
  {
    hide Wrap, FirstFrom;
  }

  lemma FoundAt(a: seq<int>, lo: nat, hi: nat, val: int, peek: nat)
    requires lo <= peek < hi && Increasing(a, lo, hi) && a[peek] == val
    ensures LowerBound(a, lo, hi, val, peek)
  {}

  /** The closing binary search, from behind the last smaller value seen up to end. */
  lemma RoundEnds(a: seq<int>, lo: nat, hi: nat, val: int, jump: nat, end: nat, r: nat)
    requires lo + jump / 2 < end <= hi <= |a| && InReach(a, lo, hi, val, jump)
    requires end < hi ==> a[end - 1] >= val
    requires Increasing(a, jump / 2 + lo + 1, end) && LowerBound(a, jump / 2 + lo + 1, end, val, r)
    ensures LowerBound(a, lo, hi, val, r) && Narrowed(a, jump / 2 + lo + 1, end, val) == r
  {
    var x := FirstFrom(a, jump / 2 + lo + 1, end, val);
    assert LowerBound(a, jump / 2 + lo + 1, end, val, x);
    hide FirstFrom;
  }

  // ---------------------------------------------------------------- when the search is right

  const INT_MIN: int := -0x8000_0000
  const INT_MAX: int := 0x7FFF_FFFF

  /** The values are 32-bit integers. */
  ghost predicate Ints(a: seq<int>) {
    forall i :: 0 <= i < |a| ==> INT_MIN <= a[i] <= INT_MAX
  }

  /** The smallest values that increase from lo on. */
  ghost function Ramp(lo: nat, hi: nat): (a: seq<int>)
    requires lo <= hi
    ensures |a| == hi
    ensures forall i :: 0 <= i < hi ==> a[i] == if i < lo then 0 else i - lo + INT_MIN
  {
    seq(hi, i requires 0 <= i < hi => if i < lo then 0 else i - lo + INT_MIN)
  }

  lemma FitFinds(a: seq<int>, lo: nat, hi: nat, val: int)
    requires lo < hi < OFFSET_SPACE && Increasing(a, lo, hi) && JumpsFit(lo, hi)
    ensures Finds(a, lo, hi, val)
  {
    if a[hi - 1] < val || a[lo] >= val || a[lo + 1] >= val || a[lo + 2] >= val {
      hide Rounds;
      assert LowerBound(a, lo, hi, val, Search(a, lo, hi, val, 0).r);
    } else {
      RoundsFind(a, lo, hi, val, 0);
      hide Rounds, JumpsFit;
      var fuel: nat :| Rounds(a, lo, hi, val, Doubled(0), fuel).Returned?
                       && LowerBound(a, lo, hi, val, Rounds(a, lo, hi, val, Doubled(0), fuel).r);
      assert Search(a, lo, hi, val, fuel) == Rounds(a, lo, hi, val, 4, fuel);
    }
  }

  lemma {:induction false} RoundsFind(a: seq<int>, lo: nat, hi: nat, val: int, k: nat)
    requires lo < hi < OFFSET_SPACE && Increasing(a, lo, hi) && JumpsFit(lo, hi) && InReach(a, lo, hi, val, Doubled(k))
    ensures exists fuel: nat :: Rounds(a, lo, hi, val, Doubled(k), fuel).Returned?
                                && LowerBound(a, lo, hi, val, Rounds(a, lo, hi, val, Doubled(k), fuel).r)
    decreases hi - Doubled(k)
  {
    hide Wrap, Rounds, JumpsFit;
    var j := Doubled(k);
    RoundFits(a, lo, hi, val, k);
    RoundStep(a, lo, hi, val, j);
    if lo + j >= hi {
      var r := FirstFrom(a, j / 2 + lo + 1, hi, val);
      RoundEnds(a, lo, hi, val, j, hi, r);
      assert Rounds(a, lo, hi, val, j, 1) == Returned(r);
    } else if a[lo + j] < val {
      assert Wrap(j * 2) == Doubled(k + 1) == 2 * j;
      RoundsFind(a, lo, hi, val, k + 1);
      var fuel: nat :| Rounds(a, lo, hi, val, Doubled(k + 1), fuel).Returned?
                       && LowerBound(a, lo, hi, val, Rounds(a, lo, hi, val, Doubled(k + 1), fuel).r);
      assert Rounds(a, lo, hi, val, j, fuel + 1) == Rounds(a, lo, hi, val, Doubled(k + 1), fuel);
    } else if a[lo + j] == val {
      FoundAt(a, lo, hi, val, lo + j);
      assert Rounds(a, lo, hi, val, j, 1) == Returned(lo + j);
    } else {
      var r := FirstFrom(a, j / 2 + lo + 1, lo + j + 1, val);
      RoundEnds(a, lo, hi, val, j, lo + j + 1, r);
      assert Rounds(a, lo, hi, val, j, 1) == Returned(r);
    }
  }

  /** Jump k is the first that leaves the 32 bits although a search can come to it. */
  ghost predicate FirstStray(lo: nat, hi: nat, k: nat) {
    && lo + Doubled(k) / 2 < hi - 1 && lo + Doubled(k) >= OFFSET_SPACE
    && forall j: nat :: j < k ==> lo + Doubled(j) < OFFSET_SPACE
  }

  lemma {:induction false} LeastStray(lo: nat, hi: nat, k: nat) returns (l: nat)
    requires lo + Doubled(k) / 2 < hi - 1 && lo + Doubled(k) >= OFFSET_SPACE
    ensures FirstStray(lo, hi, l)
    decreases k
  {
    if j: nat :| j < k && lo + Doubled(j) >= OFFSET_SPACE {
      DoubledGrows(j, k);
      l := LeastStray(lo, hi, j);
    } else {
      l := k;
    }
  }

  lemma {:induction false} DoubledGrows(j: nat, k: nat)
    requires j < k
    ensures 2 * Doubled(j) <= Doubled(k)
    decreases k
  {
    if j < k - 1 {
      DoubledGrows(j, k - 1);
    }
  }

  /** On the ramp, a search for the last value goes astray at the first such jump, whatever the rounds. */
  lemma {:induction false} RampStrays(lo: nat, hi: nat, k: nat, j: nat, fuel: nat)
    requires lo < hi < OFFSET_SPACE && FirstStray(lo, hi, k) && j <= k && Doubled(j) < OFFSET_SPACE
    ensures !Rounds(Ramp(lo, hi), lo, hi, hi - 1 - lo + INT_MIN, Doubled(j), fuel).Returned?
    decreases fuel
  {
    hide Rounds, Wrap, Ramp;
    if j == k {
      StrayRound(lo, hi, k, fuel);
    } else if fuel > 0 {
      EarlyRound(lo, hi, k, j, fuel);
      if Doubled(j + 1) < OFFSET_SPACE {
        RampStrays(lo, hi, k, j + 1, fuel - 1);
      } else {
        DoublesTo(j + 1);
        FullTurn();
        RampSpins(lo, hi, fuel - 1);
      }
    } else {
      NoRounds(lo, hi, Doubled(j));
    }
  }

  lemma NoRounds(lo: nat, hi: nat, jump: nat)
    requires lo < hi
    ensures !Rounds(Ramp(lo, hi), lo, hi, hi - 1 - lo + INT_MIN, jump, 0).Returned?
  {}

  lemma FullTurn()
    ensures Wrap(OFFSET_SPACE) == 0
  {}

  /** The round that wraps around reads before the range. */
  lemma StrayRound(lo: nat, hi: nat, k: nat, fuel: nat)
    requires lo < hi < OFFSET_SPACE && FirstStray(lo, hi, k) && Doubled(k) < OFFSET_SPACE
    ensures !Rounds(Ramp(lo, hi), lo, hi, hi - 1 - lo + INT_MIN, Doubled(k), fuel).Returned?
  {
    assert Wrap(lo + Doubled(k)) == lo + Doubled(k) - OFFSET_SPACE;
    hide Wrap, FirstFrom, Doubled;
  }

  /** The rounds before it find smaller values. */
  lemma EarlyRound(lo: nat, hi: nat, k: nat, j: nat, fuel: nat)
    requires lo < hi < OFFSET_SPACE && FirstStray(lo, hi, k) && j < k && fuel > 0
    ensures Doubled(j + 1) == 2 * Doubled(j)
    ensures Rounds(Ramp(lo, hi), lo, hi, hi - 1 - lo + INT_MIN, Doubled(j), fuel)
         == Rounds(Ramp(lo, hi), lo, hi, hi - 1 - lo + INT_MIN, Wrap(Doubled(j + 1)), fuel - 1)
  {
    hide Wrap, Doubled, Rounds, FirstStray;
    EarlyJump(lo, hi, k, j);
    assert Ramp(lo, hi)[lo + Doubled(j)] < hi - 1 - lo + INT_MIN;
    RoundOn(Ramp(lo, hi), lo, hi, hi - 1 - lo + INT_MIN, Doubled(j), fuel);
  }

  lemma EarlyJump(lo: nat, hi: nat, k: nat, j: nat)
    requires FirstStray(lo, hi, k) && j < k
    ensures Doubled(j + 1) == 2 * Doubled(j) && lo + Doubled(j) < hi - 1
  {
    DoubledGrows(j, k);
    assert Doubled(j + 1) == 2 * Doubled(j);
    hide Doubled;
  }

  /** A round that finds a smaller value goes on with twice the jump. */
  lemma RoundOn(a: seq<int>, lo: nat, hi: nat, val: int, jump: nat, fuel: nat)
    requires lo < hi <= |a| && fuel > 0 && lo + jump < hi < OFFSET_SPACE && a[lo + jump] < val
    ensures Rounds(a, lo, hi, val, jump, fuel) == Rounds(a, lo, hi, val, Wrap(jump * 2), fuel - 1)
  {
    hide Narrowed;
  }

  /** A jump that reaches 2^32 does so exactly. */
  lemma {:induction false} DoublesTo(k: nat)
    requires k > 0 && Doubled(k - 1) < OFFSET_SPACE <= Doubled(k)
    ensures Doubled(k) == OFFSET_SPACE
  {
    assert Doubled(30) == OFFSET_SPACE by {
      assert Doubled(5) == 0x80;
      assert Doubled(10) == 0x1000;
      assert Doubled(15) == 0x2_0000;
      assert Doubled(20) == 0x40_0000;
      assert Doubled(25) == 0x800_0000;
    }
    hide Doubled;
    if k < 30 {
      DoubledGrows(k, 30);
    } else if k - 1 > 30 {
      DoubledGrows(30, k - 1);
    }
  }

  /** With a jump of zero the search reads its first value for ever. */
  lemma {:induction false} RampSpins(lo: nat, hi: nat, fuel: nat)
    requires lo + 1 < hi < OFFSET_SPACE
    ensures Rounds(Ramp(lo, hi), lo, hi, hi - 1 - lo + INT_MIN, 0, fuel) == Unfinished
    decreases fuel
  {
    if fuel > 0 {
      RampSpins(lo, hi, fuel - 1);
      assert Wrap(0 * 2) == 0 && Wrap(lo) == lo;
    }
  }

  lemma RampFails(lo: nat, hi: nat, k: nat)
    requires lo < hi < OFFSET_SPACE && lo + Doubled(k) / 2 < hi - 1 && lo + Doubled(k) >= OFFSET_SPACE
    ensures Ints(Ramp(lo, hi)) && Increasing(Ramp(lo, hi), lo, hi)
    ensures !Finds(Ramp(lo, hi), lo, hi, hi - 1 - lo + INT_MIN)
  {
    var l := LeastStray(lo, hi, k);
    var a, val := Ramp(lo, hi), hi - 1 - lo + INT_MIN;
    assert lo + 2 < hi - 1;
    forall fuel: nat ensures !Search(a, lo, hi, val, fuel).Returned? {
      RampStrays(lo, hi, l, 0, fuel);
      hide Rounds;
    }
  }

  /**
   Searches of a range are right, for all contents and all values sought, exactly when no jump
   they can come to leaves the 32 bits; 32-bit contents are enough to tell.
   */
  lemma GallopingIff(lo: nat, hi: nat)
    requires lo < hi < OFFSET_SPACE
    ensures JumpsFit(lo, hi) ==> forall a, val :: Increasing(a, lo, hi) ==> Finds(a, lo, hi, val)
    ensures (forall a, val :: Ints(a) && Increasing(a, lo, hi) ==> Finds(a, lo, hi, val)) ==> JumpsFit(lo, hi)
  {
    if JumpsFit(lo, hi) {
      forall a, val | Increasing(a, lo, hi) ensures Finds(a, lo, hi, val) {
        FitFinds(a, lo, hi, val);
      }
    } else {
      hide Finds, Increasing, Ints;
      var k: nat :| lo + Doubled(k) / 2 < hi - 1 && lo + Doubled(k) >= OFFSET_SPACE;
      RampFails(lo, hi, k);
    }
  }

  /** At the end of the offsets: the jump of 128 from 2^32-100 wraps around, and the search reads element 28. */
  lemma WrapExample()
    ensures var lo, hi := 0xFFFF_FF9C, 0xFFFF_FFFF;
            Search(Ramp(lo, hi), lo, hi, hi - 1 - lo + INT_MIN, 6) == ReadOutside(28)
  {
    var lo, hi := 0xFFFF_FF9C, 0xFFFF_FFFF;
    var a, val := Ramp(lo, hi), hi - 1 - lo + INT_MIN;
    hide FirstFrom;
    assert Rounds(a, lo, hi, val, 128, 1) == ReadOutside(28);
    assert Rounds(a, lo, hi, val, 64, 2) == ReadOutside(28);
    assert Rounds(a, lo, hi, val, 32, 3) == ReadOutside(28);
    assert Rounds(a, lo, hi, val, 16, 4) == ReadOutside(28);
    assert Rounds(a, lo, hi, val, 8, 5) == ReadOutside(28);
    assert Rounds(a, lo, hi, val, 4, 6) == ReadOutside(28);
  }

  // ---------------------------------------------------------------- the intersection

  /** p and q list, in order, the offsets of the common values of two ranges that lie below (i, j). */
  ghost predicate MatchesBelow(a: seq<int>, u0: nat, u1: nat, v0: nat, v1: nat, i: nat, j: nat, p: seq<nat>,
                               q: seq<nat>) {
    && |p| == |q|
    && (forall k :: 0 <= k < |p| ==>
            u0 <= p[k] < u1 && p[k] < i && v0 <= q[k] < v1 && q[k] < j && u1 <= |a| && v1 <= |a| && a[p[k]] == a[q[k]])
    && (forall k, l :: 0 <= k < l < |p| ==> p[k] < p[l] && q[k] < q[l])
    && (forall x, y :: u0 <= x < u1 <= |a| && v0 <= y < v1 <= |a| && a[x] == a[y] && (x < i || y < j) ==> x in p)
  }

  /** The values that two ranges have in common. */
  ghost function Common(a: seq<int>, u0: nat, u1: nat, v0: nat, v1: nat): set<int> {
    set x | u0 <= x < u1 && x < |a| && InRange(a, v0, v1, a[x]) :: a[x]
  }

  ghost predicate InRange(a: seq<int>, lo: nat, hi: nat, val: int) {
    exists y :: lo <= y < hi && y < |a| && a[y] == val
  }

  /**
   The common values of the ranges of u and v: every one once, in order, at its two offsets,
   written one after another into the two buffers. Buffers that hold that many are enough.
   */
  method SetIntersectGalloping(ptr1: array<nat>, ptr2: array<nat>, xadj: seq<nat>, adj: seq<int>, u: nat, v: nat)
    returns (size: nat)
    requires u + 1 < |xadj| && v + 1 < |xadj| && ptr1 != ptr2
    requires xadj[u] <= xadj[u + 1] <= |adj| && xadj[v] <= xadj[v + 1] <= |adj|
    requires Increasing(adj, xadj[u], xadj[u + 1]) && Increasing(adj, xadj[v], xadj[v + 1])
    requires xadj[u + 1] < OFFSET_SPACE && Searchable(xadj[u], xadj[u + 1])
    requires xadj[v + 1] < OFFSET_SPACE && Searchable(xadj[v], xadj[v + 1])
    requires |Common(adj, xadj[u], xadj[u + 1], xadj[v], xadj[v + 1])| <= ptr1.Length
    requires |Common(adj, xadj[u], xadj[u + 1], xadj[v], xadj[v + 1])| <= ptr2.Length
    modifies ptr1, ptr2
    ensures size <= ptr1.Length && size <= ptr2.Length
    ensures size == |Common(adj, xadj[u], xadj[u + 1], xadj[v], xadj[v + 1])|
    ensures MatchesBelow(adj, xadj[u], xadj[u + 1], xadj[v], xadj[v + 1], xadj[u + 1], xadj[v + 1],
                         ptr1[..size], ptr2[..size])
  {
    hide MatchesBelow, Increasing, LowerBound, JumpsFit, Searchable, Search, Common;
    size := 0;
    ghost var p: seq<nat>, q: seq<nat> := [], [];
    NoMatches(adj, xadj[u], xadj[u + 1], xadj[v], xadj[v + 1]);
    var i, j := xadj[u], xadj[v];
    var iEnd, jEnd := xadj[u + 1], xadj[v + 1];
    ghost var u0, v0 := i, j;
    if i < iEnd && j < jEnd {
      while true
        invariant u0 <= i < iEnd && v0 <= j < jEnd
        invariant size <= ptr1.Length && size <= ptr2.Length && ptr1[..size] == p && ptr2[..size] == q
        invariant MatchesBelow(adj, u0, iEnd, v0, jEnd, i, j, p, q)
        decreases (iEnd - i) + (jEnd - j)
      {
        SubRange(adj, u0, iEnd, i);
        var i' := GallopingSearch(adj, i, iEnd, adj[j]);
        SkipFirst(adj, u0, iEnd, v0, jEnd, i, j, i', p, q);
        if i' >= iEnd {
          break;
        }
        SubRange(adj, v0, jEnd, j);
        var j' := GallopingSearch(adj, j, jEnd, adj[i']);
        SkipSecond(adj, u0, iEnd, v0, jEnd, i', j, j', p, q);
        if j' >= jEnd {
          break;
        }
        Advances(adj, i, iEnd, j, jEnd, i', j');
        i, j := i', j';
        if adj[i] == adj[j] {
          TakeMatch(adj, u0, iEnd, v0, jEnd, i, j, p, q);
          WriteMatch(ptr1, ptr2, size, i, j, p, q);
          size := size + 1;
          p, q := p + [i], q + [j];
          i := i + 1;
          j := j + 1;
          if i >= iEnd || j >= jEnd {
            break;
          }
        }
      }
    }
    MatchCount(adj, u0, iEnd, v0, jEnd, iEnd, jEnd, p, q);
  }

  /** There are never more matches than common values, and in the end as many. */
  lemma MatchCount(a: seq<int>, u0: nat, u1: nat, v0: nat, v1: nat, i: nat, j: nat, p: seq<nat>, q: seq<nat>)
    requires MatchesBelow(a, u0, u1, v0, v1, i, j, p, q) && Increasing(a, u0, u1) && v1 <= |a|
    ensures |p| <= |Common(a, u0, u1, v0, v1)|
    ensures i == u1 && j == v1 ==> |p| == |Common(a, u0, u1, v0, v1)|
  {
    var found := set k | 0 <= k < |p| :: a[p[k]];
    FoundCard(a, u0, u1, p, found);
    assert found <= Common(a, u0, u1, v0, v1) by {
      forall k | 0 <= k < |p| ensures InRange(a, v0, v1, a[p[k]]) {
        assert a[q[k]] == a[p[k]];
      }
    }
    FiniteSets.SubsetCard(found, Common(a, u0, u1, v0, v1));
    if i == u1 && j == v1 {
      forall val | val in Common(a, u0, u1, v0, v1) ensures val in found {
        var x :| u0 <= x < u1 && x < |a| && InRange(a, v0, v1, a[x]) && a[x] == val;
        var y :| v0 <= y < v1 && y < |a| && a[y] == a[x];
        assert x in p;
        var k :| 0 <= k < |p| && p[k] == x;
      }
      assert found == Common(a, u0, u1, v0, v1);
    }
  }

  lemma FoundCard(a: seq<int>, u0: nat, u1: nat, p: seq<nat>, found: set<int>)
    requires Increasing(a, u0, u1) && forall k :: 0 <= k < |p| ==> u0 <= p[k] < u1 && p[k] < |a|
    requires forall k, l :: 0 <= k < l < |p| ==> p[k] < p[l]
    requires found == set k | 0 <= k < |p| :: a[p[k]]
    ensures |found| == |p|
  {
    var values := seq(|p|, k requires 0 <= k < |p| => a[p[k]]);
    forall x | x in found ensures x in values {
      var k :| 0 <= k < |p| && x == a[p[k]];
      assert values[k] == x;
    }
    FiniteSets.DistinctCard(values, found);
  }

  /** p and q list the matches whose first offset is below i. */
  ghost predicate Listed(a: seq<int>, u0: nat, v0: nat, v1: nat, i: nat, p: seq<nat>, q: seq<nat>) {
    && |p| == |q| && i <= |a| && v1 <= |a|
    && (forall k :: 0 <= k < |p| ==> u0 <= p[k] < i && v0 <= q[k] < v1 && a[p[k]] == a[q[k]])
    && (forall k, l :: 0 <= k < l < |p| ==> p[k] < p[l] && q[k] < q[l])
    && (forall x :: u0 <= x < i && InRange(a, v0, v1, a[x]) ==> x in p)
  }

  /** The matches of two increasing ranges can always be listed. */
  lemma ListMatches(a: seq<int>, u0: nat, u1: nat, v0: nat, v1: nat) returns (p: seq<nat>, q: seq<nat>)
    requires u0 <= u1 <= |a| && v0 <= v1 <= |a| && Increasing(a, u0, u1) && Increasing(a, v0, v1)
    ensures MatchesBelow(a, u0, u1, v0, v1, u1, v1, p, q)
  {
    p, q := ListBelow(a, u0, u1, v0, v1, u1);
    AllListed(a, u0, u1, v0, v1, p, q);
  }

  lemma {:induction false} ListBelow(a: seq<int>, u0: nat, u1: nat, v0: nat, v1: nat, i: nat)
    returns (p: seq<nat>, q: seq<nat>)
    requires u0 <= i <= u1 <= |a| && v0 <= v1 <= |a| && Increasing(a, u0, u1) && Increasing(a, v0, v1)
    ensures Listed(a, u0, v0, v1, i, p, q)
    decreases i
  {
    if i == u0 {
      p, q := [], [];
    } else {
      hide Increasing, Listed;
      p, q := ListBelow(a, u0, u1, v0, v1, i - 1);
      if InRange(a, v0, v1, a[i - 1]) {
        var y :| v0 <= y < v1 && y < |a| && a[y] == a[i - 1];
        OneMoreMatch(a, u0, u1, v0, v1, i - 1, y, p, q);
        p, q := p + [i - 1], q + [y];
      } else {
        NoMoreMatch(a, u0, v0, v1, i - 1, p, q);
      }
    }
  }

  lemma OneMoreMatch(a: seq<int>, u0: nat, u1: nat, v0: nat, v1: nat, i: nat, y: nat, p: seq<nat>, q: seq<nat>)
    requires u0 <= i < u1 <= |a| && v0 <= y < v1 <= |a| && Increasing(a, u0, u1) && Increasing(a, v0, v1)
    requires a[y] == a[i] && Listed(a, u0, v0, v1, i, p, q)
    ensures Listed(a, u0, v0, v1, i + 1, p + [i], q + [y])
  {
    hide InRange;
    assert (p + [i])[|p|] == i;
    forall k | 0 <= k < |p| ensures q[k] < y {
      assert a[q[k]] < a[y];
    }
  }

  lemma NoMoreMatch(a: seq<int>, u0: nat, v0: nat, v1: nat, i: nat, p: seq<nat>, q: seq<nat>)
    requires Listed(a, u0, v0, v1, i, p, q) && i < |a| && !InRange(a, v0, v1, a[i])
    ensures Listed(a, u0, v0, v1, i + 1, p, q)
  {
    hide InRange;
  }

  lemma AllListed(a: seq<int>, u0: nat, u1: nat, v0: nat, v1: nat, p: seq<nat>, q: seq<nat>)
    requires u0 <= u1 <= |a| && v0 <= v1 <= |a| && Listed(a, u0, v0, v1, u1, p, q)
    ensures MatchesBelow(a, u0, u1, v0, v1, u1, v1, p, q)
  {
    forall x, y | u0 <= x < u1 && v0 <= y < v1 && a[x] == a[y] ensures x in p {
      assert InRange(a, v0, v1, a[x]);
    }
  }

  lemma NoMatches(a: seq<int>, u0: nat, u1: nat, v0: nat, v1: nat)
    ensures MatchesBelow(a, u0, u1, v0, v1, u0, v0, [], [])
    ensures u0 >= u1 || v0 >= v1 ==> MatchesBelow(a, u0, u1, v0, v1, u1, v1, [], [])
  {}

  lemma SubRange(a: seq<int>, lo: nat, hi: nat, i: nat)
    requires Increasing(a, lo, hi) && lo <= i < hi && Searchable(lo, hi)
    ensures Increasing(a, i, hi) && JumpsFit(i, hi)
  {
    hide JumpsFit;
  }

  /** Writes one match behind the others. */
  method WriteMatch(ptr1: array<nat>, ptr2: array<nat>, size: nat, i: nat, j: nat, ghost p: seq<nat>, ghost q: seq<nat>)
    requires ptr1 != ptr2 && size < ptr1.Length && size < ptr2.Length && ptr1[..size] == p && ptr2[..size] == q
    modifies ptr1, ptr2
    ensures ptr1[..size + 1] == p + [i] && ptr2[..size + 1] == q + [j]
  {
    ptr1[size] := i;
    ptr2[size] := j;
  }

  /** A round without a match moves one of the two offsets. */
  lemma Advances(a: seq<int>, i: nat, u1: nat, j: nat, v1: nat, i': nat, j': nat)
    requires i < u1 <= |a| && j < v1 <= |a| && i' < u1 && j' < v1
    requires LowerBound(a, i, u1, a[j], i') && LowerBound(a, j, v1, a[i'], j')
    ensures i <= i' && j <= j' && (a[i'] != a[j'] ==> i < i' || j < j')
  {}

  lemma SkipFirst(a: seq<int>, u0: nat, u1: nat, v0: nat, v1: nat, i: nat, j: nat, i': nat, p: seq<nat>, q: seq<nat>)
    requires u0 <= i && v0 <= j < v1 <= |a| && Increasing(a, v0, v1)
    requires MatchesBelow(a, u0, u1, v0, v1, i, j, p, q) && LowerBound(a, i, u1, a[j], i')
    ensures i <= i' <= u1 && MatchesBelow(a, u0, u1, v0, v1, i', j, p, q)
    ensures i' == u1 ==> MatchesBelow(a, u0, u1, v0, v1, u1, v1, p, q)
  {}

  lemma SkipSecond(a: seq<int>, u0: nat, u1: nat, v0: nat, v1: nat, i: nat, j: nat, j': nat, p: seq<nat>, q: seq<nat>)
    requires u0 <= i < u1 <= |a| && v0 <= j && Increasing(a, u0, u1)
    requires MatchesBelow(a, u0, u1, v0, v1, i, j, p, q) && LowerBound(a, j, v1, a[i], j')
    ensures j <= j' <= v1 && MatchesBelow(a, u0, u1, v0, v1, i, j', p, q)
    ensures j' == v1 ==> MatchesBelow(a, u0, u1, v0, v1, u1, v1, p, q)
  {}

  lemma TakeMatch(a: seq<int>, u0: nat, u1: nat, v0: nat, v1: nat, i: nat, j: nat, p: seq<nat>, q: seq<nat>)
    requires u0 <= i < u1 <= |a| && v0 <= j < v1 <= |a| && Increasing(a, u0, u1) && Increasing(a, v0, v1)
    requires MatchesBelow(a, u0, u1, v0, v1, i, j, p, q) && a[i] == a[j]
    ensures MatchesBelow(a, u0, u1, v0, v1, i + 1, j + 1, p + [i], q + [j])
    ensures i + 1 == u1 || j + 1 == v1 ==> MatchesBelow(a, u0, u1, v0, v1, u1, v1, p + [i], q + [j])
    ensures |p| < |Common(a, u0, u1, v0, v1)|
  {
    TakeOne(a, u0, u1, v0, v1, i, j, p, q);
    MatchCount(a, u0, u1, v0, v1, i + 1, j + 1, p + [i], q + [j]);
    hide Increasing, Common;
  }

  lemma TakeOne(a: seq<int>, u0: nat, u1: nat, v0: nat, v1: nat, i: nat, j: nat, p: seq<nat>, q: seq<nat>)
    requires u0 <= i < u1 <= |a| && v0 <= j < v1 <= |a| && Increasing(a, u0, u1) && Increasing(a, v0, v1)
    requires MatchesBelow(a, u0, u1, v0, v1, i, j, p, q) && a[i] == a[j]
    ensures MatchesBelow(a, u0, u1, v0, v1, i + 1, j + 1, p + [i], q + [j])
  {
    var p' := p + [i];
    forall x, y | u0 <= x < u1 && v0 <= y < v1 && a[x] == a[y] && (x < i + 1 || y < j + 1) ensures x in p' {
      if x < i || y < j {
        assert x in p;
      } else {
        assert x == i;
        assert p'[|p|] == i;
      }
    }
  }

  /** There are no more common values than elements in either range. */
  lemma CommonBound(a: seq<int>, u0: nat, u1: nat, v0: nat, v1: nat)
    requires u0 <= u1 <= |a| && v0 <= v1 <= |a| && Increasing(a, u0, u1) && Increasing(a, v0, v1)
    ensures |Common(a, u0, u1, v0, v1)| <= u1 - u0 && |Common(a, u0, u1, v0, v1)| <= v1 - v0
  {
    var p, q := ListMatches(a, u0, u1, v0, v1);
    MatchCount(a, u0, u1, v0, v1, u1, v1, p, q);
    hide Common, Increasing;
    RangeLimit(p, u0, u1);
    RangeLimit(q, v0, v1);
  }

  lemma {:induction false} RangeLimit(s: seq<nat>, lo: nat, hi: nat)
    requires lo <= hi
    requires forall k :: 0 <= k < |s| ==> lo <= s[k] < hi
    requires forall k, l :: 0 <= k < l < |s| ==> s[k] < s[l]
    ensures |s| <= hi - lo
    decreases |s|
  {
    if s != [] {
      RangeLimit(s[..|s| - 1], lo, s[|s| - 1]);
    }
  }
}
