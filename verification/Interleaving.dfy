/**
 The asynchronous h-index computation (baselines/AccTrussDecomposition/h-idx/pnd/local23_yche.cpp)
 with its visits interleaved: all edges of a round may be visited at once, and any two accesses to the
 shared values and flags may be separated by those of other visits.
 */
module Interleaving {
  import opened AsyncHIndex
  import FiniteSets
  import opened Galloping
  import opened LocalEvaluation
  import opened SimpleGraph
  import opened Truss
  import opened Worklist

  /** A triangle system, and for each edge the triangles on it in the order in which a visit comes to them. */
  datatype Problem = Problem(sys: TriSys, lists: seq<seq<Wedge>>)

  ghost predicate ProblemOk(pb: Problem) {
    && pb.sys.Valid() && Numbered(pb.sys, |pb.lists|)
    && forall e :: 0 <= e < |pb.lists| ==>
                     Enumerates(pb.sys.tris, e, pb.lists[e]) && WedgesBelow(pb.lists[e], |pb.lists|)
  }

  /**
   Where the visit of an edge stands: which access to the shared values and flags comes next.
   mins are the values that it has taken from the triangles so far.
   */
  datatype Phase =
    | Waiting                                       // has yet to look at the flag
    | Clearing                                      // clears the flag
    | First(mins: seq<nat>)                         // reads the first partner in the next triangle
    | Second(mins: seq<nat>, a: nat)                // reads the other partner
    | Third(mins: seq<nat>, a: nat, b: nat)         // reads the one that was smaller again
    | Storing(value: nat)                           // writes the new value
    | Announcing                                    // flags the edge itself
    | Testing(k: nat)                               // compares the value of partner k
    | Marking(k: nat)                               // flags partner k
    | Reporting                                     // says that the round has changed something
    | Done

  /**
   The shared values and flags, the visits of this round, whether the round has changed something, and
   whether it is the initial round, which visits every edge and neither reads nor sets flags.
   */
  datatype State = State(values: seq<nat>, changed: seq<bool>, phase: seq<Phase>, flag: bool, initial: bool)

  predicate Scanning(ph: Phase) {
    ph.First? || ph.Second? || ph.Third?
  }

  /** The visit has written a lower value, and the round does not know it yet. */
  predicate Lowering(ph: Phase) {
    ph.Announcing? || ph.Testing? || ph.Marking? || ph.Reporting?
  }

  predicate InRange(ws: seq<Wedge>, ph: Phase) {
    && (Scanning(ph) ==> |ph.mins| < |ws|)
    && (ph.Testing? ==> ph.k <= 2 * |ws|)
    && (ph.Marking? ==> ph.k < 2 * |ws|)
  }

  predicate Shape(pb: Problem, st: State) {
    && |st.values| == |st.changed| == |st.phase| == |pb.lists|
    && forall e :: 0 <= e < |pb.lists| ==> InRange(pb.lists[e], st.phase[e])
  }

  /** The partners in the listed triangles, as a visit collects them. */
  function Partner(ws: seq<Wedge>, k: nat): nat
    requires k < 2 * |ws|
  {
    if k % 2 == 0 then ws[k / 2].e1 else ws[k / 2].e2
  }

  /** The largest number up to j that as many values reach, found from above. */
  ghost function Down(s: seq<nat>, j: nat): nat {
    if j == 0 || CountAtLeast(s, j) >= j then j else Down(s, j - 1)
  }

  /** Where the visit of an edge of value prev goes on once it has taken mins from its triangles. */
  ghost function Scanned(ws: seq<Wedge>, mins: seq<nat>, prev: nat, initial: bool): Phase {
    if !initial && mins != [] && CountAtLeast(mins, prev) == prev then Done
    else if |mins| < |ws| then First(mins)
    else if initial then Storing(Down(mins, |mins|))
    else if ws == [] then Done
    else Storing(Down(mins, if prev > 0 then prev - 1 else 0))
  }

  ghost function Go(st: State, e: nat, ph: Phase): State
    requires e < |st.phase|
  {
    st.(phase := st.phase[e := ph])
  }

  /**
   The next access of the visit of e. The value of an edge is written by its own visit only, so
   what the visit read at its start is still the value when the scan ends.
   */
  ghost function Moved(pb: Problem, st: State, e: nat): State
    requires Shape(pb, st) && e < |pb.lists|
  {
    var ws := pb.lists[e];
    match st.phase[e]
    case Waiting =>
      if st.initial then Go(st, e, Scanned(ws, [], st.values[e], true))
      else Go(st, e, if st.changed[e] then Clearing else Done)
    case Clearing => Go(st, e, Scanned(ws, [], st.values[e], false)).(changed := st.changed[e := false])
    case First(mins) => Go(st, e, Second(mins, At(st.values, ws[|mins|].e1)))
    case Second(mins, a) => Go(st, e, Third(mins, a, At(st.values, ws[|mins|].e2)))
    case Third(mins, a, b) =>
      var c := At(st.values, if a <= b then ws[|mins|].e1 else ws[|mins|].e2);
      Go(st, e, Scanned(ws, mins + [c], st.values[e], st.initial))
    case Storing(v) => Go(st, e, if st.initial then Done else Announcing).(values := st.values[e := v])
    case Announcing => Go(st, e, Testing(0)).(changed := st.changed[e := true])
    case Testing(k) =>
      if k == 2 * |ws| then Go(st, e, Reporting)
      else Go(st, e, if At(st.values, Partner(ws, k)) >= st.values[e] then Marking(k) else Testing(k + 1))
    case Marking(k) =>
      var f := Partner(ws, k);
      Go(st, e, Testing(k + 1)).(changed := if f < |st.changed| then st.changed[f := true] else st.changed)
    case Reporting => Go(st, e, Done).(flag := true)
    case Done => st
  }

  datatype Event = Advance(e: nat) | NextRound

  ghost predicate AllDone(st: State) {
    forall e :: 0 <= e < |st.phase| ==> st.phase[e].Done?
  }

  ghost predicate Finished(st: State) {
    AllDone(st) && !st.flag && !st.initial
  }

  /**
   One step of the computation: a visit goes on, or, when all are over and something has changed, the next
   round begins.
   */
  ghost predicate Step(pb: Problem, st: State, st': State, ev: Event) {
    && Shape(pb, st)
    && match ev
       case Advance(e) => e < |pb.lists| && !st.phase[e].Done? && st' == Moved(pb, st, e)
       case NextRound =>
         && AllDone(st) && (st.flag || st.initial)
         && st' == State(st.values, st.changed, seq(|st.phase|, _ => Waiting), false, false)
  }

  /** The values are the triangle counts. */
  ghost function Start(pb: Problem): State {
    State(seq(|pb.lists|, e requires 0 <= e < |pb.lists| => |pb.lists[e]|), seq(|pb.lists|, _ => true),
          seq(|pb.lists|, _ => Waiting), false, true)
  }

  // ---------------------------------------------------------------- the invariant

  /** x is no lower than the final value of f. */
  ghost predicate NotBelow(pb: Problem, f: nat, x: nat) {
    f in pb.sys.edges ==> x + 2 >= Trussness(pb.sys, f)
  }

  ghost predicate EachNotBelow(pb: Problem, values: seq<nat>) {
    forall e :: 0 <= e < |values| ==> NotBelow(pb, e, values[e])
  }

  /** What a visit has read is no lower than the final values, nor than the present ones. */
  ghost predicate ReadsOk(pb: Problem, values: seq<nat>, ws: seq<Wedge>, ph: Phase)
    requires InRange(ws, ph)
  {
    && (Scanning(ph) ==> forall i :: 0 <= i < |ph.mins| ==>
                                      NotBelow(pb, ws[i].e1, ph.mins[i]) || NotBelow(pb, ws[i].e2, ph.mins[i]))
    && (ph.Second? || ph.Third? ==> ph.a >= At(values, ws[|ph.mins|].e1))
    && (ph.Third? ==> ph.b >= At(values, ws[|ph.mins|].e2))
  }

  /** What the phase of a visit says about the value and the flag of its edge. */
  ghost predicate VisitOk(pb: Problem, e: nat, ws: seq<Wedge>, v: nat, changed: bool, ph: Phase, initial: bool) {
    && v <= |ws|
    && (ph.Storing? ==> NotBelow(pb, e, ph.value) && ph.value <= v)
    && (initial ==> changed && !ph.Clearing? && !Lowering(ph) && (!ph.Done? ==> v == |ws|))
    && (!initial && Scanning(ph) ==> CountAtLeast(ph.mins, v) < v)
    && (!initial && ph.Storing? ==> ph.value < v)
    && (ph.Clearing? || ph.Testing? || ph.Marking? || ph.Reporting? ==> changed)
  }

  /** e is among the partners from number k on. */
  ghost predicate Among(ws: seq<Wedge>, k: nat, e: nat) {
    exists i :: k <= i < 2 * |ws| && Partner(ws, i) == e
  }

  /** The visit of f is going to flag e. */
  ghost predicate WillTell(pb: Problem, st: State, f: nat, e: nat)
    requires Shape(pb, st) && f < |pb.lists|
  {
    var ws := pb.lists[f];
    match st.phase[f]
    case Announcing => Among(ws, 0, e) && st.values[f] <= At(st.values, e)
    case Testing(k) => Among(ws, k, e) && st.values[f] <= At(st.values, e)
    case Marking(k) => Partner(ws, k) == e || (Among(ws, k + 1, e) && st.values[f] <= At(st.values, e))
    case _ => false
  }

  /** e is flagged, or about to be. */
  ghost predicate Told(pb: Problem, st: State, e: nat)
    requires Shape(pb, st) && e < |pb.lists|
  {
    st.changed[e] || exists f :: 0 <= f < |pb.lists| && WillTell(pb, st, f, e)
  }

  /** The partners that a scan has found to reach v still do. */
  ghost predicate StillReach(values: seq<nat>, ws: seq<Wedge>, ph: Phase, v: nat)
    requires Scanning(ph) && |ph.mins| < |ws|
  {
    && (forall i :: 0 <= i < |ph.mins| && ph.mins[i] >= v ==> At(values, ws[i].e1) >= v && At(values, ws[i].e2) >= v)
    && (ph.Second? || ph.Third? ==> ph.a >= v ==> At(values, ws[|ph.mins|].e1) >= v)
    && (ph.Third? ==> ph.b >= v ==> At(values, ws[|ph.mins|].e2) >= v)
  }

  /**
   No notice is lost: an edge is flagged or about to be, or its own visit is about to flag it, or what
   its visit has seen still holds, or its value is supported.
   */
  ghost predicate Safe(pb: Problem, st: State, e: nat)
    requires Shape(pb, st) && e < |pb.lists|
  {
    var ph := st.phase[e];
    || Told(pb, st, e)
    || ph.Storing? || ph.Announcing?
    || (if Scanning(ph) then StillReach(st.values, pb.lists[e], ph, st.values[e])
        else Stable(pb.sys, Shift(st.values), e))
  }

  ghost predicate Noisy(st: State) {
    st.initial || st.flag || exists e :: 0 <= e < |st.phase| && Lowering(st.phase[e])
  }

  /** In a round in which no value has fallen, no edge that has been looked at is flagged. */
  ghost predicate QuietOk(st: State) {
    Noisy(st) || forall e :: 0 <= e < |st.phase| && e < |st.changed| && LookedAt(st.phase[e]) ==> !st.changed[e]
  }

  predicate LookedAt(ph: Phase) {
    !ph.Waiting? && !ph.Clearing?
  }

  ghost predicate VisitFits(pb: Problem, st: State, e: nat)
    requires |st.values| == |st.changed| == |st.phase| == |pb.lists| && e < |pb.lists|
  {
    && InRange(pb.lists[e], st.phase[e])
    && ReadsOk(pb, st.values, pb.lists[e], st.phase[e])
    && VisitOk(pb, e, pb.lists[e], st.values[e], st.changed[e], st.phase[e], st.initial)
  }

  ghost predicate Inv(pb: Problem, st: State) {
    && Shape(pb, st) && EachNotBelow(pb, st.values) && QuietOk(st)
    && (forall e :: 0 <= e < |pb.lists| ==> VisitFits(pb, st, e))
    && forall e :: 0 <= e < |pb.lists| ==> Safe(pb, st, e)
  }

  // ---------------------------------------------------------------- counting

  lemma {:induction false} CountMono(s: seq<nat>, t: seq<nat>, k: nat)
    requires |s| <= |t| && forall i :: 0 <= i < |s| && s[i] >= k ==> t[i] >= k
    ensures CountAtLeast(s, k) <= CountAtLeast(t, k)
    decreases |t|
  {
    if s != [] {
      forall i | 0 <= i < |s[1..]| && s[1..][i] >= k ensures t[1..][i] >= k {
        assert s[i + 1] >= k && t[i + 1] >= k;
      }
      CountMono(s[1..], t[1..], k);
    }
  }

  lemma {:induction false} DownFacts(s: seq<nat>, j: nat)
    ensures Down(s, j) <= j && CountAtLeast(s, Down(s, j)) >= Down(s, j)
    ensures forall k :: Down(s, j) < k <= j ==> CountAtLeast(s, k) < k
  {
    hide CountAtLeast;
    if !(j == 0 || CountAtLeast(s, j) >= j) {
      DownFacts(s, j - 1);
    }
  }

  /** Searching downwards finds the h-index, unless it is above the starting point. */
  lemma DownIsHIndex(s: seq<nat>, j: nat)
    requires CountAtLeast(s, j + 1) < j + 1
    ensures IsHIndex(s, Down(s, j))
  {
    hide CountAtLeast;
    DownFacts(s, j);
  }

  /** The value that a complete scan stores is the h-index of what it has read. */
  lemma StoresHIndex(ws: seq<Wedge>, mins: seq<nat>, prev: nat, initial: bool)
    requires Scanned(ws, mins, prev, initial).Storing?
    requires !initial ==> CountAtLeast(mins, prev) < prev
    ensures |mins| >= |ws| && IsHIndex(mins, Scanned(ws, mins, prev, initial).value)
  {
    if initial {
      DownIsHIndex(mins, |mins|);
    } else {
      DownIsHIndex(mins, prev - 1);
    }
    hide CountAtLeast, Down;
  }

  // ---------------------------------------------------------------- the end of a scan

  /** Enough triangles that were seen to reach the value, and still do, support it. */
  lemma SeenSupports(sys: TriSys, e: nat, ws: seq<Wedge>, values: seq<nat>, mins: seq<nat>)
    requires e < |values| && Enumerates(sys.tris, e, ws) && WedgesBelow(ws, |values|) && |mins| <= |ws|
    requires forall i :: 0 <= i < |mins| && mins[i] >= values[e] ==>
                           At(values, ws[i].e1) >= values[e] && At(values, ws[i].e2) >= values[e]
    requires CountAtLeast(mins, values[e]) >= values[e]
    ensures Stable(sys, Shift(values), e)
  {
    hide CountAtLeast, Enumerates, Witnesses, WedgesBelow;
    CountMono(mins, WedgeMins(values, ws), values[e]);
    CountIsWitnesses(sys, e, values, ws, values[e]);
  }

  /** As many triangles as its final value have minima that were never below it. */
  lemma FinalReached(pb: Problem, e: nat, mins: seq<nat>)
    requires ProblemOk(pb) && e < |pb.lists| && |mins| == |pb.lists[e]|
    requires forall i :: 0 <= i < |mins| ==>
                           NotBelow(pb, pb.lists[e][i].e1, mins[i]) || NotBelow(pb, pb.lists[e][i].e2, mins[i])
    ensures e in pb.sys.edges && Trussness(pb.sys, e) >= 2
    ensures CountAtLeast(mins, Trussness(pb.sys, e) - 2) >= Trussness(pb.sys, e) - 2
  {
    hide Enumerates, WedgesBelow, Trussness, TriSys.Valid, CountAtLeast, WedgeMins, Exact;
    var final := Finals(pb);
    FinalSupport(pb, e);
    FinalMins(pb, final, pb.lists[e], mins);
    CountMono(WedgeMins(final, pb.lists[e]), mins, final[e]);
  }

  lemma FinalSupport(pb: Problem, e: nat)
    requires ProblemOk(pb) && e < |pb.lists|
    ensures e in pb.sys.edges && Trussness(pb.sys, e) >= 2
    ensures CountAtLeast(WedgeMins(Finals(pb), pb.lists[e]), Finals(pb)[e]) >= Finals(pb)[e]
  {
    hide Enumerates, WedgesBelow, Trussness, TriSys.Valid, CountAtLeast, WedgeMins, Exact, Witnesses;
    assert e in pb.sys.edges;
    FinalsExact(pb);
    var final := Finals(pb);
    StableAtTruss(pb.sys, Shift(final), e);
    CountIsWitnesses(pb.sys, e, final, pb.lists[e], final[e]);
    hide Finals;
  }

  lemma FinalsExact(pb: Problem)
    requires ProblemOk(pb)
    ensures Exact(pb.sys, Shift(Finals(pb)))
  {
    hide TriSys.Valid, Enumerates, WedgesBelow;
    forall f | f in pb.sys.edges ensures At(Shift(Finals(pb)), f) == Trussness(pb.sys, f) {
      assert Trussness(pb.sys, f) >= 2;
      hide Trussness;
    }
  }

  ghost function Finals(pb: Problem): (s: seq<nat>)
    ensures |s| == |pb.lists| && forall f :: 0 <= f < |s| ==> s[f] == Final(pb, f)
  {
    seq(|pb.lists|, f requires 0 <= f < |pb.lists| => Final(pb, f))
  }

  /** The value that the edge f ends with. */
  ghost function Final(pb: Problem, f: nat): nat {
    if f in pb.sys.edges then Trussness(pb.sys, f) - 2 else 0
  }

  lemma FinalMins(pb: Problem, final: seq<nat>, ws: seq<Wedge>, mins: seq<nat>)
    requires |mins| == |ws| && |final| == |pb.lists| && WedgesBelow(ws, |final|)
    requires forall f :: 0 <= f < |final| ==> final[f] == Final(pb, f)
    requires forall i :: 0 <= i < |mins| ==> NotBelow(pb, ws[i].e1, mins[i]) || NotBelow(pb, ws[i].e2, mins[i])
    ensures forall i :: 0 <= i < |mins| ==> WedgeMins(final, ws)[i] <= mins[i]
  {
    hide Trussness;
  }

  /** The value of an edge with triangles is positive. */
  lemma PositiveValue(pb: Problem, e: nat, values: seq<nat>)
    requires ProblemOk(pb) && e < |pb.lists| == |values| && EachNotBelow(pb, values) && pb.lists[e] != []
    ensures values[e] > 0
  {
    hide Enumerates, WedgesBelow, Trussness, TriSys.Valid, Deg;
    EnumerationCount(pb.sys.tris, e, pb.lists[e]);
    InTriangleTruss(pb.sys, e);
  }

  ghost predicate MinsNotBelow(pb: Problem, ws: seq<Wedge>, mins: seq<nat>)
    requires |mins| <= |ws|
  {
    forall i :: 0 <= i < |mins| ==> NotBelow(pb, ws[i].e1, mins[i]) || NotBelow(pb, ws[i].e2, mins[i])
  }

  /** A value found from above, starting at or above the final value, is at or above it. */
  lemma LastScanned(pb: Problem, e: nat, mins: seq<nat>)
    requires ProblemOk(pb) && e < |pb.lists| && |mins| == |pb.lists[e]| && MinsNotBelow(pb, pb.lists[e], mins)
    ensures forall x: nat :: NotBelow(pb, e, x) <==> x >= Final(pb, e)
    ensures CountAtLeast(mins, Final(pb, e)) >= Final(pb, e) && Final(pb, e) <= |mins|
    ensures forall j: nat :: Down(mins, j) <= j && (j >= Final(pb, e) ==> Down(mins, j) >= Final(pb, e))
  {
    hide ProblemOk, Trussness, CountAtLeast, Down;
    FinalReached(pb, e, mins);
    forall j: nat ensures Down(mins, j) <= j && (j >= Final(pb, e) ==> Down(mins, j) >= Final(pb, e)) {
      DownFacts(mins, j);
    }
  }

  /** The value that a complete scan stores. */
  lemma StoreOk(pb: Problem, e: nat, v: nat, mins: seq<nat>, initial: bool)
    requires ProblemOk(pb) && e < |pb.lists| && |mins| == |pb.lists[e]| && MinsNotBelow(pb, pb.lists[e], mins)
    requires NotBelow(pb, e, v) && (if initial then v == |mins| else 0 < v && CountAtLeast(mins, v) < v)
    ensures var x := Down(mins, if initial then |mins| else v - 1);
            NotBelow(pb, e, x) && x <= v && (!initial ==> x < v)
  {
    hide ProblemOk, CountAtLeast, Down, NotBelow, Final, MinsNotBelow;
    LastScanned(pb, e, mins);
  }

  /** How a visit goes on with a scan. */
  lemma ScannedOk(pb: Problem, e: nat, values: seq<nat>, changed: bool, mins: seq<nat>, initial: bool)
    requires ProblemOk(pb) && e < |pb.lists| == |values| && EachNotBelow(pb, values)
    requires values[e] <= |pb.lists[e]| && |mins| <= |pb.lists[e]| && MinsNotBelow(pb, pb.lists[e], mins)
    requires initial ==> changed && values[e] == |pb.lists[e]|
    requires !initial ==> CountAtLeast(mins, values[e]) <= values[e]
    ensures var ph := Scanned(pb.lists[e], mins, values[e], initial);
            && InRange(pb.lists[e], ph) && ReadsOk(pb, values, pb.lists[e], ph)
            && VisitOk(pb, e, pb.lists[e], values[e], changed, ph, initial)
  {
    hide ProblemOk, NotBelow, Down, Scanned, VisitOk, ReadsOk, CountAtLeast;
    var ws, v := pb.lists[e], values[e];
    assert NotBelow(pb, e, v);
    if ws != [] {
      PositiveValue(pb, e, values);
    }
    hide EachNotBelow;
    if |mins| == |ws| && (initial || (ws != [] && CountAtLeast(mins, v) < v)) {
      StoreOk(pb, e, v, mins, initial);
    }
    hide MinsNotBelow;
    NothingBelow(v);
    ScanFits(pb, e, ws, v, values, changed, mins, initial);
  }

  lemma NothingBelow(k: nat)
    ensures CountAtLeast([], k) == 0
  {}

  lemma ScanFits(pb: Problem, e: nat, ws: seq<Wedge>, v: nat, values: seq<nat>, changed: bool, mins: seq<nat>,
                 initial: bool)
    requires v <= |ws| && |mins| <= |ws| && MinsNotBelow(pb, ws, mins) && (ws != [] ==> v > 0)
    requires initial ==> changed && v == |ws|
    requires !initial ==> CountAtLeast(mins, v) <= v && (mins == [] ==> CountAtLeast(mins, v) == 0)
    requires |mins| == |ws| && (initial || (ws != [] && CountAtLeast(mins, v) < v)) ==>
               var x := Down(mins, if initial then |mins| else v - 1);
               NotBelow(pb, e, x) && x <= v && (!initial ==> x < v)
    ensures var ph := Scanned(ws, mins, v, initial);
            InRange(ws, ph) && ReadsOk(pb, values, ws, ph) && VisitOk(pb, e, ws, v, changed, ph, initial)
  {
    hide CountAtLeast, Down, NotBelow;
  }

  // ---------------------------------------------------------------- one move

  /** What a move of the visit of f leaves alone. */
  ghost predicate MovesOnly(st: State, st': State, f: nat) {
    && |st'.values| == |st.values| == |st.changed| == |st'.changed| == |st.phase| == |st'.phase| && f < |st.values|
    && (forall d :: 0 <= d < |st.values| && d != f ==>
                      && st'.values[d] == st.values[d] && st'.phase[d] == st.phase[d]
                      && (st.changed[d] ==> st'.changed[d]))
    && st'.values[f] <= st.values[f] && st'.initial == st.initial && (st.flag ==> st'.flag)
  }

  lemma OwnFrame(pb: Problem, st: State, f: nat)
    requires Shape(pb, st) && f < |pb.lists| && VisitFits(pb, st, f)
    ensures MovesOnly(st, Moved(pb, st, f), f)
    ensures NotBelow(pb, f, st.values[f]) ==> NotBelow(pb, f, Moved(pb, st, f).values[f])
  {
    hide NotBelow, Scanned, Partner, ReadsOk, InRange;
  }

  /** A visit that starts or goes on with a scan. */
  lemma OwnScan(pb: Problem, st: State, f: nat)
    requires ProblemOk(pb) && Shape(pb, st) && EachNotBelow(pb, st.values) && f < |pb.lists| && VisitFits(pb, st, f)
    requires st.phase[f].Waiting? || st.phase[f].Clearing? || st.phase[f].Third?
    ensures VisitFits(pb, Moved(pb, st, f), f)
  {
    var ws, v := pb.lists[f], st.values[f];
    match st.phase[f]
    case Waiting =>
      if st.initial {
        ScannedOk(pb, f, st.values, st.changed[f], [], true);
      }
      hide ProblemOk, EachNotBelow, Scanned, CountAtLeast, NotBelow;
    case Clearing =>
      ScannedOk(pb, f, st.values, false, [], false);
      hide ProblemOk, EachNotBelow, Scanned, CountAtLeast, NotBelow;
    case Third(mins, a, b) =>
      var c := At(st.values, if a <= b then ws[|mins|].e1 else ws[|mins|].e2);
      MoreMins(pb, st.values, ws, mins, if a <= b then ws[|mins|].e1 else ws[|mins|].e2);
      CountSnoc(mins, c, v);
      ScannedOk(pb, f, st.values, st.changed[f], mins + [c], st.initial);
      hide ProblemOk, EachNotBelow, Scanned, CountAtLeast, NotBelow;
  }

  lemma MoreMins(pb: Problem, values: seq<nat>, ws: seq<Wedge>, mins: seq<nat>, h: nat)
    requires |mins| < |ws| && MinsNotBelow(pb, ws, mins) && EachNotBelow(pb, values)
    requires h < |values| && (h == ws[|mins|].e1 || h == ws[|mins|].e2)
    ensures MinsNotBelow(pb, ws, mins + [values[h]])
  {
    hide NotBelow;
  }

  lemma OwnVisit(pb: Problem, st: State, f: nat)
    requires ProblemOk(pb) && Shape(pb, st) && EachNotBelow(pb, st.values) && f < |pb.lists| && VisitFits(pb, st, f)
    ensures VisitFits(pb, Moved(pb, st, f), f)
  {
    hide ProblemOk, EachNotBelow, NotBelow, CountAtLeast, Scanned;
    if st.phase[f].Waiting? || st.phase[f].Clearing? || st.phase[f].Third? {
      OwnScan(pb, st, f);
    }
  }

  /** The other visits do not notice. */
  lemma OtherVisit(pb: Problem, st: State, st': State, f: nat, e: nat)
    requires MovesOnly(st, st', f) && |pb.lists| == |st.values| && e < |pb.lists| && e != f && VisitFits(pb, st, e)
    ensures VisitFits(pb, st', e)
  {
    hide NotBelow, CountAtLeast;
    forall h ensures At(st'.values, h) <= At(st.values, h) {}
  }

  // ---------------------------------------------------------------- no notice is lost

  lemma PendingKept(pb: Problem, st: State, st': State, f: nat, e: nat)
    requires Shape(pb, st) && Shape(pb, st') && MovesOnly(st, st', f) && e < |pb.lists| && e != f
    requires WillTell(pb, st, f, e) ==> WillTell(pb, st', f, e) || st'.changed[e]
    ensures Told(pb, st, e) ==> Told(pb, st', e)
  {
    hide Among, Partner;
    if g :| 0 <= g < |pb.lists| && WillTell(pb, st, g, e) {
      if g != f {
        assert WillTell(pb, st', g, e);
      }
    }
  }

  /** What a visit was going to tell others it still will, or has told them; one that writes a lower value will tell. */
  lemma NoticesKept(pb: Problem, st: State, f: nat, e: nat)
    requires Shape(pb, st) && f < |pb.lists| && Shape(pb, Moved(pb, st, f)) && e < |pb.lists| && e != f
    ensures var st' := Moved(pb, st, f);
            && (WillTell(pb, st, f, e) ==> WillTell(pb, st', f, e) || st'.changed[e])
            && (st'.values[f] != st.values[f] && !st.initial && Among(pb.lists[f], 0, e)
                && st'.values[f] <= st.values[e] ==>
                  WillTell(pb, st', f, e))
  {
    hide Scanned, Among, Partner;
    var ws := pb.lists[f];
    match st.phase[f]
    case Testing(k) =>
      AmongNext(ws, k, e);
    case _ =>
  }

  lemma AmongNext(ws: seq<Wedge>, k: nat, e: nat)
    ensures Among(ws, k, e) <==> (k < 2 * |ws| && Partner(ws, k) == e) || Among(ws, k + 1, e)
    ensures k >= 2 * |ws| ==> !Among(ws, k, e)
  {
    hide Partner;
  }

  /** Edges that share a triangle are among each other's partners. */
  lemma PartnersAmong(sys: TriSys, f: nat, ws: seq<Wedge>, e: nat)
    requires Enumerates(sys.tris, f, ws) && SharesTriangle(sys.tris, e, f)
    ensures Among(ws, 0, e)
  {
    var i := SharedListed(sys.tris, f, ws, e);
    EntryAmong(ws, i);
  }

  lemma EntryAmong(ws: seq<Wedge>, i: nat)
    requires i < |ws|
    ensures Among(ws, 0, ws[i].e1) && Among(ws, 0, ws[i].e2)
  {
    assert Partner(ws, 2 * i) == ws[i].e1 && Partner(ws, 2 * i + 1) == ws[i].e2;
  }

  /** The value of one partner falls, but not below that of e: what supports the value of e remains. */
  lemma SupportKept(sys: TriSys, values: seq<nat>, values': seq<nat>, f: nat, e: nat)
    requires |values'| == |values| && f < |values| && e < |values| && e != f
    requires forall d :: 0 <= d < |values| && d != f ==> values'[d] == values[d]
    requires SharesTriangle(sys.tris, e, f) && values'[f] < values[f] ==> values'[f] >= values[e]
    requires values'[f] <= values[f]
    requires Stable(sys, Shift(values), e)
    ensures Stable(sys, Shift(values'), e)
  {
    var k := values[e] + 2;
    forall t | t in Witnesses(sys, Shift(values), e, k) ensures t in Witnesses(sys, Shift(values'), e, k) {
      if f in t {
        assert SharesTriangle(sys.tris, e, f);
      }
    }
    FiniteSets.SubsetCard(Witnesses(sys, Shift(values), e, k), Witnesses(sys, Shift(values'), e, k));
  }

  lemma ReachKept(pb: Problem, values: seq<nat>, values': seq<nat>, ph: Phase, f: nat, e: nat)
    requires |values'| == |values| && f < |values| && e < |values| && e != f
    requires forall d :: 0 <= d < |values| && d != f ==> values'[d] == values[d]
    requires e < |pb.lists| && Enumerates(pb.sys.tris, e, pb.lists[e])
    requires SharesTriangle(pb.sys.tris, e, f) && values'[f] < values[f] ==> values'[f] >= values[e]
    requires values'[f] <= values[f]
    requires Scanning(ph) && |ph.mins| < |pb.lists[e]| && StillReach(values, pb.lists[e], ph, values[e])
    ensures StillReach(values', pb.lists[e], ph, values[e])
  {
    var ws, v := pb.lists[e], values[e];
    forall i | 0 <= i < |ws|
      ensures At(values, ws[i].e1) >= v ==> At(values', ws[i].e1) >= v
      ensures At(values, ws[i].e2) >= v ==> At(values', ws[i].e2) >= v
    {
      ListedShares(pb.sys.tris, e, ws, i);
    }
    hide Enumerates, SharesTriangle;
  }

  /** A move of another visit loses no notice to e. */
  lemma OtherSafe(pb: Problem, st: State, f: nat, e: nat)
    requires ProblemOk(pb) && Shape(pb, st) && f < |pb.lists| && e < |pb.lists| && e != f
    requires Shape(pb, Moved(pb, st, f)) && MovesOnly(st, Moved(pb, st, f), f)
    requires st.initial ==> st.changed[e]
    requires Safe(pb, st, e)
    ensures Safe(pb, Moved(pb, st, f), e)
  {
    hide Among, Partner, WillTell, Enumerates, WedgesBelow, TriSys.Valid, StillReach, Stable, SharesTriangle,
         Numbered;
    var st' := Moved(pb, st, f);
    hide Moved;
    NoticesKept(pb, st, f, e);
    PendingKept(pb, st, st', f, e);
    if !Told(pb, st', e) {
      if SharesTriangle(pb.sys.tris, e, f) {
        PartnersAmong(pb.sys, f, pb.lists[f], e);
      }
      if Scanning(st.phase[e]) {
        ReachKept(pb, st.values, st'.values, st.phase[e], f, e);
      } else if !st.phase[e].Storing? && !st.phase[e].Announcing? {
        SupportKept(pb.sys, st.values, st'.values, f, e);
      }
    }
  }

  /** A visit that is not telling others leaves the notices to its edge as they are. */
  lemma ToldKept(pb: Problem, st: State, e: nat)
    requires Shape(pb, st) && e < |pb.lists| && Shape(pb, Moved(pb, st, e))
    requires st.phase[e].Waiting? || Scanning(st.phase[e])
    ensures Told(pb, st, e) ==> Told(pb, Moved(pb, st, e), e)
  {
    hide Among, Partner, Scanned;
    var st' := Moved(pb, st, e);
    if g :| 0 <= g < |pb.lists| && WillTell(pb, st, g, e) {
      assert g != e;
      assert WillTell(pb, st', g, e);
    }
  }

  /** What a scan has seen when it has taken one more value. */
  lemma ThirdReach(values: seq<nat>, ws: seq<Wedge>, mins: seq<nat>, a: nat, b: nat, v: nat, mins': seq<nat>)
    requires |mins| < |ws| && StillReach(values, ws, Third(mins, a, b), v)
    requires a >= At(values, ws[|mins|].e1) && b >= At(values, ws[|mins|].e2)
    requires mins' == mins + [At(values, if a <= b then ws[|mins|].e1 else ws[|mins|].e2)]
    ensures forall i :: 0 <= i < |mins'| && mins'[i] >= v ==> At(values, ws[i].e1) >= v && At(values, ws[i].e2) >= v
  {}

  lemma OwnThird(pb: Problem, st: State, e: nat)
    requires ProblemOk(pb) && Shape(pb, st) && e < |pb.lists| && Shape(pb, Moved(pb, st, e))
    requires VisitFits(pb, st, e) && Safe(pb, st, e) && st.phase[e].Third? && !Told(pb, st, e)
    ensures Safe(pb, Moved(pb, st, e), e)
  {
    hide Told, Stable, Enumerates, WedgesBelow, TriSys.Valid, CountAtLeast, NotBelow, Numbered;
    var Third(mins, a, b) := st.phase[e];
    var ws, v := pb.lists[e], st.values[e];
    var mins' := mins + [At(st.values, if a <= b then ws[|mins|].e1 else ws[|mins|].e2)];
    ThirdReach(st.values, ws, mins, a, b, v, mins');
    if Scanned(ws, mins', v, st.initial).Done? {
      SeenSupports(pb.sys, e, ws, st.values, mins');
    }
  }

  lemma OwnClearing(pb: Problem, st: State, e: nat)
    requires Shape(pb, st) && e < |pb.lists| && Shape(pb, Moved(pb, st, e))
    requires VisitFits(pb, st, e) && st.phase[e].Clearing?
    ensures Safe(pb, Moved(pb, st, e), e)
  {
    hide Told, Witnesses, NotBelow;
  }

  /** Neither does a move of its own visit. */
  lemma OwnSafe(pb: Problem, st: State, e: nat)
    requires ProblemOk(pb) && Shape(pb, st) && e < |pb.lists| && Shape(pb, Moved(pb, st, e))
    requires VisitFits(pb, st, e) && Safe(pb, st, e) && !st.phase[e].Done?
    ensures Safe(pb, Moved(pb, st, e), e)
  {
    hide ProblemOk, Stable, NotBelow, CountAtLeast, Scanned, WillTell;
    var st' := Moved(pb, st, e);
    if st.phase[e].Waiting? || Scanning(st.phase[e]) {
      ToldKept(pb, st, e);
    }
    hide Told;
    if st.phase[e].Clearing? {
      OwnClearing(pb, st, e);
    } else if st.phase[e].Third? && !Told(pb, st, e) {
      OwnThird(pb, st, e);
    }
  }

  // ---------------------------------------------------------------- the run of a round

  lemma QuietKept(pb: Problem, st: State, f: nat)
    requires Shape(pb, st) && f < |pb.lists| && QuietOk(st) && !st.phase[f].Done?
    requires VisitFits(pb, st, f)
    ensures QuietOk(Moved(pb, st, f))
    ensures Noisy(st) ==> Noisy(Moved(pb, st, f))
  {
    hide ReadsOk, NotBelow, Scanned, Partner, CountAtLeast;
    var st' := Moved(pb, st, f);
    if Noisy(st) {
      if !st.initial && !st.flag {
        var e :| 0 <= e < |st.phase| && Lowering(st.phase[e]);
        assert e != f ==> st'.phase[e] == st.phase[e];
        assert !st.phase[f].Reporting? && e == f ==> Lowering(st'.phase[f]);
      }
      assert Noisy(st');
    } else if st.phase[f].Storing? {
      assert Lowering(st'.phase[f]);
    }
  }

  lemma MoveFits(pb: Problem, st: State, f: nat)
    requires ProblemOk(pb) && Shape(pb, st) && EachNotBelow(pb, st.values) && f < |pb.lists|
    requires forall e :: 0 <= e < |pb.lists| ==> VisitFits(pb, st, e)
    ensures var st' := Moved(pb, st, f);
            && Shape(pb, st') && MovesOnly(st, st', f) && EachNotBelow(pb, st'.values)
            && forall e :: 0 <= e < |pb.lists| ==> VisitFits(pb, st', e)
  {
    var st' := Moved(pb, st, f);
    hide Moved, ProblemOk, NotBelow, ReadsOk, VisitOk, InRange;
    OwnFrame(pb, st, f);
    OwnVisit(pb, st, f);
    MovedValues(pb, st, st', f);
    hide MovesOnly, EachNotBelow;
    forall e | 0 <= e < |pb.lists| ensures VisitFits(pb, st', e) {
      if e != f {
        OtherVisit(pb, st, st', f, e);
      }
    }
  }

  /** Every move of a visit keeps the invariant. */
  lemma MoveKeeps(pb: Problem, st: State, f: nat)
    requires ProblemOk(pb) && Inv(pb, st) && f < |pb.lists| && !st.phase[f].Done?
    ensures Inv(pb, Moved(pb, st, f)) && MovesOnly(st, Moved(pb, st, f), f)
  {
    hide Moved, ProblemOk, NotBelow, Safe, MovesOnly, QuietOk, InRange, VisitFits, EachNotBelow;
    MoveFits(pb, st, f);
    QuietKept(pb, st, f);
    forall e | 0 <= e < |pb.lists| ensures Safe(pb, Moved(pb, st, f), e) {
      if e == f {
        OwnSafe(pb, st, e);
      } else {
        InitialFlags(pb, st, e);
        OtherSafe(pb, st, f, e);
      }
    }
  }

  lemma InitialFlags(pb: Problem, st: State, e: nat)
    requires Shape(pb, st) && e < |pb.lists| && VisitFits(pb, st, e)
    ensures st.initial ==> st.changed[e]
  {}

  lemma MovedValues(pb: Problem, st: State, st': State, f: nat)
    requires MovesOnly(st, st', f) && EachNotBelow(pb, st.values) && NotBelow(pb, f, st'.values[f])
    ensures |st'.values| == |st.values| == |st'.changed| == |st'.phase| && EachNotBelow(pb, st'.values)
  {
    hide NotBelow;
  }

  // ---------------------------------------------------------------- whole rounds

  lemma StartOk(pb: Problem)
    requires ProblemOk(pb)
    ensures Inv(pb, Start(pb))
  {
    hide Enumerates, WedgesBelow, TriSys.Valid, Stable;
    var st := Start(pb);
    forall e | 0 <= e < |pb.lists| ensures NotBelow(pb, e, |pb.lists[e]|) {
      EnumerationCount(pb.sys.tris, e, pb.lists[e]);
    }
    forall e | 0 <= e < |pb.lists| ensures Safe(pb, st, e) && VisitFits(pb, st, e) {
      hide ProblemOk;
    }
  }

  /** Between rounds every edge is flagged or supported. */
  lemma RoundOver(pb: Problem, st: State)
    requires Inv(pb, st) && AllDone(st)
    ensures forall e :: 0 <= e < |pb.lists| ==> st.changed[e] || Stable(pb.sys, Shift(st.values), e)
  {
    hide Stable, NotBelow, VisitFits, Among, Partner;
    forall e | 0 <= e < |pb.lists| ensures st.changed[e] || Stable(pb.sys, Shift(st.values), e) {
      assert Safe(pb, st, e);
    }
  }

  lemma RoundKeeps(pb: Problem, st: State, st': State)
    requires Inv(pb, st) && Step(pb, st, st', NextRound)
    ensures Inv(pb, st')
  {
    hide Stable, NotBelow, EachNotBelow;
    RoundOver(pb, st);
    assert Shape(pb, st');
    forall e | 0 <= e < |pb.lists| ensures Safe(pb, st', e) && VisitFits(pb, st', e) {
      assert VisitFits(pb, st, e);
    }
  }

  /** When a round ends in which no value has fallen, the values are exact. */
  lemma FinishedIsExact(pb: Problem, st: State)
    requires ProblemOk(pb) && Inv(pb, st) && Finished(st)
    ensures Exact(pb.sys, Shift(st.values))
  {
    hide Stable, NotBelow, VisitFits, Safe, TriSys.Valid, Enumerates, WedgesBelow, Trussness;
    RoundOver(pb, st);
    assert !Noisy(st);
    NotBelowIsAbove(pb, st.values);
    QuietIsExact(pb.sys, st.values, st.changed);
  }

  lemma NotBelowIsAbove(pb: Problem, values: seq<nat>)
    requires EachNotBelow(pb, values) && Numbered(pb.sys, |values|)
    ensures Above(pb.sys, Shift(values))
  {
    hide Trussness;
    forall e | e in pb.sys.edges ensures At(Shift(values), e) >= Trussness(pb.sys, e) {
      assert NotBelow(pb, e, values[e]);
    }
  }

  // ---------------------------------------------------------------- how long a run can be

  /** How many more accesses the visit of an edge can make in this round, at most. */
  function Weight(ws: seq<Wedge>, ph: Phase): int {
    var n := |ws|;
    match ph
    case Waiting => 7 * n + 6
    case Clearing => 7 * n + 5
    case First(mins) => 4 * n + 4 + 3 * (n - |mins|)
    case Second(mins, a) => 4 * n + 3 + 3 * (n - |mins|)
    case Third(mins, a, b) => 4 * n + 2 + 3 * (n - |mins|)
    case Storing(v) => 4 * n + 4
    case Announcing => 4 * n + 3
    case Testing(k) => 2 + 2 * (2 * n - k)
    case Marking(k) => 1 + 2 * (2 * n - k)
    case Reporting => 1
    case Done => 0
  }

  lemma MoveLowersWeight(pb: Problem, st: State, f: nat)
    requires Shape(pb, st) && f < |pb.lists| && !st.phase[f].Done?
    ensures Shape(pb, Moved(pb, st, f)) ==>
            0 <= Weight(pb.lists[f], Moved(pb, st, f).phase[f]) < Weight(pb.lists[f], st.phase[f])
  {
    hide CountAtLeast, Partner, Down;
  }

  ghost function Weights(pb: Problem, st: State): (s: seq<nat>)
    requires Shape(pb, st)
    ensures |s| == |pb.lists| && forall e :: 0 <= e < |s| ==> s[e] == Weight(pb.lists[e], st.phase[e])
  {
    WeightsNat(pb, st);
    seq(|pb.lists|, e requires 0 <= e < |pb.lists| => Weight(pb.lists[e], st.phase[e]))
  }

  lemma WeightsNat(pb: Problem, st: State)
    requires Shape(pb, st)
    ensures forall e :: 0 <= e < |pb.lists| ==> Weight(pb.lists[e], st.phase[e]) >= 0
  {}

  /** The accesses of a round in which every edge is visited in full. */
  ghost function FullRound(pb: Problem): nat {
    Sum(seq(|pb.lists|, e requires 0 <= e < |pb.lists| => 7 * |pb.lists[e]| + 6))
  }

  /** The values and the news decide how many rounds can come, the phases how long this one can last. */
  ghost function Fuel(st: State): nat {
    2 * Sum(st.values) + if Noisy(st) then 1 else 0
  }

  ghost function Measure(pb: Problem, st: State): nat
    requires Shape(pb, st)
  {
    Fuel(st) * (FullRound(pb) + 1) + Sum(Weights(pb, st))
  }

  lemma MoveFuel(pb: Problem, st: State, f: nat)
    requires Shape(pb, st) && f < |pb.lists| && !st.phase[f].Done? && VisitFits(pb, st, f)
    requires MovesOnly(st, Moved(pb, st, f), f)
    ensures Fuel(Moved(pb, st, f)) <= Fuel(st)
  {
    var st' := Moved(pb, st, f);
    SumUpdate(st.values, f, st'.values[f]);
    assert st'.values == st.values[f := st'.values[f]];
    hide Sum;
    NewsOnlyByStoring(pb, st, f);
    hide Moved, Noisy, ReadsOk;
  }

  lemma NewsOnlyByStoring(pb: Problem, st: State, f: nat)
    requires Shape(pb, st) && f < |pb.lists| && VisitFits(pb, st, f)
    ensures Noisy(Moved(pb, st, f)) && !Noisy(st) ==> Moved(pb, st, f).values[f] < st.values[f]
  {
    hide ReadsOk, NotBelow, Down, CountAtLeast, Partner;
    var st' := Moved(pb, st, f);
    if !Noisy(st) && Noisy(st') && !st.phase[f].Storing? {
      assert !Lowering(st.phase[f]) && !Lowering(st'.phase[f]);
      forall e | 0 <= e < |st'.phase| ensures !Lowering(st'.phase[e]) {
        assert e != f ==> st'.phase[e] == st.phase[e];
      }
    }
  }

  lemma MoveLowers(pb: Problem, st: State, f: nat)
    requires ProblemOk(pb) && Inv(pb, st) && f < |pb.lists| && !st.phase[f].Done?
    ensures Shape(pb, Moved(pb, st, f)) && Measure(pb, Moved(pb, st, f)) < Measure(pb, st)
  {
    hide Moved, ProblemOk, VisitFits, Sum, Fuel, FullRound, Weight, EachNotBelow, QuietOk, Safe, InRange;
    MoveKeeps(pb, st, f);
    var st' := Moved(pb, st, f);
    MoveFuel(pb, st, f);
    MoveLowersWeight(pb, st, f);
    SumUpdate(Weights(pb, st), f, Weights(pb, st')[f]);
    assert Weights(pb, st') == Weights(pb, st)[f := Weights(pb, st')[f]];
    FuelTimes(Fuel(st'), Fuel(st), FullRound(pb) + 1);
  }

  lemma FuelTimes(a: nat, b: nat, c: nat)
    requires a <= b
    ensures a * c <= b * c
  {}

  lemma RoundLowers(pb: Problem, st: State, st': State)
    requires Inv(pb, st) && Step(pb, st, st', NextRound)
    ensures Shape(pb, st') && Measure(pb, st') < Measure(pb, st)
  {
    hide Sum, VisitFits, EachNotBelow, QuietOk, Safe;
    assert Noisy(st) && !Noisy(st');
    assert Weights(pb, st') == seq(|pb.lists|, e requires 0 <= e < |pb.lists| => 7 * |pb.lists[e]| + 6);
    hide Noisy, Weights;
    assert Fuel(st) == Fuel(st') + 1;
    hide Fuel, FullRound;
    FuelNext(Fuel(st'), FullRound(pb) + 1);
  }

  lemma FuelNext(a: nat, c: nat)
    ensures (a + 1) * c == a * c + c
  {}

  // ---------------------------------------------------------------- every schedule

  lemma StepKeeps(pb: Problem, st: State, st': State, ev: Event)
    requires ProblemOk(pb) && Inv(pb, st) && Step(pb, st, st', ev)
    ensures Inv(pb, st') && Measure(pb, st') < Measure(pb, st)
  {
    hide ProblemOk, Moved, Measure, VisitFits, EachNotBelow, QuietOk, Safe, InRange;
    match ev
    case Advance(e) =>
      MoveKeeps(pb, st, e);
      MoveLowers(pb, st, e);
    case NextRound =>
      RoundKeeps(pb, st, st');
      RoundLowers(pb, st, st');
  }

  ghost predicate Schedule(pb: Problem, run: seq<State>, events: seq<Event>) {
    && |run| == |events| + 1
    && forall i :: 0 <= i < |events| ==> Step(pb, run[i], run[i + 1], events[i])
  }

  lemma {:induction false} SchedulesKeep(pb: Problem, run: seq<State>, events: seq<Event>)
    requires ProblemOk(pb) && Schedule(pb, run, events) && Inv(pb, run[0])
    ensures Inv(pb, run[|events|]) && |events| + Measure(pb, run[|events|]) <= Measure(pb, run[0])
    decreases |events|
  {
    hide ProblemOk, Inv, Step, Measure;
    if events != [] {
      StepKeeps(pb, run[0], run[1], events[0]);
      var rest := run[1..];
      forall i | 0 <= i < |events[1..]| ensures Step(pb, rest[i], rest[i + 1], events[1..][i]) {
        assert rest[i] == run[i + 1] && rest[i + 1] == run[i + 2] && events[1..][i] == events[i + 1];
      }
      SchedulesKeep(pb, rest, events[1..]);
    }
  }

  /** Until the computation is finished, some visit can go on or the next round can begin. */
  lemma NeverStuck(pb: Problem, st: State)
    requires Shape(pb, st) && !Finished(st)
    ensures exists st', ev :: Step(pb, st, st', ev)
  {
    if e :| 0 <= e < |st.phase| && !st.phase[e].Done? {
      assert Step(pb, st, Moved(pb, st, e), Advance(e));
    } else {
      assert Step(pb, st, State(st.values, st.changed, seq(|st.phase|, _ => Waiting), false, false), NextRound);
    }
  }

  /**
   From the triangle counts, in whatever way the accesses of concurrent visits interleave: no value
   falls below its final one, no edge that still has to fall is forgotten, the computation cannot go on
   for ever, and where it ends the values are exact.
   */
  lemma EveryInterleaving(pb: Problem, run: seq<State>, events: seq<Event>)
    requires ProblemOk(pb) && |run| == |events| + 1 && run[0] == Start(pb)
    requires forall i :: 0 <= i < |events| ==> Step(pb, run[i], run[i + 1], events[i])
    ensures var st := run[|events|];
            && Shape(pb, st) && EachNotBelow(pb, st.values) && (forall e :: 0 <= e < |pb.lists| ==> Safe(pb, st, e))
            && |events| <= Measure(pb, Start(pb))
            && if Finished(st) then Exact(pb.sys, Shift(st.values)) else exists st', ev :: Step(pb, st, st', ev)
  {
    hide ProblemOk, Step, Measure, VisitFits, Safe, EachNotBelow, Start, Exact, Finished;
    StartOk(pb);
    SchedulesKeep(pb, run, events);
    if Finished(run[|events|]) {
      FinishedIsExact(pb, run[|events|]);
    } else {
      NeverStuck(pb, run[|events|]);
    }
  }

  // ---------------------------------------------------------------- the lists of an indexed graph

  /** The visits of an indexed graph come to the triangles of every edge. */
  lemma IndexedProblem(xadj: seq<nat>, adj: seq<nat>, el: seq<(nat, nat)>, rev: seq<nat>,
                       n: nat) returns (lists: seq<seq<Wedge>>)
    requires IndexOk(xadj, adj, el, rev) && n <= |el|
    ensures |lists| == n
    ensures forall e :: 0 <= e < n ==>
                          Enumerates(Triangles(GraphOfEnds(el)), e, lists[e]) && WedgesBelow(lists[e], |el|)
    ensures n == |el| ==> ProblemOk(Problem(Sys(GraphOfEnds(el)), lists))
  {
    hide IndexOk, Triangles, Enumerates, GraphOfEnds, TriSys.Valid, Numbered, WedgesBelow, Simple;
    IndexedSys(xadj, adj, el, rev);
    if n == 0 {
      lists := [];
    } else {
      lists := IndexedProblem(xadj, adj, el, rev, n - 1);
      var ws := IndexedList(xadj, adj, el, rev, n - 1);
      lists := lists + [ws];
    }
  }

  lemma IndexedList(xadj: seq<nat>, adj: seq<nat>, el: seq<(nat, nat)>, rev: seq<nat>, e: nat) returns (ws: seq<Wedge>)
    requires IndexOk(xadj, adj, el, rev) && e < |el|
    ensures Enumerates(Triangles(GraphOfEnds(el)), e, ws) && WedgesBelow(ws, |el|)
  {
    hide Triangles, Enumerates, Simple, RangesOk, LinksOk;
    var u, v := el[e].0, el[e].1;
    EndRanges(xadj, adj, el, rev, e);
    var p, q := ListMatches(adj, xadj[u], xadj[u + 1], xadj[v], xadj[v + 1]);
    MatchesEnumerate(xadj, adj, el, rev, e, p, q);
    ws := Linked(rev, p, q);
    WedgeIds(GraphOfEnds(el), e, ws);
  }
}
