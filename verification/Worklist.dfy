/** Worklists with membership flags, as the maintainers keep them. */
module Worklist {

  /**
   The unread part of the queue, from head on, lists exactly the flagged edges, each once.
   */
  ghost predicate QueueOk(queue: seq<nat>, inq: seq<bool>, head: nat) {
    && head <= |queue|
    && (forall i :: head <= i < |queue| ==> queue[i] < |inq| && inq[queue[i]])
    && (forall e :: 0 <= e < |inq| && inq[e] ==> exists i :: head <= i < |queue| && queue[i] == e)
    && (forall i, j :: head <= i < j < |queue| ==> queue[i] != queue[j])
  }

  /** Only edges below the bound are flagged. */
  ghost predicate FlagsBelow(inq: seq<bool>, bound: nat) {
    forall e :: 0 <= e < |inq| && inq[e] ==> e < bound
  }

  /** Adds e unless it is queued already. */
  method Push(queue: seq<nat>, inq: seq<bool>, e: nat, ghost head: nat) returns (queue': seq<nat>, inq': seq<bool>)
    requires QueueOk(queue, inq, head) && e < |inq|
    ensures QueueOk(queue', inq', head)
    ensures inq' == inq[e := true]
    ensures queue' == if inq[e] then queue else queue + [e]
  {
    queue', inq' := queue, inq;
    if !inq[e] {
      inq' := inq'[e := true];
      queue' := queue' + [e];
      assert queue'[|queue|] == e;
      forall f | 0 <= f < |inq'| && inq'[f] ensures exists i :: head <= i < |queue'| && queue'[i] == f {
        if f != e {
          var i :| head <= i < |queue| && queue[i] == f;
          assert queue'[i] == f;
        }
      }
    } else {
      assert inq[e := true] == inq;
    }
  }

  lemma PopOk(queue: seq<nat>, inq: seq<bool>, head: nat)
    requires QueueOk(queue, inq, head) && head < |queue|
    ensures queue[head] < |inq| && inq[queue[head]]
    ensures QueueOk(queue, inq[queue[head] := false], head + 1) && head + 1 <= |queue|
  {
    var inq' := inq[queue[head] := false];
    forall e | 0 <= e < |inq'| && inq'[e] ensures exists i :: head + 1 <= i < |queue| && queue[i] == e {
      var i :| head <= i < |queue| && queue[i] == e;
    }
  }

  lemma QueueHead(queue: seq<nat>, inq: seq<bool>, head: nat)
    requires QueueOk(queue, inq, head)
    ensures head <= |queue|
  {}

  lemma QueueEmpty(queue: seq<nat>, inq: seq<bool>, head: nat)
    requires QueueOk(queue, inq, head) && head == |queue|
    ensures forall e :: 0 <= e < |inq| ==> !inq[e]
    ensures QueueOk([], inq, 0)
  {}

  lemma QueueStart(inq: seq<bool>)
    requires forall e :: 0 <= e < |inq| ==> !inq[e]
    ensures QueueOk([], inq, 0)
  {}

  ghost function Sum(s: seq<nat>): nat {
    if s == [] then 0 else s[0] + Sum(s[1..])
  }

  lemma {:induction false} SumUpdate(s: seq<nat>, i: nat, x: nat)
    requires i < |s|
    ensures Sum(s[i := x]) == Sum(s) - s[i] + x
    decreases |s|
  {
    if i == 0 {
      assert s[0 := x][1..] == s[1..];
    } else {
      SumUpdate(s[1..], i - 1, x);
      assert s[i := x][1..] == s[1..][i - 1 := x];
    }
  }
}
