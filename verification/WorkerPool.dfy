/**
 The worker pool that runs the loops of the batch maintainer (run_jobs, pool_worker and
 pool_shutdown in src/batch.h), as a state machine whose steps are the accesses to shared
 variables. Any interleaving of the steps of the main thread and of any number of workers
 is a run.
 */
module WorkerPool {
  import FiniteSets

  /** How many indices a thread takes at a time. */
  const CHUNK: nat := 64

  /** Where a worker is in its loop. */
  datatype WorkerPc =
    | Home                                             // about to take the mutex
    | Checking                                         // holds the mutex, tests for a new epoch
    | Waiting                                          // blocked on the condition variable
    | Woken                                            // woken up, about to take the mutex again
    | StopTest                                         // left the wait loop
    | ReadSeq
    | ReadCount
    | Fetch(n: nat)                                    // about to take a chunk
    | Running(n: nat, lo: nat, i: nat, end: nat)       // inside the body for index i
    | Finish                                           // about to report
    | Exited

  datatype Worker = Worker(pc: WorkerPc, seen: nat)

  /** Where the main thread is: outside, in run_jobs, or in pool_shutdown. */
  datatype MainPc =
    | Idle
    | SetBody(c: nat) | TakeLock(c: nat) | SetCount(c: nat) | SetJob(c: nat) | SetDone(c: nat)
    | BumpSeq(c: nat) | Notify(c: nat) | Unlock(c: nat)
    | MainFetch(c: nat)
    | MainRunning(c: nat, lo: nat, i: nat, end: nat)
    | AwaitDone(c: nat)
    | StopLock | StopSet | StopNotify | StopUnlock | Join | Gone

  /** Who holds the mutex. */
  datatype Holder = Nobody | Main | WorkerHolds(t: nat)

  /** One execution of the loop body: which body, for which index. */
  datatype Run = Run(body: nat, index: nat)

  datatype State = State(
    workers: seq<Worker>,
    main: MainPc,
    mutex: Holder,
    epoch: nat,          // pool_seq
    job: nat,            // pool_job
    done: nat,           // pool_done
    count: nat,          // pool_count
    stop: bool,          // pool_stop
    body: nat,           // pool_body, as the number of the call that set it
    calls: nat,          // how many calls of run_jobs have begun
    log: seq<Run>)       // the executions of the current call

  datatype Step =
    | MainStep
    | CallRun(count: nat)      // run_jobs on the pool
    | CallStop                 // the destructor
    | WorkerStep(t: nat)
    | Spurious(t: nat)         // a wake-up without a notification

  datatype Option<T> = None | Some(value: T)

  function Init(workers: nat): State {
    State(seq(workers, _ => Worker(Home, 0)), Idle, Nobody, 0, 0, 0, 0, false, 0, 0, [])
  }

  function Least(a: nat, b: nat): nat {
    if a < b then a else b
  }

  function WakeAll(ws: seq<Worker>): (r: seq<Worker>)
    ensures |r| == |ws|
    ensures forall t :: 0 <= t < |ws| ==> r[t] == if ws[t].pc == Waiting then ws[t].(pc := Woken) else ws[t]
  {
    seq(|ws|, t requires 0 <= t < |ws| => if ws[t].pc == Waiting then ws[t].(pc := Woken) else ws[t])
  }

  function SetPc(s: State, t: nat, pc: WorkerPc): State
    requires t < |s.workers|
  {
    s.(workers := s.workers[t := s.workers[t].(pc := pc)])
  }

  /** One step of worker t, if it can move. */
  function StepWorker(s: State, t: nat): Option<State>
    requires t < |s.workers|
  {
    var w := s.workers[t];
    match w.pc
    case Home => if s.mutex == Nobody then Some(SetPc(s, t, Checking).(mutex := WorkerHolds(t))) else None
    case Woken => if s.mutex == Nobody then Some(SetPc(s, t, Checking).(mutex := WorkerHolds(t))) else None
    case Checking =>
      Some(SetPc(s, t, if s.epoch == w.seen && !s.stop then Waiting else StopTest).(mutex := Nobody))
    case Waiting => None
    case StopTest => Some(SetPc(s, t, if s.stop then Exited else ReadSeq))
    case ReadSeq => Some(s.(workers := s.workers[t := Worker(ReadCount, s.epoch)]))
    case ReadCount => Some(SetPc(s, t, Fetch(s.count)))
    case Fetch(n) =>
      var s' := s.(job := s.job + CHUNK);
      if s.job >= n then Some(SetPc(s', t, Finish))
      else Some(SetPc(s', t, Running(n, s.job, s.job, Least(s.job + CHUNK, n))))
    case Running(n, lo, i, end) =>
      var s' := s.(log := s.log + [Run(s.body, i)]);
      if i + 1 < end then Some(SetPc(s', t, Running(n, lo, i + 1, end)))
      else Some(SetPc(s', t, Fetch(n)))
    case Finish => Some(SetPc(s, t, Home).(done := s.done + 1))
    case Exited => None
  }

  /** One step of the main thread inside run_jobs or pool_shutdown, if it can move. */
  function StepMain(s: State): Option<State> {
    match s.main
    case Idle => None
    case SetBody(c) => Some(s.(main := TakeLock(c), body := s.calls))
    case TakeLock(c) => if s.mutex == Nobody then Some(s.(main := SetCount(c), mutex := Main)) else None
    case SetCount(c) => Some(s.(main := SetJob(c), count := c))
    case SetJob(c) => Some(s.(main := SetDone(c), job := 0))
    case SetDone(c) => Some(s.(main := BumpSeq(c), done := 0))
    case BumpSeq(c) => Some(s.(main := Notify(c), epoch := s.epoch + 1))
    case Notify(c) => Some(s.(main := Unlock(c), workers := WakeAll(s.workers)))
    case Unlock(c) => Some(s.(main := MainFetch(c), mutex := Nobody))
    case MainFetch(c) =>
      var s' := s.(job := s.job + CHUNK);
      if s.job >= c then Some(s'.(main := AwaitDone(c)))
      else Some(s'.(main := MainRunning(c, s.job, s.job, Least(s.job + CHUNK, c))))
    case MainRunning(c, lo, i, end) =>
      var s' := s.(log := s.log + [Run(s.calls, i)]);
      if i + 1 < end then Some(s'.(main := MainRunning(c, lo, i + 1, end)))
      else Some(s'.(main := MainFetch(c)))
    case AwaitDone(c) => if s.done == |s.workers| then Some(s.(main := Idle)) else Some(s)
    case StopLock => if s.mutex == Nobody then Some(s.(main := StopSet, mutex := Main)) else None
    case StopSet => Some(s.(main := StopNotify, stop := true))
    case StopNotify => Some(s.(main := StopUnlock, workers := WakeAll(s.workers)))
    case StopUnlock => Some(s.(main := Join, mutex := Nobody))
    case Join => if forall t :: 0 <= t < |s.workers| ==> s.workers[t].pc == Exited then Some(s.(main := Gone)) else None
    case Gone => None
  }

  function Next(s: State, step: Step): Option<State> {
    match step
    case MainStep => StepMain(s)
    case CallRun(c) => if s.main == Idle then Some(s.(main := SetBody(c), calls := s.calls + 1, log := [])) else None
    case CallStop => if s.main == Idle then Some(s.(main := StopLock)) else None
    case WorkerStep(t) => if t < |s.workers| then StepWorker(s, t) else None
    case Spurious(t) =>
      if t < |s.workers| && s.workers[t].pc == Waiting then Some(SetPc(s, t, Woken)) else None
  }

  /** The state after a sequence of steps, if all of them can be taken. */
  function Execute(s: State, steps: seq<Step>): Option<State> {
    if steps == [] then Some(s)
    else match Execute(s, steps[..|steps| - 1])
      case None => None
      case Some(s') => Next(s', steps[|steps| - 1])
  }

  // ---------------------------------------------------------------- the invariant

  predicate AtHome(pc: WorkerPc) {
    pc == Home || pc == Checking || pc == Waiting || pc == Woken
  }

  /** Has seen the current epoch and gone home again. */
  predicate Finished(w: Worker, epoch: nat) {
    w.seen == epoch && (AtHome(w.pc) || w.pc == StopTest || w.pc == Exited)
  }

  /** Has not read the current epoch yet. */
  predicate Late(w: Worker, epoch: nat) {
    w.seen + 1 == epoch && (AtHome(w.pc) || w.pc == StopTest || w.pc == ReadSeq)
  }

  /** Works for the current epoch. */
  predicate Busy(w: Worker, epoch: nat) {
    w.seen == epoch && (w.pc == ReadCount || w.pc.Fetch? || w.pc.Running? || w.pc == Finish)
  }

  /** No epoch is under way: the main thread has not yet announced one, or has seen all reports. */
  predicate Quiet(m: MainPc) {
    m == Idle || m.SetBody? || m.TakeLock? || m.SetCount? || m.SetJob? || m.SetDone? || m.BumpSeq?
    || Stopping(m)
  }

  predicate Stopping(m: MainPc) {
    m == StopLock || m == StopSet || m == StopNotify || m == StopUnlock || m == Join || m == Gone
  }

  predicate MainHolds(m: MainPc) {
    m.SetCount? || m.SetJob? || m.SetDone? || m.BumpSeq? || m.Notify? || m.Unlock?
    || m == StopSet || m == StopNotify || m == StopUnlock
  }

  /** The part of the current call that has been handed out so far is everything below this. */
  function Claimed(s: State): nat {
    Least(s.job, s.count)
  }

  predicate HoldsIndex(pc: WorkerPc, k: nat) {
    pc.Running? && pc.i <= k < pc.end
  }

  predicate MainHoldsIndex(m: MainPc, k: nat) {
    m.MainRunning? && m.i <= k < m.end
  }

  /** A chunk in progress. */
  ghost predicate ChunkOk(lo: nat, i: nat, end: nat, n: nat, s: State) {
    && n == s.count && lo % CHUNK == 0 && lo <= i < end
    && end == Least(lo + CHUNK, n) && lo + CHUNK <= s.job
  }

  ghost predicate WorkerOk(w: Worker, s: State) {
    && (Quiet(s.main) ==> Finished(w, s.epoch))
    && (!Quiet(s.main) ==> Finished(w, s.epoch) || Late(w, s.epoch) || Busy(w, s.epoch))
    && (w.pc.Fetch? ==> w.pc.n == s.count)
    && (w.pc.Running? ==> ChunkOk(w.pc.lo, w.pc.i, w.pc.end, w.pc.n, s))
    && (w.pc == Waiting && w.seen != s.epoch ==> s.main.Notify?)
    && (w.pc == Waiting && s.stop ==> s.main == StopNotify)
    && (w.pc == StopTest ==> w.seen != s.epoch || s.stop)
    && (w.pc == Exited ==> s.stop)
  }

  ghost predicate MutexOk(s: State) {
    && (s.mutex == Main <==> MainHolds(s.main))
    && (forall t :: 0 <= t < |s.workers| ==> (s.mutex == WorkerHolds(t) <==> s.workers[t].pc == Checking))
    && (s.mutex.WorkerHolds? ==> s.mutex.t < |s.workers|)
  }

  /** Two threads never work on the same chunk. */
  ghost predicate ChunksDistinct(s: State) {
    && (forall t, u :: 0 <= t < u < |s.workers| && s.workers[t].pc.Running? && s.workers[u].pc.Running? ==>
                         s.workers[t].pc.lo != s.workers[u].pc.lo)
    && (forall t :: 0 <= t < |s.workers| && s.workers[t].pc.Running? && s.main.MainRunning? ==>
                      s.workers[t].pc.lo != s.main.lo)
  }

  /** Some thread has claimed index k and not finished it. */
  ghost predicate InProgress(s: State, k: nat) {
    MainHoldsIndex(s.main, k) || exists t :: 0 <= t < |s.workers| && HoldsIndex(s.workers[t].pc, k)
  }

  ghost predicate Logged(log: seq<Run>, k: nat) {
    exists j :: 0 <= j < |log| && log[j].index == k
  }

  ghost predicate LogDistinct(log: seq<Run>) {
    forall j, l :: 0 <= j < l < |log| ==> log[j].index != log[l].index
  }

  /** During an epoch: what was claimed is done or in progress, nothing was done twice. */
  ghost predicate LogOk(s: State) {
    && LogDistinct(s.log)
    && (forall j :: 0 <= j < |s.log| ==> s.log[j].body == s.calls)
    && (forall k: nat :: Logged(s.log, k) <==> k < Claimed(s) && !InProgress(s, k))
  }

  /** Whether the job counter belongs to the call in progress. */
  predicate Announced(m: MainPc) {
    m.Notify? || m.Unlock? || m.MainFetch? || m.MainRunning? || m.AwaitDone?
  }

  function CountFinished(ws: seq<Worker>, epoch: nat): nat {
    if ws == [] then 0 else (if Finished(ws[0], epoch) then 1 else 0) + CountFinished(ws[1..], epoch)
  }

  /** Between taking the mutex and announcing the epoch. */
  predicate Preparing(m: MainPc) {
    m.SetJob? || m.SetDone? || m.BumpSeq?
  }

  /** In run_jobs after the body has been set. */
  predicate BodyIsSet(m: MainPc) {
    m.TakeLock? || m.SetCount? || Preparing(m) || Announced(m)
  }

  function MainCount(m: MainPc): nat
    requires Announced(m) || Preparing(m)
  {
    m.c
  }

  ghost predicate MainOk(s: State) {
    && (s.stop <==> s.main == StopNotify || s.main == StopUnlock || s.main == Join || s.main == Gone)
    && (Announced(s.main) || Preparing(s.main) ==> s.count == MainCount(s.main))
    && (s.main.SetDone? || s.main.BumpSeq? ==> s.job == 0)
    && (s.main.BumpSeq? ==> s.done == 0)
    && (BodyIsSet(s.main) ==> s.body == s.calls)
    && (s.main.SetBody? || (BodyIsSet(s.main) && !Announced(s.main)) ==> s.log == [])
    && (Announced(s.main) ==> s.job % CHUNK == 0 && s.done == CountFinished(s.workers, s.epoch) && LogOk(s))
    && (s.main.MainRunning? ==> ChunkOk(s.main.lo, s.main.i, s.main.end, s.main.c, s))
    && (s.main.AwaitDone? ==> s.job >= s.count)
  }

  ghost predicate Inv(s: State) {
    && (forall t :: 0 <= t < |s.workers| ==> WorkerOk(s.workers[t], s))
    && MutexOk(s) && ChunksDistinct(s) && MainOk(s)
  }

  lemma {:induction false} CountUpdate(ws: seq<Worker>, t: nat, w: Worker, epoch: nat)
    requires t < |ws|
    ensures CountFinished(ws[t := w], epoch) ==
            CountFinished(ws, epoch) - (if Finished(ws[t], epoch) then 1 else 0) + (if Finished(w, epoch) then 1 else 0)
    decreases |ws|
  {
    if t == 0 {
      assert ws[0 := w][1..] == ws[1..];
    } else {
      CountUpdate(ws[1..], t - 1, w, epoch);
      assert ws[t := w][1..] == ws[1..][t - 1 := w];
    }
  }

  lemma {:induction false} CountNone(ws: seq<Worker>, epoch: nat)
    requires forall t :: 0 <= t < |ws| ==> !Finished(ws[t], epoch)
    ensures CountFinished(ws, epoch) == 0
    decreases |ws|
  {
    if ws != [] {
      CountNone(ws[1..], epoch);
    }
  }

  lemma {:induction false} CountSame(ws: seq<Worker>, vs: seq<Worker>, epoch: nat)
    requires |ws| == |vs| && forall t :: 0 <= t < |ws| ==> (Finished(ws[t], epoch) <==> Finished(vs[t], epoch))
    ensures CountFinished(ws, epoch) == CountFinished(vs, epoch)
    decreases |ws|
  {
    if ws != [] {
      CountSame(ws[1..], vs[1..], epoch);
    }
  }

  /** When everybody has reported, everybody has finished. */
  lemma {:induction false} CountAll(ws: seq<Worker>, epoch: nat)
    requires CountFinished(ws, epoch) >= |ws|
    ensures forall t :: 0 <= t < |ws| ==> Finished(ws[t], epoch)
    decreases |ws|
  {
    if ws != [] {
      CountBound(ws[1..], epoch);
      CountAll(ws[1..], epoch);
      assert forall t :: 0 < t < |ws| ==> ws[t] == ws[1..][t - 1];
    }
  }

  lemma {:induction false} CountBound(ws: seq<Worker>, epoch: nat)
    ensures CountFinished(ws, epoch) <= |ws|
    decreases |ws|
  {
    if ws != [] {
      CountBound(ws[1..], epoch);
    }
  }

  lemma LoggedAdd(log: seq<Run>, r: Run, k: nat)
    ensures Logged(log + [r], k) <==> Logged(log, k) || k == r.index
  {
    var log' := log + [r];
    assert log'[|log|] == r;
    if Logged(log, k) {
      var j :| 0 <= j < |log| && log[j].index == k;
      assert log'[j].index == k;
    }
  }

  /** Chunks that start at different multiples of the chunk size do not meet. */
  lemma ChunksApart(lo: nat, lo2: nat, k: nat)
    requires lo % CHUNK == 0 && lo2 % CHUNK == 0 && lo != lo2
    ensures !(lo <= k < lo + CHUNK && lo2 <= k < lo2 + CHUNK)
  {}

  lemma InitInv(workers: nat)
    ensures Inv(Init(workers))
  {}

  // ---------------------------------------------------------------- steps of the workers

  /** A worker's own condition does not notice progress of the job counter. */
  lemma WorkerOkKeeps(w: Worker, s: State, s': State)
    requires WorkerOk(w, s) && s'.main == s.main && s'.epoch == s.epoch && s'.stop == s.stop
             && s'.count == s.count && s'.job >= s.job
    ensures WorkerOk(w, s')
  {}

  /** A worker that claims no index and holds none leaves the log alone. */
  lemma LogUntouched(s: State, s': State, t: nat)
    requires LogOk(s) && t < |s.workers| == |s'.workers|
    requires s'.main == s.main && s'.job == s.job && s'.count == s.count && s'.log == s.log && s'.calls == s.calls
    requires forall u :: 0 <= u < |s.workers| && u != t ==> s'.workers[u] == s.workers[u]
    requires !s.workers[t].pc.Running? && !s'.workers[t].pc.Running?
    ensures LogOk(s')
  {
    forall k: nat ensures InProgress(s', k) <==> InProgress(s, k) {
      if InProgress(s, k) && !MainHoldsIndex(s.main, k) {
        var u :| 0 <= u < |s.workers| && HoldsIndex(s.workers[u].pc, k);
        assert HoldsIndex(s'.workers[u].pc, k);
      }
      if InProgress(s', k) && !MainHoldsIndex(s.main, k) {
        var u :| 0 <= u < |s.workers| && HoldsIndex(s'.workers[u].pc, k);
        assert HoldsIndex(s.workers[u].pc, k);
      }
    }
  }

  /** Steps of worker t that touch neither the job counter nor the log. */
  lemma SimpleStep(s: State, t: nat, w: Worker, s': State)
    requires Inv(s) && t < |s.workers|
    requires s' == s.(workers := s.workers[t := w], mutex := s'.mutex, done := s'.done)
    requires !s.workers[t].pc.Running? && !w.pc.Running? && WorkerOk(w, s')
    requires s'.done == s.done - (if Finished(s.workers[t], s.epoch) then 1 else 0) + (if Finished(w,
             s.epoch) then 1 else 0) || !Announced(s.main)
    requires s.main.BumpSeq? ==> s'.done == s.done
    requires MutexOk(s')
    ensures Inv(s')
  {
    forall u | 0 <= u < |s'.workers| ensures WorkerOk(s'.workers[u], s') {
      if u != t {
        WorkerOkKeeps(s.workers[u], s, s');
      }
    }
    if Announced(s.main) {
      CountUpdate(s.workers, t, w, s.epoch);
      LogUntouched(s, s', t);
    }
    hide LogOk, CountFinished, WorkerOk;
    assert ChunksDistinct(s');
  }

  lemma HomeSteps(s: State, t: nat)
    requires Inv(s) && t < |s.workers| && StepWorker(s, t).Some?
    requires var pc := s.workers[t].pc; !pc.Fetch? && !pc.Running?
    ensures Inv(StepWorker(s, t).value)
  {
    var s' := StepWorker(s, t).value;
    assert WorkerOk(s.workers[t], s);
    hide LogOk, ChunksDistinct, CountFinished;
    SimpleStep(s, t, s'.workers[t], s');
  }

  /** Taking a chunk. */
  lemma FetchStep(s: State, t: nat)
    requires Inv(s) && t < |s.workers| && s.workers[t].pc.Fetch?
    ensures Inv(StepWorker(s, t).value)
  {
    hide LogOk, CountFinished, ChunksDistinct, MutexOk, WorkerOk;
    var s' := StepWorker(s, t).value;
    FetchWorker(s, t);
    OthersKeep(s, t, s');
    CountUpdate(s.workers, t, s'.workers[t], s.epoch);
    ClaimLog(s, s', t);
    FetchChunks(s, t);
    MutexKeeps(s, t, s');
  }

  lemma FetchWorker(s: State, t: nat)
    requires Inv(s) && t < |s.workers| && s.workers[t].pc.Fetch?
    ensures var s' := StepWorker(s, t).value;
            WorkerOk(s'.workers[t], s') && Announced(s.main) && s.workers[t].pc.n == s.count
            && Finished(s.workers[t], s.epoch) == Finished(s'.workers[t], s.epoch)
  {
    hide LogOk, CountFinished, ChunksDistinct, MutexOk;
    assert WorkerOk(s.workers[t], s);
  }

  /** The conditions of the other workers survive a step of worker t that only moves the job counter on. */
  lemma OthersKeep(s: State, t: nat, s': State)
    requires Inv(s) && t < |s.workers| == |s'.workers| && s'.workers == s.workers[t := s'.workers[t]]
             && WorkerOk(s'.workers[t], s')
    requires s'.main == s.main && s'.epoch == s.epoch && s'.stop == s.stop && s'.count == s.count && s'.job >= s.job
    ensures forall u :: 0 <= u < |s'.workers| ==> WorkerOk(s'.workers[u], s')
  {
    hide WorkerOk, MutexOk, ChunksDistinct, MainOk;
    forall u | 0 <= u < |s'.workers| ensures WorkerOk(s'.workers[u], s') {
      if u != t {
        WorkerOkKeeps(s.workers[u], s, s');
      }
    }
  }

  /** The mutex is unaffected by a step between two states that do not hold it. */
  lemma MutexKeeps(s: State, t: nat, s': State)
    requires MutexOk(s) && t < |s.workers| == |s'.workers| && s'.workers == s.workers[t := s'.workers[t]]
    requires s'.mutex == s.mutex && MainHolds(s'.main) == MainHolds(s.main)
    requires s.workers[t].pc != Checking && s'.workers[t].pc != Checking
    ensures MutexOk(s')
  {}

  /** A new chunk starts where no other does. */
  lemma FetchChunks(s: State, t: nat)
    requires Inv(s) && t < |s.workers| && s.workers[t].pc.Fetch?
    ensures ChunksDistinct(StepWorker(s, t).value)
  {
    hide LogOk, CountFinished, MutexOk;
    assert forall u :: 0 <= u < |s.workers| && s.workers[u].pc.Running? ==> s.workers[u].pc.lo + CHUNK <= s.job by {
      forall u | 0 <= u < |s.workers| && s.workers[u].pc.Running? ensures s.workers[u].pc.lo + CHUNK <= s.job {
        assert WorkerOk(s.workers[u], s);
      }
    }
    hide WorkerOk;
  }

  /** Claiming a chunk moves indices from unclaimed to in progress. */
  lemma ClaimLog(s: State, s': State, t: nat)
    requires LogOk(s) && t < |s.workers| && s.workers[t].pc.Fetch? && s.workers[t].pc.n == s.count
    requires s' == StepWorker(s, t).value
    ensures LogOk(s')
  {
    forall k: nat ensures InProgress(s', k) <==> InProgress(s, k) || Claimed(s) <= k < Claimed(s') {
      if InProgress(s, k) && !MainHoldsIndex(s.main, k) {
        var u :| 0 <= u < |s.workers| && HoldsIndex(s.workers[u].pc, k);
        assert HoldsIndex(s'.workers[u].pc, k);
      }
      if InProgress(s', k) && !MainHoldsIndex(s.main, k) {
        var u :| 0 <= u < |s.workers| && HoldsIndex(s'.workers[u].pc, k);
        assert u != t ==> HoldsIndex(s.workers[u].pc, k);
      }
      if Claimed(s) <= k < Claimed(s') {
        assert HoldsIndex(s'.workers[t].pc, k);
      }
    }
    ClaimedNotInProgress(s);
  }

  /** What is logged was claimed. */
  lemma ClaimedNotInProgress(s: State)
    requires LogOk(s)
    ensures forall k: nat :: k >= Claimed(s) ==> !Logged(s.log, k)
  {}

  /** One execution of the body by worker t. */
  lemma RunStep(s: State, t: nat)
    requires Inv(s) && t < |s.workers| && s.workers[t].pc.Running?
    ensures Inv(StepWorker(s, t).value)
  {
    hide LogOk, CountFinished, ChunksDistinct, MutexOk, WorkerOk;
    var s' := StepWorker(s, t).value;
    RunWorker(s, t);
    OthersKeep(s, t, s');
    CountUpdate(s.workers, t, s'.workers[t], s.epoch);
    RunLog(s, t);
    assert ChunksDistinct(s') by { FewerChunks(s, t); }
    MutexKeeps(s, t, s');
  }

  lemma FewerChunks(s: State, t: nat)
    requires ChunksDistinct(s) && t < |s.workers| && s.workers[t].pc.Running?
    ensures ChunksDistinct(StepWorker(s, t).value)
  {}

  lemma RunWorker(s: State, t: nat)
    requires Inv(s) && t < |s.workers| && s.workers[t].pc.Running?
    ensures var s' := StepWorker(s, t).value;
            WorkerOk(s'.workers[t], s') && Announced(s.main) && s.body == s.calls
            && Finished(s.workers[t], s.epoch) == Finished(s'.workers[t], s.epoch)
  {
    hide LogOk, CountFinished, ChunksDistinct, MutexOk;
    assert WorkerOk(s.workers[t], s);
  }

  /** Executing an index that is in progress logs it for the first time. */
  lemma RunLog(s: State, t: nat)
    requires Inv(s) && t < |s.workers| && s.workers[t].pc.Running? && Announced(s.main) && s.body == s.calls
    ensures LogOk(StepWorker(s, t).value)
  {
    var s' := StepWorker(s, t).value;
    var pc := s.workers[t].pc;
    assert WorkerOk(s.workers[t], s);
    OnlyHolder(s, t, pc.i);
    hide WorkerOk, MutexOk, ChunksDistinct, CountFinished;
    forall k: nat ensures Logged(s'.log, k) <==> Logged(s.log, k) || k == pc.i {
      LoggedAdd(s.log, Run(s.body, pc.i), k);
    }
    RunProgress(s, t);
    assert HoldsIndex(pc, pc.i);
    assert !Logged(s.log, pc.i);
  }

  lemma RunProgress(s: State, t: nat)
    requires t < |s.workers| && s.workers[t].pc.Running?
    requires !MainHoldsIndex(s.main, s.workers[t].pc.i)
    requires forall u :: 0 <= u < |s.workers| && u != t ==> !HoldsIndex(s.workers[u].pc, s.workers[t].pc.i)
    ensures forall k: nat :: InProgress(StepWorker(s, t).value, k) <==> InProgress(s, k) && k != s.workers[t].pc.i
  {
    var s' := StepWorker(s, t).value;
    var pc := s.workers[t].pc;
    forall k: nat ensures InProgress(s', k) <==> InProgress(s, k) && k != pc.i {
      if InProgress(s, k) && k != pc.i && !MainHoldsIndex(s.main, k) {
        var u :| 0 <= u < |s.workers| && HoldsIndex(s.workers[u].pc, k);
        assert HoldsIndex(s'.workers[u].pc, k);
      }
      if InProgress(s', k) && !MainHoldsIndex(s.main, k) {
        var u :| 0 <= u < |s.workers| && HoldsIndex(s'.workers[u].pc, k);
        assert HoldsIndex(s.workers[u].pc, k);
      }
    }
  }

  /** No other thread has the index that worker t is working on. */
  lemma OnlyHolder(s: State, t: nat, k: nat)
    requires Inv(s) && t < |s.workers| && HoldsIndex(s.workers[t].pc, k)
    ensures !MainHoldsIndex(s.main, k) && k < Claimed(s)
    ensures forall u :: 0 <= u < |s.workers| && u != t ==> !HoldsIndex(s.workers[u].pc, k)
  {
    hide LogOk, CountFinished, MutexOk;
    assert WorkerOk(s.workers[t], s);
    if s.main.MainRunning? {
      ChunksApart(s.workers[t].pc.lo, s.main.lo, k);
    }
    forall u | 0 <= u < |s.workers| && u != t && s.workers[u].pc.Running? ensures !HoldsIndex(s.workers[u].pc, k) {
      assert WorkerOk(s.workers[u], s);
      ChunksApart(s.workers[t].pc.lo, s.workers[u].pc.lo, k);
    }
  }

  /** Every step of a worker keeps the invariant. */
  lemma WorkerKeeps(s: State, t: nat)
    requires Inv(s) && t < |s.workers| && StepWorker(s, t).Some?
    ensures Inv(StepWorker(s, t).value)
  {
    hide Inv;
    match s.workers[t].pc
    case Fetch(_) => FetchStep(s, t);
    case Running(_, _, _, _) => RunStep(s, t);
    case _ => HomeSteps(s, t);
  }

  lemma SpuriousKeeps(s: State, t: nat)
    requires Inv(s) && t < |s.workers| && s.workers[t].pc == Waiting
    ensures Inv(SetPc(s, t, Woken))
  {
    var s' := SetPc(s, t, Woken);
    assert WorkerOk(s.workers[t], s);
    hide LogOk, ChunksDistinct, CountFinished;
    SimpleStep(s, t, s'.workers[t], s');
  }

  // ---------------------------------------------------------------- steps of the main thread

  /** In the quiet phases no worker is between reading an epoch and reporting it done. */
  lemma QuietMeansFinished(s: State)
    requires Inv(s) && Quiet(s.main)
    ensures forall t :: 0 <= t < |s.workers| ==>
                          Finished(s.workers[t], s.epoch) && !Busy(s.workers[t], s.epoch)
                              && !s.workers[t].pc.Running? && !s.workers[t].pc.Fetch?
  {
    hide LogOk, CountFinished, MutexOk, ChunksDistinct, MainOk;
    forall t | 0 <= t < |s.workers|
      ensures Finished(s.workers[t], s.epoch) && !s.workers[t].pc.Running? && !s.workers[t].pc.Fetch?
    {
      assert WorkerOk(s.workers[t], s);
    }
  }

  /** Steps of the quiet phases that stay quiet and wake nobody. */
  lemma QuietStep(s: State, s': State)
    requires Inv(s) && Quiet(s.main) && Quiet(s'.main) && s'.workers == s.workers && s'.epoch == s.epoch
    requires s.main != StopNotify && (s'.stop && !s.stop ==> s'.main == StopNotify) && (s.stop ==> s'.stop)
    requires MutexOk(s') && MainOk(s')
    ensures Inv(s')
  {
    QuietMeansFinished(s);
    hide LogOk, CountFinished, MutexOk, MainOk;
    forall t | 0 <= t < |s'.workers| ensures WorkerOk(s'.workers[t], s') {
      assert WorkerOk(s.workers[t], s);
    }
    hide WorkerOk;
    assert ChunksDistinct(s');
  }

  /** Preparing an epoch: everything before it is announced. */
  lemma PrepareSteps(s: State)
    requires Inv(s) && StepMain(s).Some?
    requires s.main.SetBody? || s.main.TakeLock? || s.main.SetCount? || s.main.SetJob? || s.main.SetDone?
    ensures Inv(StepMain(s).value)
  {
    hide WorkerOk, LogOk, CountFinished, ChunksDistinct;
    QuietStep(s, StepMain(s).value);
  }

  /** Announcing the epoch: from now on everybody is late. */
  lemma BumpStep(s: State)
    requires Inv(s) && s.main.BumpSeq?
    ensures Inv(StepMain(s).value)
  {
    var s' := StepMain(s).value;
    QuietMeansFinished(s);
    hide LogOk, CountFinished;
    forall t | 0 <= t < |s'.workers| ensures WorkerOk(s'.workers[t], s') && !Finished(s'.workers[t], s'.epoch) {
      assert WorkerOk(s.workers[t], s);
    }
    hide WorkerOk;
    CountNone(s'.workers, s'.epoch);
    assert LogOk(s') by { FreshLog(s'); }
  }

  lemma FreshLog(s: State)
    requires s.log == [] && s.job == 0
    ensures LogOk(s)
  {
    assert forall k: nat :: !Logged(s.log, k);
  }

  /** The notification wakes every waiting worker. */
  lemma NotifyStep(s: State)
    requires Inv(s) && (s.main.Notify? || s.main == StopNotify)
    ensures Inv(StepMain(s).value)
  {
    hide LogOk, CountFinished, MutexOk, ChunksDistinct, WorkerOk;
    var s' := StepMain(s).value;
    NotifyWorkers(s);
    assert MutexOk(s') && ChunksDistinct(s') by { NotifyFrame(s); }
    CountSame(s.workers, s'.workers, s.epoch);
    assert Announced(s.main) ==> LogOk(s') by {
      if Announced(s.main) {
        SameLog(s, s');
      }
    }
  }

  lemma NotifyWorkers(s: State)
    requires Inv(s) && (s.main.Notify? || s.main == StopNotify)
    ensures var s' := StepMain(s).value;
            forall t :: 0 <= t < |s'.workers| ==>
                          WorkerOk(s'.workers[t], s')
                              && (Finished(s'.workers[t], s.epoch) <==> Finished(s.workers[t], s.epoch))
  {
    var s' := StepMain(s).value;
    hide MutexOk, ChunksDistinct, MainOk;
    forall t | 0 <= t < |s'.workers|
      ensures WorkerOk(s'.workers[t], s') && (Finished(s'.workers[t], s.epoch) <==> Finished(s.workers[t], s.epoch))
    {
      assert WorkerOk(s.workers[t], s);
    }
  }

  lemma NotifyFrame(s: State)
    requires MutexOk(s) && ChunksDistinct(s) && (s.main.Notify? || s.main == StopNotify)
    ensures MutexOk(StepMain(s).value) && ChunksDistinct(StepMain(s).value)
  {}

  /** Steps that change no claim and no record. */
  lemma SameLog(s: State, s': State)
    requires LogOk(s) && |s'.workers| == |s.workers|
    requires forall t :: 0 <= t < |s.workers| ==> (s.workers[t].pc.Running? || s'.workers[t].pc.Running? ==>
             s'.workers[t] == s.workers[t])
    requires !s.main.MainRunning? && !s'.main.MainRunning?
    requires s'.job == s.job && s'.count == s.count && s'.log == s.log && s'.calls == s.calls
    ensures LogOk(s')
  {
    forall k: nat ensures InProgress(s', k) <==> InProgress(s, k) {
      if InProgress(s, k) {
        var u :| 0 <= u < |s.workers| && HoldsIndex(s.workers[u].pc, k);
        assert HoldsIndex(s'.workers[u].pc, k);
      }
      if InProgress(s', k) {
        var u :| 0 <= u < |s.workers| && HoldsIndex(s'.workers[u].pc, k);
        assert HoldsIndex(s.workers[u].pc, k);
      }
    }
  }

  lemma UnlockStep(s: State)
    requires Inv(s) && s.main.Unlock?
    ensures Inv(StepMain(s).value)
  {
    var s' := StepMain(s).value;
    SameLog(s, s');
    hide LogOk, CountFinished;
    forall t | 0 <= t < |s'.workers| ensures WorkerOk(s'.workers[t], s') {
      assert WorkerOk(s.workers[t], s);
    }
    hide WorkerOk;
  }

  /** The main thread takes a chunk, or finds none left. */
  lemma MainFetchStep(s: State)
    requires Inv(s) && s.main.MainFetch?
    ensures Inv(StepMain(s).value)
  {
    hide LogOk, CountFinished, MutexOk, ChunksDistinct, WorkerOk;
    var s' := StepMain(s).value;
    MainClaimLog(s);
    MainFetchWorkers(s);
    assert MutexOk(s') && ChunksDistinct(s') by { MainFetchFrame(s); }
  }

  lemma MainFetchWorkers(s: State)
    requires Inv(s) && s.main.MainFetch?
    ensures var s' := StepMain(s).value;
            forall t :: 0 <= t < |s'.workers| ==>
                    WorkerOk(s'.workers[t], s') && (s.workers[t].pc.Running? ==> s.workers[t].pc.lo < s.job)
  {
    hide MutexOk, ChunksDistinct, MainOk;
    var s' := StepMain(s).value;
    forall t | 0 <= t < |s'.workers|
      ensures WorkerOk(s'.workers[t], s') && (s.workers[t].pc.Running? ==> s.workers[t].pc.lo < s.job)
    {
      assert WorkerOk(s.workers[t], s);
    }
  }

  lemma MainFetchFrame(s: State)
    requires MutexOk(s) && ChunksDistinct(s) && s.main.MainFetch?
    requires forall t :: 0 <= t < |s.workers| && s.workers[t].pc.Running? ==> s.workers[t].pc.lo < s.job
    ensures MutexOk(StepMain(s).value) && ChunksDistinct(StepMain(s).value)
  {}

  lemma MainClaimLog(s: State)
    requires Inv(s) && s.main.MainFetch?
    ensures LogOk(StepMain(s).value)
  {
    hide WorkerOk, MutexOk, ChunksDistinct, CountFinished;
    var s' := StepMain(s).value;
    forall k: nat ensures InProgress(s', k) <==> InProgress(s, k) || Claimed(s) <= k < Claimed(s') {
      if InProgress(s, k) {
        var u :| 0 <= u < |s.workers| && HoldsIndex(s.workers[u].pc, k);
        assert HoldsIndex(s'.workers[u].pc, k);
      }
    }
    ClaimedNotInProgress(s);
  }

  /** The main thread executes the body once. */
  lemma MainRunStep(s: State)
    requires Inv(s) && s.main.MainRunning?
    ensures Inv(StepMain(s).value)
  {
    hide LogOk, CountFinished, MutexOk, ChunksDistinct, WorkerOk;
    var s' := StepMain(s).value;
    MainRunLog(s);
    MainRunWorkers(s);
    assert MutexOk(s') && ChunksDistinct(s') by { MainRunFrame(s); }
  }

  lemma MainRunWorkers(s: State)
    requires Inv(s) && s.main.MainRunning?
    ensures var s' := StepMain(s).value; forall t :: 0 <= t < |s'.workers| ==> WorkerOk(s'.workers[t], s')
  {
    hide MutexOk, ChunksDistinct, MainOk;
    var s' := StepMain(s).value;
    forall t | 0 <= t < |s'.workers| ensures WorkerOk(s'.workers[t], s') {
      assert WorkerOk(s.workers[t], s);
    }
  }

  lemma MainRunFrame(s: State)
    requires MutexOk(s) && ChunksDistinct(s) && s.main.MainRunning?
    ensures MutexOk(StepMain(s).value) && ChunksDistinct(StepMain(s).value)
  {}

  lemma MainRunLog(s: State)
    requires Inv(s) && s.main.MainRunning?
    ensures LogOk(StepMain(s).value)
  {
    var s' := StepMain(s).value;
    var i := s.main.i;
    hide WorkerOk, MutexOk, CountFinished;
    NoWorkerHolds(s, i);
    hide ChunksDistinct;
    forall k: nat ensures Logged(s'.log, k) <==> Logged(s.log, k) || k == i {
      LoggedAdd(s.log, Run(s.calls, i), k);
    }
    forall k: nat ensures InProgress(s', k) <==> InProgress(s, k) && k != i {
      if exists u :: 0 <= u < |s.workers| && HoldsIndex(s.workers[u].pc, k) {
        var u :| 0 <= u < |s.workers| && HoldsIndex(s.workers[u].pc, k);
        assert HoldsIndex(s'.workers[u].pc, k);
      }
    }
    assert MainHoldsIndex(s.main, i);
    assert !Logged(s.log, i);
  }

  lemma NoWorkerHolds(s: State, k: nat)
    requires Inv(s) && MainHoldsIndex(s.main, k)
    ensures k < Claimed(s) && forall u :: 0 <= u < |s.workers| ==> !HoldsIndex(s.workers[u].pc, k)
  {
    hide LogOk, CountFinished, MutexOk;
    forall u | 0 <= u < |s.workers| && s.workers[u].pc.Running? ensures !HoldsIndex(s.workers[u].pc, k) {
      assert WorkerOk(s.workers[u], s);
      ChunksApart(s.main.lo, s.workers[u].pc.lo, k);
    }
  }

  /** The main thread leaves the loop only when everybody has reported. */
  lemma AwaitStep(s: State)
    requires Inv(s) && s.main.AwaitDone?
    ensures Inv(StepMain(s).value)
  {
    var s' := StepMain(s).value;
    if s.done == |s.workers| {
      CountAll(s.workers, s.epoch);
      hide LogOk, CountFinished;
      forall t | 0 <= t < |s'.workers| ensures WorkerOk(s'.workers[t], s') {
        assert WorkerOk(s.workers[t], s);
      }
      hide WorkerOk;
    }
  }

  lemma StopSteps(s: State)
    requires Inv(s) && StepMain(s).Some?
    requires s.main == StopLock || s.main == StopSet || s.main == StopUnlock || s.main == Join
    ensures Inv(StepMain(s).value)
  {
    hide WorkerOk, LogOk, CountFinished, ChunksDistinct;
    QuietStep(s, StepMain(s).value);
  }

  /** Every step keeps the invariant. */
  lemma InvKeeps(s: State, step: Step)
    requires Inv(s) && Next(s, step).Some?
    ensures Inv(Next(s, step).value)
  {
    hide Inv, MutexOk, MainOk;
    match step
    case MainStep => MainKeeps(s);
    case WorkerStep(t) => WorkerKeeps(s, t);
    case Spurious(t) => SpuriousKeeps(s, t);
    case CallRun(c) => CallKeeps(s, Next(s, step).value);
    case CallStop => CallKeeps(s, Next(s, step).value);
  }

  lemma MainKeeps(s: State)
    requires Inv(s) && StepMain(s).Some?
    ensures Inv(StepMain(s).value)
  {
    hide Inv;
    match s.main
    case BumpSeq(_) => BumpStep(s);
    case Notify(_) => NotifyStep(s);
    case StopNotify => NotifyStep(s);
    case Unlock(_) => UnlockStep(s);
    case MainFetch(_) => MainFetchStep(s);
    case MainRunning(_, _, _, _) => MainRunStep(s);
    case AwaitDone(_) => AwaitStep(s);
    case StopLock => StopSteps(s);
    case StopSet => StopSteps(s);
    case StopUnlock => StopSteps(s);
    case Join => StopSteps(s);
    case _ => PrepareSteps(s);
  }

  lemma CallKeeps(s: State, s': State)
    requires Inv(s) && s.main == Idle
    requires (s'.main.SetBody?
             && s' == s.(main := s'.main, calls := s.calls + 1, log := [])) || s' == s.(main := StopLock)
    ensures Inv(s')
  {
    hide WorkerOk, LogOk, CountFinished, ChunksDistinct;
    QuietStep(s, s');
  }

  // ---------------------------------------------------------------- what holds in every run

  lemma SameCrew(s: State, step: Step)
    requires Next(s, step).Some?
    ensures |Next(s, step).value.workers| == |s.workers|
  {}

  /** The invariant holds in every reachable state, for any number of workers and any schedule. */
  lemma {:induction false} Reachable(workers: nat, steps: seq<Step>)
    requires Execute(Init(workers), steps).Some?
    ensures Inv(Execute(Init(workers), steps).value) && |Execute(Init(workers), steps).value.workers| == workers
    decreases |steps|
  {
    if steps == [] {
      InitInv(workers);
    } else {
      var before := steps[..|steps| - 1];
      Reachable(workers, before);
      hide Inv, Next, Init;
      InvKeeps(Execute(Init(workers), before).value, steps[|steps| - 1]);
      SameCrew(Execute(Init(workers), before).value, steps[|steps| - 1]);
    }
  }

  /** run_jobs may return: the main thread waits, and everybody has reported. */
  predicate Returning(s: State) {
    s.main.AwaitDone? && s.done == |s.workers|
  }

  /** The main thread is neither in run_jobs nor in the shutdown, or is in the shutdown. */
  predicate Outside(m: MainPc) {
    m == Idle || Stopping(m)
  }

  /** c is the count of the latest call. */
  predicate CountIs(s: State, c: nat) {
    && (!Outside(s.main) ==> s.main.c == c)
    && (s.main.SetBody? || s.main.TakeLock? || s.main.SetCount? || s.count == c)
  }

  /** The log lists the indices below n, each once, as executions of the given body. */
  ghost predicate LogIs(log: seq<Run>, n: nat, body: nat) {
    && (forall k: nat :: Logged(log, k) <==> k < n) && LogDistinct(log) && |log| == n
    && forall j :: 0 <= j < |log| ==> log[j].body == body
  }

  /** Between calls the log is that of the latest call, completed. */
  ghost predicate LogSettled(s: State) {
    Outside(s.main) && s.calls > 0 ==> LogIs(s.log, s.count, s.calls)
  }

  /** The number of calls of run_jobs among the steps. */
  function Calls(steps: seq<Step>): nat {
    if steps == [] then 0 else Calls(steps[..|steps| - 1]) + (if steps[|steps| - 1].CallRun? then 1 else 0)
  }

  lemma CountKeeps(s: State, step: Step, c: nat)
    requires Next(s, step).Some?
    requires if step.CallRun? then c == step.count else CountIs(s, c)
    ensures CountIs(Next(s, step).value, c)
    ensures Next(s, step).value.calls == s.calls + (if step.CallRun? then 1 else 0)
  {}

  lemma LogKeeps(s: State, step: Step)
    requires Inv(s) && LogSettled(s) && Next(s, step).Some?
    ensures LogSettled(Next(s, step).value)
  {
    hide Inv, LogIs, Next;
    if Outside(s.main) && !step.CallRun? {
      IdleWorkers(s, step);
    } else if Outside(Next(s, step).value.main) {
      LastStep(s, step);
      LogReturned(s);
    }
  }

  /** run_jobs ends with the step that finds all reports in. */
  lemma LastStep(s: State, step: Step)
    requires Next(s, step).Some? && (!Outside(s.main) || step.CallRun?) && Outside(Next(s, step).value.main)
    ensures Returning(s) && Next(s, step).value == s.(main := Idle)
  {}

  /** Outside a call no step writes the log. */
  lemma IdleWorkers(s: State, step: Step)
    requires Inv(s) && Outside(s.main) && Next(s, step).Some? && !step.CallRun?
    ensures var s' := Next(s, step).value;
            s'.log == s.log && s'.count == s.count && s'.calls == s.calls && Outside(s'.main)
  {
    hide LogOk, CountFinished, ChunksDistinct, MutexOk;
    if step.WorkerStep? && step.t < |s.workers| {
      assert WorkerOk(s.workers[step.t], s);
    }
  }

  lemma {:induction false} History(workers: nat, steps: seq<Step>)
    requires Execute(Init(workers), steps).Some?
    ensures var s := Execute(Init(workers), steps).value;
            Inv(s) && LogSettled(s) && s.calls == Calls(steps) && |s.workers| == workers
    decreases |steps|
  {
    Reachable(workers, steps);
    if steps != [] {
      var before := steps[..|steps| - 1];
      History(workers, before);
      hide Inv, Next, Init, LogSettled;
      var s, step := Execute(Init(workers), before).value, steps[|steps| - 1];
      LogKeeps(s, step);
      CallsKeep(s, step);
    }
  }

  lemma CallsKeep(s: State, step: Step)
    requires Next(s, step).Some?
    ensures Next(s, step).value.calls == s.calls + (if step.CallRun? then 1 else 0)
  {}

  lemma {:induction false} CountHistory(workers: nat, steps: seq<Step>, i: nat, c: nat)
    requires Execute(Init(workers), steps).Some?
    requires i < |steps| && steps[i] == CallRun(c) && forall j :: i < j < |steps| ==> !steps[j].CallRun?
    ensures CountIs(Execute(Init(workers), steps).value, c)
    decreases |steps|
  {
    hide Init, Next, CountIs;
    var before := steps[..|steps| - 1];
    if i < |before| {
      CountHistory(workers, before, i, c);
    }
    CountKeeps(Execute(Init(workers), before).value, steps[|steps| - 1], c);
  }

  lemma {:induction false} CallsCounted(steps: seq<Step>)
    ensures Calls(steps) == |set j | 0 <= j < |steps| && steps[j].CallRun?|
    decreases |steps|
  {
    if steps != [] {
      var n := |steps| - 1;
      CallsCounted(steps[..n]);
      assert (set j | 0 <= j < |steps| && steps[j].CallRun?)
          == (set j | 0 <= j < n && steps[..n][j].CallRun?) + (if steps[n].CallRun? then {n} else {});
    }
  }

  /**
   When the latest call, of count c, has returned or is about to, its body has been executed for
   every index below c, for each exactly once and for no other index, under the number of the
   call, and no worker is inside the epoch.
   */
  lemma RunsEachIndexOnce(workers: nat, steps: seq<Step>, i: nat, c: nat)
    requires Execute(Init(workers), steps).Some?
    requires i < |steps| && steps[i] == CallRun(c) && forall j :: i < j < |steps| ==> !steps[j].CallRun?
    requires var s := Execute(Init(workers), steps).value;
             s.main == Idle || s.main == Gone || (s.main.AwaitDone? && s.done == |s.workers|)
    ensures var log := Execute(Init(workers), steps).value.log;
            && (forall k: nat :: Logged(log, k) <==> k < c)
            && (forall j :: 0 <= j < |log| ==> log[j].index < c)
            && (forall j, l :: 0 <= j < l < |log| ==> log[j].index != log[l].index) && |log| == c
            && (forall j :: 0 <= j < |log| ==> log[j].body == |set l | 0 <= l < |steps| && steps[l].CallRun?|)
    ensures var s := Execute(Init(workers), steps).value;
            |s.workers| == workers && (forall t :: 0 <= t < workers ==> Finished(s.workers[t], s.epoch))
  {
    hide Execute, Init, Inv, Calls, LogSettled, CountIs, Next, LogIs;
    var s := Execute(Init(workers), steps).value;
    History(workers, steps);
    CountHistory(workers, steps, i, c);
    CallsCounted(steps);
    SomeCall(steps, i);
    LogFinished(s, c);
    LogFacts(s.log, c, s.calls);
  }

  lemma {:induction false} SomeCall(steps: seq<Step>, i: nat)
    requires i < |steps| && steps[i].CallRun?
    ensures Calls(steps) > 0
    decreases |steps|
  {
    if i < |steps| - 1 {
      SomeCall(steps[..|steps| - 1], i);
    }
  }

  lemma LogFacts(log: seq<Run>, n: nat, body: nat)
    requires LogIs(log, n, body)
    ensures forall k: nat :: Logged(log, k) <==> k < n
    ensures forall j :: 0 <= j < |log| ==> log[j].index < n && log[j].body == body
    ensures LogDistinct(log) && |log| == n
  {
    forall j | 0 <= j < |log| ensures log[j].index < n {
      assert Logged(log, log[j].index);
    }
  }

  lemma LogFinished(s: State, c: nat)
    requires Inv(s) && LogSettled(s) && s.calls > 0 && CountIs(s, c) && (Outside(s.main) || Returning(s))
    ensures LogIs(s.log, c, s.calls) && forall t :: 0 <= t < |s.workers| ==> Finished(s.workers[t], s.epoch)
  {
    hide LogIs;
    if Returning(s) {
      LogReturned(s);
    } else {
      hide Inv;
      QuietMeansFinished(s);
    }
  }

  lemma LogReturned(s: State)
    requires Inv(s) && Returning(s)
    ensures LogIs(s.log, s.main.c, s.calls) && forall t :: 0 <= t < |s.workers| ==> Finished(s.workers[t], s.epoch)
    ensures s.count == s.main.c
  {
    ReturnComplete(s);
    hide WorkerOk, MutexOk, ChunksDistinct, LogOk, CountFinished, Logged, LogDistinct;
  }

  /**
   At no time has the latest call, of count c, executed its body for an index beyond c, or for
   one index twice.
   */
  lemma NeverTwice(workers: nat, steps: seq<Step>, i: nat, c: nat)
    requires Execute(Init(workers), steps).Some?
    requires i < |steps| && steps[i] == CallRun(c) && forall j :: i < j < |steps| ==> !steps[j].CallRun?
    ensures var log := Execute(Init(workers), steps).value.log;
            && (forall j :: 0 <= j < |log| ==> log[j].index < c)
            && (forall j, l :: 0 <= j < l < |log| ==> log[j].index != log[l].index)
  {
    hide Execute, Init, Inv, Calls, LogSettled, CountIs, Next;
    History(workers, steps);
    CountHistory(workers, steps, i, c);
    SomeCall(steps, i);
    LogWithin(Execute(Init(workers), steps).value, c);
  }

  lemma LogWithin(s: State, c: nat)
    requires Inv(s) && LogSettled(s) && s.calls > 0 && CountIs(s, c)
    ensures LogDistinct(s.log) && forall j :: 0 <= j < |s.log| ==> s.log[j].index < c
  {
    hide WorkerOk, MutexOk, ChunksDistinct, CountFinished;
    forall j | 0 <= j < |s.log| ensures s.log[j].index < c {
      assert Logged(s.log, s.log[j].index);
    }
  }

  /** The threads of the pool have ended when the shutdown returns. */
  lemma {:induction false} ShutdownJoins(workers: nat, steps: seq<Step>)
    requires Execute(Init(workers), steps).Some? && Execute(Init(workers), steps).value.main == Gone
    ensures var s := Execute(Init(workers), steps).value;
            |s.workers| == workers && forall t :: 0 <= t < workers ==> s.workers[t].pc == Exited
    decreases |steps|
  {
    hide Inv;
    Reachable(workers, steps);
    if steps != [] {
      var before := steps[..|steps| - 1];
      var s := Execute(Init(workers), before).value;
      if s.main == Gone {
        ShutdownJoins(workers, before);
      }
    }
  }

  /** The main thread is in the shutdown, or through with it, exactly if the destructor has been called. */
  lemma {:induction false} StopIsFinal(workers: nat, steps: seq<Step>)
    requires Execute(Init(workers), steps).Some?
    ensures CallStop in steps <==> Stopping(Execute(Init(workers), steps).value.main)
    decreases |steps|
  {
    hide Init, Next, Stopping;
    if steps == [] {
      NotStopping(workers);
    } else {
      var before := steps[..|steps| - 1];
      StopIsFinal(workers, before);
      assert steps == before + [steps[|steps| - 1]];
      StopKeeps(Execute(Init(workers), before).value, steps[|steps| - 1]);
    }
  }

  lemma NotStopping(workers: nat)
    ensures !Stopping(Init(workers).main)
  {}

  lemma StopKeeps(s: State, step: Step)
    requires Next(s, step).Some?
    ensures Stopping(Next(s, step).value.main) <==> Stopping(s.main) || step == CallStop
  {}

  /** From any reachable state in which run_jobs can be called, the call can be completed. */
  lemma CallCompletes(workers: nat, steps: seq<Step>, c: nat) returns (rest: seq<Step>)
    requires Execute(Init(workers), steps).Some? && Execute(Init(workers), steps).value.main == Idle
    ensures var end := Execute(Init(workers), steps + [CallRun(c)] + rest);
            end.Some? && end.value.main == Idle
    ensures forall j :: 0 <= j < |rest| ==> rest[j] == MainStep || rest[j].WorkerStep?
  {
    var s := Execute(Init(workers), steps).value;
    Reachable(workers, steps);
    InvKeeps(s, CallRun(c));
    rest := CanComplete(Next(s, CallRun(c)).value);
    hide Inv;
    ExecutePrepend(s, CallRun(c), rest);
    ExecuteAppend(Init(workers), steps, [CallRun(c)] + rest);
    assert steps + [CallRun(c)] + rest == steps + ([CallRun(c)] + rest);
  }

  /** From any state after the call of the destructor, the shutdown can be completed, and all threads end. */
  lemma ShutdownCompletes(workers: nat, steps: seq<Step>) returns (rest: seq<Step>)
    requires Execute(Init(workers), steps).Some? && CallStop in steps
    ensures var end := Execute(Init(workers), steps + rest);
            && end.Some? && end.value.main == Gone
            && forall t :: 0 <= t < |end.value.workers| ==> end.value.workers[t].pc == Exited
  {
    var s := Execute(Init(workers), steps).value;
    Reachable(workers, steps);
    StopIsFinal(workers, steps);
    rest := CanComplete(s);
    hide Inv;
    ExecuteAppend(Init(workers), steps, rest);
    ShutdownJoins(workers, steps + rest);
  }

  lemma {:induction false} ExecuteAppend(s: State, a: seq<Step>, b: seq<Step>)
    requires Execute(s, a).Some?
    ensures Execute(s, a + b) == Execute(Execute(s, a).value, b)
    decreases |b|
  {
    hide Next;
    if b == [] {
      assert a + b == a;
    } else {
      ExecuteAppend(s, a, b[..|b| - 1]);
      assert (a + b)[..|a + b| - 1] == a + b[..|b| - 1];
    }
  }

  lemma ReturnComplete(s: State)
    requires Inv(s) && Returning(s)
    ensures (forall k: nat :: Logged(s.log, k) <==> k < s.main.c) && LogDistinct(s.log) && |s.log| == s.main.c
    ensures forall j :: 0 <= j < |s.log| ==> s.log[j].body == s.calls
    ensures forall t :: 0 <= t < |s.workers| ==> Finished(s.workers[t], s.epoch)
  {
    CountAll(s.workers, s.epoch);
    hide WorkerOk, MutexOk, ChunksDistinct, CountFinished;
    forall k: nat ensures !InProgress(s, k) {}
    LogLength(s.log, s.main.c);
  }

  lemma LogLength(log: seq<Run>, n: nat)
    requires LogDistinct(log) && forall k: nat :: Logged(log, k) <==> k < n
    ensures |log| == n
  {
    var indices := seq(|log|, j requires 0 <= j < |log| => log[j].index);
    forall k: nat | k in FiniteSets.Interval(n) ensures k in indices {
      assert Logged(log, k);
      var j :| 0 <= j < |log| && log[j].index == k;
      assert indices[j] == k;
    }
    forall j | 0 <= j < |indices| ensures indices[j] in FiniteSets.Interval(n) {
      assert Logged(log, log[j].index);
    }
    FiniteSets.DistinctCard(indices, FiniteSets.Interval(n));
  }

  /**
   Whenever the main thread is about to write pool_body, pool_count, pool_job or pool_done, every
   worker has reported the previous epoch and has not seen a new one.
   */
  lemma ResetsAreSafe(workers: nat, steps: seq<Step>)
    requires Execute(Init(workers), steps).Some?
    requires var m := Execute(Init(workers), steps).value.main;
             m.SetBody? || m.SetCount? || m.SetJob? || m.SetDone?
    ensures var s := Execute(Init(workers), steps).value;
            |s.workers| == workers
            && forall t :: 0 <= t < workers ==> Finished(s.workers[t], s.epoch) && !Busy(s.workers[t], s.epoch)
  {
    Reachable(workers, steps);
    hide Inv;
    QuietMeansFinished(Execute(Init(workers), steps).value);
  }

  /** A worker inside the body executes the body of the current call. */
  lemma BodyIsCurrent(workers: nat, steps: seq<Step>, t: nat)
    requires Execute(Init(workers), steps).Some? && t < workers
    requires var s := Execute(Init(workers), steps).value; t < |s.workers| && s.workers[t].pc.Running?
    ensures var s := Execute(Init(workers), steps).value;
            s.body == s.calls && s.workers[t].pc.n == s.count && Announced(s.main)
  {
    Reachable(workers, steps);
    var s := Execute(Init(workers), steps).value;
    assert WorkerOk(s.workers[t], s);
    hide LogOk, CountFinished;
  }

  // ---------------------------------------------------------------- progress

  /** How far a worker is from having nothing to do. */
  function Rank(w: Worker, epoch: nat): nat {
    if w.seen == epoch then
      match w.pc
      case Home => 5
      case Woken => 5
      case Checking => 4
      case Waiting => 0
      case StopTest => 3
      case ReadSeq => 17
      case ReadCount => 16
      case Fetch(_) => 10
      case Running(_, _, i, end) => 10 + 2 * (if i < end then end - i else 0)
      case Finish => 9
      case Exited => 0
    else
      match w.pc
      case Waiting => 21
      case Home => 20
      case Woken => 20
      case Checking => 19
      case StopTest => 18
      case ReadSeq => 17
      case _ => 0
  }

  function RankSum(ws: seq<Worker>, epoch: nat): nat {
    if ws == [] then 0 else Rank(ws[0], epoch) + RankSum(ws[1..], epoch)
  }

  lemma {:induction false} RankUpdate(ws: seq<Worker>, t: nat, w: Worker, epoch: nat)
    requires t < |ws|
    ensures RankSum(ws[t := w], epoch) == RankSum(ws, epoch) - Rank(ws[t], epoch) + Rank(w, epoch)
    decreases |ws|
  {
    if t == 0 {
      assert ws[0 := w][1..] == ws[1..];
    } else {
      RankUpdate(ws[1..], t - 1, w, epoch);
      assert ws[t := w][1..] == ws[1..][t - 1 := w];
    }
  }

  /** The work left in the current phase. */
  function Work(s: State): nat {
    RankSum(s.workers, s.epoch) + 3 * (s.count - Claimed(s))
    + (if s.main.MainRunning? && s.main.i < s.main.end then 2 * (s.main.end - s.main.i) else 0)
  }

  /** How many phases the main thread has ahead. */
  function Phase(m: MainPc): nat {
    match m
    case Idle => 0
    case SetBody(_) => 12
    case TakeLock(_) => 11
    case SetCount(_) => 10
    case SetJob(_) => 9
    case SetDone(_) => 8
    case BumpSeq(_) => 7
    case Notify(_) => 6
    case Unlock(_) => 5
    case MainFetch(_) => 4
    case MainRunning(_, _, _, _) => 4
    case AwaitDone(_) => 3
    case StopLock => 5
    case StopSet => 4
    case StopNotify => 3
    case StopUnlock => 2
    case Join => 1
    case Gone => 0
  }

  predicate Closer(s: State, s': State) {
    Phase(s'.main) < Phase(s.main) || (Phase(s'.main) == Phase(s.main) && Work(s') < Work(s))
  }

  /** The main thread only looks at the reports again. */
  predicate Spins(s: State) {
    s.main.AwaitDone? && s.done != |s.workers|
  }

  lemma WorkerCloser(s: State, t: nat)
    requires Inv(s) && t < |s.workers| && StepWorker(s, t).Some?
    ensures Closer(s, StepWorker(s, t).value)
  {
    hide LogOk, CountFinished, RankSum, MutexOk, ChunksDistinct, MainOk;
    var s' := StepWorker(s, t).value;
    assert WorkerOk(s.workers[t], s);
    WorkerRanks(s, t);
    hide WorkerOk;
    RankUpdate(s.workers, t, s'.workers[t], s.epoch);
  }

  /** A worker's step takes more off its own rank and the unclaimed indices than it adds. */
  lemma WorkerRanks(s: State, t: nat)
    requires t < |s.workers| && StepWorker(s, t).Some? && WorkerOk(s.workers[t], s)
    ensures var s' := StepWorker(s, t).value;
            && s'.main == s.main && s'.epoch == s.epoch && s'.count == s.count
            && |s'.workers| == |s.workers| && s'.workers == s.workers[t := s'.workers[t]]
            && Rank(s'.workers[t], s.epoch) + 3 * (s.count - Claimed(s')) < Rank(s.workers[t],
                s.epoch) + 3 * (s.count - Claimed(s))
  {
  }

  lemma MainCloser(s: State)
    requires Inv(s) && StepMain(s).Some? && !Spins(s)
    ensures Closer(s, StepMain(s).value)
  {
    hide LogOk, CountFinished, RankSum, MutexOk, ChunksDistinct, WorkerOk;
  }

  /**
   In every reachable state of run_jobs or pool_shutdown some thread can take a step that brings
   the call closer to its end: no wake-up is lost and nobody waits for ever.
   */
  lemma NoDeadlock(s: State) returns (step: Step)
    requires Inv(s) && s.main != Idle && s.main != Gone
    ensures (step == MainStep && !Spins(s)) || step.WorkerStep?
    ensures Next(s, step).Some? && Closer(s, Next(s, step).value)
  {
    if s.mutex.WorkerHolds? {
      step := WorkerStep(s.mutex.t);
      assert s.workers[s.mutex.t].pc == Checking;
      WorkerCloser(s, s.mutex.t);
    } else if Spins(s) {
      CountBound(s.workers, s.epoch);
      var t := Unfinished(s.workers, s.epoch);
      step := WorkerStep(t);
      UnfinishedMoves(s, t);
      WorkerCloser(s, t);
    } else if s.main == Join && StepMain(s).None? {
      var t :| 0 <= t < |s.workers| && s.workers[t].pc != Exited;
      step := WorkerStep(t);
      StoppedMoves(s, t);
      WorkerCloser(s, t);
    } else {
      step := MainStep;
      hide LogOk, CountFinished, ChunksDistinct, WorkerOk;
      MainCloser(s);
    }
  }

  lemma {:induction false} Unfinished(ws: seq<Worker>, epoch: nat) returns (t: nat)
    requires CountFinished(ws, epoch) < |ws|
    ensures t < |ws| && !Finished(ws[t], epoch)
    decreases |ws|
  {
    if !Finished(ws[0], epoch) {
      t := 0;
    } else {
      t := Unfinished(ws[1..], epoch);
      t := t + 1;
    }
  }

  lemma UnfinishedMoves(s: State, t: nat)
    requires Inv(s) && s.main.AwaitDone? && !s.mutex.WorkerHolds? && t < |s.workers| && !Finished(s.workers[t], s.epoch)
    ensures StepWorker(s, t).Some?
  {
    assert WorkerOk(s.workers[t], s);
    hide LogOk, CountFinished, ChunksDistinct;
  }

  lemma StoppedMoves(s: State, t: nat)
    requires Inv(s) && s.main == Join && !s.mutex.WorkerHolds? && t < |s.workers| && s.workers[t].pc != Exited
    ensures StepWorker(s, t).Some?
  {
    assert WorkerOk(s.workers[t], s);
    hide LogOk, CountFinished, ChunksDistinct;
  }

  /** From every reachable state, run_jobs and pool_shutdown can be completed. */
  lemma {:induction false} CanComplete(s: State) returns (steps: seq<Step>)
    requires Inv(s)
    ensures Execute(s, steps).Some?
    ensures Execute(s, steps).value.main == if Stopping(s.main) then Gone else Idle
    ensures forall j :: 0 <= j < |steps| ==> steps[j] == MainStep || steps[j].WorkerStep?
    decreases Phase(s.main), Work(s)
  {
    hide Inv, Next, Work, Phase;
    if s.main == Idle || s.main == Gone {
      steps := [];
    } else {
      var step := NoDeadlock(s);
      InvKeeps(s, step);
      StopKeeps(s, step);
      var rest := CanComplete(Next(s, step).value);
      ExecutePrepend(s, step, rest);
      steps := [step] + rest;
    }
  }

  lemma {:induction false} ExecutePrepend(s: State, step: Step, rest: seq<Step>)
    requires Next(s, step).Some?
    ensures Execute(s, [step] + rest) == Execute(Next(s, step).value, rest)
    decreases |rest|
  {
    hide Next;
    var all := [step] + rest;
    if rest == [] {
      assert all == [step];
      assert all[..0] == [];
    } else {
      ExecutePrepend(s, step, rest[..|rest| - 1]);
      assert all[..|all| - 1] == [step] + rest[..|rest| - 1];
    }
  }

  // ---------------------------------------------------------------- every schedule

  /** The most work there can be in a phase, for so many workers and at most cap indices. */
  function WorkBound(workers: nat, cap: nat): nat {
    (10 + 2 * CHUNK) * workers + 3 * cap + 2 * CHUNK
  }

  /** Phases and work in one number that every step but a spurious wake-up or a spin lowers. */
  function Potential(s: State, cap: nat): nat {
    Phase(s.main) * (WorkBound(|s.workers|, cap) + 1) + Work(s)
  }

  /** Neither the count in use nor the one that the call is about to set is above cap. */
  predicate Capped(s: State, cap: nat) {
    s.count <= cap && (s.main.SetBody? || s.main.TakeLock? || s.main.SetCount? ==> s.main.c <= cap)
  }

  lemma CapOf(s: State) returns (cap: nat)
    ensures Capped(s, cap)
  {
    cap := s.count + (if s.main.SetBody? || s.main.TakeLock? || s.main.SetCount? then s.main.c else 0);
  }

  lemma RankBound(w: Worker, s: State)
    requires WorkerOk(w, s)
    ensures Rank(w, s.epoch) <= 10 + 2 * CHUNK
  {}

  lemma {:induction false} RankSumBound(ws: seq<Worker>, s: State)
    requires forall t :: 0 <= t < |ws| ==> WorkerOk(ws[t], s)
    ensures RankSum(ws, s.epoch) <= (10 + 2 * CHUNK) * |ws|
    decreases |ws|
  {
    hide WorkerOk, Rank;
    if ws != [] {
      RankBound(ws[0], s);
      RankSumBound(ws[1..], s);
    }
  }

  lemma WorkBounded(s: State, cap: nat)
    requires Inv(s) && s.count <= cap
    ensures Work(s) <= WorkBound(|s.workers|, cap)
  {
    RankSumBound(s.workers, s);
    hide WorkerOk, RankSum, LogOk, CountFinished, ChunksDistinct, MutexOk;
  }

  /** A step that is neither a spurious wake-up nor another look at the reports. */
  predicate IsMove(s: State, step: Step) {
    !step.Spurious? && !(step == MainStep && Spins(s))
  }

  predicate InCall(s: State) {
    s.main != Idle && s.main != Gone
  }

  lemma CapKeeps(s: State, step: Step, cap: nat)
    requires Capped(s, cap) && InCall(s) && Next(s, step).Some?
    ensures Capped(Next(s, step).value, cap)
  {}

  lemma StepCost(s: State, step: Step, cap: nat)
    requires Inv(s) && InCall(s) && Capped(s, cap) && Next(s, step).Some?
    ensures var s' := Next(s, step).value;
            Potential(s', cap) + (if IsMove(s, step) then 1 else 0)
            <= Potential(s, cap) + (if step.Spurious? then 5 else 0)
  {
    hide Inv, Work, Phase, WorkBound, Closer;
    var s' := Next(s, step).value;
    if IsMove(s, step) {
      hide Next, Potential;
      SameCrew(s, step);
      InvKeeps(s, step);
      CapKeeps(s, step, cap);
      MoveCloser(s, step);
      WorkBounded(s', cap);
      CloserLowers(s, s', cap);
    } else if step.Spurious? {
      SpuriousCost(s, step.t);
    }
  }

  lemma MoveCloser(s: State, step: Step)
    requires Inv(s) && InCall(s) && Next(s, step).Some? && IsMove(s, step)
    ensures Closer(s, Next(s, step).value)
  {
    hide Inv, Closer;
    if step == MainStep {
      MainCloser(s);
    } else {
      WorkerCloser(s, step.t);
    }
  }

  lemma CloserLowers(s: State, s': State, cap: nat)
    requires Closer(s, s') && |s'.workers| == |s.workers| && Work(s') <= WorkBound(|s'.workers|, cap)
    ensures Potential(s', cap) < Potential(s, cap)
  {
    hide Work, WorkBound, Phase;
    var b := WorkBound(|s.workers|, cap) + 1;
    if Phase(s'.main) < Phase(s.main) {
      assert (Phase(s'.main) + 1) * b <= Phase(s.main) * b;
    }
  }

  lemma SpuriousCost(s: State, t: nat)
    requires t < |s.workers| && s.workers[t].pc == Waiting
    ensures Work(SetPc(s, t, Woken)) <= Work(s) + 5
  {
    RankUpdate(s.workers, t, s.workers[t].(pc := Woken), s.epoch);
    hide RankSum;
  }

  /** The moves among the steps taken from s. */
  function Moves(s: State, steps: seq<Step>): nat {
    if steps == [] then 0
    else
      var n := |steps| - 1;
      Moves(s, steps[..n]) + (if Execute(s, steps[..n]).Some?
          && IsMove(Execute(s, steps[..n]).value, steps[n]) then 1 else 0)
  }

  /** The spurious wake-ups among the steps. */
  function SpuriousSteps(steps: seq<Step>): nat {
    if steps == [] then 0 else SpuriousSteps(steps[..|steps| - 1]) + (if steps[|steps| - 1].Spurious? then 1 else 0)
  }

  /** The call of run_jobs or pool_shutdown that is under way in s is still under way before the last step. */
  ghost predicate StaysInCall(s: State, steps: seq<Step>) {
    forall i :: 0 <= i < |steps| ==> Execute(s, steps[..i]).Some? && InCall(Execute(s, steps[..i]).value)
  }

  /**
   Every schedule completes the call: before the call ends, the threads can make no more moves
   than the potential at its start and five for every spurious wake-up.
   */
  lemma {:induction false} EverySchedule(s: State, steps: seq<Step>, cap: nat)
    requires Inv(s) && Capped(s, cap) && Execute(s, steps).Some? && StaysInCall(s, steps)
    ensures Inv(Execute(s, steps).value) && Capped(Execute(s, steps).value, cap)
    ensures Moves(s, steps) + Potential(Execute(s, steps).value, cap) <= Potential(s, cap) + 5 * SpuriousSteps(steps)
    decreases |steps|
  {
    if steps != [] {
      var before := steps[..|steps| - 1];
      forall i | 0 <= i < |before| ensures Execute(s, before[..i]).Some? && InCall(Execute(s, before[..i]).value) {
        assert before[..i] == steps[..i];
      }
      EverySchedule(s, before, cap);
      hide Inv, Next, Potential, Capped, IsMove;
      var s1 := Execute(s, before).value;
      InvKeeps(s1, steps[|steps| - 1]);
      CapKeeps(s1, steps[|steps| - 1], cap);
      StepCost(s1, steps[|steps| - 1], cap);
    }
  }
}
