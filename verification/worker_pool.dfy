/**
  The persistent worker pool as a protocol: every lock, wait, wakeup, unlock and
  row of work is a step of its own, and the steps of all threads interleave freely.
  One outside thread makes the calls; a call made from inside a row of a parallel
  call runs serially within that row and does not touch the pool.
 */
module WorkerPool {
  import opened Common
  import opened RowShares

  /** What a worker copies out of the pool under the mutex; `call` stands for fn and ctx. */
  datatype Job = Job(call: nat, n: nat)

  datatype WorkerPc =
    | Unborn
    | AtLock                                   // about to lock at the top of its loop
    | Holding                                  // has the mutex, about to test the wait condition
    | Waiting                                  // in the wait set of work_cond
    | Woken                                    // out of the wait set, about to get the mutex again
    | Taken(job: Job)                          // has the mutex and a copy of the job
    | Running(job: Job, next: nat, row1: nat)  // in fn, at row next
    | AtReport                                 // about to lock to report
    | Reporting                                // has the mutex, about to count itself done
    | Unlocking                                // has reported, about to unlock
    | Exited

  datatype Worker = Worker(pc: WorkerPc, seen: nat)

  datatype CallerPc =
    | Creating(k: nat)                         // about to create worker k
    | Idle                                     // between calls
    | Serial(snext: nat)                       // runs all rows itself
    | AtPost | HoldPost | Posted               // lock, publish the job, unlock
    | MainRun(next: nat, row1: nat)            // runs the first share
    | AtWait | HoldWait                        // lock, test the done counter
    | WaitDone | WokenDone                     // in the wait set of done_cond, out of it again
    | AtShut | HoldShut | ShutSet              // lock, set shutdown, unlock
    | Joining(j: nat)
    | Closed

  /** A call of ds4_parallel_for, by its row count and whether the pool was bypassed. */
  datatype Call = Call(n: nat, serial: bool)

  /**
    Thread 0 is the caller and worker i is thread i + 1. The trace records every
    row that fn was run for, under the number of the call whose fn it was.
   */
  datatype State = State(
    owner: Option<nat>,
    generation: nat, done: nat, shutdown: bool, job: Job,
    workers: seq<Worker>, caller: CallerPc,
    calls: seq<Call>, trace: multiset<(nat, nat)>)
  {
    function Threads(): nat {
      |workers| + 1
    }
  }

  datatype Step =
    | WorkerLock(i: nat) | WorkerTest(i: nat) | WorkerUnlock(i: nat) | WorkerRow(i: nat) | WorkerEnd(i: nat)
    | WorkerReport(i: nat) | WorkerLeave(i: nat) | WorkerSpurious(i: nat)
    | Create | Begin(n: nat, minRows: nat) | SerialRow | SerialEnd
    | CallerLock | Publish | CallerUnlock | CallerRow | CallerEnd | TestDone | CallerSpurious
    | BeginShutdown | SetShutdown | Join

  function Init(workers: nat): State {
    State(None, 0, 0, false, Job(0, 0), seq(workers, i => Worker(Unborn, 0)), Creating(0), [], multiset{})
  }

  function Successor(g: nat): nat {
    (g + 1) % U32
  }

  /** pthread_cond_broadcast(&work_cond) */
  function WakeAll(ws: seq<Worker>): (r: seq<Worker>)
    ensures |r| == |ws|
  {
    seq(|ws|, i requires 0 <= i < |ws| => if ws[i].pc.Waiting? then ws[i].(pc := Woken) else ws[i])
  }

  /** pthread_cond_signal(&done_cond): only the caller ever waits there. */
  function WakeCaller(c: CallerPc): CallerPc {
    if c.WaitDone? then WokenDone else c
  }

  predicate Enabled(s: State, a: Step) {
    match a
    case WorkerLock(i) => i < |s.workers| && s.owner == None
                          && (s.workers[i].pc.AtLock? || s.workers[i].pc.Woken? || s.workers[i].pc.AtReport?)
    case WorkerTest(i) => i < |s.workers| && s.workers[i].pc.Holding?
    case WorkerUnlock(i) => i < |s.workers| && s.workers[i].pc.Taken?
    case WorkerRow(i) => i < |s.workers| && s.workers[i].pc.Running? && s.workers[i].pc.next < s.workers[i].pc.row1
    case WorkerEnd(i) => i < |s.workers| && s.workers[i].pc.Running? && s.workers[i].pc.next >= s.workers[i].pc.row1
    case WorkerReport(i) => i < |s.workers| && s.workers[i].pc.Reporting?
    case WorkerLeave(i) => i < |s.workers| && s.workers[i].pc.Unlocking?
    case WorkerSpurious(i) => i < |s.workers| && s.workers[i].pc.Waiting?
    case Create => s.caller.Creating?
    case Begin(n, minRows) => s.caller.Idle? && n < U64
    case SerialRow => s.caller.Serial? && |s.calls| > 0 && s.caller.snext < s.calls[|s.calls| - 1].n
    case SerialEnd => s.caller.Serial? && |s.calls| > 0 && s.caller.snext >= s.calls[|s.calls| - 1].n
    case CallerLock => s.owner == None && (s.caller.AtPost? || s.caller.AtWait? || s.caller.WokenDone? || s.caller.AtShut?)
    case Publish => s.caller.HoldPost? && |s.calls| > 0
    case CallerUnlock => s.caller.Posted? || s.caller.ShutSet?
    case CallerRow => s.caller.MainRun? && s.caller.next < s.caller.row1
    case CallerEnd => s.caller.MainRun? && s.caller.next >= s.caller.row1
    case TestDone => s.caller.HoldWait?
    case CallerSpurious => s.caller.WaitDone?
    case BeginShutdown => s.caller.Idle?
    case SetShutdown => s.caller.HoldShut?
    case Join => s.caller.Joining? && (s.caller.j < |s.workers| ==> s.workers[s.caller.j].pc.Exited?)
  }

  function SetPc(s: State, i: nat, pc: WorkerPc): State
    requires i < |s.workers|
  {
    s.(workers := s.workers[i := s.workers[i].(pc := pc)])
  }

  /** The top of ds4_worker_main's loop, once the mutex is held. */
  function Test(s: State, i: nat): State
    requires i < |s.workers|
  {
    var w := s.workers[i];
    if w.seen == s.generation && !s.shutdown then SetPc(s, i, Waiting).(owner := None)
    else if s.shutdown then SetPc(s, i, Exited).(owner := None)
    else s.(workers := s.workers[i := Worker(Taken(s.job), s.generation)])
  }

  function Report(s: State, i: nat): State
    requires i < |s.workers|
  {
    var d := (s.done + 1) % U32;
    SetPc(s, i, Unlocking).(done := d, caller := if d == |s.workers| then WakeCaller(s.caller) else s.caller)
  }

  function ApplyWorker(s: State, a: Step): State
    requires Enabled(s, a)
  {
    match a
    case WorkerLock(i) => SetPc(s, i, if s.workers[i].pc.AtReport? then Reporting else Holding).(owner := Some(i + 1))
    case WorkerTest(i) => Test(s, i)
    case WorkerUnlock(i) =>
      var j := s.workers[i].pc.job;
      var t := s.Threads();
      SetPc(s, i, Running(j, FirstRow(j.n, t, i + 1), EndRow(j.n, t, i + 1))).(owner := None)
    case WorkerRow(i) =>
      var pc := s.workers[i].pc;
      SetPc(s, i, pc.(next := pc.next + 1)).(trace := s.trace + multiset{(pc.job.call, pc.next)})
    case WorkerEnd(i) => SetPc(s, i, AtReport)
    case WorkerReport(i) => Report(s, i)
    case WorkerLeave(i) => SetPc(s, i, AtLock).(owner := None)
    case WorkerSpurious(i) => SetPc(s, i, Woken)
    case _ => s
  }

  function ApplyCaller(s: State, a: Step): State
    requires Enabled(s, a)
  {
    match a
    case Create =>
      if s.caller.k < |s.workers| then SetPc(s, s.caller.k, AtLock).(caller := Creating(s.caller.k + 1))
      else s.(caller := Idle)
    case Begin(n, minRows) =>
      var serial := s.Threads() <= 1 || n < minRows;
      s.(calls := s.calls + [Call(n, serial)], caller := if serial then Serial(0) else AtPost)
    case SerialRow => s.(trace := s.trace + multiset{(|s.calls| - 1, s.caller.snext)}, caller := Serial(s.caller.snext + 1))
    case SerialEnd => s.(caller := Idle)
    case CallerLock =>
      s.(owner := Some(0), caller := if s.caller.AtPost? then HoldPost else if s.caller.AtShut? then HoldShut else HoldWait)
    case Publish =>
      s.(job := Job(|s.calls| - 1, s.calls[|s.calls| - 1].n), done := 0, generation := Successor(s.generation),
         workers := WakeAll(s.workers), caller := Posted)
    case CallerUnlock =>
      if s.caller.Posted? then s.(owner := None, caller := MainRun(0, EndRow(s.job.n, s.Threads(), 0)))
      else s.(owner := None, caller := Joining(0))
    case CallerRow =>
      s.(trace := s.trace + multiset{(s.job.call, s.caller.next)}, caller := s.caller.(next := s.caller.next + 1))
    case CallerEnd => s.(caller := AtWait)
    case TestDone => if s.done < |s.workers| then s.(owner := None, caller := WaitDone) else s.(owner := None, caller := Idle)
    case CallerSpurious => s.(caller := WokenDone)
    case BeginShutdown => s.(caller := AtShut)
    case SetShutdown =>
      s.(shutdown := true, generation := Successor(s.generation), workers := WakeAll(s.workers), caller := ShutSet)
    case Join => s.(caller := if s.caller.j < |s.workers| then Joining(s.caller.j + 1) else Closed)
    case _ => s
  }

  predicate OfWorker(a: Step) {
    a.WorkerLock? || a.WorkerTest? || a.WorkerUnlock? || a.WorkerRow? || a.WorkerEnd? || a.WorkerReport? || a.WorkerLeave?
    || a.WorkerSpurious?
  }

  function Apply(s: State, a: Step): State
    requires Enabled(s, a)
  {
    if OfWorker(a) then ApplyWorker(s, a) else ApplyCaller(s, a)
  }

  // -------------------------------------------------------------- the invariant

  predicate WorkerHolds(pc: WorkerPc) {
    pc.Holding? || pc.Taken? || pc.Reporting? || pc.Unlocking?
  }

  predicate CallerHolds(c: CallerPc) {
    c.HoldPost? || c.Posted? || c.HoldWait? || c.HoldShut? || c.ShutSet?
  }

  /** The mutex has the one owner that is inside a critical section. */
  ghost predicate Mutex(s: State) {
    && (forall i :: 0 <= i < |s.workers| ==> (WorkerHolds(s.workers[i].pc) <==> s.owner == Some(i + 1)))
    && (CallerHolds(s.caller) <==> s.owner == Some(0))
    && (s.owner.Some? ==> s.owner.value <= |s.workers|)
  }

  /** A job is published and its call has not returned. */
  predicate JobActive(c: CallerPc) {
    c.Posted? || c.MainRun? || c.AtWait? || c.HoldWait? || c.WaitDone? || c.WokenDone?
  }

  predicate ShuttingDown(c: CallerPc) {
    c.ShutSet? || c.Joining? || c.Closed?
  }

  /** The worker is between jobs and has seen generation g. */
  predicate Settled(w: Worker, g: nat) {
    w.seen == g && (w.pc.AtLock? || w.pc.Holding? || w.pc.Waiting? || w.pc.Woken? || w.pc.Unlocking?)
  }

  /** The worker has not seen generation g yet, only the one before; it is not asleep. */
  predicate Fresh(w: Worker, g: nat) {
    Successor(w.seen) == g && w.seen != g && (w.pc.AtLock? || w.pc.Holding? || w.pc.Woken?)
  }

  /** The worker, thread tid of t, works on the current job. */
  predicate Busy(w: Worker, tid: nat, s: State) {
    && w.seen == s.generation
    && match w.pc
       case Taken(j) => j == s.job
       case Running(j, next, row1) =>
         j == s.job && row1 == EndRow(j.n, s.Threads(), tid)
         && (FirstRow(j.n, s.Threads(), tid) <= next) && (next <= row1 || next == FirstRow(j.n, s.Threads(), tid))
       case AtReport => true
       case Reporting => true
       case _ => false
  }

  predicate Leaving(w: Worker) {
    w.pc.AtLock? || w.pc.Holding? || w.pc.Woken? || w.pc.Exited?
  }

  ghost predicate WorkerOK(s: State, i: nat)
    requires i < |s.workers|
  {
    var w := s.workers[i];
    if JobActive(s.caller) then Fresh(w, s.generation) || Busy(w, i + 1, s) || Settled(w, s.generation)
    else if ShuttingDown(s.caller) then Leaving(w)
    else if s.caller.Creating? && i >= s.caller.k then w == Worker(Unborn, 0)
    else Settled(w, s.generation)
  }

  function CountSettled(ws: seq<Worker>, g: nat): (c: nat)
    ensures c <= |ws|
  {
    if ws == [] then 0 else (if Settled(ws[0], g) then 1 else 0) + CountSettled(ws[1..], g)
  }

  ghost predicate CallerOK(s: State) {
    && s.generation < U32 && |s.workers| < MAX_THREADS
    && (s.shutdown <==> ShuttingDown(s.caller))
    && (s.caller.Creating? ==> s.generation == 0 && s.caller.k <= |s.workers| && s.calls == [])
    && (s.caller.Serial? ==> s.calls != [] && s.calls[|s.calls| - 1].serial && s.caller.snext <= s.calls[|s.calls| - 1].n)
    && (s.caller.AtPost? || s.caller.HoldPost? || JobActive(s.caller) ==> s.calls != [] && !s.calls[|s.calls| - 1].serial)
    && (JobActive(s.caller) ==> s.job == Job(|s.calls| - 1, s.calls[|s.calls| - 1].n))
    && (JobActive(s.caller) ==> s.done == CountSettled(s.workers, s.generation))
    && (s.caller.MainRun? ==> s.caller.row1 == EndRow(s.job.n, s.Threads(), 0) && s.caller.next <= s.caller.row1)
    && (s.caller.WaitDone? ==> s.done < |s.workers|)
    && (forall c :: 0 <= c < |s.calls| ==> s.calls[c].n < U64)
  }

  /** Thread tid is past row r of its share of the current job. */
  predicate PastRow(s: State, tid: nat, r: nat) {
    if tid > |s.workers| then false
    else if tid == 0 then
      match s.caller
      case MainRun(next, _) => r < next
      case AtWait => true
      case HoldWait => true
      case WaitDone => true
      case WokenDone => true
      case _ => false
    else
      var w := s.workers[tid - 1];
      match w.pc
      case Running(_, next, _) => r < next
      case AtReport => true
      case Reporting => true
      case _ => Settled(w, s.generation)
  }

  /** How often row r of a call is run in all. */
  function Whole(c: Call, t: nat, r: nat): nat
    requires t > 0
  {
    if r < c.n && (c.serial || Shared(c.n, t, r)) then 1 else 0
  }

  /** How often row r of call c has been run so far. */
  function RunSoFar(s: State, c: nat, r: nat): nat {
    if c >= |s.calls| then 0
    else if c < |s.calls| - 1 then Whole(s.calls[c], s.Threads(), r)
    else if s.caller.Serial? then (if r < s.caller.snext then 1 else 0)
    else if s.caller.AtPost? || s.caller.HoldPost? then 0
    else if JobActive(s.caller) then
      if Shared(s.job.n, s.Threads(), r) && PastRow(s, r / RowsPerThread(s.job.n, s.Threads()), r) then 1 else 0
    else Whole(s.calls[c], s.Threads(), r)
  }

  ghost predicate Traced(s: State) {
    forall c: nat, r: nat :: s.trace[(c, r)] == RunSoFar(s, c, r)
  }

  ghost predicate Inv(s: State) {
    && Mutex(s) && CallerOK(s) && (forall i :: 0 <= i < |s.workers| ==> WorkerOK(s, i)) && Traced(s)
  }

  // ------------------------------------------------------ the invariant is kept

  lemma {:induction false} CountUpdate(ws: seq<Worker>, i: nat, w: Worker, g: nat)
    requires i < |ws|
    ensures CountSettled(ws[i := w], g) + (if Settled(ws[i], g) then 1 else 0)
         == CountSettled(ws, g) + (if Settled(w, g) then 1 else 0)
  {
    if i > 0 {
      assert ws[i := w][1..] == ws[1..][i - 1 := w];
      CountUpdate(ws[1..], i - 1, w, g);
    } else {
      assert ws[i := w][1..] == ws[1..];
    }
  }

  lemma {:induction false} CountNone(ws: seq<Worker>, g: nat)
    requires forall i :: 0 <= i < |ws| ==> !Settled(ws[i], g)
    ensures CountSettled(ws, g) == 0
  {
    if ws != [] {
      CountNone(ws[1..], g);
    }
  }

  lemma {:induction false} CountAll(ws: seq<Worker>, g: nat)
    requires CountSettled(ws, g) == |ws|
    ensures forall i :: 0 <= i < |ws| ==> Settled(ws[i], g)
  {
    if ws != [] {
      CountAll(ws[1..], g);
    }
  }

  lemma InvInit(workers: nat)
    requires workers < MAX_THREADS
    ensures Inv(Init(workers))
  {
  }

  // A step of worker i: what has to be shown about it alone.

  ghost predicate OneWorker(s: State, s2: State, i: nat) {
    && i < |s.workers| == |s2.workers|
    && s2 == s.(owner := s2.owner, done := s2.done, caller := s2.caller, trace := s2.trace,
                workers := s.workers[i := s2.workers[i]])
    && (s2.caller == s.caller || (s.caller.WaitDone? && s2.caller.WokenDone?))
  }

  lemma OneMutex(s: State, s2: State, i: nat)
    requires Mutex(s) && OneWorker(s, s2, i)
    requires WorkerHolds(s2.workers[i].pc) && !WorkerHolds(s.workers[i].pc) ==> s.owner == None
    requires s2.owner == if WorkerHolds(s2.workers[i].pc) then Some(i + 1)
                         else if WorkerHolds(s.workers[i].pc) then None else s.owner
    ensures Mutex(s2)
  {
    forall k | 0 <= k < |s.workers|
      ensures WorkerHolds(s2.workers[k].pc) <==> s2.owner == Some(k + 1)
    {
      assert WorkerHolds(s.workers[k].pc) <==> s.owner == Some(k + 1);
    }
  }

  lemma OneCount(s: State, s2: State, i: nat)
    requires CallerOK(s) && OneWorker(s, s2, i)
    requires JobActive(s.caller) ==>
               s2.done == s.done + (if Settled(s2.workers[i], s.generation) then 1 else 0)
                                 - (if Settled(s.workers[i], s.generation) then 1 else 0)
    requires s2.caller.WaitDone? ==> s2.done < |s.workers|
    ensures CallerOK(s2)
  {
    CountUpdate(s.workers, i, s2.workers[i], s.generation);
  }

  lemma OneOthers(s: State, s2: State, i: nat)
    requires (forall k :: 0 <= k < |s.workers| ==> WorkerOK(s, k)) && OneWorker(s, s2, i) && WorkerOK(s2, i)
    ensures forall k :: 0 <= k < |s2.workers| ==> WorkerOK(s2, k)
  {
    hide Settled, Fresh, Busy, Leaving;
    forall k | 0 <= k < |s2.workers| && k != i
      ensures WorkerOK(s2, k)
    {
      assert WorkerOK(s, k) && s2.workers[k] == s.workers[k];
      BusySame(s2.workers[k], k + 1, s, s2);
    }
  }

  lemma BusySame(w: Worker, tid: nat, s: State, s2: State)
    requires s2.generation == s.generation && s2.job == s.job && |s2.workers| == |s.workers|
    ensures Busy(w, tid, s2) <==> Busy(w, tid, s)
  {
  }

  /** Row r is a shared row of the current job that worker i is to run. */
  predicate Mine(s: State, i: nat, r: nat) {
    JobActive(s.caller) && Shared(s.job.n, s.Threads(), r) && r / RowsPerThread(s.job.n, s.Threads()) == i + 1
  }

  /** One for the row of the current job that worker i got past in this step. */
  function Passed(s: State, s2: State, i: nat, c: nat, r: nat): nat
    requires i < |s.workers| == |s2.workers|
  {
    if c == |s.calls| - 1 && Mine(s, i, r) && PastRow(s2, i + 1, r) && !PastRow(s, i + 1, r) then 1 else 0
  }

  lemma RunsOne(s: State, s2: State, i: nat, c: nat, r: nat)
    requires OneWorker(s, s2, i)
    requires Mine(s, i, r) && PastRow(s, i + 1, r) ==> PastRow(s2, i + 1, r)
    ensures RunSoFar(s2, c, r) == RunSoFar(s, c, r) + Passed(s, s2, i, c, r)
  {
    hide RowsPerThread, PastRow;
    assert s2.Threads() == s.Threads() && JobActive(s2.caller) == JobActive(s.caller);
    if JobActive(s.caller) && Shared(s.job.n, s.Threads(), r) {
      PastSame(s, s2, i, r / RowsPerThread(s.job.n, s.Threads()), r);
    }
  }

  lemma OneTrace(s: State, s2: State, i: nat)
    requires Traced(s) && OneWorker(s, s2, i)
    requires forall c: nat, r: nat :: s2.trace[(c, r)] == s.trace[(c, r)] + Passed(s, s2, i, c, r)
    requires forall r: nat :: Mine(s, i, r) && PastRow(s, i + 1, r) ==> PastRow(s2, i + 1, r)
    ensures Traced(s2)
  {
    hide RunSoFar, Passed, PastRow, Mine;
    forall c: nat, r: nat
      ensures s2.trace[(c, r)] == RunSoFar(s2, c, r)
    {
      assert s.trace[(c, r)] == RunSoFar(s, c, r);
      RunsOne(s, s2, i, c, r);
    }
  }

  lemma PastSame(s: State, s2: State, i: nat, tid: nat, r: nat)
    requires OneWorker(s, s2, i)
    ensures tid != i + 1 ==> PastRow(s2, tid, r) == PastRow(s, tid, r)
  {
  }

  /** A step that runs no row and does not change what worker i is past. */
  lemma OneQuiet(s: State, s2: State, i: nat)
    requires Traced(s) && OneWorker(s, s2, i) && s2.trace == s.trace
    requires forall r: nat :: Mine(s, i, r) ==> PastRow(s2, i + 1, r) == PastRow(s, i + 1, r)
    ensures Traced(s2)
  {
    OneTrace(s, s2, i);
  }

  lemma KeepWorkerLock(s: State, i: nat)
    requires Inv(s) && Enabled(s, WorkerLock(i))
    ensures Inv(Apply(s, WorkerLock(i)))
  {
    hide Traced;
    var s2 := Apply(s, WorkerLock(i));
    assert WorkerOK(s, i);
    OneMutex(s, s2, i);
    OneCount(s, s2, i);
    OneOthers(s, s2, i);
    OneQuiet(s, s2, i);
  }

  lemma KeepWorkerTest(s: State, i: nat)
    requires Inv(s) && Enabled(s, WorkerTest(i))
    ensures Inv(Apply(s, WorkerTest(i)))
  {
    hide Traced;
    var s2 := Apply(s, WorkerTest(i));
    assert WorkerOK(s, i);
    OneMutex(s, s2, i);
    OneCount(s, s2, i);
    OneOthers(s, s2, i);
    OneQuiet(s, s2, i);
  }

  lemma KeepWorkerUnlock(s: State, i: nat)
    requires Inv(s) && Enabled(s, WorkerUnlock(i))
    ensures Inv(Apply(s, WorkerUnlock(i)))
  {
    hide Traced, FirstRow, EndRow, RowsPerThread;
    var s2 := Apply(s, WorkerUnlock(i));
    assert WorkerOK(s, i);
    OneMutex(s, s2, i);
    OneCount(s, s2, i);
    OneOthers(s, s2, i);
    forall r: nat | Mine(s, i, r)
      ensures PastRow(s2, i + 1, r) == PastRow(s, i + 1, r)
    {
      ShareOf(s.job.n, s.Threads(), i + 1, r);
    }
    OneQuiet(s, s2, i);
  }

  lemma KeepWorkerRow(s: State, i: nat)
    requires Inv(s) && Enabled(s, WorkerRow(i))
    ensures Inv(Apply(s, WorkerRow(i)))
  {
    hide Traced, FirstRow, EndRow, RowsPerThread;
    var s2 := Apply(s, WorkerRow(i));
    assert WorkerOK(s, i);
    OneMutex(s, s2, i);
    OneCount(s, s2, i);
    OneOthers(s, s2, i);
    var next := s.workers[i].pc.next;
    ShareOf(s.job.n, s.Threads(), i + 1, next);
    forall r: nat
      ensures Mine(s, i, r) && PastRow(s2, i + 1, r) && !PastRow(s, i + 1, r) <==> r == next
    {
    }
    OneTrace(s, s2, i);
  }

  lemma KeepWorkerEnd(s: State, i: nat)
    requires Inv(s) && Enabled(s, WorkerEnd(i))
    ensures Inv(Apply(s, WorkerEnd(i)))
  {
    hide Traced, FirstRow, EndRow, RowsPerThread;
    var s2 := Apply(s, WorkerEnd(i));
    assert WorkerOK(s, i);
    OneMutex(s, s2, i);
    OneCount(s, s2, i);
    OneOthers(s, s2, i);
    forall r: nat | Mine(s, i, r)
      ensures PastRow(s2, i + 1, r) == PastRow(s, i + 1, r)
    {
      ShareOf(s.job.n, s.Threads(), i + 1, r);
    }
    OneQuiet(s, s2, i);
  }

  lemma KeepWorkerReport(s: State, i: nat)
    requires Inv(s) && Enabled(s, WorkerReport(i))
    ensures Inv(Apply(s, WorkerReport(i)))
  {
    hide Traced;
    var s2 := Apply(s, WorkerReport(i));
    assert WorkerOK(s, i);
    CountUpdate(s.workers, i, s2.workers[i], s.generation);
    OneMutex(s, s2, i);
    OneCount(s, s2, i);
    OneOthers(s, s2, i);
    OneQuiet(s, s2, i);
  }

  lemma KeepWorkerLeave(s: State, i: nat)
    requires Inv(s) && Enabled(s, WorkerLeave(i))
    ensures Inv(Apply(s, WorkerLeave(i)))
  {
    hide Traced;
    var s2 := Apply(s, WorkerLeave(i));
    assert WorkerOK(s, i);
    OneMutex(s, s2, i);
    OneCount(s, s2, i);
    OneOthers(s, s2, i);
    OneQuiet(s, s2, i);
  }

  lemma KeepWorkerSpurious(s: State, i: nat)
    requires Inv(s) && Enabled(s, WorkerSpurious(i))
    ensures Inv(Apply(s, WorkerSpurious(i)))
  {
    hide Traced;
    var s2 := Apply(s, WorkerSpurious(i));
    assert WorkerOK(s, i);
    OneMutex(s, s2, i);
    OneCount(s, s2, i);
    OneOthers(s, s2, i);
    OneQuiet(s, s2, i);
  }

  // A step of the caller.

  /** The caller's step leaves the pool and every worker alone. */
  ghost predicate CallerOnly(s: State, s2: State) {
    s2 == s.(owner := s2.owner, caller := s2.caller, trace := s2.trace)
  }

  lemma CallerMutex(s: State, s2: State)
    requires Mutex(s) && CallerOnly(s, s2)
    requires CallerHolds(s2.caller) && !CallerHolds(s.caller) ==> s.owner == None
    requires s2.owner == if CallerHolds(s2.caller) then Some(0) else if CallerHolds(s.caller) then None else s.owner
    ensures Mutex(s2)
  {
    forall k | 0 <= k < |s.workers|
      ensures WorkerHolds(s2.workers[k].pc) <==> s2.owner == Some(k + 1)
    {
      assert WorkerHolds(s.workers[k].pc) <==> s.owner == Some(k + 1);
    }
  }

  lemma CallerWorkers(s: State, s2: State)
    requires CallerOnly(s, s2) && forall k :: 0 <= k < |s.workers| ==> WorkerOK(s, k)
    requires JobActive(s2.caller) == JobActive(s.caller) && ShuttingDown(s2.caller) == ShuttingDown(s.caller)
    requires !s.caller.Creating? && !s2.caller.Creating?
    ensures forall k :: 0 <= k < |s2.workers| ==> WorkerOK(s2, k)
  {
    hide Settled, Fresh, Busy, Leaving;
    forall k | 0 <= k < |s2.workers|
      ensures WorkerOK(s2, k)
    {
      assert WorkerOK(s, k);
      BusySame(s2.workers[k], k + 1, s, s2);
    }
  }

  lemma TraceSame(s: State, s2: State)
    requires Traced(s) && s2.trace == s.trace
    requires forall c: nat, r: nat :: RunSoFar(s2, c, r) == RunSoFar(s, c, r)
    ensures Traced(s2)
  {
  }

  /** The step runs row r of the latest call. */
  lemma TraceOne(s: State, s2: State, row: nat)
    requires Traced(s) && s.calls != []
    requires s2.trace == s.trace + multiset{(|s.calls| - 1, row)}
    requires forall c: nat, r: nat :: (c != |s.calls| - 1 || r != row) ==> RunSoFar(s2, c, r) == RunSoFar(s, c, r)
    requires RunSoFar(s2, |s.calls| - 1, row) == RunSoFar(s, |s.calls| - 1, row) + 1
    ensures Traced(s2)
  {
  }

  /** One for the row the caller is about to run. */
  function RunNow(s: State, c: nat, r: nat): nat
    requires s.caller.MainRun?
  {
    if c == |s.calls| - 1 && s.caller.next < s.caller.row1 && r == s.caller.next then 1 else 0
  }

  /** The caller runs the next row of its share, or is at the end of it. */
  lemma MainShare(s: State, s2: State, c: nat, r: nat)
    requires CallerOK(s) && CallerOK(s2) && CallerOnly(s, s2) && s.caller.MainRun?
    requires if s.caller.next < s.caller.row1 then s2.caller == s.caller.(next := s.caller.next + 1) else s2.caller == AtWait
    ensures RunSoFar(s2, c, r) == RunSoFar(s, c, r) + RunNow(s, c, r)
  {
    hide EndRow, RowsPerThread;
    ShareOf(s.job.n, s.Threads(), 0, r);
  }

  /** When all have reported, every share is through. */
  lemma EveryoneDone(s: State, c: nat, r: nat)
    requires CallerOK(s) && s.caller.HoldWait? && s.done == |s.workers|
    ensures RunSoFar(s.(owner := None, caller := Idle), c, r) == RunSoFar(s, c, r)
  {
    hide EndRow, RowsPerThread, FirstRow;
    CountAll(s.workers, s.generation);
    if Shared(s.job.n, s.Threads(), r) {
      ShareOf(s.job.n, s.Threads(), 0, r);
    }
  }

  lemma NextDiffers(g: nat)
    requires g < U32
    ensures Successor(g) != g && Successor(g) < U32
  {
  }

  lemma KeepCreate(s: State)
    requires Inv(s) && Enabled(s, Create)
    ensures Inv(Apply(s, Create))
  {
    hide Traced;
    var s2 := Apply(s, Create);
    forall k | 0 <= k < |s2.workers|
      ensures WorkerOK(s2, k) && (WorkerHolds(s2.workers[k].pc) <==> s2.owner == Some(k + 1))
    {
      assert WorkerOK(s, k) && (WorkerHolds(s.workers[k].pc) <==> s.owner == Some(k + 1));
    }
    TraceSame(s, s2);
  }

  lemma KeepBegin(s: State, n: nat, minRows: nat)
    requires Inv(s) && Enabled(s, Begin(n, minRows))
    ensures Inv(Apply(s, Begin(n, minRows)))
  {
    hide Traced;
    var s2 := Apply(s, Begin(n, minRows));
    forall k | 0 <= k < |s2.workers|
      ensures WorkerOK(s2, k) && (WorkerHolds(s2.workers[k].pc) <==> s2.owner == Some(k + 1))
    {
      assert WorkerOK(s, k) && (WorkerHolds(s.workers[k].pc) <==> s.owner == Some(k + 1));
    }
    TraceSame(s, s2);
  }

  lemma KeepSerialRow(s: State)
    requires Inv(s) && Enabled(s, SerialRow)
    ensures Inv(Apply(s, SerialRow))
  {
    hide Traced;
    var s2 := Apply(s, SerialRow);
    CallerMutex(s, s2);
    CallerWorkers(s, s2);
    TraceOne(s, s2, s.caller.snext);
  }

  lemma KeepSerialEnd(s: State)
    requires Inv(s) && Enabled(s, SerialEnd)
    ensures Inv(Apply(s, SerialEnd))
  {
    hide Traced;
    var s2 := Apply(s, SerialEnd);
    CallerMutex(s, s2);
    CallerWorkers(s, s2);
    TraceSame(s, s2);
  }

  lemma KeepCallerLock(s: State)
    requires Inv(s) && Enabled(s, CallerLock)
    ensures Inv(Apply(s, CallerLock))
  {
    hide Traced;
    var s2 := Apply(s, CallerLock);
    CallerMutex(s, s2);
    CallerWorkers(s, s2);
    TraceSame(s, s2);
  }

  lemma KeepCallerEnd(s: State)
    requires Inv(s) && Enabled(s, CallerEnd)
    ensures Inv(Apply(s, CallerEnd))
  {
    hide Traced, RunSoFar, FirstRow, EndRow, RowsPerThread;
    var s2 := Apply(s, CallerEnd);
    CallerMutex(s, s2);
    CallerWorkers(s, s2);
    forall c: nat, r: nat
      ensures RunSoFar(s2, c, r) == RunSoFar(s, c, r)
    {
      MainShare(s, s2, c, r);
    }
    TraceSame(s, s2);
  }

  lemma KeepCallerSpurious(s: State)
    requires Inv(s) && Enabled(s, CallerSpurious)
    ensures Inv(Apply(s, CallerSpurious))
  {
    hide Traced;
    var s2 := Apply(s, CallerSpurious);
    CallerMutex(s, s2);
    CallerWorkers(s, s2);
    TraceSame(s, s2);
  }

  lemma KeepBeginShutdown(s: State)
    requires Inv(s) && Enabled(s, BeginShutdown)
    ensures Inv(Apply(s, BeginShutdown))
  {
    hide Traced;
    var s2 := Apply(s, BeginShutdown);
    CallerMutex(s, s2);
    CallerWorkers(s, s2);
    TraceSame(s, s2);
  }

  lemma KeepJoin(s: State)
    requires Inv(s) && Enabled(s, Join)
    ensures Inv(Apply(s, Join))
  {
    hide Traced;
    var s2 := Apply(s, Join);
    CallerMutex(s, s2);
    CallerWorkers(s, s2);
    TraceSame(s, s2);
  }

  lemma KeepCallerRow(s: State)
    requires Inv(s) && Enabled(s, CallerRow)
    ensures Inv(Apply(s, CallerRow))
  {
    hide Traced, RunSoFar, FirstRow, EndRow, RowsPerThread;
    var s2 := Apply(s, CallerRow);
    CallerMutex(s, s2);
    CallerWorkers(s, s2);
    forall c: nat, r: nat
      ensures RunSoFar(s2, c, r) == RunSoFar(s, c, r) + RunNow(s, c, r)
    {
      MainShare(s, s2, c, r);
    }
    TraceOne(s, s2, s.caller.next);
  }

  lemma KeepCallerUnlock(s: State)
    requires Inv(s) && Enabled(s, CallerUnlock)
    ensures Inv(Apply(s, CallerUnlock))
  {
    hide Traced;
    var s2 := Apply(s, CallerUnlock);
    CallerMutex(s, s2);
    CallerWorkers(s, s2);
    TraceSame(s, s2);
  }

  lemma KeepTestDone(s: State)
    requires Inv(s) && Enabled(s, TestDone)
    ensures Inv(Apply(s, TestDone))
  {
    hide Traced;
    var s2 := Apply(s, TestDone);
    CallerMutex(s, s2);
    if s.done < |s.workers| {
      CallerWorkers(s, s2);
    } else {
      CountAll(s.workers, s.generation);
      forall k | 0 <= k < |s2.workers|
        ensures WorkerOK(s2, k)
      {
      }
    }
    forall c: nat, r: nat
      ensures RunSoFar(s2, c, r) == RunSoFar(s, c, r)
    {
      if s.done == |s.workers| {
        EveryoneDone(s, c, r);
      }
    }
    TraceSame(s, s2);
  }

  lemma KeepPublish(s: State)
    requires Inv(s) && Enabled(s, Publish)
    ensures Inv(Apply(s, Publish))
  {
    hide Traced, FirstRow, EndRow, RowsPerThread;
    var s2 := Apply(s, Publish);
    forall k | 0 <= k < |s.workers|
      ensures Fresh(s2.workers[k], s2.generation) && !WorkerHolds(s2.workers[k].pc) && !WorkerHolds(s.workers[k].pc)
    {
      assert WorkerOK(s, k) && (WorkerHolds(s.workers[k].pc) <==> s.owner == Some(k + 1));
      NextDiffers(s.generation);
    }
    CountNone(s2.workers, s2.generation);
    forall c: nat, r: nat
      ensures RunSoFar(s2, c, r) == RunSoFar(s, c, r)
    {
      if Shared(s2.job.n, s2.Threads(), r) {
        ShareOf(s2.job.n, s2.Threads(), 0, r);
        var tid := r / RowsPerThread(s2.job.n, s2.Threads());
        assert tid > 0 ==> Fresh(s2.workers[tid - 1], s2.generation);
      }
    }
    TraceSame(s, s2);
  }

  lemma KeepSetShutdown(s: State)
    requires Inv(s) && Enabled(s, SetShutdown)
    ensures Inv(Apply(s, SetShutdown))
  {
    hide Traced;
    var s2 := Apply(s, SetShutdown);
    forall k | 0 <= k < |s.workers|
      ensures WorkerOK(s2, k) && !WorkerHolds(s2.workers[k].pc)
    {
      assert WorkerOK(s, k) && (WorkerHolds(s.workers[k].pc) <==> s.owner == Some(k + 1));
    }
    forall c: nat, r: nat
      ensures RunSoFar(s2, c, r) == RunSoFar(s, c, r)
    {
    }
    TraceSame(s, s2);
  }

  lemma InvStep(s: State, a: Step)
    requires Inv(s) && Enabled(s, a)
    ensures Inv(Apply(s, a))
  {
    hide Inv;
    match a
    case WorkerLock(i) => KeepWorkerLock(s, i);
    case WorkerTest(i) => KeepWorkerTest(s, i);
    case WorkerUnlock(i) => KeepWorkerUnlock(s, i);
    case WorkerRow(i) => KeepWorkerRow(s, i);
    case WorkerEnd(i) => KeepWorkerEnd(s, i);
    case WorkerReport(i) => KeepWorkerReport(s, i);
    case WorkerLeave(i) => KeepWorkerLeave(s, i);
    case WorkerSpurious(i) => KeepWorkerSpurious(s, i);
    case Create => KeepCreate(s);
    case Begin(n, minRows) => KeepBegin(s, n, minRows);
    case SerialRow => KeepSerialRow(s);
    case SerialEnd => KeepSerialEnd(s);
    case CallerLock => KeepCallerLock(s);
    case Publish => KeepPublish(s);
    case CallerUnlock => KeepCallerUnlock(s);
    case CallerRow => KeepCallerRow(s);
    case CallerEnd => KeepCallerEnd(s);
    case TestDone => KeepTestDone(s);
    case CallerSpurious => KeepCallerSpurious(s);
    case BeginShutdown => KeepBeginShutdown(s);
    case SetShutdown => KeepSetShutdown(s);
    case Join => KeepJoin(s);
  }
}
