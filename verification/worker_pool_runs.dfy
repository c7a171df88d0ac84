/** What the worker pool guarantees over every run. */
module WorkerPoolRuns {
  import opened Common
  import opened RowShares
  import opened WorkerPool

  /** The state after a run of steps from the start, each of them enabled when it is taken. */
  ghost predicate Reaches(s: State, steps: seq<Step>, s2: State)
    decreases |steps|
  {
    if steps == [] then s2 == s
    else Enabled(s, steps[0]) && Reaches(Apply(s, steps[0]), steps[1..], s2)
  }

  lemma {:induction false} InvRun(s: State, steps: seq<Step>, s2: State)
    requires Inv(s) && Reaches(s, steps, s2)
    ensures Inv(s2)
    decreases |steps|
  {
    hide Inv;
    if steps != [] {
      InvStep(s, steps[0]);
      InvRun(Apply(s, steps[0]), steps[1..], s2);
    }
  }

  /** The number of calls that have returned. */
  function Returned(s: State): nat {
    if s.caller.Creating? || s.caller.Idle? || s.caller.AtShut? || s.caller.HoldShut? || ShuttingDown(s.caller) || s.calls == []
    then |s.calls| else |s.calls| - 1
  }

  /**
    Safety: in every reachable state, a call that has returned has had fn run for
    every row of [0, n) once and for no other row. The one condition is that the
    call was serial, had no rows, or that its rounding sum stays below 2^64.
   */
  lemma ReturnedCallsRanOnce(workers: nat, steps: seq<Step>, s: State, c: nat)
    requires workers < MAX_THREADS && Reaches(Init(workers), steps, s) && c < Returned(s)
    ensures (forall r: nat :: s.trace[(c, r)] == if r < s.calls[c].n then 1 else 0)
       <==> s.calls[c].serial || s.calls[c].n == 0 || s.calls[c].n + s.Threads() - 1 < U64
  {
    hide Shared, RowsPerThread;
    InvInit(workers);
    InvRun(Init(workers), steps, s);
    var n, t := s.calls[c].n, s.Threads();
    ReturnedTrace(s, c);
    if !s.calls[c].serial && n > 0 {
      AllShared(n, t);
      if n + t - 1 >= U64 {
        var r: nat :| r < n && !Shared(n, t, r);
        assert s.trace[(c, r)] == Whole(s.calls[c], t, r) == 0;
      }
    }
  }

  /** A run can go on by any step that is enabled where it ended. */
  lemma {:induction false} OneMore(s: State, steps: seq<Step>, s2: State, a: Step)
    requires Reaches(s, steps, s2) && Enabled(s2, a)
    ensures Reaches(s, steps + [a], Apply(s2, a))
    decreases |steps|
  {
    hide Apply, Enabled;
    if steps == [] {
      assert [a][1..] == [];
    } else {
      OneMore(Apply(s, steps[0]), steps[1..], s2, a);
      assert (steps + [a])[1..] == steps[1..] + [a];
    }
  }

  lemma {:induction false} Onward(s: State, steps: seq<Step>, s2: State, more: seq<Step>, s3: State)
    requires Reaches(s, steps, s2) && Reaches(s2, more, s3)
    ensures Reaches(s, steps + more, s3)
    decreases |more|
  {
    hide Apply, Enabled;
    if more == [] {
      assert steps + more == steps;
    } else {
      OneMore(s, steps, s2, more[0]);
      Onward(s, steps + [more[0]], Apply(s2, more[0]), more[1..], s3);
      assert steps + more == steps + [more[0]] + more[1..];
    }
  }

  /** With 2^64 - 1 rows on two threads the rounding sum wraps to zero: both shares are empty. */
  lemma WrappedShares()
    ensures EndRow(U64 - 1, 2, 0) == 0 && FirstRow(U64 - 1, 2, 1) == 0 && EndRow(U64 - 1, 2, 1) == 0
  {
    assert (U64 - 1 + 2 - 1) % U64 == 0;
  }

  /** A call of 2^64 - 1 rows on two threads returns without having run a row. */
  lemma WrappedCallRunsNothing() returns (steps: seq<Step>, s: State)
    ensures Reaches(Init(1), steps, s) && s.caller.Idle? && Returned(s) == 1
    ensures s.calls == [Call(U64 - 1, false)] && s.trace == multiset{}
  {
    hide Reaches;
    var begun, atPost := BeginWrapped();
    var posted, mid := PostWrapped(atPost);
    var ended;
    ended, s := EndWrapped(mid);
    Onward(atPost, posted, mid, ended, s);
    Onward(Init(1), begun, atPost, posted + ended, s);
    steps := begun + (posted + ended);
  }

  lemma BeginWrapped() returns (steps: seq<Step>, s: State)
    ensures Reaches(Init(1), steps, s)
    ensures s == State(None, 0, 0, false, Job(0, 0), [Worker(AtLock, 0)], AtPost, [Call(U64 - 1, false)], multiset{})
  {
    hide FirstRow, EndRow, Reaches;
    steps, s := [], Init(1);
    NoSteps(s);
    assert s.workers == [Worker(Unborn, 0)];
    steps, s := Play(Init(1), steps, s, Create);
    assert s.workers == [Worker(AtLock, 0)];
    steps, s := Play(Init(1), steps, s, Create);
    steps, s := Play(Init(1), steps, s, Begin(U64 - 1, 0));
  }

  lemma PostWrapped(posted: State) returns (steps: seq<Step>, s: State)
    requires posted == State(None, 0, 0, false, Job(0, 0), [Worker(AtLock, 0)], AtPost, [Call(U64 - 1, false)], multiset{})
    ensures Reaches(posted, steps, s)
    ensures s == State(None, 1, 0, false, Job(0, U64 - 1), [Worker(AtLock, 0)], AtWait, [Call(U64 - 1, false)], multiset{})
  {
    hide FirstRow, EndRow, Reaches;
    WrappedShares();
    steps, s := [], posted;
    NoSteps(s);
    steps, s := Play(posted, steps, s, CallerLock);
    assert WakeAll(s.workers) == s.workers;
    steps, s := Play(posted, steps, s, Publish);
    steps, s := Play(posted, steps, s, CallerUnlock);
    steps, s := Play(posted, steps, s, CallerEnd);
  }

  lemma NoSteps(s: State)
    ensures Reaches(s, [], s)
  {
  }

  lemma EndWrapped(mid: State) returns (steps: seq<Step>, s: State)
    requires mid == State(None, 1, 0, false, Job(0, U64 - 1), [Worker(AtLock, 0)], AtWait, [Call(U64 - 1, false)], multiset{})
    ensures Reaches(mid, steps, s)
    ensures s.caller.Idle? && s.calls == mid.calls && s.trace == multiset{}
  {
    hide FirstRow, EndRow, Reaches;
    WrappedShares();
    steps, s := [], mid;
    NoSteps(s);
    steps, s := Play(mid, steps, s, WorkerLock(0));
    steps, s := Play(mid, steps, s, WorkerTest(0));
    steps, s := Play(mid, steps, s, WorkerUnlock(0));
    assert s.workers == [Worker(Running(mid.job, 0, 0), 1)];
    steps, s := Play(mid, steps, s, WorkerEnd(0));
    steps, s := Play(mid, steps, s, WorkerLock(0));
    steps, s := Play(mid, steps, s, WorkerReport(0));
    steps, s := Play(mid, steps, s, WorkerLeave(0));
    steps, s := Play(mid, steps, s, CallerLock);
    steps, s := Play(mid, steps, s, TestDone);
  }

  lemma Play(start: State, steps: seq<Step>, s: State, a: Step) returns (steps2: seq<Step>, s2: State)
    requires Reaches(start, steps, s) && Enabled(s, a)
    ensures steps2 == steps + [a] && s2 == Apply(s, a) && Reaches(start, steps2, s2)
  {
    hide Apply, Enabled;
    steps2, s2 := steps + [a], Apply(s, a);
    OneMore(start, steps, s, a);
  }

  lemma ReturnedTrace(s: State, c: nat)
    requires Inv(s) && c < Returned(s)
    ensures forall r: nat :: s.trace[(c, r)] == Whole(s.calls[c], s.Threads(), r)
  {
    forall r: nat
      ensures s.trace[(c, r)] == Whole(s.calls[c], s.Threads(), r)
    {
      assert s.trace[(c, r)] == RunSoFar(s, c, r);
    }
  }

  /** No row is ever run twice, finished call or not, and no call that was not made has a row. */
  lemma NeverTwice(workers: nat, steps: seq<Step>, s: State, c: nat, r: nat)
    requires workers < MAX_THREADS && Reaches(Init(workers), steps, s)
    ensures s.trace[(c, r)] <= 1
    ensures s.trace[(c, r)] == 1 ==> c < |s.calls| && r < s.calls[c].n
  {
    InvInit(workers);
    InvRun(Init(workers), steps, s);
    assert s.trace[(c, r)] == RunSoFar(s, c, r);
  }

  /**
    A worker that holds or runs a job holds the job of the call in progress, has
    not reported yet, and after the call returned there is no such worker.
   */
  lemma NoStaleJob(workers: nat, steps: seq<Step>, s: State, i: nat)
    requires workers < MAX_THREADS && Reaches(Init(workers), steps, s) && i < |s.workers|
    ensures s.workers[i].pc.Taken? || s.workers[i].pc.Running? ==>
              JobActive(s.caller) && s.calls != [] && s.workers[i].pc.job == Job(|s.calls| - 1, s.calls[|s.calls| - 1].n)
    ensures JobActive(s.caller) ==> s.done <= |s.workers|
    ensures JobActive(s.caller) && s.done == |s.workers| ==> Settled(s.workers[i], s.generation)
    ensures s.caller.Idle? ==> Settled(s.workers[i], s.generation)
  {
    InvInit(workers);
    InvRun(Init(workers), steps, s);
    assert WorkerOK(s, i);
    if JobActive(s.caller) && s.done == |s.workers| {
      CountAll(s.workers, s.generation);
    }
  }

  /** While a call is in progress a worker that took its job never takes it again. */
  lemma TakesOnce(s: State, a: Step, i: nat)
    requires Inv(s) && Enabled(s, a) && JobActive(s.caller) && i < |s.workers|
    requires !Fresh(s.workers[i], s.generation)
    ensures !Fresh(Apply(s, a).workers[i], s.generation)
    ensures Settled(s.workers[i], s.generation) ==> Settled(Apply(s, a).workers[i], s.generation)
  {
    hide Mutex, Traced, FirstRow, EndRow, CountSettled;
    assert WorkerOK(s, i);
    if OfWorker(a) && a.i != i {
      OnlyItself(s, a, a.i);
    } else if OfWorker(a) {
      assert s.shutdown == false;
    }
  }

  // --------------------------------------------------------------- progress

  predicate Spurious(a: Step) {
    a.WorkerSpurious? || a.CallerSpurious?
  }

  /** The caller is inside a call, from its first step on, or shutting down. */
  predicate Pending(c: CallerPc) {
    || c.Serial? || c.AtPost? || c.HoldPost? || JobActive(c)
    || c.AtShut? || c.HoldShut? || (ShuttingDown(c) && !c.Closed?)
  }

  lemma {:induction false} Unsettled(ws: seq<Worker>, g: nat) returns (i: nat)
    requires CountSettled(ws, g) < |ws|
    ensures i < |ws| && !Settled(ws[i], g)
  {
    if !Settled(ws[0], g) {
      i := 0;
    } else {
      var j := Unsettled(ws[1..], g);
      i := j + 1;
    }
  }

  /** A worker that is not asleep or gone can take a step when the mutex is free. */
  function OwnStep(s: State, i: nat): Step
    requires i < |s.workers|
  {
    match s.workers[i].pc
    case Holding => WorkerTest(i)
    case Taken(_) => WorkerUnlock(i)
    case Running(_, next, row1) => if next < row1 then WorkerRow(i) else WorkerEnd(i)
    case Reporting => WorkerReport(i)
    case Unlocking => WorkerLeave(i)
    case _ => WorkerLock(i)
  }

  function CallerStep(s: State): Step {
    match s.caller
    case Serial(next) => if next < Upcoming(s) then SerialRow else SerialEnd
    case HoldPost => Publish
    case Posted => CallerUnlock
    case ShutSet => CallerUnlock
    case MainRun(next, row1) => if next < row1 then CallerRow else CallerEnd
    case HoldWait => TestDone
    case HoldShut => SetShutdown
    case Joining(_) => Join
    case _ => CallerLock
  }

  /** The rows of the latest call. */
  function Upcoming(s: State): nat {
    if s.calls == [] then 0 else s.calls[|s.calls| - 1].n
  }

  /** No deadlock: in every reachable state with a call in progress or a shutdown, some thread can really move. */
  lemma NoDeadlock(s: State) returns (a: Step)
    requires Inv(s) && Pending(s.caller)
    ensures Enabled(s, a) && !Spurious(a)
  {
    if s.owner.Some? && s.owner.value > 0 {
      var i := s.owner.value - 1;
      assert WorkerHolds(s.workers[i].pc) <==> s.owner == Some(i + 1);
      a := OwnStep(s, i);
    } else if s.caller.WaitDone? {
      var i := Unsettled(s.workers, s.generation);
      assert WorkerOK(s, i) && (WorkerHolds(s.workers[i].pc) <==> s.owner == Some(i + 1));
      a := OwnStep(s, i);
    } else if s.caller.Joining? && s.caller.j < |s.workers| && !s.workers[s.caller.j].pc.Exited? {
      assert WorkerOK(s, s.caller.j) && (WorkerHolds(s.workers[s.caller.j].pc) <==> s.owner == Some(s.caller.j + 1));
      a := WorkerLock(s.caller.j);
    } else {
      a := CallerStep(s);
    }
  }

  /** How far a worker is from going back to sleep, or from its exit. */
  function WorkerRank(w: Worker, tid: nat, s: State): nat {
    var share := RowsLeft(FirstRow(s.job.n, s.Threads(), tid), EndRow(s.job.n, s.Threads(), tid));
    var ahead := if Fresh(w, s.generation) && JobActive(s.caller) then share + 20 else 0;
    match w.pc
    case Unborn => 0
    case Exited => 0
    case Waiting => 0
    case Holding => 1 + ahead
    case AtLock => 2 + ahead
    case Woken => 2 + ahead
    case Unlocking => 3
    case Reporting => 6
    case AtReport => 7
    case Running(_, next, row1) => 8 + RowsLeft(next, row1)
    case Taken(_) => 9 + share
  }

  function RowsLeft(next: nat, row1: nat): nat {
    if next < row1 then row1 - next else 0
  }

  /** What publishing a job of n rows adds to the ranks of the first k workers. */
  function Shares(n: nat, t: nat, k: nat): nat
    requires t > 0
  {
    if k == 0 then 0 else Shares(n, t, k - 1) + RowsLeft(FirstRow(n, t, k), EndRow(n, t, k)) + 22
  }

  function CallerRank(s: State): nat {
    match s.caller
    case Serial(next) => RowsLeft(next, Upcoming(s)) + 1
    case AtPost => 6 + EndRow(Upcoming(s), s.Threads(), 0) + Shares(Upcoming(s), s.Threads(), |s.workers|)
    case HoldPost => 5 + EndRow(Upcoming(s), s.Threads(), 0) + Shares(Upcoming(s), s.Threads(), |s.workers|)
    case AtShut => 3 * |s.workers| + 4
    case HoldShut => 3 * |s.workers| + 3
    case Posted => 4 + EndRow(s.job.n, s.Threads(), 0)
    case MainRun(next, row1) => 3 + RowsLeft(next, row1)
    case AtWait => 2
    case WokenDone => 2
    case HoldWait => 1
    case ShutSet => |s.workers| + 2
    case Joining(j) => RowsLeft(j, |s.workers|) + 1
    case _ => 0
  }

  function WorkerRanks(s: State, k: nat): nat
    requires k <= |s.workers|
  {
    if k == 0 then 0 else WorkerRanks(s, k - 1) + WorkerRank(s.workers[k - 1], k, s)
  }

  /** Falls with every step that is not a spurious wakeup, which can raise it by two. */
  function Rank(s: State): nat {
    CallerRank(s) + WorkerRanks(s, |s.workers|)
  }

  lemma {:induction false} RanksOne(s: State, s2: State, i: nat, k: nat)
    requires i < |s.workers| == |s2.workers| && k <= |s.workers|
    requires forall j :: 0 <= j < k && j != i ==> WorkerRank(s2.workers[j], j + 1, s2) == WorkerRank(s.workers[j], j + 1, s)
    ensures WorkerRanks(s2, k) - WorkerRanks(s, k)
         == if i < k then WorkerRank(s2.workers[i], i + 1, s2) - WorkerRank(s.workers[i], i + 1, s) else 0
  {
    hide WorkerRank;
    if k > 0 {
      RanksOne(s, s2, i, k - 1);
    }
  }

  lemma {:induction false} RanksSame(s: State, s2: State, k: nat)
    requires |s.workers| == |s2.workers| && k <= |s.workers|
    requires forall j :: 0 <= j < k ==> WorkerRank(s2.workers[j], j + 1, s2) == WorkerRank(s.workers[j], j + 1, s)
    ensures WorkerRanks(s2, k) == WorkerRanks(s, k)
  {
    hide WorkerRank;
    if k > 0 {
      RanksSame(s, s2, k - 1);
    }
  }

  lemma RankAlike(w: Worker, tid: nat, s: State, s2: State)
    requires s2.generation == s.generation && s2.job == s.job && |s2.workers| == |s.workers|
    requires JobActive(s2.caller) == JobActive(s.caller)
    ensures WorkerRank(w, tid, s2) == WorkerRank(w, tid, s)
  {
  }

  /** A worker's step changes its own record only, and at most wakes the caller. */
  lemma OnlyItself(s: State, a: Step, i: nat)
    requires Enabled(s, a) && OfWorker(a) && i == a.i
    ensures OneWorker(s, Apply(s, a), i)
  {
  }

  lemma OthersRanks(s: State, s2: State, i: nat)
    requires OneWorker(s, s2, i)
    ensures forall j :: 0 <= j < |s.workers| && j != i ==> WorkerRank(s2.workers[j], j + 1, s2) == WorkerRank(s.workers[j], j + 1, s)
  {
    hide WorkerRank;
    forall j | 0 <= j < |s.workers| && j != i
      ensures WorkerRank(s2.workers[j], j + 1, s2) == WorkerRank(s.workers[j], j + 1, s)
    {
      RankAlike(s.workers[j], j + 1, s, s2);
    }
  }

  ghost predicate RankFalls(s: State, a: Step, i: nat)
    requires Enabled(s, a)
  {
    var s2 := Apply(s, a);
    && i < |s.workers| == |s2.workers| && Pending(s2.caller)
    && var d := WorkerRank(s2.workers[i], i + 1, s) - WorkerRank(s.workers[i], i + 1, s);
       var dc := CallerRank(s2) - CallerRank(s);
       if Spurious(a) then d + dc <= 2 else d + dc < 0
  }

  lemma LockFalls(s: State, a: Step, i: nat)
    requires Inv(s) && Enabled(s, a) && Pending(s.caller) && (a.WorkerLock?) && i == a.i
    ensures RankFalls(s, a, i)
  {
    hide FirstRow, EndRow, Traced, CountSettled, Mutex, Shared, RowsPerThread;
    assert WorkerOK(s, i);
  }

  lemma TestFalls(s: State, a: Step, i: nat)
    requires Inv(s) && Enabled(s, a) && Pending(s.caller) && (a.WorkerTest?) && i == a.i
    ensures RankFalls(s, a, i)
  {
    hide FirstRow, EndRow, Traced, CountSettled, Mutex, Shared, RowsPerThread;
    assert WorkerOK(s, i);
  }

  lemma RunFalls(s: State, a: Step, i: nat)
    requires Inv(s) && Enabled(s, a) && Pending(s.caller) && (a.WorkerUnlock? || a.WorkerRow? || a.WorkerEnd?) && i == a.i
    ensures RankFalls(s, a, i)
  {
    hide FirstRow, EndRow, Traced, CountSettled, Mutex, Shared, RowsPerThread;
    assert WorkerOK(s, i);
  }

  lemma ReportFalls(s: State, a: Step, i: nat)
    requires Inv(s) && Enabled(s, a) && Pending(s.caller) && (a.WorkerReport? || a.WorkerLeave? || a.WorkerSpurious?) && i == a.i
    ensures RankFalls(s, a, i)
  {
    hide FirstRow, EndRow, Traced, CountSettled, Mutex, Shared, RowsPerThread;
    assert WorkerOK(s, i);
  }

  lemma WorkerLowers(s: State, a: Step, i: nat)
    requires Inv(s) && Enabled(s, a) && OfWorker(a) && i == a.i && Pending(s.caller)
    ensures RankFalls(s, a, i)
  {
    hide Inv, Apply, Enabled, RankFalls;
    if a.WorkerLock? {
      LockFalls(s, a, i);
    } else if a.WorkerTest? {
      TestFalls(s, a, i);
    } else if a.WorkerUnlock? || a.WorkerRow? || a.WorkerEnd? {
      RunFalls(s, a, i);
    } else {
      ReportFalls(s, a, i);
    }
  }

  lemma CallerLowers(s: State, a: Step)
    requires Inv(s) && Enabled(s, a) && !OfWorker(a) && Pending(s.caller)
    requires Pending(Apply(s, a).caller) && !a.Publish? && !a.SetShutdown?
    ensures var s2 := Apply(s, a);
      && s2.workers == s.workers
      && (forall j :: 0 <= j < |s.workers| ==> WorkerRank(s2.workers[j], j + 1, s2) == WorkerRank(s.workers[j], j + 1, s))
      && if Spurious(a) then CallerRank(s2) <= CallerRank(s) + 2 else CallerRank(s2) < CallerRank(s)
  {
    hide FirstRow, EndRow, Traced, CountSettled, Shares, Mutex, WorkerOK;
  }

  /** Publishing gives every worker its share to do, and wakes it up. */
  lemma PublishRaises(s: State, j: nat)
    requires Inv(s) && Enabled(s, Publish) && j < |s.workers|
    ensures var s2 := Apply(s, Publish);
      WorkerRank(s2.workers[j], j + 1, s2)
      <= WorkerRank(s.workers[j], j + 1, s)
         + RowsLeft(FirstRow(Upcoming(s), s.Threads(), j + 1), EndRow(Upcoming(s), s.Threads(), j + 1)) + 22
  {
    hide FirstRow, EndRow, Traced, CountSettled;
    assert WorkerOK(s, j);
  }

  lemma {:induction false} PublishRaisesAll(s: State, k: nat)
    requires Inv(s) && Enabled(s, Publish) && k <= |s.workers|
    ensures WorkerRanks(Apply(s, Publish), k) <= WorkerRanks(s, k) + Shares(Upcoming(s), s.Threads(), k)
  {
    hide Inv, WorkerRank;
    if k > 0 {
      PublishRaisesAll(s, k - 1);
      PublishRaises(s, k - 1);
    }
  }

  /** Announcing the shutdown wakes every worker up. */
  lemma {:induction false} ShutdownRaisesAll(s: State, k: nat)
    requires Inv(s) && Enabled(s, SetShutdown) && k <= |s.workers|
    ensures WorkerRanks(Apply(s, SetShutdown), k) <= WorkerRanks(s, k) + 2 * k
  {
    hide FirstRow, EndRow, Traced, CountSettled;
    if k > 0 {
      ShutdownRaisesAll(s, k - 1);
      assert WorkerOK(s, k - 1);
    }
  }

  lemma AnnounceLowers(s: State, a: Step)
    requires Inv(s) && Enabled(s, a) && (a.Publish? || a.SetShutdown?)
    ensures Rank(Apply(s, a)) < Rank(s)
  {
    hide Inv, WorkerRank, WorkerRanks, Shares, FirstRow, EndRow;
    if a.Publish? {
      PublishRaisesAll(s, |s.workers|);
    } else {
      ShutdownRaisesAll(s, |s.workers|);
    }
  }

  lemma StepLowersRank(s: State, a: Step)
    requires Inv(s) && Enabled(s, a) && Pending(s.caller) && Pending(Apply(s, a).caller)
    ensures if Spurious(a) then Rank(Apply(s, a)) <= Rank(s) + 2 else Rank(Apply(s, a)) < Rank(s)
  {
    hide Inv, Apply, Enabled, WorkerRank, CallerRank, WorkerRanks;
    var s2 := Apply(s, a);
    if OfWorker(a) {
      WorkerLowers(s, a, a.i);
      OnlyItself(s, a, a.i);
      OthersRanks(s, s2, a.i);
      RankAlike(s2.workers[a.i], a.i + 1, s, s2);
      RanksOne(s, s2, a.i, |s.workers|);
    } else if a.Publish? || a.SetShutdown? {
      AnnounceLowers(s, a);
    } else {
      CallerLowers(s, a);
      RanksSame(s, s2, |s.workers|);
    }
  }

  function CountSpurious(steps: seq<Step>): (c: nat)
    ensures c <= |steps|
  {
    if steps == [] then 0 else (if Spurious(steps[0]) then 1 else 0) + CountSpurious(steps[1..])
  }

  /** Every state on the way has a call in progress or is shutting down. */
  ghost predicate StaysPending(s: State, steps: seq<Step>)
    decreases |steps|
  {
    Pending(s.caller) && (steps != [] ==> Enabled(s, steps[0]) && StaysPending(Apply(s, steps[0]), steps[1..]))
  }

  /**
    Liveness: a call, from its first step on, or a shutdown takes a bounded number of steps under
    any scheduling; each spurious wakeup adds at most two to the bound.
   */
  lemma {:induction false} BoundedCall(s: State, steps: seq<Step>)
    requires Inv(s) && StaysPending(s, steps)
    ensures |steps| - CountSpurious(steps) <= Rank(s) + 2 * CountSpurious(steps)
    decreases |steps|
  {
    hide Inv, Rank, Apply, Enabled;
    if steps != [] {
      InvStep(s, steps[0]);
      StepLowersRank(s, steps[0]);
      BoundedCall(Apply(s, steps[0]), steps[1..]);
    }
  }
}
