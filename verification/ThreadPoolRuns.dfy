/** Runs of the thread pool: n workers, one mutex, one condition variable, and any number
    of client calls, interleaved in any order. Each step is what one thread does between
    two points where another may run. */
module ThreadPoolRuns {
  import opened ThreadPool

  /** Where a worker is in its loop: about to lock, holding the lock, blocked on the
      condition, awake again and about to re-lock, running the k-th submitted job, gone. */
  datatype Worker = WantLock | InSection | Waiting | Woken | Working(k: nat) | Exited

  datatype Holder = Free | HeldBy(i: nat) | Client

  /** queue, pending, shutdown and holder are the pool's; the rest is history: all jobs
      submitted, how many were dequeued, which finished, and how many had been submitted
      when shutdown was set. */
  datatype State = State(
    workers: seq<Worker>, holder: Holder, queue: seq<Job>, pending: int, shutdown: bool,
    submitted: seq<Job>, taken: nat, finished: multiset<nat>, atShutdown: nat)

  datatype Action =
    | Lock(i: nat)
    | Check(i: nat)               // the wait loop's test and what follows, up to the unlock
    | Finish(i: nat)
    | Spurious(i: nat)
    | ClientLock
    | Submit(job: Job, woken: nat)
    | Shutdown

  function SomeWaiting(ws: seq<Worker>): (i: nat)
    ensures i <= |ws|
    ensures i < |ws| ==> ws[i] == Waiting
    ensures i == |ws| ==> forall j :: 0 <= j < |ws| ==> ws[j] != Waiting
  {
    if ws == [] then 0
    else if ws[|ws| - 1] == Waiting then |ws| - 1
    else
      var i := SomeWaiting(ws[..|ws| - 1]);
      if i == |ws| - 1 then |ws| else i
  }

  /** pthread_cond_signal: some blocked worker wakes, if there is one. */
  function Signal(ws: seq<Worker>, woken: nat): (r: seq<Worker>)
    ensures |r| == |ws|
  {
    var i := if woken < |ws| && ws[woken] == Waiting then woken else SomeWaiting(ws);
    if i < |ws| then ws[i := Woken] else ws
  }

  function Broadcast(ws: seq<Worker>): (r: seq<Worker>)
    ensures |r| == |ws|
  {
    seq(|ws|, i requires 0 <= i < |ws| => if ws[i] == Waiting then Woken else ws[i])
  }

  /** A step that the thread cannot take in this state changes nothing. */
  function Step(s: State, a: Action): State {
    match a
    case Lock(i) =>
      if i < |s.workers| && (s.workers[i] == WantLock || s.workers[i] == Woken) && s.holder == Free then
        s.(workers := s.workers[i := InSection], holder := HeldBy(i))
      else s
    case Check(i) =>
      if i >= |s.workers| || s.holder != HeldBy(i) then s
      else (
        match Decide(s.queue, s.shutdown)
        case Block => s.(workers := s.workers[i := Waiting], holder := Free)
        case Leave => s.(workers := s.workers[i := Exited], holder := Free)
        case Take(_) =>
          s.(workers := s.workers[i := Working(s.taken)], holder := Free, queue := s.queue[1..],
             pending := s.pending - 1, taken := s.taken + 1))
    case Finish(i) =>
      if i < |s.workers| && s.workers[i].Working? then
        s.(workers := s.workers[i := WantLock], finished := s.finished + multiset{s.workers[i].k})
      else s
    case Spurious(i) =>
      if i < |s.workers| && s.workers[i] == Waiting then s.(workers := s.workers[i := Woken]) else s
    case ClientLock =>
      if s.holder == Free then s.(holder := Client) else s
    case Submit(job, woken) =>
      if s.holder != Client then s
      else
        s.(workers := Signal(s.workers, woken), holder := Free, queue := s.queue + [job],
           pending := s.pending + 1, submitted := s.submitted + [job])
    case Shutdown =>
      if s.holder != Client then s
      else
        s.(workers := Broadcast(s.workers), holder := Free, shutdown := true,
           atShutdown := if s.shutdown then s.atShutdown else |s.submitted|)
  }

  function Execute(s: State, schedule: seq<Action>): State {
    if schedule == [] then s
    else Step(Execute(s, schedule[..|schedule| - 1]), schedule[|schedule| - 1])
  }

  function Start(n: nat): State {
    State(seq(n, _ => WantLock), Free, [], 0, false, [], 0, multiset{}, 0)
  }

  // ---- The invariant ----

  /** How many workers are running the k-th job. */
  function Busy(ws: seq<Worker>, k: nat): nat {
    if ws == [] then 0
    else Busy(ws[..|ws| - 1], k) + (if ws[|ws| - 1] == Working(k) then 1 else 0)
  }

  predicate Active(w: Worker) {
    w != Waiting && w != Exited
  }

  predicate AllExited(s: State) {
    forall i :: 0 <= i < |s.workers| ==> s.workers[i] == Exited
  }

  ghost predicate SomeActive(s: State) {
    exists i :: 0 <= i < |s.workers| && Active(s.workers[i])
  }

  /** Nothing lost, nothing reordered: the queue is what was submitted and not yet taken. */
  ghost predicate Conserved(s: State) {
    && s.taken <= |s.submitted| && s.queue == s.submitted[s.taken..] && s.pending == |s.queue|
  }

  /** Each dequeued job is running in one worker or finished once; no other job is either. */
  ghost predicate ExactlyOnce(s: State) {
    forall k: nat :: s.finished[k] + Busy(s.workers, k) == if k < s.taken then 1 else 0
  }

  ghost predicate Exclusive(s: State) {
    && (forall i :: 0 <= i < |s.workers| && s.workers[i] == InSection ==> s.holder == HeldBy(i))
    && (s.holder.HeldBy? ==> s.holder.i < |s.workers| && s.workers[s.holder.i] == InSection)
  }

  ghost predicate Ending(s: State) {
    && (s.shutdown ==> s.atShutdown <= |s.submitted|)
    && (s.shutdown ==> forall i :: 0 <= i < |s.workers| ==> s.workers[i] != Waiting)
    && (forall i :: 0 <= i < |s.workers| && s.workers[i] == Exited ==> s.shutdown && s.taken >= s.atShutdown)
  }

  /** No lost wake-up: queued work implies a worker that will look at the queue again. */
  ghost predicate Awake(s: State) {
    s.queue != [] ==> SomeActive(s) || AllExited(s)
  }

  ghost predicate Inv(s: State) {
    Conserved(s) && ExactlyOnce(s) && Exclusive(s) && Ending(s) && Awake(s)
  }

  lemma {:induction false} BusyUpdate(ws: seq<Worker>, i: nat, w: Worker, k: nat)
    requires i < |ws|
    ensures Busy(ws[i := w], k) + (if ws[i] == Working(k) then 1 else 0) == Busy(ws, k) + (if w == Working(k) then 1 else 0)
    decreases |ws|
  {
    var front := ws[..|ws| - 1];
    if i < |ws| - 1 {
      BusyUpdate(front, i, w, k);
      assert ws[i := w][..|ws| - 1] == front[i := w];
    } else {
      assert ws[i := w][..|ws| - 1] == front;
    }
  }

  lemma {:induction false} BusyBroadcast(ws: seq<Worker>, k: nat)
    ensures Busy(Broadcast(ws), k) == Busy(ws, k)
    decreases |ws|
  {
    if ws != [] {
      var front := ws[..|ws| - 1];
      BusyBroadcast(front, k);
      assert Broadcast(ws)[..|ws| - 1] == Broadcast(front);
    }
  }

  lemma {:induction false} BusyNone(ws: seq<Worker>, k: nat)
    requires forall i :: 0 <= i < |ws| ==> ws[i] != Working(k)
    ensures Busy(ws, k) == 0
    decreases |ws|
  {
    if ws != [] {
      BusyNone(ws[..|ws| - 1], k);
    }
  }

  /** Replacing worker i by w, for every job. */
  lemma BusyUpdateAll(ws: seq<Worker>, i: nat, w: Worker)
    requires i < |ws|
    ensures forall k: nat :: Busy(ws[i := w], k) + (if ws[i] == Working(k) then 1 else 0)
                          == Busy(ws, k) + (if w == Working(k) then 1 else 0)
  {
    forall k: nat ensures Busy(ws[i := w], k) + (if ws[i] == Working(k) then 1 else 0)
                       == Busy(ws, k) + (if w == Working(k) then 1 else 0) {
      BusyUpdate(ws, i, w, k);
    }
  }

  lemma SignalKeepsBusy(ws: seq<Worker>, woken: nat, k: nat)
    ensures Busy(Signal(ws, woken), k) == Busy(ws, k)
  {
    var i := if woken < |ws| && ws[woken] == Waiting then woken else SomeWaiting(ws);
    if i < |ws| {
      BusyUpdate(ws, i, Woken, k);
    }
  }

  /** A signal changes at most one worker, from Waiting to Woken, and misses only if none waits. */
  lemma SignalWakes(ws: seq<Worker>, woken: nat)
    ensures var r := Signal(ws, woken);
            && (forall j :: 0 <= j < |ws| ==> r[j] == ws[j] || (ws[j] == Waiting && r[j] == Woken))
            && (forall i, j :: 0 <= i < |ws| && 0 <= j < |ws| && r[i] != ws[i] && r[j] != ws[j] ==> i == j)
            && (r == ws ==> forall j :: 0 <= j < |ws| ==> ws[j] != Waiting)
            && (r != ws ==> exists j :: 0 <= j < |ws| && r[j] == Woken)
  {
    var i := if woken < |ws| && ws[woken] == Waiting then woken else SomeWaiting(ws);
    if i < |ws| {
      assert ws[i := Woken][i] == Woken && ws[i] == Waiting;
    }
  }

  lemma CheckKeeps(s: State, i: nat)
    requires Inv(s)
    ensures Inv(Step(s, Check(i)))
  {
    var t := Step(s, Check(i));
    if i < |s.workers| && s.holder == HeldBy(i) {
      BusyUpdateAll(s.workers, i, t.workers[i]);
      assert t.workers == s.workers[i := t.workers[i]];
      if t.queue != [] {
        assert Active(t.workers[i]);
      }
    }
  }

  lemma LockKeeps(s: State, i: nat)
    requires Inv(s)
    ensures Inv(Step(s, Lock(i)))
  {
    if i < |s.workers| {
      BusyUpdateAll(s.workers, i, InSection);
      var t := Step(s, Lock(i));
      if t != s {
        assert Active(t.workers[i]);
      }
    }
  }

  lemma FinishKeeps(s: State, i: nat)
    requires Inv(s)
    ensures Inv(Step(s, Finish(i)))
  {
    if i < |s.workers| {
      BusyUpdateAll(s.workers, i, WantLock);
      var t := Step(s, Finish(i));
      if t != s {
        assert Active(t.workers[i]);
      }
    }
  }

  lemma SpuriousKeeps(s: State, i: nat)
    requires Inv(s)
    ensures Inv(Step(s, Spurious(i)))
  {
    if i < |s.workers| {
      BusyUpdateAll(s.workers, i, Woken);
      var t := Step(s, Spurious(i));
      if t != s {
        assert Active(t.workers[i]);
      }
    }
  }

  lemma SubmitKeeps(s: State, job: Job, woken: nat)
    requires Inv(s)
    ensures Inv(Step(s, Submit(job, woken)))
  {
    var t := Step(s, Submit(job, woken));
    if s.holder == Client {
      forall k: nat ensures Busy(t.workers, k) == Busy(s.workers, k) {
        SignalKeepsBusy(s.workers, woken, k);
      }
      SignalWakes(s.workers, woken);
      if t.workers != s.workers {
        var j :| 0 <= j < |t.workers| && t.workers[j] == Woken;
        assert Active(t.workers[j]);
      } else if !AllExited(t) {
        var j :| 0 <= j < |t.workers| && t.workers[j] != Exited;
        assert Active(t.workers[j]);
      }
    }
  }

  lemma ShutdownKeeps(s: State)
    requires Inv(s)
    ensures Inv(Step(s, Shutdown))
  {
    var t := Step(s, Shutdown);
    if s.holder == Client {
      forall k: nat ensures Busy(t.workers, k) == Busy(s.workers, k) {
        BusyBroadcast(s.workers, k);
      }
      if !AllExited(t) {
        var j :| 0 <= j < |t.workers| && t.workers[j] != Exited;
        assert Active(t.workers[j]);
      }
    }
  }

  lemma StepKeeps(s: State, a: Action)
    requires Inv(s)
    ensures Inv(Step(s, a))
  {
    hide Step, Inv;
    match a
    case Lock(i) => LockKeeps(s, i);
    case Check(i) => CheckKeeps(s, i);
    case Finish(i) => FinishKeeps(s, i);
    case Spurious(i) => SpuriousKeeps(s, i);
    case ClientLock => ClientLockKeeps(s);
    case Submit(job, woken) => SubmitKeeps(s, job, woken);
    case Shutdown => ShutdownKeeps(s);
  }

  lemma ClientLockKeeps(s: State)
    requires Inv(s)
    ensures Inv(Step(s, ClientLock))
  {
  }

  lemma StartHolds(n: nat)
    ensures Inv(Start(n))
  {
    forall k: nat ensures Busy(Start(n).workers, k) == 0 {
      BusyNone(Start(n).workers, k);
    }
  }

  lemma {:induction false} ExecuteKeeps(s: State, schedule: seq<Action>)
    requires Inv(s)
    ensures Inv(Execute(s, schedule))
    decreases |schedule|
  {
    hide Inv, Step;
    if schedule != [] {
      ExecuteKeeps(s, schedule[..|schedule| - 1]);
      StepKeeps(Execute(s, schedule[..|schedule| - 1]), schedule[|schedule| - 1]);
    }
  }

  // ---- What the pool promises ----

  /** In every run: jobs leave the queue in submission order, each is run by one worker and
      finishes once, pending is the length of the queue, and queued work never coexists
      with workers that are all asleep. */
  lemma PoolGuarantees(n: nat, schedule: seq<Action>)
    ensures var s := Execute(Start(n), schedule);
            && s.taken <= |s.submitted| && s.queue == s.submitted[s.taken..] && s.pending == |s.queue|
            && (forall k: nat :: s.finished[k] + Busy(s.workers, k) == if k < s.taken then 1 else 0)
            && (s.queue != [] && n > 0 ==> !(forall i :: 0 <= i < |s.workers| ==> s.workers[i] == Waiting))
  {
    StartHolds(n);
    ExecuteKeeps(Start(n), schedule);
    ExecuteSize(Start(n), schedule);
    var s := Execute(Start(n), schedule);
    if s.queue != [] && n > 0 {
      if SomeActive(s) {
        var i :| 0 <= i < |s.workers| && Active(s.workers[i]);
        assert s.workers[i] != Waiting;
      } else {
        assert s.workers[0] == Exited;
      }
    }
  }

  lemma {:induction false} ExecuteSize(s: State, schedule: seq<Action>)
    ensures |Execute(s, schedule).workers| == |s.workers|
    decreases |schedule|
  {
    hide Step;
    if schedule != [] {
      var front := schedule[..|schedule| - 1];
      ExecuteSize(s, front);
      StepSize(Execute(s, front), schedule[|schedule| - 1]);
    }
  }

  lemma StepSize(s: State, a: Action)
    ensures |Step(s, a).workers| == |s.workers|
  {
    hide Signal, Broadcast;
  }

  /** When every worker has been joined, every job submitted before shutdown has finished
      exactly once, and anything left in the queue was submitted after shutdown. */
  lemma JoinedMeansDone(n: nat, schedule: seq<Action>)
    requires n > 0
    ensures var s := Execute(Start(n), schedule);
            AllExited(s) ==>
              && s.shutdown && s.atShutdown <= s.taken <= |s.submitted|
              && (forall k: nat :: k < s.taken ==> s.finished[k] == 1)
              && s.queue == s.submitted[s.taken..]
              && (|s.submitted| == s.atShutdown ==> s.queue == [])
  {
    StartHolds(n);
    ExecuteKeeps(Start(n), schedule);
    ExecuteSize(Start(n), schedule);
    var s := Execute(Start(n), schedule);
    if AllExited(s) {
      assert s.workers[0] == Exited;
      forall k: nat ensures Busy(s.workers, k) == 0 {
        BusyNone(s.workers, k);
      }
    }
  }

  /** The last worker leaves an empty queue behind. */
  lemma LastExitLeavesNothing(s: State, i: nat)
    requires !AllExited(s) && AllExited(Step(s, Check(i)))
    ensures Step(s, Check(i)).queue == []
  {
    assert i < |s.workers| && s.holder == HeldBy(i);
    assert Step(s, Check(i)).workers[i] == Exited;
  }

  /** From then on the queue is exactly what clients submit afterwards: joining finds it
      empty if and only if nothing was submitted after the last worker left. */
  lemma {:induction false} NobodyServesAfterLastExit(s: State, schedule: seq<Action>)
    requires Inv(s) && AllExited(s) && s.queue == []
    ensures var t := Execute(s, schedule);
            AllExited(t) && s.submitted <= t.submitted && t.queue == t.submitted[|s.submitted|..] &&
            (t.queue == [] <==> t.submitted == s.submitted)
    decreases |schedule|
  {
    hide Step, Inv, AllExited;
    if schedule != [] {
      var front, a := schedule[..|schedule| - 1], schedule[|schedule| - 1];
      NobodyServesAfterLastExit(s, front);
      ExecuteKeeps(s, front);
      StepWithoutWorkers(Execute(s, front), a);
    }
  }

  /** Without workers a step at most adds a job. */
  lemma StepWithoutWorkers(s: State, a: Action)
    requires Inv(s) && AllExited(s)
    ensures var t := Step(s, a);
            && AllExited(t)
            && (if a.Submit? && s.holder == Client then t.submitted == s.submitted + [a.job] && t.queue == s.queue + [a.job]
                else t.submitted == s.submitted && t.queue == s.queue)
  {
    hide ExactlyOnce, Conserved, Awake, Signal;
    SignalWakes(s.workers, if a.Submit? then a.woken else 0);
    assert Broadcast(s.workers) == s.workers;
  }

  /** Over whole runs: from the start, through any steps up to the one with which the last
      worker leaves, and then through any others, the queue is empty at the end if and only
      if nothing was submitted after that step. */
  lemma QueueAfterJoin(n: nat, before: seq<Action>, i: nat, after: seq<Action>)
    requires n > 0
    requires var s := Execute(Start(n), before); !AllExited(s) && AllExited(Step(s, Check(i)))
    ensures var s := Step(Execute(Start(n), before), Check(i));
            var t := Execute(s, after);
            && AllExited(t) && s.submitted <= t.submitted && t.queue == t.submitted[|s.submitted|..]
            && (t.queue == [] <==> t.submitted == s.submitted)
  {
    hide Execute, Inv, Step;
    var s := Execute(Start(n), before);
    StartHolds(n);
    ExecuteKeeps(Start(n), before);
    StepKeeps(s, Check(i));
    LastExitLeavesNothing(s, i);
    NobodyServesAfterLastExit(Step(s, Check(i)), after);
  }

  // ---- Shutdown terminates ----

  function Weight(w: Worker): nat {
    match w
    case Exited => 0
    case InSection => 1
    case WantLock => 2
    case Woken => 2
    case Waiting => 2
    case Working(_) => 3
  }

  function TotalWeight(ws: seq<Worker>): nat {
    if ws == [] then 0 else TotalWeight(ws[..|ws| - 1]) + Weight(ws[|ws| - 1])
  }

  function Measure(s: State): nat {
    3 * |s.queue| + TotalWeight(s.workers)
  }

  lemma {:induction false} WeightUpdate(ws: seq<Worker>, i: nat, w: Worker)
    requires i < |ws|
    ensures TotalWeight(ws[i := w]) + Weight(ws[i]) == TotalWeight(ws) + Weight(w)
    decreases |ws|
  {
    var front := ws[..|ws| - 1];
    if i < |ws| - 1 {
      WeightUpdate(front, i, w);
      assert ws[i := w][..|ws| - 1] == front[i := w];
    } else {
      assert ws[i := w][..|ws| - 1] == front;
    }
  }

  predicate WorkerAction(a: Action) {
    a.Lock? || a.Check? || a.Finish? || a.Spurious?
  }

  /** After shutdown every worker step that does anything uses up some of the measure. */
  lemma WorkerStepCosts(s: State, a: Action)
    requires Inv(s) && s.shutdown && WorkerAction(a) && Step(s, a) != s
    ensures Measure(Step(s, a)) < Measure(s) && Step(s, a).shutdown
  {
    WeightUpdate(s.workers, a.i, Step(s, a).workers[a.i]);
  }

  /** Every step of the schedule is a worker step that changes the state. */
  ghost predicate Progressing(s: State, schedule: seq<Action>)
    decreases |schedule|
  {
    schedule == [] ||
    var u, a := Execute(s, schedule[..|schedule| - 1]), schedule[|schedule| - 1];
    Progressing(s, schedule[..|schedule| - 1]) && WorkerAction(a) && Step(u, a) != u
  }

  /** So the workers cannot go on for more steps than the measure. */
  lemma {:induction false} ShutdownTerminates(s: State, schedule: seq<Action>)
    requires Inv(s) && s.shutdown && Progressing(s, schedule)
    ensures |schedule| + Measure(Execute(s, schedule)) <= Measure(s) && Execute(s, schedule).shutdown
    decreases |schedule|
  {
    if schedule != [] {
      var front, a := schedule[..|schedule| - 1], schedule[|schedule| - 1];
      ShutdownTerminates(s, front);
      ExecuteKeeps(s, front);
      WorkerStepCosts(Execute(s, front), a);
    }
  }

  /** And they cannot stop early: while some worker is left after shutdown and no client is
      inside the lock, a worker can take a step. */
  lemma NoDeadlock(s: State) returns (a: Action)
    requires Inv(s) && s.shutdown && !AllExited(s) && s.holder != Client
    ensures WorkerAction(a) && Step(s, a) != s
  {
    if s.holder.HeldBy? {
      a := Check(s.holder.i);
    } else {
      var i :| 0 <= i < |s.workers| && s.workers[i] != Exited;
      a := if s.workers[i].Working? then Finish(i) else Lock(i);
      var t := Step(s, a);
      assert t.workers[i] != s.workers[i];
    }
  }

  lemma ExecuteSnoc(s: State, front: seq<Action>, a: Action)
    ensures Execute(s, front + [a]) == Step(Execute(s, front), a)
  {
    hide Step;
    assert (front + [a])[..|front|] == front;
  }

  lemma ExecuteNothing(s: State)
    ensures Execute(s, []) == s
  {
  }

  /** One idle worker, shut down: it looks at the empty queue and leaves. */
  lemma LoneWorkerLeaves()
    ensures Execute(Start(1), [ClientLock, Shutdown, Lock(0), Check(0)]) ==
            State([Exited], Free, [], 0, true, [], 0, multiset{}, 0)
  {
    hide Execute;
    var s0, a1, a2, a3 := Start(1), [ClientLock], [ClientLock, Shutdown], [ClientLock, Shutdown, Lock(0)];
    ExecuteNothing(s0);
    ExecuteSnoc(s0, [], ClientLock);
    ExecuteSnoc(s0, a1, Shutdown);
    ExecuteSnoc(s0, a2, Lock(0));
    ExecuteSnoc(s0, a3, Check(0));
    assert [] + [ClientLock] == a1 && a1 + [Shutdown] == a2 && a2 + [Lock(0)] == a3;
    assert a3 + [Check(0)] == [ClientLock, Shutdown, Lock(0), Check(0)];
    assert Execute(s0, a1) == s0.(holder := Client);
    assert Broadcast([WantLock]) == [WantLock] && s0.workers == [WantLock];
    assert Execute(s0, a2) == State([WantLock], Free, [], 0, true, [], 0, multiset{}, 0);
    assert Execute(s0, a3) == State([InSection], HeldBy(0), [], 0, true, [], 0, multiset{}, 0);
  }

  /** A job submitted after that finds nobody to run it. */
  lemma LateSubmissionIsStranded(job: Job)
    ensures var s := Execute(Start(1), [ClientLock, Shutdown, Lock(0), Check(0), ClientLock, Submit(job, 0)]);
            AllExited(s) && s.queue == [job]
  {
    hide Execute;
    var s0, a4 := Start(1), [ClientLock, Shutdown, Lock(0), Check(0)];
    var a5 := [ClientLock, Shutdown, Lock(0), Check(0), ClientLock];
    LoneWorkerLeaves();
    ExecuteSnoc(s0, a4, ClientLock);
    ExecuteSnoc(s0, a5, Submit(job, 0));
    assert a4 + [ClientLock] == a5;
    assert a5 + [Submit(job, 0)] == [ClientLock, Shutdown, Lock(0), Check(0), ClientLock, Submit(job, 0)];
    assert Execute(s0, a5) == State([Exited], Client, [], 0, true, [], 0, multiset{}, 0);
    SignalWakes([Exited], 0);
  }
}
