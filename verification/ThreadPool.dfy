// The thread pool of include/task/threadpool_1.h as a monitor: its workers, any
// number of threads in AddTask, and any number of threads in Shutdown.
//
// A step is what one thread does while it holds the mutex, or one notification
// or task run without it.  A task that itself calls AddTask counts there as one more
// thread, which only adds interleavings.
module ThreadPool {
  import opened Prelude
  import Runs
  import opened Places

  type Task = nat

  datatype Place =
    | Ready      // a worker about to look at the queue
    | Waiting    // a worker in cond.wait
    | Running    // a worker inside a task
    | Returned   // a worker whose task has returned and who needs the mutex
    | Exited     // a worker that has left its loop
    | Notifying  // in AddTask, after the push and before notify_one
    | Awaiting   // in Shutdown, waiting for the tasks to complete or for the time limit
    | Draining   // in Shutdown, about to empty the queue

  datatype State = State(
    at: map<Tid, Place>,
    job: map<Tid, Task>,
    tasks: seq<Task>, activeThreads: int, isClosed: bool,
    // history
    submitted: seq<Task>, started: seq<Task>, finished: seq<Task>, dropped: seq<Task>)

  function Init(workers: set<Tid>): State {
    State(map t | t in workers :: Ready, map[], [], 0, false, [], [], [], [])
  }

  datatype Step =
    | Look(t: Tid)
    | TaskReturns(t: Tid)
    | Relock(t: Tid)
    | AddTask(t: Tid, task: Task)
    | NotifyOne(t: Tid, w: Option<Tid>)
    | SpuriousWake(t: Tid)
    | Close(t: Tid)
    | AwaitEnds(t: Tid, graceful: bool)
    | Drain(t: Tid)

  // The predicate that Shutdown waits for.
  predicate AllDone(s: State) {
    s.tasks == [] && s.activeThreads == 0
  }

  predicate Enabled(s: State, a: Step) {
    match a
    case Look(t) => Is(s.at, t, Ready)
    case TaskReturns(t) => Is(s.at, t, Running) && t in s.job
    case Relock(t) => Is(s.at, t, Returned)
    case AddTask(t, task) => t !in s.at && task !in s.submitted
    case NotifyOne(t, w) =>
      // the condition variable is shared with the threads in Shutdown
      Is(s.at, t, Notifying) && (Picks(s.at, Waiting, w) || (w == None && N(s.at, Awaiting) > 0))
    case SpuriousWake(t) => Is(s.at, t, Waiting)
    case Close(t) => t !in s.at
    case AwaitEnds(t, graceful) => Is(s.at, t, Awaiting) && (graceful <==> AllDone(s))
    case Drain(t) => Is(s.at, t, Draining)
  }

  function Next(s: State, a: Step): State
    requires Enabled(s, a)
  {
    match a
    case Look(t) =>
      if s.isClosed then s.(at := s.at[t := Exited])
      else if s.tasks != [] then
        s.(at := s.at[t := Running], job := s.job[t := s.tasks[0]],
           tasks := s.tasks[1..], activeThreads := s.activeThreads + 1,
           started := s.started + [s.tasks[0]])
      else s.(at := s.at[t := Waiting])
    case TaskReturns(t) =>
      s.(at := s.at[t := Returned], job := s.job - {t}, finished := s.finished + [s.job[t]])
    case Relock(t) =>
      s.(at := s.at[t := Ready], activeThreads := s.activeThreads - 1)
    case AddTask(t, task) =>
      s.(at := s.at[t := Notifying], tasks := s.tasks + [task], submitted := s.submitted + [task])
    case NotifyOne(t, w) => s.(at := Wake(s.at - {t}, w, Ready))
    case SpuriousWake(t) => s.(at := s.at[t := Ready])
    case Close(t) =>
      s.(at := MoveAll(s.at, Waiting, Ready)[t := Awaiting], isClosed := true)
    case AwaitEnds(t, _) => s.(at := s.at[t := Draining])
    case Drain(t) =>
      s.(at := s.at - {t}, tasks := [], dropped := s.dropped + s.tasks)
  }

  // ---------- Invariants ----------

  ghost predicate Distinct(q: seq<Task>) {
    forall i, j :: 0 <= i < j < |q| ==> q[i] != q[j]
  }

  // Tasks leave the queue in order of submission: first those that were started,
  // then those that were dropped.
  ghost predicate InOrder(s: State) {
    && s.submitted == s.started + s.dropped + s.tasks
    && Distinct(s.submitted)
    && (!s.isClosed ==> s.dropped == [])
  }

  // The started tasks are the finished ones and those that workers are running.
  ghost predicate JobsMatch(s: State) {
    && (forall t :: t in s.job <==> Is(s.at, t, Running))
    && (forall t :: t in s.job ==> s.job[t] in s.started && s.job[t] !in s.finished)
    && (forall t, u :: t in s.job && u in s.job && t != u ==> s.job[t] != s.job[u])
    && (forall x :: x in s.finished ==> x in s.started)
    && (forall x :: x in s.started ==> x in s.finished || exists t :: t in s.job && s.job[t] == x)
    && |s.started| == |s.finished| + N(s.at, Running)
  }

  ghost predicate Counted(s: State, threadCount: nat) {
    && s.activeThreads == N(s.at, Running) + N(s.at, Returned)
    && N(s.at, Ready) + N(s.at, Waiting) + N(s.at, Running) + N(s.at, Returned) + N(s.at, Exited) == threadCount
    && (!s.isClosed ==> N(s.at, Exited) == 0 && N(s.at, Awaiting) == 0 && N(s.at, Draining) == 0)
  }

  // While a worker waits, each queued task has a worker of its own that is about to
  // look, or a notification on its way.
  ghost predicate Awake(s: State) {
    !s.isClosed && N(s.at, Waiting) > 0 ==> |s.tasks| <= N(s.at, Ready) + N(s.at, Notifying)
  }

  // How many more threads are at r after a step other than Close.
  function Change(s: State, a: Step, r: Place): int
    requires Enabled(s, a) && !a.Close?
  {
    match a
    case Look(t) =>
      One(r == (if s.isClosed then Exited else if s.tasks != [] then Running else Waiting)) - One(r == Ready)
    case TaskReturns(_) => One(r == Returned) - One(r == Running)
    case Relock(_) => One(r == Ready) - One(r == Returned)
    case AddTask(_, _) => One(r == Notifying)
    case NotifyOne(_, w) => One(w.Some? && r == Ready) - One(w.Some? && r == Waiting) - One(r == Notifying)
    case SpuriousWake(_) => One(r == Ready) - One(r == Waiting)
    case AwaitEnds(_, _) => One(r == Draining) - One(r == Awaiting)
    case Drain(_) => -One(r == Draining)
  }

  lemma CountLook(s: State, t: Tid, r: Place)
    requires Enabled(s, Look(t))
    ensures N(Next(s, Look(t)).at, r) == N(s.at, r) + Change(s, Look(t), r)
  {
    PutCount(s.at, t, if s.isClosed then Exited else if s.tasks != [] then Running else Waiting, r);
  }

  lemma CountNotify(s: State, t: Tid, w: Option<Tid>, r: Place)
    requires Enabled(s, NotifyOne(t, w))
    ensures N(Next(s, NotifyOne(t, w)).at, r) == N(s.at, r) + Change(s, NotifyOne(t, w), r)
  {
    if Picks(s.at, Waiting, w) { WakeAfterDropCount(s.at, t, w, Waiting, Ready, r); } else { DropCount(s.at, t, r); }
  }

  lemma CountStep(s: State, a: Step, r: Place)
    requires Enabled(s, a) && !a.Close?
    ensures N(Next(s, a).at, r) == N(s.at, r) + Change(s, a, r)
  {
    if a.Look? {
      CountLook(s, a.t, r);
    } else if a.NotifyOne? {
      CountNotify(s, a.t, a.w, r);
    } else if a.Drain? {
      DropCount(s.at, a.t, r);
    } else {
      PutCount(s.at, a.t,
               if a.TaskReturns? then Returned else if a.AddTask? then Notifying
               else if a.AwaitEnds? then Draining else Ready, r);
    }
  }

  lemma CountClose(s: State, t: Tid, r: Place)
    requires Enabled(s, Close(t))
    ensures N(Next(s, Close(t)).at, r) ==
            if r == Waiting then 0
            else if r == Ready then N(s.at, Ready) + N(s.at, Waiting)
            else N(s.at, r) + One(r == Awaiting)
  {
    MoveAllCount(s.at, Waiting, Ready, r);
    PutCount(MoveAll(s.at, Waiting, Ready), t, Awaiting, r);
  }

  lemma StepKeepsCounted(s: State, a: Step, threadCount: nat)
    requires Counted(s, threadCount) && Enabled(s, a)
    ensures Counted(Next(s, a), threadCount)
  {
    if a.Close? {
      CountClose(s, a.t, Ready);
      CountClose(s, a.t, Waiting);
      CountClose(s, a.t, Running);
      CountClose(s, a.t, Returned);
      CountClose(s, a.t, Exited);
    } else {
      CountStep(s, a, Ready);
      CountStep(s, a, Waiting);
      CountStep(s, a, Running);
      CountStep(s, a, Returned);
      CountStep(s, a, Exited);
      CountStep(s, a, Awaiting);
      CountStep(s, a, Draining);
    }
  }

  lemma StepKeepsAwake(s: State, a: Step, threadCount: nat)
    requires Counted(s, threadCount) && Awake(s) && Enabled(s, a)
    ensures Awake(Next(s, a))
  {
    if !a.Close? {
      CountStep(s, a, Ready);
      CountStep(s, a, Waiting);
      CountStep(s, a, Notifying);
    }
  }

  lemma StartKeepsOrder(s: State, t: Tid)
    requires InOrder(s) && Enabled(s, Look(t)) && !s.isClosed && s.tasks != []
    ensures InOrder(Next(s, Look(t)))
    ensures s.tasks[0] !in s.started && s.tasks[0] in s.submitted
  {
    var n := Next(s, Look(t));
    assert s.tasks == [s.tasks[0]] + s.tasks[1..];
    assert s.submitted == s.started + s.tasks;
    assert n.submitted == n.started + n.dropped + n.tasks;
    assert s.submitted[|s.started|] == s.tasks[0];
    forall i | 0 <= i < |s.started|
      ensures s.started[i] != s.tasks[0]
    {
      assert s.submitted[i] == s.started[i];
    }
  }

  lemma StepKeepsOrder(s: State, a: Step, threadCount: nat)
    requires InOrder(s) && Counted(s, threadCount) && Enabled(s, a)
    ensures InOrder(Next(s, a))
    ensures s.isClosed ==> Next(s, a).isClosed && Next(s, a).started == s.started
  {
    var n := Next(s, a);
    if a.Look? {
      if !s.isClosed && s.tasks != [] {
        StartKeepsOrder(s, a.t);
      }
    } else if a.AddTask? {
      assert n.submitted == n.started + n.dropped + n.tasks;
      forall i, j | 0 <= i < j < |n.submitted|
        ensures n.submitted[i] != n.submitted[j]
      {
        if j == |s.submitted| { assert s.submitted[i] in s.submitted; }
      }
    } else if a.Drain? {
      SomebodyAt(s.at, Draining);
      assert n.submitted == n.started + n.dropped + n.tasks;
    }
  }

  lemma StartKeepsJobs(s: State, t: Tid)
    requires InOrder(s) && JobsMatch(s) && Enabled(s, Look(t)) && !s.isClosed && s.tasks != []
    ensures JobsMatch(Next(s, Look(t)))
  {
    var n := Next(s, Look(t));
    StartKeepsOrder(s, t);
    CountStep(s, Look(t), Running);
    forall x | x in n.started
      ensures x in n.finished || exists u :: u in n.job && n.job[u] == x
    {
      if x == s.tasks[0] {
        assert n.job[t] == x;
      } else if x !in s.finished {
        var u :| u in s.job && s.job[u] == x;
        assert n.job[u] == x;
      }
    }
  }

  lemma ReturnKeepsJobs(s: State, t: Tid)
    requires JobsMatch(s) && Enabled(s, TaskReturns(t))
    ensures JobsMatch(Next(s, TaskReturns(t)))
  {
    var n := Next(s, TaskReturns(t));
    CountStep(s, TaskReturns(t), Running);
    forall x | x in n.started
      ensures x in n.finished || exists u :: u in n.job && n.job[u] == x
    {
      if x !in n.finished {
        var u :| u in s.job && s.job[u] == x;
        assert u != t && n.job[u] == x;
      }
    }
  }

  lemma StepKeepsJobs(s: State, a: Step)
    requires InOrder(s) && JobsMatch(s) && Enabled(s, a)
    ensures JobsMatch(Next(s, a))
  {
    var n := Next(s, a);
    if a.Look? && !s.isClosed && s.tasks != [] {
      StartKeepsJobs(s, a.t);
    } else if a.TaskReturns? {
      ReturnKeepsJobs(s, a.t);
    } else {
      if a.Close? { CountClose(s, a.t, Running); } else { CountStep(s, a, Running); }
      forall t
        ensures Is(n.at, t, Running) <==> Is(s.at, t, Running)
      {
      }
    }
  }

  // ---------- Runs ----------

  function TryStep(s: State, a: Step): Option<State> {
    if Enabled(s, a) then Some(Next(s, a)) else None
  }

  function Exec(s: State, steps: seq<Step>): Option<State> {
    Runs.Exec(TryStep, s, steps)
  }

  ghost predicate Inv(s: State, threadCount: nat) {
    InOrder(s) && JobsMatch(s) && Counted(s, threadCount) && Awake(s)
  }

  lemma {:induction false} RunKeeps(workers: set<Tid>, steps: seq<Step>)
    requires Exec(Init(workers), steps).Some?
    ensures Inv(Exec(Init(workers), steps).value, |workers|)
  {
    if steps == [] {
      var s := Init(workers);
      assert Where(s.at, Ready) == workers;
      forall p: Place | p != Ready
        ensures N(s.at, p) == 0
      {
        assert Where(s.at, p) == {};
      }
    } else {
      RunKeeps(workers, steps[..|steps| - 1]);
      var p, a := Exec(Init(workers), steps[..|steps| - 1]).value, steps[|steps| - 1];
      StepKeepsOrder(p, a, |workers|);
      StepKeepsJobs(p, a);
      StepKeepsCounted(p, a, |workers|);
      StepKeepsAwake(p, a, |workers|);
    }
  }

  // The tasks that a run gives to AddTask, in order.
  function Given(steps: seq<Step>): seq<Task> {
    if steps == [] then []
    else
      var a := steps[|steps| - 1];
      Given(steps[..|steps| - 1]) + if a.AddTask? then [a.task] else []
  }

  // How often a task has returned in a run.
  function Returns(steps: seq<Step>): nat {
    if steps == [] then 0
    else Returns(steps[..|steps| - 1]) + if steps[|steps| - 1].TaskReturns? then 1 else 0
  }

  // What is submitted is what AddTask was given, whatever else has happened, and what has
  // finished is what has returned.
  lemma {:induction false} SubmittedIsGiven(workers: set<Tid>, steps: seq<Step>)
    requires Exec(Init(workers), steps).Some?
    ensures Exec(Init(workers), steps).value.submitted == Given(steps)
    ensures |Exec(Init(workers), steps).value.finished| == Returns(steps)
  {
    if steps != [] {
      SubmittedIsGiven(workers, steps[..|steps| - 1]);
    }
  }

  // In every run each task given to AddTask is queued, running, finished or dropped, and
  // counted once; tasks are started at most once, in the order in which they were given.
  lemma {:induction false} TasksAccounted(workers: set<Tid>, steps: seq<Step>)
    requires Exec(Init(workers), steps).Some?
    ensures var s := Exec(Init(workers), steps).value;
            && |Given(steps)| == |s.tasks| + N(s.at, Running) + Returns(steps) + |s.dropped|
            && s.activeThreads == N(s.at, Running) + N(s.at, Returned)
            && Given(steps) == s.started + s.dropped + s.tasks && Distinct(Given(steps))
            && (!s.isClosed ==> Given(steps) == s.started + s.tasks)
  {
    RunKeeps(workers, steps);
    SubmittedIsGiven(workers, steps);
    StartedFirst(Exec(Init(workers), steps).value);
  }

  lemma StartedFirst(s: State)
    requires InOrder(s)
    ensures |s.submitted| == |s.started| + |s.dropped| + |s.tasks|
    ensures s.started <= s.submitted && Distinct(s.started)
    ensures !s.isClosed ==> s.submitted == s.started + s.tasks
  {
    assert forall i :: 0 <= i < |s.started| ==> s.started[i] == s.submitted[i];
  }

  // While the pool is open, a queued task has somebody who will get to it: a worker
  // that is awake, or an AddTask that has yet to notify.
  lemma NoLostWakeUp(workers: set<Tid>, steps: seq<Step>)
    requires workers != {} && Exec(Init(workers), steps).Some?
    ensures var s := Exec(Init(workers), steps).value;
            !s.isClosed && s.tasks != [] ==>
              N(s.at, Ready) + N(s.at, Running) + N(s.at, Returned) + N(s.at, Notifying) > 0
  {
    RunKeeps(workers, steps);
  }

  // When the predicate of Shutdown holds, the tasks given to AddTask have all finished if
  // and only if no Shutdown has dropped any; those that were not dropped always have.
  lemma GracefulMeansFinished(workers: set<Tid>, steps: seq<Step>)
    requires Exec(Init(workers), steps).Some? && AllDone(Exec(Init(workers), steps).value)
    ensures var s := Exec(Init(workers), steps).value;
            && ((forall x :: x in Given(steps) ==> x in s.finished) <==> s.dropped == [])
            && (forall x :: x in s.finished <==> x in Given(steps) && x !in s.dropped)
  {
    RunKeeps(workers, steps);
    SubmittedIsGiven(workers, steps);
    var s := Exec(Init(workers), steps).value;
    assert s.submitted == s.started + s.dropped;
    StartedNotDropped(s);
    forall x
      ensures x in s.finished <==> x in s.started
    {
      StartedIsFinished(s, |workers|, x);
    }
    assert s.dropped != [] ==> s.dropped[0] in s.dropped;
  }

  lemma StartedIsFinished(s: State, threadCount: nat, x: Task)
    requires Inv(s, threadCount) && AllDone(s)
    ensures x in s.finished <==> x in s.started
  {
    if x in s.started && x !in s.finished {
      var t :| t in s.job && s.job[t] == x;
      assert Is(s.at, t, Running);
      SomebodyAt(s.at, Running);
    }
  }

  lemma StartedNotDropped(s: State)
    requires InOrder(s)
    ensures forall x :: x in s.started ==> x !in s.dropped
  {
    forall i, j | 0 <= i < |s.started| && 0 <= j < |s.dropped|
      ensures s.started[i] != s.dropped[j]
    {
      assert s.submitted[i] == s.started[i] && s.submitted[|s.started| + j] == s.dropped[j];
    }
  }

  // Once the pool is closed no task is started, and until a Shutdown empties the
  // queue it only grows: a Shutdown that finds a task queued cannot end gracefully.
  lemma {:induction false} ClosedStartsNothing(workers: set<Tid>, before: seq<Step>, after: seq<Step>)
    requires Exec(Init(workers), before + after).Some?
    requires Exec(Init(workers), before).Some? && Exec(Init(workers), before).value.isClosed
    ensures var p, s := Exec(Init(workers), before).value, Exec(Init(workers), before + after).value;
            && s.isClosed && s.started == p.started
            && ((forall a: Step :: a in after ==> !a.Drain?) ==>
                  && p.tasks <= s.tasks
                  && (p.tasks != [] ==> !AllDone(s)))
  {
    if after == [] {
      assert before + after == before;
    } else {
      var all, rest := before + after, after[..|after| - 1];
      assert all[..|all| - 1] == before + rest && all[|all| - 1] == after[|after| - 1];
      ClosedStartsNothing(workers, before, rest);
      RunKeeps(workers, before + rest);
      StepKeepsOrder(Exec(Init(workers), before + rest).value, after[|after| - 1], |workers|);
      if forall a: Step :: a in after ==> !a.Drain? {
        assert after[|after| - 1] in after;
        assert forall a :: a in rest ==> a in after;
      }
    }
  }

  // One step of a worker that has a task, or has just returned from one.
  function Working(s: State): nat {
    2 * N(s.at, Running) + N(s.at, Returned)
  }

  lemma WorkerMoves(s: State, threadCount: nat) returns (a: Step)
    requires Inv(s, threadCount) && s.activeThreads != 0
    ensures (a.TaskReturns? || a.Relock?) && Enabled(s, a)
    ensures Working(Next(s, a)) < Working(s) && Next(s, a).tasks == s.tasks
  {
    if N(s.at, Running) > 0 {
      SomebodyAt(s.at, Running);
      var t :| Is(s.at, t, Running);
      a := TaskReturns(t);
    } else {
      SomebodyAt(s.at, Returned);
      var t :| Is(s.at, t, Returned);
      a := Relock(t);
    }
    CountStep(s, a, Running);
    CountStep(s, a, Returned);
  }

  ghost predicate WorkersOnly(steps: seq<Step>) {
    forall a :: a in steps ==> a.TaskReturns? || a.Relock?
  }

  // With the queue empty, the workers alone can always bring about the predicate of
  // Shutdown.
  lemma {:induction false} WorkersFinish(workers: set<Tid>, before: seq<Step>) returns (after: seq<Step>)
    requires Exec(Init(workers), before).Some? && Exec(Init(workers), before).value.tasks == []
    ensures WorkersOnly(after)
    ensures Exec(Init(workers), before + after).Some? && AllDone(Exec(Init(workers), before + after).value)
    decreases Working(Exec(Init(workers), before).value)
  {
    RunKeeps(workers, before);
    var s := Exec(Init(workers), before).value;
    if s.activeThreads == 0 {
      after := [];
      assert before + after == before;
    } else {
      var a := WorkerMoves(s, |workers|);
      ExecNext(workers, before, a);
      var rest := WorkersFinish(workers, before + [a]);
      after := [a] + rest;
      OneMore(before, a, rest);
    }
  }

  lemma OneMore(before: seq<Step>, a: Step, rest: seq<Step>)
    requires WorkersOnly(rest) && (a.TaskReturns? || a.Relock?)
    ensures WorkersOnly([a] + rest) && before + ([a] + rest) == before + [a] + rest
  {
  }

  // Can the predicate still come true without a queue being thrown away?
  ghost predicate CanEndGracefully(workers: set<Tid>, before: seq<Step>) {
    exists after: seq<Step> :: && (forall a: Step :: a in after ==> !a.Drain?)
                    && Exec(Init(workers), before + after).Some?
                    && AllDone(Exec(Init(workers), before + after).value)
  }

  // Once the pool is closed, a Shutdown can end gracefully exactly when the queue is empty.
  lemma GracefulExact(workers: set<Tid>, before: seq<Step>)
    requires Exec(Init(workers), before).Some? && Exec(Init(workers), before).value.isClosed
    ensures CanEndGracefully(workers, before) <==> Exec(Init(workers), before).value.tasks == []
  {
    if CanEndGracefully(workers, before) {
      var after: seq<Step> :| && (forall a: Step :: a in after ==> !a.Drain?)
                   && Exec(Init(workers), before + after).Some?
                   && AllDone(Exec(Init(workers), before + after).value);
      ClosedStartsNothing(workers, before, after);
    }
    if Exec(Init(workers), before).value.tasks == [] {
      var after := WorkersFinish(workers, before);
      assert forall a: Step :: a in after ==> !a.Drain?;
    }
  }

  // ---------- Every task is run ----------

  // The pool itself moves: a worker, or an AddTask that notifies.
  ghost predicate PoolMoves(steps: seq<Step>) {
    forall a :: a in steps ==> a.Look? || a.TaskReturns? || a.Relock? || a.NotifyOne?
  }

  // While a task is queued in an open pool and none is running, a worker can take one or
  // can be woken.
  lemma NextMove(s: State, threadCount: nat) returns (a: Step)
    requires Inv(s, threadCount) && threadCount > 0 && !s.isClosed && s.tasks != [] && s.activeThreads == 0
    ensures (a.Look? || a.NotifyOne?) && Enabled(s, a)
    ensures var n := Next(s, a);
            !n.isClosed && (|n.tasks| < |s.tasks| || (n.tasks == s.tasks && N(n.at, Notifying) < N(s.at, Notifying)))
  {
    if N(s.at, Ready) > 0 {
      SomebodyAt(s.at, Ready);
      var t :| Is(s.at, t, Ready);
      a := Look(t);
    } else {
      SomebodyAt(s.at, Notifying);
      SomebodyAt(s.at, Waiting);
      var t :| Is(s.at, t, Notifying);
      var w :| Is(s.at, w, Waiting);
      a := NotifyOne(t, Some(w));
      CountStep(s, a, Notifying);
    }
  }

  // From every state of an open pool, the pool by itself can run every task given so far.
  lemma {:induction false} TasksCanRun(workers: set<Tid>, before: seq<Step>) returns (after: seq<Step>)
    requires workers != {} && Exec(Init(workers), before).Some? && !Exec(Init(workers), before).value.isClosed
    ensures PoolMoves(after) && Exec(Init(workers), before + after).Some?
    ensures forall x :: x in Given(before) ==> x in Exec(Init(workers), before + after).value.finished
    decreases |Exec(Init(workers), before).value.tasks|,
              N(Exec(Init(workers), before).value.at, Notifying),
              Working(Exec(Init(workers), before).value)
  {
    RunKeeps(workers, before);
    var s := Exec(Init(workers), before).value;
    if s.activeThreads == 0 && s.tasks == [] {
      after := [];
      assert before + after == before;
      GracefulMeansFinished(workers, before);
    } else {
      var a := Move(s, |workers|);
      ExecNext(workers, before, a);
      var rest := TasksCanRun(workers, before + [a]);
      after := [a] + rest;
      assert before + after == before + [a] + rest;
      GivenSoFar(before, a);
    }
  }

  lemma Move(s: State, threadCount: nat) returns (a: Step)
    requires Inv(s, threadCount) && threadCount > 0 && !s.isClosed && (s.tasks != [] || s.activeThreads != 0)
    ensures (a.Look? || a.TaskReturns? || a.Relock? || a.NotifyOne?) && Enabled(s, a)
    ensures var n := Next(s, a);
            !n.isClosed &&
            (|n.tasks| < |s.tasks|
             || (n.tasks == s.tasks && N(n.at, Notifying) < N(s.at, Notifying))
             || (n.tasks == s.tasks && N(n.at, Notifying) == N(s.at, Notifying) && Working(n) < Working(s)))
  {
    if s.activeThreads != 0 {
      a := WorkerMoves(s, threadCount);
      CountStep(s, a, Notifying);
    } else {
      a := NextMove(s, threadCount);
    }
  }

  lemma ExecNext(workers: set<Tid>, before: seq<Step>, a: Step)
    requires Exec(Init(workers), before).Some? && Enabled(Exec(Init(workers), before).value, a)
    ensures Exec(Init(workers), before + [a]) == Some(Next(Exec(Init(workers), before).value, a))
  {
    Runs.ExecOne(TryStep, Init(workers), before, a);
  }

  lemma GivenSoFar(before: seq<Step>, a: Step)
    ensures forall x :: x in Given(before) ==> x in Given(before + [a])
  {
    assert (before + [a])[..|before + [a]| - 1] == before;
  }

  // Once the pool is closed no worker waits: each of them runs a task or is on its way out.
  lemma {:induction false} ClosedNobodyWaits(workers: set<Tid>, steps: seq<Step>)
    requires Exec(Init(workers), steps).Some? && Exec(Init(workers), steps).value.isClosed
    ensures N(Exec(Init(workers), steps).value.at, Waiting) == 0
  {
    if steps != [] {
      var init, a := steps[..|steps| - 1], steps[|steps| - 1];
      var p := Exec(Init(workers), init).value;
      if a.Close? {
        CountClose(p, a.t, Waiting);
      } else {
        ClosedNobodyWaits(workers, init);
        CountStep(p, a, Waiting);
      }
    }
  }

  // A worker that looks at a closed pool leaves its loop.
  lemma ClosedWorkerLeaves(s: State, t: Tid)
    requires Is(s.at, t, Ready) && s.isClosed
    ensures Enabled(s, Look(t)) && Is(Next(s, Look(t)).at, t, Exited)
  {
  }

  // After a Shutdown has emptied the queue it stays empty until AddTask is called again:
  // what was given by then has been started or is dropped for good.
  lemma {:induction false} DrainEmpties(workers: set<Tid>, steps: seq<Step>, k: nat)
    requires Exec(Init(workers), steps).Some? && k < |steps| && steps[k].Drain?
    requires forall i :: k < i < |steps| ==> !steps[i].AddTask?
    ensures var s := Exec(Init(workers), steps).value;
            s.isClosed && s.tasks == [] && Given(steps) == s.started + s.dropped
  {
    RunKeeps(workers, steps);
    SubmittedIsGiven(workers, steps);
    var init := steps[..|steps| - 1];
    if k == |steps| - 1 {
      RunKeeps(workers, init);
      SomebodyAt(Exec(Init(workers), init).value.at, Draining);
    } else {
      DrainEmpties(workers, init, k);
    }
  }
}
