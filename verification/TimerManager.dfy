// The heap timer manager of include/task/timer/heaptimer.h and
// src/task/timer/heaptimer.cpp, as an object over the heap of HeapTimer.
//
// Tick and GetNextTick are methods of the heap class in the source; they are here
// because a closure, which is data in this model, is run by the manager it captures.
module TimerManager {
  import opened Prelude
  import opened HeapTimer
  import opened TimerManagerSpec

  // duration_cast to milliseconds: the quotient rounds towards zero.
  function WholeMs(d: int): (r: int)
    ensures r > 0 <==> d >= MS
    ensures d >= 0 ==> r * MS <= d < (r + 1) * MS
    ensures d < 0 ==> (r - 1) * MS < d <= r * MS
  {
    if d >= 0 then d / MS else -((-d) / MS)
  }

  // The wait that is computed from the time left to the nearest timer: the count of
  // milliseconds is narrowed to int, and a negative one becomes 0.
  function Wait(left: int): (r: nat) {
    var w := ToInt32(WholeMs(left));
    if w < 0 then 0 else w
  }

  // The wait ends before the nearest timer is due, or is 0, exactly if that timer is
  // not overdue or the narrowing does not turn the overdue count positive.
  lemma WaitExact(left: int)
    requires left < (INT_MAX + 1) * MS
    ensures Wait(left) == 0 || Wait(left) * MS <= left <==>
            left > -MS || (-left / MS) % 0x1_0000_0000 <= 0x8000_0000
    ensures left >= 0 ==> left < (Wait(left) + 1) * MS
  {
    if left <= -MS {
      var q := -left / MS;
      assert WholeMs(left) == -q;
      assert ToInt32(-q) == if q % 0x1_0000_0000 <= 0x8000_0000 then -(q % 0x1_0000_0000)
                            else 0x1_0000_0000 - q % 0x1_0000_0000;
    }
  }

  // The answer of GetNextTick: -1 exactly when nothing is set ...
  ghost predicate WaitFor(m: Mgr, now: int, res: int) {
    && res >= -1 && (res == -1 <==> m.nodes == map[])
    // ... otherwise the wait for the nearest timer ...
    && (res >= 0 ==>
          exists id :: id in m.nodes && NoneBefore(m, m.nodes[id].expires) && res == Wait(m.nodes[id].expires - now))
    // ... and so no longer than the time left to any, unless one is 2^31 ms overdue.
    && (res > 0 && NoneBefore(m, now + INT_MIN * MS) ==> NoneBefore(m, now + res * MS))
  }

  lemma WaitIsFor(m: Mgr, id: int, now: int)
    requires id in m.nodes && NoneBefore(m, m.nodes[id].expires)
    requires m.nodes[id].expires <= now + INT_MAX * MS
    ensures WaitFor(m, now, Wait(m.nodes[id].expires - now))
  {
    WaitExact(m.nodes[id].expires - now);
  }

  // A timer set a millisecond ahead is not due at the reading of Tick; the next reading of
  // the clock comes 2^31 + 1 milliseconds after its deadline, and the wait is 2^31 - 1 ms.
  lemma LongOverdueWaits()
    ensures var m := Arm(INIT, None, 1, 0, 7, 0);
            && Reachable(m) && TickRun(m, [], 0) && Exec(m, []) == Some(m)
            && (forall id :: id in m.nodes ==> m.nodes[id].expires - 0 >= MS)
            && WaitFor(m, MS + 0x8000_0001 * MS, INT_MAX)
  {
    var m := Arm(INIT, None, 1, 0, 7, 0);
    assert Exec(INIT, [Do(TimedOp(Schedule(1, 0, 7), 0))]) == Some(m) by {
      assert [Do(TimedOp(Schedule(1, 0, 7), 0))][..0] == [];
    }
    assert m.nodes == map[0 := Node(0, MS, Callback(0, None, 7))];
    assert WholeMs(-0x8000_0001 * MS) == -0x8000_0001;
    WaitIsFor(m, 0, MS + 0x8000_0001 * MS);
  }

  const MAX_PER_TICK: nat := 100

  class Manager {
    const timer: Timer<Callback>
    const clock: Clock
    var repeats: map<int, (int, Int32)>
    var keyToTimerId: map<int, int>
    var nextId: int
    // For each issued id, how it was scheduled and what became of it.
    ghost var hist: map<int, Record>

    ghost function State(): Mgr
      reads this, timer
      requires RefExact(timer.heap, timer.ref)
    {
      Mgr(timer.Model(), repeats, keyToTimerId, nextId, hist)
    }

    // No deadline is further away than the longest delay an int can ask for.
    ghost predicate WithinReach()
      reads this, timer, clock
      requires RefExact(timer.heap, timer.ref)
    {
      forall id :: id in timer.Model() ==> timer.Model()[id].expires <= clock.last + INT_MAX * MS
    }

    // `firing` is the id whose user function is running, or -1.
    ghost predicate ValidIn(firing: int)
      reads this, timer, clock
    {
      && timer.Valid() && WithinReach()
      && Inv(State(), firing) && firing < nextId
    }

    ghost predicate Valid()
      reads this, timer, clock
    {
      ValidIn(-1)
    }

    constructor (start: int)
      ensures Valid() && State() == INIT && fresh(timer) && fresh(clock)
    {
      timer := new Timer();
      clock := new Clock(start);
      repeats, keyToTimerId, nextId, hist := map[], map[], 0, map[];
    }

    method CancelByKey(key: int, ghost firing: int)
      requires ValidIn(firing)
      modifies this, timer
      ensures ValidIn(firing)
      ensures State() == Cancel(old(State()), key)
    {
      CancelKeeps(State(), key, firing);
      if key in keyToTimerId {
        var timerId := keyToTimerId[key];
        if timerId in timer.ref {
          var index := timer.ref[timerId];
          if index < |timer.heap| {
            timer.Del(index);
          } else {
            assert false;  // the table never holds a stale index
          }
        }
        repeats := repeats - {timerId};
        keyToTimerId := keyToTimerId - {key};
        hist := hist[timerId := hist[timerId].(dropped := true)];
        assert State().nodes == Cancel(old(State()), key).nodes;
      }
    }

    // Source: DoSchedule (no key) and DoScheduleWithKey, which differ only in the
    // entry made for the key.
    method DoSchedule(key: Option<int>, ms: Int32, repeat: Int32, user: UserFn, ghost firing: int)
      requires ValidIn(firing) && (key.Some? ==> key.value !in keyToTimerId)
      modifies this, timer, clock
      ensures ValidIn(firing) && old(clock.last) <= clock.last
      ensures State() == Arm(old(State()), key, ms, repeat, user, clock.last)
    {
      var id := nextId;
      nextId := nextId + 1;
      if key.Some? {
        keyToTimerId := keyToTimerId[key.value := id];
      }
      if repeat != 0 {
        repeats := repeats[id := (repeat, ms)];
      }
      hist := hist[id := Record(key, ms, repeat, user, 0, false)];
      var now := clock.Now();
      timer.Add(id, ms, Callback(id, key, user), now);
      assert State() == Arm(old(State()), key, ms, repeat, user, now);
      ArmKeeps(old(State()), key, ms, repeat, user, now, firing);
    }

    method ScheduleWithKey(key: int, ms: Int32, repeat: Int32, user: UserFn, ghost firing: int)
      requires ValidIn(firing)
      modifies this, timer, clock
      ensures ValidIn(firing) && old(clock.last) <= clock.last
      ensures State() == Apply(old(State()), TimedOp(Op.ScheduleWithKey(key, ms, repeat, user), clock.last))
    {
      CancelByKey(key, firing);
      DoSchedule(Some(key), ms, repeat, user, firing);
    }

    // The user function: whatever it does, it does by calling the manager.
    method CallUser(user: UserFn, ghost firing: int) returns (ghost script: seq<TimedOp>)
      requires ValidIn(firing)
      modifies this, timer, clock
      ensures ValidIn(firing) && old(clock.last) <= clock.last
      ensures State() == ApplyAll(old(State()), script)
      ensures forall i :: 0 <= i < |script| ==> old(clock.last) <= script[i].now <= clock.last
    {
      var ops: seq<Op> := *;
      script := [];
      for n := 0 to |ops|
        invariant ValidIn(firing) && old(clock.last) <= clock.last
        invariant State() == ApplyAll(old(State()), script)
        invariant forall i :: 0 <= i < |script| ==> old(clock.last) <= script[i].now <= clock.last
      {
        ghost var before := State();
        match ops[n] {
          case Schedule(ms, repeat, fn) => DoSchedule(None, ms, repeat, fn, firing);
          case ScheduleWithKey(key, ms, repeat, fn) => ScheduleWithKey(key, ms, repeat, fn, firing);
          case CancelByKey(key) => CancelByKey(key, firing);
        }
        ghost var t := TimedOp(ops[n], clock.last);
        assert (script + [t])[..|script + [t]| - 1] == script;
        script := script + [t];
      }
    }

    // Set the node of a repeated timer again under its id.
    method SetAgain(cb: Callback, period: Int32)
      requires timer.Valid() && WithinReach() && cb.id >= 0
      modifies timer, clock
      ensures timer.Valid() && WithinReach() && old(clock.last) <= clock.last
      ensures timer.Model() == old(timer.Model())[cb.id := Node(cb.id, clock.last + period * MS, cb)]
    {
      var now := clock.Now();
      timer.Add(cb.id, period, cb, now);
    }

    // The end of the closure: set the timer again, or take its entries away.
    method FinishCallback(cb: Callback)
      requires ValidIn(cb.id) && cb.id in hist
      requires cb.key == hist[cb.id].key && cb.user == hist[cb.id].user
      modifies this, timer, clock
      ensures Valid() && old(clock.last) <= clock.last
      ensures State() == Finish(old(State()), cb, clock.last)
    {
      var id := cb.id;
      ghost var m := State();
      assert Account(m, id, true);
      if cb.key.Some? && !(cb.key.value in keyToTimerId && keyToTimerId[cb.key.value] == id) {
      } else if id in repeats {
        var (remaining, period) := repeats[id];
        if remaining > 0 {
          if remaining - 1 == 0 {
            repeats := repeats - {id};
            if cb.key.Some? {
              keyToTimerId := keyToTimerId - {cb.key.value};
            }
          } else {
            repeats := repeats[id := (remaining - 1, period)];
            SetAgain(cb, period);
          }
        } else if remaining == -1 {
          SetAgain(cb, period);
        }
      } else if cb.key.Some? {
        keyToTimerId := keyToTimerId - {cb.key.value};
      }
      assert State() == Finish(m, cb, clock.last);
      FinishKeeps(m, cb, clock.last);
    }

    // The closure built by DoSchedule and DoScheduleWithKey, run after its node
    // has been taken out of the heap of `m`.
    method RunCallback(cb: Callback, ghost m: Mgr) returns (ghost script: seq<TimedOp>, ghost rearmAt: int)
      requires timer.Valid() && WithinReach() && Inv(m, -1)
      requires cb.id in m.nodes && m.nodes[cb.id].callback == cb
      requires State() == m.(nodes := m.nodes - {cb.id})
      modifies this, timer, clock
      ensures Valid() && State() == Fire(m, cb.id, script, rearmAt)
      ensures old(clock.last) <= rearmAt == clock.last
      ensures forall i :: 0 <= i < |script| ==> old(clock.last) <= script[i].now <= rearmAt
    {
      CallKeeps(m, cb.id);
      ghost var begun := Called(State(), cb.id);
      script := [];
      if cb.key.Some? && cb.key.value !in keyToTimerId {
        assert false;  // a node in the heap always finds its key in the table
      }
      hist := hist[cb.id := hist[cb.id].(calls := hist[cb.id].calls + 1)];
      assert State() == begun;
      script := CallUser(cb.user, cb.id);
      ApplyAllExtends(begun, script);
      FinishCallback(cb);
      rearmAt := clock.last;
    }

    // Source: Timer::doWork, which fires a timer whether or not it is due.
    method DoWork(id: int) returns (ghost script: seq<TimedOp>, ghost rearmAt: int)
      requires Valid()
      modifies this, timer, clock
      ensures Valid()
      ensures id !in old(State()).nodes ==> State() == old(State())
      ensures id in old(State()).nodes ==> State() == Fire(old(State()), id, script, rearmAt)
    {
      script, rearmAt := [], 0;
      if id !in timer.ref {
        return;
      }
      var i := timer.ref[id];
      if i >= |timer.heap| {
        assert false;  // the table never holds a stale index
      }
      var callback := timer.heap[i].callback;
      ghost var m := State();
      assert m.nodes[id] == timer.heap[i];
      timer.Del(i);
      script, rearmAt := RunCallback(callback, m);
    }

    // Source: Timer::Tick, which TimerManager::Update calls.
    method Tick() returns (ghost steps: seq<Step>)
      requires Valid()
      modifies this, timer, clock
      ensures Valid() && old(clock.last) <= clock.last
      // What it does is a run of due firings, at most a hundred of them ...
      ensures TickRun(old(State()), steps, old(clock.last)) && |steps| <= MAX_PER_TICK
      ensures Exec(old(State()), steps) == Some(State())
      // ... and if fewer, no remaining timer is within a millisecond of the last reading.
      ensures |steps| < MAX_PER_TICK ==>
                forall id :: id in State().nodes ==> State().nodes[id].expires - clock.last >= MS
    {
      steps := [];
      var processedCount := 0;
      while |timer.heap| > 0
        invariant Valid() && old(clock.last) <= clock.last
        invariant processedCount == |steps| < MAX_PER_TICK
        invariant TickRun(old(State()), steps, old(clock.last))
        invariant Exec(old(State()), steps) == Some(State())
        invariant LastReading(steps, old(clock.last)) <= clock.last
        decreases MAX_PER_TICK - processedCount
      {
        ghost var m := State();
        var node := timer.heap[0];
        var now := clock.Now();
        LeastNode();
        if WholeMs(node.expires - now) > 0 {
          break;
        }
        timer.Pop();
        ghost var script, rearmAt := RunCallback(node.callback, m);
        ghost var s := Expire(node.id, now, script, rearmAt);
        TickRunExtend(old(State()), steps, old(clock.last), s);
        steps := steps + [s];
        processedCount := processedCount + 1;
        if processedCount >= MAX_PER_TICK {
          break;
        }
      }
    }

    // The front of the heap is a least node of the abstract map.
    lemma LeastNode()
      requires timer.Valid() && |timer.heap| > 0
      ensures var m := timer.Model();
              && timer.heap[0].id in m && m[timer.heap[0].id] == timer.heap[0]
              && (forall id :: id in m ==> timer.heap[0].expires <= m[id].expires)
              && NoneBefore(State(), timer.heap[0].expires)
    {
      forall id | id in timer.Model()
        ensures timer.heap[0].expires <= timer.Model()[id].expires
      {
        FrontIsLeast(timer.heap, timer.ref[id]);
      }
    }

    // The wait that epoll may be given.
    method GetNextTick() returns (res: int, ghost steps: seq<Step>)
      requires Valid()
      modifies this, timer, clock
      ensures Valid()
      ensures TickRun(old(State()), steps, old(clock.last)) && |steps| <= MAX_PER_TICK
      ensures Exec(old(State()), steps) == Some(State())
      ensures WaitFor(State(), clock.last, res)
    {
      steps := Tick();
      res := -1;
      if |timer.heap| > 0 {
        var now := clock.Now();
        res := NextWait(now);
      } else {
        EmptyHeap(timer.heap, timer.ref);
      }
    }

    // The wait for the front node.
    method NextWait(now: int) returns (res: int)
      requires timer.Valid() && |timer.heap| > 0
      requires forall id :: id in timer.Model() ==> timer.Model()[id].expires <= now + INT_MAX * MS
      ensures WaitFor(State(), now, res)
    {
      LeastNode();
      var front := timer.heap[0];
      res := ToInt32(WholeMs(front.expires - now));
      if res < 0 {
        res := 0;
      }
      WaitIsFor(State(), front.id, now);
    }
  }
}
