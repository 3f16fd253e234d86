// The multimap timer manager of include/task/timer/maptimer.h and
// src/task/timer/maptimer.cpp as an object.
module MapTimer {
  import opened Prelude
  import opened MapTimerSpec

  class Manager {
    const clock: Clock
    var timers: seq<Node>
    var repeats: map<int, (int, int)>
    var keyToTimerId: map<Key, int>
    var nextId: int
    // Numbers the timers without a key, for their history.
    var nextTag: int
    // The nodes of the vector that Update is working through, and the history.
    ghost var batch: seq<Node>
    ghost var hist: map<int, Record>
    ghost var plain: map<int, PlainRecord>

    ghost function State(): Mgr
      reads this
    {
      Mgr(timers, batch, repeats, keyToTimerId, nextId, hist, nextTag, plain)
    }

    ghost predicate ValidIn(cur: seq<Node>, firing: int)
      reads this
    {
      Inv(State(), cur, firing) && firing < nextId
    }

    ghost predicate Valid()
      reads this
    {
      ValidIn([], -1)
    }

    constructor (start: int)
      ensures Valid() && State() == INIT && fresh(clock)
    {
      clock := new Clock(start);
      timers, repeats, keyToTimerId, nextId, batch, hist := [], map[], map[], 0, [], map[];
      nextTag, plain := 0, map[];
    }

    // Source: CancelByKeyInternal, and CancelByKey around it.
    method CancelByKey(key: Key, ghost cur: seq<Node>, ghost firing: int)
      requires ValidIn(cur, firing)
      modifies this
      ensures ValidIn(cur, firing)
      ensures State() == Cancel(old(State()), key)
    {
      CancelKeeps(State(), key, cur, firing);
      if key in keyToTimerId {
        var timerId := keyToTimerId[key];
        keyToTimerId := keyToTimerId - {key};
        if timerId in repeats {
          repeats := repeats - {timerId};
        }
        hist := hist[timerId := hist[timerId].(dropped := true)];
        assert repeats == Cancel(old(State()), key).repeats;
      }
    }

    method DoSchedule(ms: Int32, repeat: Int32, user: UserFn, ghost cur: seq<Node>, ghost firing: int)
      requires ValidIn(cur, firing)
      modifies this, clock
      ensures ValidIn(cur, firing) && old(clock.last) <= clock.last
      ensures State() == Apply(old(State()), TimedOp(Op.Schedule(ms, repeat, user), clock.last))
    {
      var period: int := ms;
      if period <= 0 {
        period := 1;
      }
      var now := clock.Now();
      ApplyKeeps(State(), TimedOp(Op.Schedule(ms, repeat, user), now), cur, firing);
      timers := Insert(timers, Node(now + period, Plain(nextTag, user), period, repeat));
      plain := plain[nextTag := PlainRecord(repeat, 0)];
      nextTag := nextTag + 1;
    }

    method DoScheduleWithKey(key: Key, ms: Int32, repeat: Int32, user: UserFn, ghost cur: seq<Node>, ghost firing: int)
      requires ValidIn(cur, firing)
      modifies this, clock
      ensures ValidIn(cur, firing) && old(clock.last) <= clock.last
      ensures State() == Arm(Cancel(old(State()), IntKey(key)), key, ms, repeat, user, clock.last)
    {
      var period: int := ms;
      if period <= 0 {
        period := 1;
      }
      CancelByKey(IntKey(key), cur, firing);
      var now := clock.Now();
      ArmKeeps(State(), key, ms, repeat, user, now, cur, firing);
      Install(key, period, repeat, user, now);
    }

    // The entries and the first node of a new keyed timer.
    method Install(key: Key, period: int, repeat: Int32, user: UserFn, now: int)
      modifies this
      ensures forall ms: Int32 :: AtLeastOne(ms) == period ==>
                State() == Arm(old(State()), key, ms, repeat, user, now)
    {
      var id := nextId;
      nextId := nextId + 1;
      keyToTimerId := keyToTimerId[IntKey(key) := id];
      if repeat != 0 {
        repeats := repeats[id := (repeat, period)];
      }
      timers := Insert(timers, Node(now + period, Keyed(id, key, user), period, repeat));
      hist := hist[id := Record(key, period, repeat, user, 0, 0, false)];
    }

    method ScheduleWithKey(key: Key, ms: Int32, repeat: Int32, user: UserFn, ghost cur: seq<Node>, ghost firing: int)
      requires ValidIn(cur, firing)
      modifies this, clock
      ensures ValidIn(cur, firing) && old(clock.last) <= clock.last
      ensures State() == Apply(old(State()), TimedOp(Op.ScheduleWithKey(key, ms, repeat, user), clock.last))
    {
      CancelByKey(key, cur, firing);
      DoScheduleWithKey(key, ms, repeat, user, cur, firing);
    }

    // The user function: whatever it does, it does by calling the manager.
    method CallUser(user: UserFn, ghost cur: seq<Node>, ghost firing: int) returns (ghost script: seq<TimedOp>)
      requires ValidIn(cur, firing)
      modifies this, clock
      ensures ValidIn(cur, firing) && old(clock.last) <= clock.last
      ensures State() == ApplyAll(old(State()), script) && batch == old(batch)
    {
      var ops: seq<Op> := *;
      script := [];
      for n := 0 to |ops|
        invariant batch == old(batch)
        invariant ValidIn(cur, firing) && old(clock.last) <= clock.last
        invariant State() == ApplyAll(old(State()), script)
      {
        match ops[n] {
          case Schedule(ms, repeat, fn) => DoSchedule(ms, repeat, fn, cur, firing);
          case ScheduleWithKey(key, ms, repeat, fn) => ScheduleWithKey(key, ms, repeat, fn, cur, firing);
          case CancelByKey(key) => CancelByKey(key, cur, firing);
        }
        ghost var t := TimedOp(ops[n], clock.last);
        assert (script + [t])[..|script + [t]| - 1] == script;
        script := script + [t];
      }
    }

    // The end of the closure: book the run, and queue a new node while runs are owed.
    method FinishClosure(cb: Callback)
      requires cb.Keyed?
      modifies this, clock
      ensures old(clock.last) <= clock.last
      ensures State() == Finish(old(State()), cb, clock.last)
    {
      var key, id := IntKey(cb.key), cb.id;
      if key in keyToTimerId && keyToTimerId[key] == id {
        if id in repeats {
          var (remaining, period) := repeats[id];
          if remaining > 0 {
            remaining := remaining - 1;
            repeats := repeats[id := (remaining, period)];
            if remaining == 0 {
              repeats := repeats - {id};
              keyToTimerId := keyToTimerId - {key};
              assert repeats == old(repeats) - {id};
            } else {
              var now := clock.Now();
              timers := Insert(timers, Node(now + period, cb, period, remaining));
            }
          } else if remaining == -1 {
            var now := clock.Now();
            timers := Insert(timers, Node(now + period, cb, period, -1));
          }
        } else {
          keyToTimerId := keyToTimerId - {key};
        }
      }
    }

    // The closure that DoScheduleWithKey builds, run for the node n in hand.
    method RunKeyed(n: Node) returns (ghost script: seq<TimedOp>)
      requires ValidIn([n], -1) && n.cb.Keyed? && n.repeat != 0
      modifies this, clock
      ensures State() == Run(old(State()), n.cb, script, clock.last)
      ensures old(clock.last) <= clock.last && batch == old(batch)
    {
      var cb := n.cb;
      script := [];
      var key := IntKey(cb.key);
      var isValid := key in keyToTimerId && keyToTimerId[key] == cb.id;
      if isValid {
        script := RunCurrent(n);
      }
    }

    ghost method BookRun(cb: Callback)
      requires cb.Keyed? && cb.id in hist
      modifies this`hist
      ensures State() == Called(old(State()), cb)
    {
      hist := hist[cb.id := hist[cb.id].(runs := hist[cb.id].runs + 1,
                                         calls := hist[cb.id].calls + if cb.key in keyToTimerId then 1 else 0)];
    }

    // The closure of an id that its key still maps to.
    method RunCurrent(n: Node) returns (ghost script: seq<TimedOp>)
      requires ValidIn([n], -1) && n.repeat != 0 && Current(State(), n.cb)
      modifies this, clock
      ensures State() == Finish(ApplyAll(Called(old(State()), n.cb),
                                         if n.cb.key in old(keyToTimerId) then script else []), n.cb, clock.last)
      ensures old(clock.last) <= clock.last && batch == old(batch)
    {
      var cb := n.cb;
      script := [];
      ghost var m := State();
      CallKeeps(m, n);
      BookRun(cb);
      if cb.key in keyToTimerId {
        script := CallUser(cb.user, [n], cb.id);
      }
      FinishClosure(cb);
    }

    // The closure of a timer without a key.
    method RunPlain(tag: int, user: UserFn, ghost n: Node) returns (ghost script: seq<TimedOp>)
      requires ValidIn([n], -1)
      modifies this, clock
      ensures State() == ApplyAll(PlainCalled(old(State()), tag), script)
      ensures old(clock.last) <= clock.last && batch == old(batch)
    {
      SameTables(State(), PlainCalled(State(), tag), [n], -1);
      plain := PlainCalled(State(), tag).plain;
      script := CallUser(user, [n], -1);
    }

    // OnTimer on a copy of the node, which goes back into the multimap unless its
    // count has run out.
    method FireOne(n: Node) returns (ghost script: seq<TimedOp>)
      requires ValidIn([n], -1)
      modifies this, clock
      ensures old(clock.last) <= clock.last && batch == old(batch)
      ensures State() == FireNode(old(State()), n, script, clock.last)
    {
      var t := n;
      script := [];
      if t.repeat != 0 {
        match t.cb {
          case Plain(tag, user) => script := RunPlain(tag, user, n);
          case Keyed(_, _, _) => script := RunKeyed(t);
        }
        assert State() == Run(old(State()), n.cb, script, clock.last);
        t := t.(time := t.time + t.period);
        if t.repeat > 0 {
          t := t.(repeat := t.repeat - 1);
        }
      }
      assert t == Aged(n);
      if t.repeat != 0 {
        timers := Insert(timers, t);
      }
    }

    // One turn of the second loop of Update.
    method FireNext(n: Node) returns (ghost script: seq<TimedOp>)
      requires Valid() && batch != [] && n == batch[0]
      modifies this, clock
      ensures Valid() && old(clock.last) <= clock.last
      ensures batch == old(batch)[1..]
      ensures State() == Next(old(State()), FireFirst(script, clock.last))
    {
      TakeFirstKeeps(State());
      batch := batch[1..];
      ghost var m := State();
      script := FireOne(n);
      FireNodeKeeps(m, n, script, clock.last);
    }

    // The first loop of Update: take the nodes that are due, at most a hundred.
    method TakeDue(now: int) returns (triggered: seq<Node>)
      requires Valid() && batch == []
      modifies this
      ensures Valid() && State() == Next(old(State()), Collect(now)) && batch == triggered
    {
      CollectKeeps(State(), now);
      var processedCount := 0;
      triggered := [];
      while |timers| > 0 && timers[0].time <= now && processedCount < MAX_PER_UPDATE
        invariant processedCount == |triggered| <= MAX_PER_UPDATE
        invariant processedCount <= |old(timers)|
        invariant triggered == old(timers)[..processedCount] && timers == old(timers)[processedCount..]
        invariant forall i :: 0 <= i < processedCount ==> old(timers)[i].time <= now
        invariant State() == old(State()).(queue := timers)
        decreases |timers|
      {
        triggered := triggered + [timers[0]];
        timers := timers[1..];
        processedCount := processedCount + 1;
      }
      DueCountIs(old(timers), now, MAX_PER_UPDATE, processedCount);
      batch := triggered;
    }

    method Update() returns (ghost steps: seq<Step>)
      requires Valid() && batch == []
      modifies this, clock
      ensures Valid() && batch == [] && old(clock.last) <= clock.last
      ensures Exec(old(State()), steps) == Some(State())
      ensures old(timers) == [] ==> steps == []
      // one collection, and then one firing for each node it took
      ensures old(timers) != [] ==>
                && steps != [] && steps[0].Collect? && old(clock.last) <= steps[0].now
                && |steps| == 1 + |Next(old(State()), steps[0]).batch|
                && forall i :: 1 <= i < |steps| ==> steps[i].FireFirst?
    {
      steps := [];
      if |timers| == 0 {
        return;
      }
      var now := clock.Now();
      assert State() == old(State());
      var triggered := TakeDue(now);
      ghost var s0 := Collect(now);
      ghost var m0 := old(State());
      steps := [s0];
      assert steps[..|steps| - 1] == [];
      assert Exec(m0, []) == Some(m0);
      assert Exec(m0, steps) == Some(State());
      for i := 0 to |triggered|
        invariant Valid() && batch == triggered[i..] && old(clock.last) <= clock.last
        invariant |steps| == i + 1 && steps[0] == s0
        invariant forall j :: 1 <= j < |steps| ==> steps[j].FireFirst?
        invariant Exec(m0, steps) == Some(State())
      {
        ghost var script := FireNext(triggered[i]);
        ExecExtend(m0, steps, FireFirst(script, clock.last));
        steps := steps + [FireFirst(script, clock.last)];
      }
    }

    // -1 exactly when nothing is queued; otherwise the wait for the first node.
    method GetNextTick() returns (res: int)
      requires Valid()
      modifies clock
      ensures old(clock.last) <= clock.last
      ensures res >= -1 && (res == -1 <==> timers == [])
      ensures timers != [] ==>
                && res == Wait(timers[0].time - clock.last)
                && forall n :: n in timers ==> timers[0].time <= n.time
    {
      if |timers| == 0 {
        return -1;
      }
      var now := clock.Now();
      var next := timers[0].time;
      var diff := ToInt32(next - now);
      res := if diff > 0 then diff else 0;
    }
  }

  // The wait computed from the time left to the first node: the 64-bit difference is
  // narrowed to int, and a negative one becomes 0.
  function Wait(left: int): (r: nat) {
    var diff := ToInt32(left);
    if diff > 0 then diff else 0
  }

  // The wait is the time left, and none if the node is overdue, exactly if the low 32
  // bits of the difference say the same.
  lemma WaitExact(left: int)
    ensures Wait(left) == (if left > 0 then left else 0) <==>
            if left > 0 then left <= INT_MAX else (-left) % 0x1_0000_0000 <= 0x8000_0000
  {
    if left <= 0 {
      var q := -left;
      assert ToInt32(left) == if q % 0x1_0000_0000 <= 0x8000_0000 then -(q % 0x1_0000_0000)
                              else 0x1_0000_0000 - q % 0x1_0000_0000;
    }
  }

  // A timer set a millisecond ahead; the clock is read 2^31 + 1 milliseconds after its
  // time, and the wait is 2^31 - 1 ms.
  lemma LongOverdueWaits()
    ensures var m := Exec(INIT, [Do(TimedOp(Op.Schedule(1, 1, 7), 0))]);
            && m.Some? && m.value.queue == [Node(1, Plain(0, 7), 1, 1)]
            && Wait(m.value.queue[0].time - (1 + 0x8000_0001)) == INT_MAX
  {
    var s := Do(TimedOp(Op.Schedule(1, 1, 7), 0));
    assert [] + [s] == [s] && Exec(INIT, []) == Some(INIT);
    ExecExtend(INIT, [], s);
  }
}
