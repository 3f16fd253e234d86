// When the timers of the multimap timer manager run, from the operations of a run alone.
//
// A timer without a key is told by the operation of its tag, one with a key by the operation
// of its id: both are issued in the order in which operations are carried out.
module MapTimerTimes {
  import opened Prelude
  import opened MapTimerSpec
  import opened MapTimerNodes

  // The operations that a step carries out: those of a user function only if it is called.
  function Ran(m: Mgr, s: Step): seq<TimedOp> {
    match s
    case Do(t) => [t]
    case Collect(_) => []
    case FireFirst(script, _) =>
      if m.batch == [] || m.batch[0].repeat == 0 then []
      else if m.batch[0].cb.Plain? then script
      else if Current(m, m.batch[0].cb) && m.batch[0].cb.key in m.keys then script
      else []
  }

  // Those that schedule, with a key or without.
  function Scheduling(ts: seq<TimedOp>, keyed: bool): (r: seq<TimedOp>)
    ensures forall t :: t in r ==> if keyed then t.op.ScheduleWithKey? else t.op.Schedule?
  {
    if ts == [] then []
    else
      var t := ts[|ts| - 1];
      Scheduling(ts[..|ts| - 1], keyed) + if (if keyed then t.op.ScheduleWithKey? else t.op.Schedule?) then [t] else []
  }

  function Issued(steps: seq<Step>, keyed: bool): (r: seq<TimedOp>)
    ensures forall t :: t in r ==> if keyed then t.op.ScheduleWithKey? else t.op.Schedule?
  {
    if steps == [] then []
    else
      var init := steps[..|steps| - 1];
      Issued(init, keyed) +
      if Exec(INIT, init).Some? then Scheduling(Ran(Exec(INIT, init).value, steps[|steps| - 1]), keyed) else []
  }

  // No period is below a millisecond.
  function PeriodOf(op: Op): int
    requires !op.CancelByKey?
  {
    if op.ms <= 0 then 1 else op.ms
  }

  lemma IssuedMore(init: seq<Step>, s: Step, keyed: bool)
    requires Exec(INIT, init).Some?
    ensures Issued(init + [s], keyed) == Issued(init, keyed) + Scheduling(Ran(Exec(INIT, init).value, s), keyed)
  {
    assert (init + [s])[..|init + [s]| - 1] == init;
  }

  lemma SchedulingOne(t: TimedOp, keyed: bool)
    ensures Scheduling([t], keyed) == if (if keyed then t.op.ScheduleWithKey? else t.op.Schedule?) then [t] else []
  {
    assert [t][..0] == [];
  }

  // ---------- Timers without a key ----------

  // After c calls the node of a timer set at t with period p is due at t + (c + 1) p.
  ghost predicate PlainTimeOk(plain: map<int, PlainRecord>, issued: seq<TimedOp>, n: Node) {
    n.cb.Plain? ==>
      && 0 <= n.cb.tag < |issued| && issued[n.cb.tag].op.Schedule? && n.cb.tag in plain
      && var t := issued[n.cb.tag];
      && n.cb.user == t.op.user && n.period == PeriodOf(t.op)
      && n.time == t.now + Times(plain[n.cb.tag].calls + 1, PeriodOf(t.op))
  }

  // c times p.
  function Times(c: nat, p: int): (r: int)
    ensures r == c * p
  {
    if c == 0 then 0 else Times(c - 1, p) + p
  }

  ghost predicate PlainTimes(m: Mgr, issued: seq<TimedOp>) {
    && m.nextTag == |issued|
    && (forall tag :: tag in m.plain ==>
          0 <= tag < |issued| && issued[tag].op.Schedule? && m.plain[tag].repeat == issued[tag].op.repeat)
    && (forall n :: n in m.queue || n in m.batch ==> PlainTimeOk(m.plain, issued, n))
  }

  lemma ApplyPlainTimes(m: Mgr, t: TimedOp, issued: seq<TimedOp>, hand: int)
    requires PlainInv(m, hand) && hand < m.nextTag && PlainTimes(m, issued)
    ensures PlainTimes(Apply(m, t), issued + if t.op.Schedule? then [t] else [])
  {
    var b := Apply(m, t);
    var all := issued + if t.op.Schedule? then [t] else [];
    if t.op.Schedule? {
      InsertMembers(m.queue, Node(t.now + AtLeastOne(t.op.ms), Plain(m.nextTag, t.op.user), AtLeastOne(t.op.ms), t.op.repeat));
      assert Times(1, PeriodOf(t.op)) == Times(0, PeriodOf(t.op)) + PeriodOf(t.op);
    } else if t.op.ScheduleWithKey? {
      InsertMembers(m.queue, Node(t.now + AtLeastOne(t.op.ms), Keyed(m.nextId, t.op.key, t.op.user), AtLeastOne(t.op.ms), t.op.repeat));
    }
    forall n | n in b.queue || n in b.batch
      ensures PlainTimeOk(b.plain, all, n)
    {
      if n in m.queue || n in m.batch {
        assert PlainTimeOk(m.plain, issued, n);
      }
    }
  }

  lemma {:induction false} ApplyAllPlainTimes(m: Mgr, ts: seq<TimedOp>, issued: seq<TimedOp>, hand: int)
    requires PlainInv(m, hand) && hand < m.nextTag && PlainTimes(m, issued)
    ensures PlainTimes(ApplyAll(m, ts), issued + Scheduling(ts, false))
  {
    if ts == [] {
      assert issued + [] == issued;
    } else {
      var init, t := ts[..|ts| - 1], ts[|ts| - 1];
      ApplyAllPlainTimes(m, init, issued, hand);
      ApplyAllPlain(m, init, hand);
      ApplyPlainTimes(ApplyAll(m, init), t, issued + Scheduling(init, false), hand);
      Assoc(issued, Scheduling(init, false), if t.op.Schedule? then [t] else []);
    }
  }

  lemma Assoc(a: seq<TimedOp>, b: seq<TimedOp>, c: seq<TimedOp>)
    ensures a + b + c == a + (b + c)
  {
  }

  // A closure queues no node of a timer without a key.
  lemma FinishPlainTimes(a: Mgr, cb: Callback, now: int, issued: seq<TimedOp>)
    requires cb.Keyed? && PlainTimes(a, issued)
    ensures PlainTimes(Finish(a, cb, now), issued)
  {
    if cb.id in a.repeats {
      var (remaining, period) := a.repeats[cb.id];
      InsertMembers(a.queue, Node(now + period, cb, period, if remaining > 0 then remaining - 1 else remaining));
    }
  }

  lemma RequeuePlainTimes(m: Mgr, n: Node, issued: seq<TimedOp>)
    requires PlainTimes(m, issued) && PlainTimeOk(m.plain, issued, Aged(n))
    ensures PlainTimes(Requeue(m, n), issued)
  {
    InsertMembers(m.queue, Aged(n));
  }

  lemma {:induction false} FirePlainTimes(m: Mgr, script: seq<TimedOp>, now: int, issued: seq<TimedOp>)
    requires PlainInv(m, -1) && PlainTimes(m, issued)
    requires m.batch != [] && m.batch[0].cb.Plain? && m.batch[0].repeat != 0
    ensures PlainTimes(Next(m, FireFirst(script, now)), issued + Scheduling(script, false))
  {
    var n, p := m.batch[0], m.(batch := m.batch[1..]);
    var tag := n.cb.tag;
    var c := PlainCalled(p, tag);
    assert PlainNodeOk(m.plain, n) && PlainTimeOk(m.plain, issued, n);
    CallPlainKeeps(m);
    OnlyOne(c, tag);
    forall x | x in c.queue || x in c.batch
      ensures PlainTimeOk(c.plain, issued, x)
    {
      assert PlainTimeOk(m.plain, issued, x);
    }
    ApplyAllPlainTimes(c, script, issued, tag);
    ApplyAllPlain(c, script, tag);
    AgedTime(m.plain, ApplyAll(c, script).plain, issued, issued + Scheduling(script, false), n);
    RequeuePlainTimes(ApplyAll(c, script), n, issued + Scheduling(script, false));
  }

  lemma AgedTime(plain: map<int, PlainRecord>, after: map<int, PlainRecord>, issued: seq<TimedOp>, all: seq<TimedOp>, n: Node)
    requires n.cb.Plain? && n.repeat != 0 && PlainTimeOk(plain, issued, n) && issued <= all
    requires n.cb.tag in after && after[n.cb.tag].calls == plain[n.cb.tag].calls + 1
    ensures PlainTimeOk(after, all, Aged(n))
  {
    assert all[n.cb.tag] == issued[n.cb.tag];
    var c, p := plain[n.cb.tag].calls, n.period;
    assert Times(c + 2, p) == Times(c + 1, p) + p;
  }

  lemma FireKeyedTimes(m: Mgr, script: seq<TimedOp>, now: int, issued: seq<TimedOp>)
    requires PlainInv(m, -1) && PlainTimes(m, issued)
    requires m.batch != [] && (m.batch[0].cb.Keyed? || m.batch[0].repeat == 0)
    ensures PlainTimes(Next(m, FireFirst(script, now)), issued + Scheduling(Ran(m, FireFirst(script, now)), false))
  {
    var n, p := m.batch[0], m.(batch := m.batch[1..]);
    DropOtherPlain(m);
    assert PlainTimes(p, issued);
    assert issued + [] == issued;
    if n.repeat != 0 && Current(p, n.cb) {
      var ts := if n.cb.key in p.keys then script else [];
      SamePlain(p, Called(p, n.cb), -1);
      ApplyAllPlainTimes(Called(p, n.cb), ts, issued, -1);
      FinishPlainTimes(ApplyAll(Called(p, n.cb), ts), n.cb, now, issued + Scheduling(ts, false));
      RequeuePlainTimes(Run(p, n.cb, script, now), n, issued + Scheduling(ts, false));
    } else if n.repeat != 0 {
      RequeuePlainTimes(p, n, issued);
    }
  }

  lemma CollectPlainTimes(m: Mgr, now: int, issued: seq<TimedOp>)
    requires PlainTimes(m, issued) && m.batch == []
    ensures PlainTimes(Next(m, Collect(now)), issued)
  {
    var c := Next(m, Collect(now));
    forall n | n in c.queue || n in c.batch
      ensures PlainTimeOk(c.plain, issued, n)
    {
      assert n in m.queue;
    }
  }

  lemma {:induction false} RunPlainTimes(steps: seq<Step>)
    requires Exec(INIT, steps).Some?
    ensures PlainTimes(Exec(INIT, steps).value, Issued(steps, false))
  {
    if steps != [] {
      var init, s := steps[..|steps| - 1], steps[|steps| - 1];
      RunPlainTimes(init);
      PlainRunKeeps(init);
      assert init + [s] == steps;
      IssuedMore(init, s, false);
      var p := Exec(INIT, init).value;
      match s {
        case Do(t) =>
          SchedulingOne(t, false);
          ApplyPlainTimes(p, t, Issued(init, false), -1);
        case Collect(now) =>
          assert Issued(init, false) + [] == Issued(init, false);
          CollectPlainTimes(p, now, Issued(init, false));
        case FireFirst(script, now) =>
          if p.batch[0].cb.Plain? && p.batch[0].repeat != 0 {
            FirePlainTimes(p, script, now, Issued(init, false));
          } else {
            FireKeyedTimes(p, script, now, Issued(init, false));
          }
      }
    }
  }

  // ---------- When they are called ----------

  // The reading of the last Update.
  function CollectedAt(steps: seq<Step>): int {
    if steps == [] then 0
    else if steps[|steps| - 1].Collect? then steps[|steps| - 1].now
    else CollectedAt(steps[..|steps| - 1])
  }

  // Update has taken only nodes that were due.
  lemma {:induction false} BatchIsDue(steps: seq<Step>)
    requires Exec(INIT, steps).Some?
    ensures forall n :: n in Exec(INIT, steps).value.batch ==> n.time <= CollectedAt(steps)
  {
    if steps != [] {
      var init, s := steps[..|steps| - 1], steps[|steps| - 1];
      BatchIsDue(init);
      RunKeeps(init);
      var p := Exec(INIT, init).value;
      match s {
        case Do(t) => ApplyBatch(p, t);
        case Collect(now) => CollectTakesAllDue(p, now);
        case FireFirst(script, now) => FireBatch(p, script, now);
      }
    }
  }

  lemma ApplyBatch(m: Mgr, t: TimedOp)
    ensures Apply(m, t).batch == m.batch
  {
  }

  lemma {:induction false} ApplyAllBatch(m: Mgr, ts: seq<TimedOp>)
    ensures ApplyAll(m, ts).batch == m.batch
  {
    if ts != [] { ApplyAllBatch(m, ts[..|ts| - 1]); }
  }

  lemma FireBatch(m: Mgr, script: seq<TimedOp>, now: int)
    requires m.batch != []
    ensures Next(m, FireFirst(script, now)).batch == m.batch[1..]
  {
    var n, p := m.batch[0], m.(batch := m.batch[1..]);
    if n.repeat != 0 {
      match n.cb {
        case Plain(tag, _) => ApplyAllBatch(PlainCalled(p, tag), script);
        case Keyed(_, key, _) => ApplyAllBatch(Called(p, n.cb), if key in p.keys then script else []);
      }
    }
  }

  lemma {:induction false} FirstIsDue(before: seq<Step>)
    requires Exec(INIT, before).Some? && Exec(INIT, before).value.batch != []
    ensures var m := Exec(INIT, before).value;
            && m.batch[0].time <= CollectedAt(before)
            && PlainTimeOk(m.plain, Issued(before, false), m.batch[0])
            && (m.batch[0].cb.Plain? ==> m.plain[m.batch[0].cb.tag].calls == PlainCalls(before, m.batch[0].cb.tag))
  {
    RunPlainTimes(before);
    PlainRunKeeps(before);
    BatchIsDue(before);
    assert Exec(INIT, before).value.batch[0] in Exec(INIT, before).value.batch;
  }

  // In every run the call of a timer without a key that comes after c others is made by an
  // Update that reads no less than c + 1 periods after the operation that set it.
  lemma PlainNeverEarly(before: seq<Step>, s: Step, tag: int)
    requires Exec(INIT, before).Some? && CallsPlain(Exec(INIT, before).value, s, tag)
    ensures 0 <= tag < |Issued(before, false)| && Issued(before, false)[tag].op.Schedule?
    ensures var t := Issued(before, false)[tag];
            && Exec(INIT, before).value.batch[0].cb.user == t.op.user
            && CollectedAt(before) >= t.now + Times(PlainCalls(before, tag) + 1, if t.op.ms <= 0 then 1 else t.op.ms)
  {
    FirstIsDue(before);
  }

  // ---------- Timers with a key ----------

  function Reading(steps: seq<Step>, start: int): int {
    if steps == [] then start
    else
      match steps[|steps| - 1]
      case Do(t) => t.now
      case Collect(now) => now
      case FireFirst(_, now) => now
  }

  // The readings of the clock do not run backwards.
  ghost predicate Timely(steps: seq<Step>, start: int) {
    steps == [] ||
    var init, s := steps[..|steps| - 1], steps[|steps| - 1];
    && Timely(init, start) && Reading(init, start) <= Reading(steps, start)
    && (s.FireFirst? ==> Between(s.script, Reading(init, start), s.now))
  }

  ghost predicate Between(ts: seq<TimedOp>, low: int, high: int) {
    forall t :: t in ts ==> low <= t.now <= high
  }

  predicate RecordOf(r: Record, t: TimedOp) {
    && t.op.ScheduleWithKey? && r.key == t.op.key && r.period == PeriodOf(t.op)
    && r.repeat == t.op.repeat && r.user == t.op.user
  }

  // The record of each id is that of its operation, which is not later than `now`, and none
  // of its nodes is due before its period after that.
  ghost predicate KeyedTimes(m: Mgr, issued: seq<TimedOp>, now: int) {
    && m.nextId == |issued| && (forall t :: t in issued ==> t.now <= now)
    && (forall id :: id in m.hist ==> 0 <= id < |issued| && RecordOf(m.hist[id], issued[id]))
    && (forall n :: n in m.queue || n in m.batch ==> KeyedTimeOk(issued, n))
  }

  ghost predicate KeyedTimeOk(issued: seq<TimedOp>, n: Node) {
    n.cb.Keyed? ==>
      && 0 <= n.cb.id < |issued| && issued[n.cb.id].op.ScheduleWithKey?
      && n.time >= issued[n.cb.id].now + PeriodOf(issued[n.cb.id].op)
  }

  lemma Later(m: Mgr, issued: seq<TimedOp>, now: int, then_: int)
    requires KeyedTimes(m, issued, now) && now <= then_
    ensures KeyedTimes(m, issued, then_)
  {
  }

  lemma ApplyKeyedTimes(m: Mgr, t: TimedOp, issued: seq<TimedOp>, now: int)
    requires Tables(m) && KeyedTimes(m, issued, now) && t.now <= now
    ensures KeyedTimes(Apply(m, t), issued + if t.op.ScheduleWithKey? then [t] else [], now)
    ensures Tables(Apply(m, t))
  {
    ApplyExtends(m, t);
    var b, all := Apply(m, t), issued + if t.op.ScheduleWithKey? then [t] else [];
    ApplyRecords(m, t);
    if t.op.Schedule? {
      InsertMembers(m.queue, Node(t.now + AtLeastOne(t.op.ms), Plain(m.nextTag, t.op.user), AtLeastOne(t.op.ms), t.op.repeat));
    } else if t.op.ScheduleWithKey? {
      InsertMembers(m.queue, Node(t.now + AtLeastOne(t.op.ms), Keyed(m.nextId, t.op.key, t.op.user), AtLeastOne(t.op.ms), t.op.repeat));
    }
    forall n | n in b.queue || n in b.batch
      ensures KeyedTimeOk(all, n)
    {
      if n in m.queue || n in m.batch {
        assert KeyedTimeOk(issued, n);
      }
    }
    forall id | id in b.hist
      ensures 0 <= id < |all| && RecordOf(b.hist[id], all[id])
    {
      if id in m.hist { assert all[id] == issued[id]; }
    }
  }

  ghost predicate SameButDropped(a: map<int, Record>, b: map<int, Record>) {
    && (forall id :: id in a <==> id in b)
    && (forall id :: id in a ==> b[id] == a[id].(dropped := b[id].dropped))
  }

  lemma CancelRecords(m: Mgr, key: Key)
    requires Tables(m)
    ensures Cancel(m, key).nextId == m.nextId && SameButDropped(m.hist, Cancel(m, key).hist)
  {
  }

  // The records after an operation: the old ones, but for `dropped`, and that of a new id.
  lemma ApplyRecords(m: Mgr, t: TimedOp)
    requires Tables(m)
    ensures var b := Apply(m, t);
            && b.nextId == m.nextId + (if t.op.ScheduleWithKey? then 1 else 0)
            && (forall id :: id in m.hist ==> id in b.hist && b.hist[id] == m.hist[id].(dropped := b.hist[id].dropped))
            && (forall id :: id in b.hist ==> id in m.hist || (t.op.ScheduleWithKey? && id == m.nextId))
            && (t.op.ScheduleWithKey? ==> m.nextId in b.hist && RecordOf(b.hist[m.nextId], t))
  {
    match t.op
    case Schedule(_, _, _) =>
    case CancelByKey(key) => CancelRecords(m, key);
    case ScheduleWithKey(key, ms, repeat, user) =>
      var c := Cancel(m, key);
      CancelKeepsTables(m, key);
      CancelRecords(m, key);
      CancelRecords(c, IntKey(key));
      assert Apply(m, t).hist ==
             Cancel(c, IntKey(key)).hist[m.nextId := Record(key, AtLeastOne(ms), repeat, user, 0, 0, false)];
  }

  lemma {:induction false} ApplyAllKeyedTimes(m: Mgr, ts: seq<TimedOp>, issued: seq<TimedOp>, now: int)
    requires Tables(m) && KeyedTimes(m, issued, now) && forall t :: t in ts ==> t.now <= now
    ensures KeyedTimes(ApplyAll(m, ts), issued + Scheduling(ts, true), now) && Tables(ApplyAll(m, ts))
  {
    if ts == [] {
      assert issued + [] == issued;
    } else {
      var init, t := ts[..|ts| - 1], ts[|ts| - 1];
      assert t in ts && forall x :: x in init ==> x in ts;
      ApplyAllKeyedTimes(m, init, issued, now);
      ApplyKeyedTimes(ApplyAll(m, init), t, issued + Scheduling(init, true), now);
      Assoc(issued, Scheduling(init, true), if t.op.ScheduleWithKey? then [t] else []);
    }
  }

  // The closure queues its node a period after a reading that is not before its operation.
  lemma FinishKeyedTimes(a: Mgr, n: Node, now: int, issued: seq<TimedOp>)
    requires n.cb.Keyed? && KeyedTimes(a, issued, now) && KeyedTimeOk(issued, n)
    requires n.cb.id in a.hist && Account(a, [n], n.cb.id, true) && n.cb.key == a.hist[n.cb.id].key
    ensures KeyedTimes(Finish(a, n.cb, now), issued, now)
  {
    if Current(a, n.cb) && n.cb.id in a.repeats {
      var (remaining, period) := a.repeats[n.cb.id];
      assert Valid(a, n.cb.id);
      assert period == a.hist[n.cb.id].period == PeriodOf(issued[n.cb.id].op) && issued[n.cb.id] in issued;
      InsertMembers(a.queue, Node(now + period, n.cb, period, if remaining > 0 then remaining - 1 else remaining));
    }
  }

  lemma RequeueKeyedTimes(m: Mgr, n: Node, issued: seq<TimedOp>, now: int)
    requires KeyedTimes(m, issued, now) && KeyedTimeOk(issued, n) && (n.cb.Keyed? && n.repeat != 0 ==> n.period >= 0)
    ensures KeyedTimes(Requeue(m, n), issued, now)
  {
    InsertMembers(m.queue, Aged(n));
  }

  lemma RunKeyedTimes(m: Mgr, n: Node, script: seq<TimedOp>, now: int, issued: seq<TimedOp>)
    requires Inv(m, [n], -1) && n.repeat != 0 && KeyedTimes(m, issued, now) && KeyedTimeOk(issued, n)
    requires forall t :: t in script ==> t.now <= now
    ensures var ts := if n.cb.Plain? then script
                      else if Current(m, n.cb) && n.cb.key in m.keys then script else [];
            KeyedTimes(Run(m, n.cb, script, now), issued + Scheduling(ts, true), now)
  {
    assert NodeOk(m, n);
    if n.cb.Plain? {
      ApplyAllKeyedTimes(PlainCalled(m, n.cb.tag), script, issued, now);
    } else if Current(m, n.cb) {
      var ts := if n.cb.key in m.keys then script else [];
      CallKeeps(m, n);
      CalledTimes(m, n, issued, now);
      ApplyAllKeyedTimes(Called(m, n.cb), ts, issued, now);
      ApplyAllKeeps(Called(m, n.cb), ts, [n], n.cb.id);
      var a := ApplyAll(Called(m, n.cb), ts);
      assert NodeOk(a, n) && Account(a, [n], n.cb.id, true);
      FinishKeyedTimes(a, n, now, issued + Scheduling(ts, true));
    } else {
      assert issued + [] == issued;
    }
  }

  lemma CalledTimes(m: Mgr, n: Node, issued: seq<TimedOp>, now: int)
    requires n.cb.Keyed? && KeyedTimes(m, issued, now) && n.cb.id in m.hist
    ensures KeyedTimes(Called(m, n.cb), issued, now)
  {
  }

  lemma FireFirstKeyedTimes(m: Mgr, script: seq<TimedOp>, now: int, issued: seq<TimedOp>)
    requires Inv(m, [], -1) && m.batch != [] && KeyedTimes(m, issued, now)
    requires forall t :: t in script ==> t.now <= now
    ensures KeyedTimes(Next(m, FireFirst(script, now)), issued + Scheduling(Ran(m, FireFirst(script, now)), true), now)
  {
    var n, p := m.batch[0], m.(batch := m.batch[1..]);
    TakeFirstKeeps(m);
    assert NodeOk(m, n) && KeyedTimeOk(issued, n);
    assert KeyedTimes(p, issued, now);
    assert n.cb.Keyed? ==> n.period == m.hist[n.cb.id].period && n.cb.id in m.hist;
    if n.repeat == 0 {
      assert issued + [] == issued;
    } else {
      RunKeyedTimes(p, n, script, now, issued);
      var all := issued + Scheduling(Ran(m, FireFirst(script, now)), true);
      assert n.cb.Keyed? ==> all[n.cb.id] == issued[n.cb.id];
      RequeueKeyedTimes(Run(p, n.cb, script, now), n, all, now);
    }
  }

  lemma CollectKeyedTimes(m: Mgr, now: int, issued: seq<TimedOp>, reading: int)
    requires KeyedTimes(m, issued, reading) && m.batch == []
    ensures KeyedTimes(Next(m, Collect(now)), issued, reading)
  {
    var c := Next(m, Collect(now));
    forall n | n in c.queue || n in c.batch
      ensures KeyedTimeOk(issued, n)
    {
      assert n in m.queue;
    }
  }

  lemma {:induction false} RunKeyedAll(steps: seq<Step>, start: int)
    requires Exec(INIT, steps).Some? && Timely(steps, start)
    ensures KeyedTimes(Exec(INIT, steps).value, Issued(steps, true), Reading(steps, start))
  {
    if steps != [] {
      var init, s := steps[..|steps| - 1], steps[|steps| - 1];
      RunKeyedAll(init, start);
      RunKeeps(init);
      assert init + [s] == steps;
      IssuedMore(init, s, true);
      var p, now := Exec(INIT, init).value, Reading(steps, start);
      Later(p, Issued(init, true), Reading(init, start), now);
      match s {
        case Do(t) =>
          SchedulingOne(t, true);
          ApplyKeyedTimes(p, t, Issued(init, true), now);
        case Collect(at) =>
          assert Issued(init, true) + [] == Issued(init, true);
          CollectKeyedTimes(p, at, Issued(init, true), now);
        case FireFirst(script, at) =>
          FireFirstKeyedTimes(p, script, at, Issued(init, true));
      }
    }
  }

  lemma FirstKeyedIsDue(before: seq<Step>, start: int)
    requires Exec(INIT, before).Some? && Exec(INIT, before).value.batch != [] && Timely(before, start)
    ensures var m := Exec(INIT, before).value;
            && m.batch[0].time <= CollectedAt(before) && KeyedTimeOk(Issued(before, true), m.batch[0])
            && NodeOk(m, m.batch[0])
            && (forall id :: id in m.hist ==>
                  0 <= id < |Issued(before, true)| && RecordOf(m.hist[id], Issued(before, true)[id]))
  {
    RunKeyedAll(before, start);
    RunKeeps(before);
    BatchIsDue(before);
    assert Exec(INIT, before).value.batch[0] in Exec(INIT, before).value.batch;
  }

  // In every run a timer with a key is called for the user of the operation that issued it,
  // by an Update that reads no less than its period after that operation.
  lemma KeyedNeverEarly(before: seq<Step>, s: Step, id: int, start: int)
    requires Exec(INIT, before).Some? && Calls(Exec(INIT, before).value, s, id) && Timely(before, start)
    ensures 0 <= id < |Issued(before, true)| && Issued(before, true)[id].op.ScheduleWithKey?
    ensures var t := Issued(before, true)[id];
            && Exec(INIT, before).value.batch[0].cb.user == t.op.user
            && CollectedAt(before) >= t.now + if t.op.ms <= 0 then 1 else t.op.ms
  {
    FirstKeyedIsDue(before, start);
  }

  // Cancelling drops the timer that the key holds and no other; of the others it leaves the
  // counts and the keys, and of all the nodes, as they are.
  lemma CancelsOnlyItsKey(m: Mgr, key: Key)
    requires Tables(m)
    ensures var b := Apply(m, TimedOp(CancelByKey(key), 0));
            && b.queue == m.queue && b.batch == m.batch && key !in b.keys
            && (forall k :: k in m.keys && k != key ==> k in b.keys && b.keys[k] == m.keys[k])
            && (forall id :: id in m.hist ==>
                  id in b.hist && (b.hist[id].dropped <==> m.hist[id].dropped || (key in m.keys && m.keys[key] == id)))
            && (forall id :: id in m.repeats <==> id in b.repeats || (key in m.keys && m.keys[key] == id && id in m.repeats))
            && (forall id :: id in b.repeats ==> id in m.repeats && b.repeats[id] == m.repeats[id])
  {
  }

  // Scheduling with a key drops what the key holds, as given and as an int, and nothing else;
  // without a key it drops nothing.
  lemma SchedulesAndDrops(m: Mgr, t: TimedOp)
    requires Tables(m) && !t.op.CancelByKey?
    ensures var b := Apply(m, t);
            && (forall id :: id in m.hist ==>
                  id in b.hist && (b.hist[id].dropped <==>
                    m.hist[id].dropped || (t.op.ScheduleWithKey? && exists k: Key ::
                      (k == t.op.key || k == IntKey(t.op.key)) && k in m.keys && m.keys[k] == id)))
            && (t.op.ScheduleWithKey? ==>
                  IntKey(t.op.key) in b.keys && b.keys[IntKey(t.op.key)] == m.nextId && !b.hist[m.nextId].dropped)
  {
    if t.op.ScheduleWithKey? {
      var key := t.op.key;
      CancelKeepsTables(m, key);
      CancelsOnlyItsKey(m, key);
      CancelsOnlyItsKey(Cancel(m, key), IntKey(key));
      CancelRecords(m, key);
      CancelRecords(Cancel(m, key), IntKey(key));
      ApplyRecords(m, t);
    }
  }
}
