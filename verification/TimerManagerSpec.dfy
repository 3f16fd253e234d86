// What the heap timer manager (v0::TimerManager) does, as a state machine over
// the abstract value of its heap, and what holds in every run of it.
//
// A user function may do anything to the manager when it is called: each firing
// carries an arbitrary script of operations with the clock readings they see.
module TimerManagerSpec {
  import opened Prelude
  import Runs
  import opened HeapTimer

  // Names a user function.
  type UserFn = nat

  datatype Op =
    | Schedule(ms: Int32, repeat: Int32, user: UserFn)
    | ScheduleWithKey(key: int, ms: Int32, repeat: Int32, user: UserFn)
    | CancelByKey(key: int)

  datatype TimedOp = TimedOp(op: Op, now: int)

  // What the closure stored in a node captures.
  datatype Callback = Callback(id: int, key: Option<int>, user: UserFn)

  // History of one issued id: how it was scheduled, how often its user function
  // was called, and whether it was cancelled or replaced through its key.
  datatype Record = Record(key: Option<int>, period: Int32, repeat: Int32, user: UserFn,
                           calls: nat, dropped: bool)

  datatype Mgr = Mgr(nodes: map<int, Node<Callback>>,
                     repeats: map<int, (int, Int32)>,
                     keys: map<int, int>,
                     nextId: int,
                     hist: map<int, Record>)

  const INIT: Mgr := Mgr(map[], map[], map[], 0, map[])

  // ---------- Operations ----------

  function Cancel(m: Mgr, key: int): Mgr {
    if key !in m.keys then m else
      var id := m.keys[key];
      m.(nodes := m.nodes - {id},
         repeats := m.repeats - {id},
         keys := m.keys - {key},
         hist := if id in m.hist then m.hist[id := m.hist[id].(dropped := true)] else m.hist)
  }

  // Issue the next id and arm its node.
  function Arm(m: Mgr, key: Option<int>, ms: Int32, repeat: Int32, user: UserFn, now: int): Mgr {
    var id := m.nextId;
    m.(nodes := m.nodes[id := Node(id, now + ms * MS, Callback(id, key, user))],
       repeats := if repeat != 0 then m.repeats[id := (repeat, ms)] else m.repeats,
       keys := if key.Some? then m.keys[key.value := id] else m.keys,
       nextId := id + 1,
       hist := m.hist[id := Record(key, ms, repeat, user, 0, false)])
  }

  function Apply(m: Mgr, t: TimedOp): Mgr {
    match t.op
    case Schedule(ms, repeat, user) => Arm(m, None, ms, repeat, user, t.now)
    case ScheduleWithKey(key, ms, repeat, user) => Arm(Cancel(m, key), Some(key), ms, repeat, user, t.now)
    case CancelByKey(key) => Cancel(m, key)
  }

  function ApplyAll(m: Mgr, ts: seq<TimedOp>): Mgr {
    if ts == [] then m else Apply(ApplyAll(m, ts[..|ts| - 1]), ts[|ts| - 1])
  }

  // The part of the closure after the user function has returned.
  function Finish(m: Mgr, cb: Callback, now: int): Mgr {
    var id := cb.id;
    if cb.key.Some? && !(cb.key.value in m.keys && m.keys[cb.key.value] == id) then m
    else if id in m.repeats then
      var (remaining, period) := m.repeats[id];
      if remaining > 0 then
        if remaining - 1 == 0 then
          m.(repeats := m.repeats - {id},
             keys := if cb.key.Some? then m.keys - {cb.key.value} else m.keys)
        else
          m.(repeats := m.repeats[id := (remaining - 1, period)],
             nodes := m.nodes[id := Node(id, now + period * MS, cb)])
      else if remaining == -1 then
        m.(nodes := m.nodes[id := Node(id, now + period * MS, cb)])
      else m
    else if cb.key.Some? then m.(keys := m.keys - {cb.key.value})
    else m
  }

  // Does the closure reach the user function?  A keyed one checks first that its
  // key is still in the table.
  predicate Reaches(m: Mgr, cb: Callback) {
    cb.key.Some? ==> cb.key.value in m.keys
  }

  function Called(m: Mgr, id: int): Mgr {
    if id in m.hist then m.(hist := m.hist[id := m.hist[id].(calls := m.hist[id].calls + 1)]) else m
  }

  // Run the closure cb, whose node has left the heap.
  function Run(m: Mgr, cb: Callback, script: seq<TimedOp>, now: int): Mgr {
    Finish(if Reaches(m, cb) then ApplyAll(Called(m, cb.id), script) else m, cb, now)
  }

  // Remove the node of id and run its closure.
  function Fire(m: Mgr, id: int, script: seq<TimedOp>, now: int): Mgr
    requires id in m.nodes
  {
    Run(m.(nodes := m.nodes - {id}), m.nodes[id].callback, script, now)
  }

  // ---------- The invariant ----------

  ghost predicate Mapped(m: Mgr, id: int)
    requires id in m.hist
  {
    var k := m.hist[id].key;
    k.Some? && k.value in m.keys && m.keys[k.value] == id
  }

  ghost predicate NoTrace(m: Mgr, id: int)
    requires id in m.hist
  {
    id !in m.nodes && id !in m.repeats && !Mapped(m, id)
  }

  // All calls have been made.
  predicate Spent(r: Record) {
    r.repeat >= 0 && r.calls == if r.repeat == 0 then 1 else r.repeat
  }

  // A repeat count below -1 is neither a count nor "for ever": after one call the
  // source forgets the node but keeps the entries.
  predicate Stuck(r: Record) {
    r.repeat < -1 && r.calls == 1
  }

  // What the tables hold for a live id: `pending` calls are still owed.
  ghost predicate Booked(m: Mgr, id: int, pending: int)
    requires id in m.hist
  {
    var r := m.hist[id];
    && (r.key.Some? ==> Mapped(m, id))
    && (id in m.repeats <==> r.repeat != 0)
    && (id in m.repeats ==> m.repeats[id].1 == r.period)
    && (r.repeat > 0 ==> m.repeats[id].0 == pending >= 1)
    && (r.repeat < 0 ==> m.repeats[id].0 == r.repeat)
  }

  // Where one issued id stands; `firing` says that its user function is running.
  ghost predicate Account(m: Mgr, id: int, firing: bool)
    requires id in m.hist
  {
    var r := m.hist[id];
    if r.dropped then r.key.Some? && NoTrace(m, id)
    else if firing then
      && id !in m.nodes && r.calls >= 1
      && Booked(m, id, r.repeat - r.calls + 1)
      && (r.repeat == 0 || r.repeat < -1 ==> r.calls == 1)
    else if Spent(r) then NoTrace(m, id)
    else if Stuck(r) then id !in m.nodes && Booked(m, id, 0)
    else
      && id in m.nodes
      && Booked(m, id, r.repeat - r.calls)
      && (r.repeat == 0 || r.repeat < -1 ==> r.calls == 0)
  }

  ghost predicate Tables(m: Mgr) {
    && (forall id :: id in m.hist <==> 0 <= id < m.nextId)
    && (forall id :: id in m.nodes ==>
          id in m.hist && m.nodes[id].id == id
          && m.nodes[id].callback == Callback(id, m.hist[id].key, m.hist[id].user))
    && (forall id :: id in m.repeats ==> id in m.hist)
    && (forall k :: k in m.keys ==> m.keys[k] in m.hist && m.hist[m.keys[k]].key == Some(k))
    && m.nextId >= 0
  }

  // `firing` is the id whose user function is running, or -1.
  ghost predicate Inv(m: Mgr, firing: int) {
    && Tables(m)
    && (forall id :: id in m.hist ==> Account(m, id, id == firing))
  }

  lemma CancelKeeps(m: Mgr, key: int, firing: int)
    requires Inv(m, firing)
    ensures Inv(Cancel(m, key), firing)
  {
    var c := Cancel(m, key);
    if key in m.keys {
      forall id | id in c.hist
        ensures Account(c, id, id == firing)
      {
        assert Account(m, id, id == firing);
        if id != m.keys[key] {
          assert c.hist[id] == m.hist[id];
          assert Mapped(c, id) <==> Mapped(m, id);
        } else {
          assert !Mapped(c, id);
        }
      }
    }
  }

  lemma ArmKeeps(m: Mgr, key: Option<int>, ms: Int32, repeat: Int32, user: UserFn, now: int, firing: int)
    requires Inv(m, firing) && firing < m.nextId
    requires key.Some? ==> key.value !in m.keys
    ensures Inv(Arm(m, key, ms, repeat, user, now), firing)
  {
    var a := Arm(m, key, ms, repeat, user, now);
    forall id | id in a.hist
      ensures Account(a, id, id == firing)
    {
      if id != m.nextId {
        assert Account(m, id, id == firing);
        assert a.hist[id] == m.hist[id];
        assert Mapped(a, id) <==> Mapped(m, id);
      }
    }
  }

  lemma ApplyKeeps(m: Mgr, t: TimedOp, firing: int)
    requires Inv(m, firing) && firing < m.nextId
    ensures Inv(Apply(m, t), firing) && m.nextId <= Apply(m, t).nextId
  {
    match t.op
    case Schedule(ms, repeat, user) => ArmKeeps(m, None, ms, repeat, user, t.now, firing);
    case ScheduleWithKey(key, ms, repeat, user) =>
      CancelKeeps(m, key, firing);
      ArmKeeps(Cancel(m, key), Some(key), ms, repeat, user, t.now, firing);
    case CancelByKey(key) => CancelKeeps(m, key, firing);
  }

  lemma {:induction false} ApplyAllKeeps(m: Mgr, ts: seq<TimedOp>, firing: int)
    requires Inv(m, firing) && firing < m.nextId
    ensures Inv(ApplyAll(m, ts), firing) && m.nextId <= ApplyAll(m, ts).nextId
  {
    if ts != [] {
      ApplyAllKeeps(m, ts[..|ts| - 1], firing);
      ApplyKeeps(ApplyAll(m, ts[..|ts| - 1]), ts[|ts| - 1], firing);
    }
  }

  // Taking the node out and counting the call opens the firing state; in
  // particular a node in the heap always reaches its user function.
  lemma CallKeeps(m: Mgr, id: int)
    requires Inv(m, -1) && id in m.nodes
    ensures var p := m.(nodes := m.nodes - {id});
            Reaches(p, m.nodes[id].callback) && Inv(Called(p, id), id)
  {
    var p := m.(nodes := m.nodes - {id});
    var c := Called(p, id);
    assert Account(m, id, false);
    forall i | i in c.hist
      ensures Account(c, i, i == id)
    {
      assert Account(m, i, false);
      assert Mapped(c, i) <==> Mapped(m, i);
    }
  }

  lemma FinishTables(m: Mgr, cb: Callback, now: int)
    requires Inv(m, cb.id) && cb.id in m.hist
    requires cb.key == m.hist[cb.id].key && cb.user == m.hist[cb.id].user
    ensures Tables(Finish(m, cb, now))
    ensures Account(Finish(m, cb, now), cb.id, false)
  {
    assert Account(m, cb.id, true);
    assert cb.key.Some? && cb.key.value in m.keys && m.keys[cb.key.value] == cb.id <==> Mapped(m, cb.id);
  }

  lemma FinishElsewhere(m: Mgr, cb: Callback, now: int, i: int)
    requires Tables(m) && cb.id in m.hist && i in m.hist && i != cb.id
    requires cb.key == m.hist[cb.id].key && cb.user == m.hist[cb.id].user
    requires Account(m, i, false)
    ensures Account(Finish(m, cb, now), i, false)
  {
    var f := Finish(m, cb, now);
    assert f.hist == m.hist;
    assert i in f.nodes <==> i in m.nodes;
    assert i in f.repeats <==> i in m.repeats;
    assert i in m.repeats ==> f.repeats[i] == m.repeats[i];
    assert Mapped(f, i) <==> Mapped(m, i);
  }

  lemma {:induction false} FinishKeeps(m: Mgr, cb: Callback, now: int)
    requires Inv(m, cb.id) && cb.id in m.hist
    requires cb.key == m.hist[cb.id].key && cb.user == m.hist[cb.id].user
    ensures Inv(Finish(m, cb, now), -1)
  {
    var f := Finish(m, cb, now);
    FinishTables(m, cb, now);
    forall i | i in f.hist
      ensures Account(f, i, false)
    {
      if i != cb.id {
        assert Account(m, i, false);
        FinishElsewhere(m, cb, now, i);
      }
    }
  }

  // What a script leaves alone: the past of every id.  Ids it issues are uncalled.
  ghost predicate Extends(a: Mgr, b: Mgr) {
    && (forall id :: id in b.hist && id !in a.hist ==> b.hist[id].calls == 0)
    && forall id :: id in a.hist ==>
      && id in b.hist
      && b.hist[id].key == a.hist[id].key && b.hist[id].user == a.hist[id].user
      && b.hist[id].period == a.hist[id].period && b.hist[id].repeat == a.hist[id].repeat
      && b.hist[id].calls == a.hist[id].calls
      && (a.hist[id].dropped ==> b.hist[id].dropped)
  }

  lemma CancelExtends(m: Mgr, key: int)
    requires Tables(m)
    ensures Extends(m, Cancel(m, key)) && Tables(Cancel(m, key))
  {
  }

  lemma ArmExtends(m: Mgr, key: Option<int>, ms: Int32, repeat: Int32, user: UserFn, now: int)
    requires Tables(m)
    ensures Extends(m, Arm(m, key, ms, repeat, user, now)) && Tables(Arm(m, key, ms, repeat, user, now))
  {
  }

  lemma ApplyExtends(m: Mgr, t: TimedOp)
    requires Tables(m)
    ensures Extends(m, Apply(m, t)) && Tables(Apply(m, t))
  {
    match t.op
    case Schedule(ms, repeat, user) => ArmExtends(m, None, ms, repeat, user, t.now);
    case ScheduleWithKey(key, ms, repeat, user) =>
      CancelExtends(m, key);
      ArmExtends(Cancel(m, key), Some(key), ms, repeat, user, t.now);
    case CancelByKey(key) => CancelExtends(m, key);
  }

  lemma {:induction false} ApplyAllExtends(m: Mgr, ts: seq<TimedOp>)
    requires Tables(m)
    ensures Extends(m, ApplyAll(m, ts)) && Tables(ApplyAll(m, ts))
  {
    if ts != [] {
      ApplyAllExtends(m, ts[..|ts| - 1]);
      ApplyExtends(ApplyAll(m, ts[..|ts| - 1]), ts[|ts| - 1]);
    }
  }

  // What one firing of id does to the history.
  ghost predicate FiredOnce(a: Mgr, b: Mgr, id: int) {
    && id in a.hist
    && Extends(a.(hist := a.hist[id := a.hist[id].(calls := a.hist[id].calls + 1)]), b)
  }

  // A firing: the call is booked, the script runs, the closure ends.
  lemma FireIs(m: Mgr, id: int, script: seq<TimedOp>, now: int)
    requires Inv(m, -1) && id in m.nodes
    ensures var c := Called(m.(nodes := m.nodes - {id}), id);
            Inv(c, id) && Fire(m, id, script, now) == Finish(ApplyAll(c, script), m.nodes[id].callback, now)
  {
    CallKeeps(m, id);
  }

  lemma FireKeepsInv(m: Mgr, id: int, script: seq<TimedOp>, now: int)
    requires Inv(m, -1) && id in m.nodes
    ensures Inv(Fire(m, id, script, now), -1)
  {
    var c, cb := Called(m.(nodes := m.nodes - {id}), id), m.nodes[id].callback;
    FireIs(m, id, script, now);
    ApplyAllKeeps(c, script, id);
    ApplyAllExtends(c, script);
    FinishKeeps(ApplyAll(c, script), cb, now);
  }

  lemma FinishHist(m: Mgr, cb: Callback, now: int)
    ensures Finish(m, cb, now).hist == m.hist
  {
  }

  // One firing keeps the invariant, and calls the user function of that id
  // exactly once and no other.
  lemma FireKeeps(m: Mgr, id: int, script: seq<TimedOp>, now: int)
    requires Inv(m, -1) && id in m.nodes
    ensures Inv(Fire(m, id, script, now), -1)
    ensures FiredOnce(m, Fire(m, id, script, now), id)
  {
    FireKeepsInv(m, id, script, now);
    FireCounts(m, id, script, now);
  }

  lemma FireCounts(m: Mgr, id: int, script: seq<TimedOp>, now: int)
    requires Inv(m, -1) && id in m.nodes
    ensures FiredOnce(m, Fire(m, id, script, now), id)
  {
    var c := Called(m.(nodes := m.nodes - {id}), id);
    FireIs(m, id, script, now);
    ApplyAllExtends(c, script);
    FinishHist(ApplyAll(c, script), m.nodes[id].callback, now);
    SameHist(c, ApplyAll(c, script), m.(hist := c.hist), Fire(m, id, script, now));
  }

  // Extends looks at the histories only, and the end of a closure does not change them.
  lemma SameHist(a: Mgr, b: Mgr, c: Mgr, d: Mgr)
    requires Extends(a, b) && c.hist == a.hist && d.hist == b.hist
    ensures Extends(c, d)
  {
  }

  // ---------- Runs ----------

  // `at` is the reading that found the timer due, `rearmAt` the one that a
  // repeated timer is set again from.
  datatype Step =
    | Do(t: TimedOp)
    | Expire(id: int, at: int, script: seq<TimedOp>, rearmAt: int)

  predicate Enabled(m: Mgr, s: Step) {
    s.Expire? ==> s.id in m.nodes
  }

  function Next(m: Mgr, s: Step): Mgr
    requires Enabled(m, s)
  {
    match s
    case Do(t) => Apply(m, t)
    case Expire(id, _, script, rearmAt) => Fire(m, id, script, rearmAt)
  }

  // The state after a run, or None if some step of it was not possible.
  function TryStep(m: Mgr, a: Step): Option<Mgr> {
    if Enabled(m, a) then Some(Next(m, a)) else None
  }

  function Exec(m: Mgr, steps: seq<Step>): Option<Mgr> {
    Runs.Exec(TryStep, m, steps)
  }

  function Firings(steps: seq<Step>, id: int): nat {
    if steps == [] then 0
    else
      var s := steps[|steps| - 1];
      Firings(steps[..|steps| - 1], id) + if s.Expire? && s.id == id then 1 else 0
  }

  // Every run from the empty manager keeps the invariant, and the calls counted
  // for an id are exactly the firings of that id in the run.
  lemma {:induction false} RunKeeps(steps: seq<Step>)
    requires Exec(INIT, steps).Some?
    ensures var m := Exec(INIT, steps).value;
            && Inv(m, -1)
            && (forall id :: id in m.hist ==> m.hist[id].calls == Firings(steps, id))
            && (forall id :: id !in m.hist ==> Firings(steps, id) == 0)
  {
    if steps != [] {
      var init, s := steps[..|steps| - 1], steps[|steps| - 1];
      RunKeeps(init);
      var p := Exec(INIT, init).value;
      match s {
        case Do(t) =>
          ApplyKeeps(p, t, -1);
          ApplyExtends(p, t);
        case Expire(id, _, script, rearmAt) =>
          FireKeeps(p, id, script, rearmAt);
      }
    }
  }

  // Between steps, a key owns at most one node, and its table entry names that node.
  lemma OneNodePerKey(steps: seq<Step>, key: int)
    requires Exec(INIT, steps).Some?
    ensures var m := Exec(INIT, steps).value;
            forall id :: id in m.nodes && m.nodes[id].callback.key == Some(key) ==> key in m.keys && m.keys[key] == id
  {
    RunKeeps(steps);
    var m := Exec(INIT, steps).value;
    forall id | id in m.nodes && m.nodes[id].callback.key == Some(key)
      ensures key in m.keys && m.keys[key] == id
    {
      assert Account(m, id, false);
    }
  }

  // How often a timer fires, for every repeat count, in every run in which it is
  // not cancelled or replaced.
  lemma {:induction false} FiringCount(steps: seq<Step>, id: int)
    requires Exec(INIT, steps).Some?
    requires id in Exec(INIT, steps).value.hist && !Exec(INIT, steps).value.hist[id].dropped
    ensures var m := Exec(INIT, steps).value;
            var k, n := m.hist[id].repeat, Firings(steps, id);
            // k >= 1: k calls in all; owed calls are booked until then, and no trace is left after
            && (k >= 1 ==> n <= k)
            && (k >= 1 ==> (n < k <==> id in m.nodes))
            && (k >= 1 && n < k ==> id in m.repeats && m.repeats[id].0 == k - n)
            && (k >= 1 && n == k ==> NoTrace(m, id))
            // 0: one call
            && (k == 0 ==> n <= 1 && (n == 0 <==> id in m.nodes) && (n == 1 ==> NoTrace(m, id)))
            // -1: still set after every call
            && (k == -1 ==> id in m.nodes && id in m.repeats)
            // below -1: one call, after which the entries stay behind without a node
            && (k < -1 ==> n <= 1 && (n == 0 <==> id in m.nodes) && id in m.repeats)
  {
    RunKeeps(steps);
    assert Account(Exec(INIT, steps).value, id, false);
  }

  // A cancelled or replaced timer never fires again, whatever follows.
  lemma {:induction false} DroppedNeverFires(before: seq<Step>, after: seq<Step>, id: int)
    requires Exec(INIT, before + after).Some?
    requires Exec(INIT, before).Some? && id in Exec(INIT, before).value.hist
    requires Exec(INIT, before).value.hist[id].dropped
    ensures Firings(before + after, id) == Firings(before, id)
    ensures var m := Exec(INIT, before + after).value; id in m.hist && m.hist[id].dropped && NoTrace(m, id)
  {
    var all := before + after;
    RunKeeps(all);
    if after == [] {
      assert all == before;
      assert Account(Exec(INIT, before).value, id, false);
    } else {
      var init := before + after[..|after| - 1];
      assert all[..|all| - 1] == init && all[|all| - 1] == after[|after| - 1];
      DroppedNeverFires(before, after[..|after| - 1], id);
      RunKeeps(init);
      var p, s := Exec(INIT, init).value, after[|after| - 1];
      assert Account(p, id, false);
      match s {
        case Do(t) =>
          ApplyExtends(p, t);
        case Expire(i, _, script, rearmAt) => FireKeeps(p, i, script, rearmAt);
      }
      assert Account(Exec(INIT, all).value, id, false);
    }
  }

  // The two operations that drop the timer a key holds, in a whole run.
  lemma CancelledNeverFires(before: seq<Step>, t: TimedOp, after: seq<Step>)
    requires Exec(INIT, before + [Do(t)] + after).Some? && Exec(INIT, before).Some?
    requires t.op.CancelByKey? || t.op.ScheduleWithKey?
    requires t.op.key in Exec(INIT, before).value.keys
    ensures var id := Exec(INIT, before).value.keys[t.op.key];
            Firings(before + [Do(t)] + after, id) == Firings(before, id)
  {
    var m := Exec(INIT, before).value;
    RunKeeps(before);
    var mid := before + [Do(t)];
    assert mid[..|mid| - 1] == before;
    Runs.ExecPrefix(TryStep, INIT, mid, after);
    CancelKeeps(m, t.op.key, -1);
    DroppedNeverFires(mid, after, m.keys[t.op.key]);
  }

  // ---------- One Tick ----------

  // s fires a least node that has less than one millisecond to go.
  ghost predicate Due(m: Mgr, s: Step) {
    && s.Expire? && s.id in m.nodes
    && m.nodes[s.id].expires - s.at < MS
    && forall id :: id in m.nodes ==> m.nodes[s.id].expires <= m.nodes[id].expires
  }

  // The readings taken during s start at `from` and do not run backwards.
  ghost predicate Timely(s: Step, from: int) {
    && s.Expire? && from <= s.at <= s.rearmAt
    && forall i :: 0 <= i < |s.script| ==> s.at <= s.script[i].now <= s.rearmAt
  }

  function LastReading(steps: seq<Step>, from: int): int {
    if steps == [] || steps[|steps| - 1].Do? then from else steps[|steps| - 1].rearmAt
  }

  // The firings of one Tick that starts in m when the clock reads `from`.
  ghost predicate TickRun(m: Mgr, steps: seq<Step>, from: int) {
    steps == [] ||
    var init, s := steps[..|steps| - 1], steps[|steps| - 1];
    && TickRun(m, init, from)
    && Exec(m, init).Some? && Due(Exec(m, init).value, s)
    && Timely(s, LastReading(init, from))
  }

  lemma TickRunExtend(m: Mgr, steps: seq<Step>, from: int, s: Step)
    requires TickRun(m, steps, from) && Exec(m, steps).Some?
    requires Due(Exec(m, steps).value, s) && Timely(s, LastReading(steps, from))
    ensures TickRun(m, steps + [s], from)
    ensures Exec(m, steps + [s]) == Some(Next(Exec(m, steps).value, s))
    ensures LastReading(steps + [s], from) == s.rearmAt
  {
    assert (steps + [s])[..|steps + [s]| - 1] == steps;
  }

  lemma {:induction false} TickRunPrefix(m: Mgr, steps: seq<Step>, from: int, i: nat)
    requires TickRun(m, steps, from) && i <= |steps|
    ensures TickRun(m, steps[..i], from) && Exec(m, steps[..i]).Some?
    ensures i < |steps| ==> Due(Exec(m, steps[..i]).value, steps[i])
  {
    if i == |steps| {
      assert steps[..i] == steps;
    } else {
      var init := steps[..|steps| - 1];
      assert init[..i] == steps[..i];
      TickRunPrefix(m, init, from, i);
    }
  }

  // The deadline that the i-th firing had.
  ghost function Deadline(m: Mgr, steps: seq<Step>, from: int, i: nat): int
    requires TickRun(m, steps, from) && i < |steps|
  {
    TickRunPrefix(m, steps, from, i);
    Exec(m, steps[..i]).value.nodes[steps[i].id].expires
  }

  // Everything the script of s schedules is at least `ms` milliseconds away.
  ghost predicate DelaysAtLeast(s: Step, ms: int) {
    s.Expire? && forall i :: 0 <= i < |s.script| && !s.script[i].op.CancelByKey? ==> s.script[i].op.ms >= ms
  }

  ghost predicate PeriodsAtLeast(m: Mgr, ms: int) {
    forall id :: id in m.repeats ==> m.repeats[id].1 >= ms
  }

  ghost predicate Reachable(m: Mgr) {
    exists before: seq<Step> :: Exec(INIT, before) == Some(m)
  }

  ghost predicate NoneBefore(m: Mgr, d: int) {
    forall id :: id in m.nodes ==> d <= m.nodes[id].expires
  }

  lemma {:induction false} ScriptStaysLate(m: Mgr, ts: seq<TimedOp>, d: int)
    requires NoneBefore(m, d) && PeriodsAtLeast(m, 1)
    requires forall i :: 0 <= i < |ts| && !ts[i].op.CancelByKey? ==> ts[i].op.ms >= 1
    requires forall i :: 0 <= i < |ts| ==> d <= ts[i].now + MS
    ensures NoneBefore(ApplyAll(m, ts), d) && PeriodsAtLeast(ApplyAll(m, ts), 1)
  {
    if ts != [] {
      ScriptStaysLate(m, ts[..|ts| - 1], d);
      var p, t := ApplyAll(m, ts[..|ts| - 1]), ts[|ts| - 1];
      assert t.op.CancelByKey? || d <= t.now + t.op.ms * MS;
      if t.op.ScheduleWithKey? {
        assert NoneBefore(Cancel(p, t.op.key), d) && PeriodsAtLeast(Cancel(p, t.op.key), 1);
      }
    }
  }

  // After a due firing that sets nothing nearer than a millisecond, no node is
  // earlier than the one that fired.
  lemma FiringStaysLate(m: Mgr, s: Step, from: int)
    requires Due(m, s) && Timely(s, from) && DelaysAtLeast(s, 1) && PeriodsAtLeast(m, 1)
    ensures NoneBefore(Next(m, s), m.nodes[s.id].expires) && PeriodsAtLeast(Next(m, s), 1)
  {
    var d := m.nodes[s.id].expires;
    var p := m.(nodes := m.nodes - {s.id});
    var cb := m.nodes[s.id].callback;
    var c := if Reaches(p, cb) then ApplyAll(Called(p, cb.id), s.script) else p;
    ScriptStaysLate(Called(p, cb.id), s.script, d);
    assert NoneBefore(c, d) && PeriodsAtLeast(c, 1);
    if cb.id in c.repeats {
      assert s.rearmAt + c.repeats[cb.id].1 * MS >= d;
    }
  }

  lemma {:induction false} TickStaysLate(m: Mgr, steps: seq<Step>, from: int)
    requires TickRun(m, steps, from) && PeriodsAtLeast(m, 1)
    requires forall i :: 0 <= i < |steps| ==> DelaysAtLeast(steps[i], 1)
    ensures Exec(m, steps).Some? && PeriodsAtLeast(Exec(m, steps).value, 1)
    ensures steps != [] ==> NoneBefore(Exec(m, steps).value, Deadline(m, steps, from, |steps| - 1))
  {
    if steps != [] {
      var init, s := steps[..|steps| - 1], steps[|steps| - 1];
      TickStaysLate(m, init, from);
      FiringStaysLate(Exec(m, init).value, s, LastReading(init, from));
    }
  }

  // One Tick fires in nondecreasing order of deadline when nothing is set less
  // than a millisecond ahead.
  lemma {:induction false} FiresInOrder(m: Mgr, steps: seq<Step>, from: int, i: nat, j: nat)
    requires TickRun(m, steps, from) && PeriodsAtLeast(m, 1)
    requires forall k :: 0 <= k < |steps| ==> DelaysAtLeast(steps[k], 1)
    requires i < j < |steps|
    ensures Deadline(m, steps, from, i) <= Deadline(m, steps, from, j)
    decreases j - i
  {
    TickRunPrefix(m, steps, from, j);
    var pre := steps[..j];
    assert pre[..|pre| - 1] == steps[..j - 1];
    TickStaysLate(m, pre, from);
    assert Deadline(m, pre, from, j - 1) == Deadline(m, steps, from, j - 1) by {
      assert pre[..j - 1] == steps[..j - 1];
    }
    if i < j - 1 {
      FiresInOrder(m, steps, from, i, j - 1);
    }
  }

  // A Tick of a reachable manager in which no period and no delay set by a user
  // function is below `ms`.
  ghost predicate TickWithDelays(m: Mgr, steps: seq<Step>, from: int, ms: int) {
    && Reachable(m) && TickRun(m, steps, from) && PeriodsAtLeast(m, ms)
    && forall k :: 0 <= k < |steps| ==> DelaysAtLeast(steps[k], ms)
  }

  ghost predicate InDeadlineOrder(m: Mgr, steps: seq<Step>, from: int)
    requires TickRun(m, steps, from)
  {
    forall i, j :: 0 <= i < j < |steps| ==> Deadline(m, steps, from, i) <= Deadline(m, steps, from, j)
  }

  // A lower bound on the periods and delays makes every Tick fire in order exactly
  // when it is at least a millisecond.
  lemma OrderNeedsOneMs(ms: Int32)
    ensures (forall m, steps, from :: TickWithDelays(m, steps, from, ms) ==> InDeadlineOrder(m, steps, from)) <==> ms >= 1
  {
    if ms >= 1 {
      forall m, steps, from | TickWithDelays(m, steps, from, ms)
        ensures InDeadlineOrder(m, steps, from)
      {
        forall i, j | 0 <= i < j < |steps|
          ensures Deadline(m, steps, from, i) <= Deadline(m, steps, from, j)
        {
          FiresInOrder(m, steps, from, i, j);
        }
      }
    } else {
      NoDelayFiresOutOfOrder(ms);
    }
  }

  // A timer with 999999 ns to go is due; one that its user function sets with no
  // delay, or a negative one, is earlier and fires after it.
  lemma NoDelayFiresOutOfOrder(ms: Int32)
    requires ms <= 0
    ensures var m := Arm(INIT, None, 1, 0, 7, -1);
            var steps := [Expire(0, 0, [TimedOp(Schedule(ms, 0, 8), 0)], 0), Expire(1, 0, [], 0)];
            && TickWithDelays(m, steps, 0, ms) && m.repeats == map[]
            && Deadline(m, steps, 0, 0) == 999_999 && Deadline(m, steps, 0, 1) == ms * MS
  {
    var m := Arm(INIT, None, 1, 0, 7, -1);
    var s0 := Expire(0, 0, [TimedOp(Schedule(ms, 0, 8), 0)], 0);
    var s1 := Expire(1, 0, [], 0);
    var steps := [s0, s1];
    assert Exec(INIT, [Do(TimedOp(Schedule(1, 0, 7), -1))]) == Some(m) by {
      assert [Do(TimedOp(Schedule(1, 0, 7), -1))][..0] == [];
    }
    assert steps[..0] == [] && steps[..1] == [s0] && [] + [s0] == [s0] && [s0] + [s1] == steps;
    assert m.nodes == map[0 := Node(0, 999_999, Callback(0, None, 7))];
    TickRunExtend(m, [], 0, s0);
    NoDelayNode(m, s0, ms);
    TickRunExtend(m, [s0], 0, s1);
  }

  lemma NoDelayNode(m: Mgr, s: Step, ms: Int32)
    requires m == Arm(INIT, None, 1, 0, 7, -1)
    requires s == Expire(0, 0, [TimedOp(Schedule(ms, 0, 8), 0)], 0)
    ensures Enabled(m, s) && Next(m, s).nodes == map[1 := Node(1, ms * MS, Callback(1, None, 8))]
  {
    var c := Called(m.(nodes := m.nodes - {0}), 0);
    assert s.script[..|s.script| - 1] == [];
    assert ApplyAll(c, s.script) == Apply(c, s.script[0]);
  }
}
