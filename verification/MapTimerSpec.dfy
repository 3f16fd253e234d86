// The multimap timer manager (rbtimer::TimerManager) as a state machine.
//
// Cancelling a key leaves its nodes in the multimap; a node that fires finds out
// whether its id is still the one the key maps to.  A node of a repeated timer
// comes back twice: once from its closure and once from Update.
module MapTimerSpec {
  import opened Prelude
  import Runs

  type UserFn = nat

  const KEYS: nat := 0x1_0000_0000_0000_0000

  // The public interface takes 64-bit unsigned keys.
  type Key = x: int | 0 <= x < 0x1_0000_0000_0000_0000

  // DoScheduleWithKey takes the key as an int, and the tables convert it back:
  // only the low 32 bits survive, extended by their sign.
  function IntKey(key: Key): (k: Key)
    ensures k < 0x8000_0000 || k >= KEYS - 0x8000_0000
    ensures k == key <==> key < 0x8000_0000 || key >= KEYS - 0x8000_0000
  {
    var low := key % 0x1_0000_0000;
    if low < 0x8000_0000 then low else KEYS - 0x1_0000_0000 + low
  }

  datatype Op =
    | Schedule(ms: Int32, repeat: Int32, user: UserFn)
    | ScheduleWithKey(key: Key, ms: Int32, repeat: Int32, user: UserFn)
    | CancelByKey(key: Key)

  datatype TimedOp = TimedOp(op: Op, now: int)

  // The closure stored in a node: the bare user function, or one that checks its key.
  // The source gives a timer without a key no id; `tag` tells such timers apart.
  datatype Callback = Plain(tag: int, user: UserFn) | Keyed(id: int, key: Key, user: UserFn)

  // Class Timer.
  datatype Node = Node(time: int, cb: Callback, period: int, repeat: int)

  // History of a keyed timer.  `runs` counts the firings that found the key still
  // theirs, `calls` those that also reached the user function.
  datatype Record = Record(key: Key, period: int, repeat: Int32, user: UserFn,
                           runs: nat, calls: nat, dropped: bool)

  // History of a timer without a key.
  datatype PlainRecord = PlainRecord(repeat: Int32, calls: nat)

  // `batch` holds the nodes that the current Update has taken and not yet fired.
  datatype Mgr = Mgr(queue: seq<Node>, batch: seq<Node>,
                     repeats: map<int, (int, int)>, keys: map<Key, int>,
                     nextId: int, hist: map<int, Record>,
                     nextTag: int, plain: map<int, PlainRecord>)

  const INIT: Mgr := Mgr([], [], map[], map[], 0, map[], 0, map[])

  const MAX_PER_UPDATE: nat := 100

  // ---------- The multimap ----------

  // A multimap keeps equal keys in order of insertion.
  function Insert(q: seq<Node>, n: Node): (r: seq<Node>)
    ensures |r| == |q| + 1
  {
    if q == [] || n.time < q[0].time then [n] + q else [q[0]] + Insert(q[1..], n)
  }

  ghost predicate Sorted(q: seq<Node>) {
    forall i, j :: 0 <= i < j < |q| ==> q[i].time <= q[j].time
  }

  lemma {:induction false} InsertMembers(q: seq<Node>, n: Node)
    ensures forall x :: x in Insert(q, n) <==> x == n || x in q
  {
    if q == [] || n.time < q[0].time {
    } else {
      InsertMembers(q[1..], n);
      assert q == [q[0]] + q[1..];
    }
  }

  lemma {:induction false} InsertSorted(q: seq<Node>, n: Node)
    requires Sorted(q)
    ensures Sorted(Insert(q, n))
  {
    if q == [] || n.time < q[0].time {
    } else {
      InsertSorted(q[1..], n);
      InsertMembers(q[1..], n);
      var t := Insert(q[1..], n);
      forall j | 0 <= j < |t|
        ensures q[0].time <= t[j].time
      {
        assert t[j] in t;
      }
    }
  }

  predicate Owned(n: Node, id: int) {
    n.cb.Keyed? && n.cb.id == id
  }

  // The sum of the weights of some nodes.
  function Sum(q: seq<Node>, w: Node -> nat): nat {
    if q == [] then 0 else w(q[0]) + Sum(q[1..], w)
  }

  lemma {:induction false} SumConcat(a: seq<Node>, b: seq<Node>, w: Node -> nat)
    ensures Sum(a + b, w) == Sum(a, w) + Sum(b, w)
  {
    if a == [] {
      assert a + b == b;
    } else {
      assert (a + b)[1..] == a[1..] + b;
      SumConcat(a[1..], b, w);
    }
  }

  lemma {:induction false} SumInsert(q: seq<Node>, n: Node, w: Node -> nat)
    ensures Sum(Insert(q, n), w) == Sum(q, w) + w(n)
  {
    if q == [] || n.time < q[0].time {
      SumConcat([n], q, w);
      assert [n][1..] == [];
    } else {
      SumInsert(q[1..], n, w);
      assert Insert(q, n)[1..] == Insert(q[1..], n);
    }
  }

  lemma {:induction false} SumPositive(q: seq<Node>, w: Node -> nat)
    ensures Sum(q, w) > 0 <==> exists n :: n in q && w(n) > 0
  {
    if q != [] {
      SumPositive(q[1..], w);
      assert q == [q[0]] + q[1..];
    }
  }

  function OwnedBy(id: int): Node -> nat {
    n => if Owned(n, id) then 1 else 0
  }

  function Count(q: seq<Node>, id: int): nat {
    Sum(q, OwnedBy(id))
  }

  lemma CountConcat(a: seq<Node>, b: seq<Node>, id: int)
    ensures Count(a + b, id) == Count(a, id) + Count(b, id)
  {
    SumConcat(a, b, OwnedBy(id));
  }

  lemma CountInsert(q: seq<Node>, n: Node, id: int)
    ensures Count(Insert(q, n), id) == Count(q, id) + if Owned(n, id) then 1 else 0
  {
    SumInsert(q, n, OwnedBy(id));
  }

  lemma CountWitness(q: seq<Node>, id: int)
    ensures Count(q, id) >= 1 <==> exists n :: n in q && Owned(n, id)
  {
    SumPositive(q, OwnedBy(id));
    forall n | n in q
      ensures OwnedBy(id)(n) > 0 <==> Owned(n, id)
    {
    }
  }

  // ---------- Operations ----------

  function Cancel(m: Mgr, key: Key): Mgr {
    if key !in m.keys then m else
      var id := m.keys[key];
      m.(repeats := m.repeats - {id},
         keys := m.keys - {key},
         hist := if id in m.hist then m.hist[id := m.hist[id].(dropped := true)] else m.hist)
  }

  function AtLeastOne(ms: int): int {
    if ms <= 0 then 1 else ms
  }

  function Arm(m: Mgr, key: Key, ms: Int32, repeat: Int32, user: UserFn, now: int): Mgr {
    var id, period := m.nextId, AtLeastOne(ms);
    m.(queue := Insert(m.queue, Node(now + period, Keyed(id, key, user), period, repeat)),
       repeats := if repeat != 0 then m.repeats[id := (repeat, period)] else m.repeats,
       keys := m.keys[IntKey(key) := id],
       nextId := id + 1,
       hist := m.hist[id := Record(key, period, repeat, user, 0, 0, false)])
  }

  function ArmPlain(m: Mgr, ms: Int32, repeat: Int32, user: UserFn, now: int): Mgr {
    m.(queue := Insert(m.queue, Node(now + AtLeastOne(ms), Plain(m.nextTag, user), AtLeastOne(ms), repeat)),
       nextTag := m.nextTag + 1,
       plain := m.plain[m.nextTag := PlainRecord(repeat, 0)])
  }

  // ScheduleWithKey cancels under the key it is given, then DoScheduleWithKey
  // cancels and arms under the key as an int.
  function Apply(m: Mgr, t: TimedOp): Mgr {
    match t.op
    case Schedule(ms, repeat, user) => ArmPlain(m, ms, repeat, user, t.now)
    case ScheduleWithKey(key, ms, repeat, user) =>
      Arm(Cancel(Cancel(m, key), IntKey(key)), key, ms, repeat, user, t.now)
    case CancelByKey(key) => Cancel(m, key)
  }

  function ApplyAll(m: Mgr, ts: seq<TimedOp>): Mgr {
    if ts == [] then m else Apply(ApplyAll(m, ts[..|ts| - 1]), ts[|ts| - 1])
  }

  predicate Current(m: Mgr, cb: Callback) {
    cb.Keyed? && IntKey(cb.key) in m.keys && m.keys[IntKey(cb.key)] == cb.id
  }

  // The user function sits behind one more check, on the key as it was given.
  function Called(m: Mgr, cb: Callback): Mgr
    requires cb.Keyed?
  {
    if cb.id !in m.hist then m else
      var r := m.hist[cb.id];
      m.(hist := m.hist[cb.id := r.(runs := r.runs + 1, calls := r.calls + if cb.key in m.keys then 1 else 0)])
  }

  function PlainCalled(m: Mgr, tag: int): Mgr {
    if tag !in m.plain then m else m.(plain := m.plain[tag := m.plain[tag].(calls := m.plain[tag].calls + 1)])
  }

  // The closure after its user function: book the run and queue a new node.
  function Finish(m: Mgr, cb: Callback, now: int): Mgr
    requires cb.Keyed?
  {
    if !Current(m, cb) then m
    else if cb.id in m.repeats then
      var (remaining, period) := m.repeats[cb.id];
      if remaining > 0 then
        if remaining - 1 == 0 then m.(repeats := m.repeats - {cb.id}, keys := m.keys - {IntKey(cb.key)})
        else m.(repeats := m.repeats[cb.id := (remaining - 1, period)],
                queue := Insert(m.queue, Node(now + period, cb, period, remaining - 1)))
      else if remaining == -1 then
        m.(queue := Insert(m.queue, Node(now + period, cb, period, -1)))
      else m
    else m.(keys := m.keys - {IntKey(cb.key)})
  }

  function Run(m: Mgr, cb: Callback, script: seq<TimedOp>, now: int): Mgr {
    match cb
    case Plain(tag, _) => ApplyAll(PlainCalled(m, tag), script)
    case Keyed(_, key, _) =>
      if !Current(m, cb) then m
      else Finish(ApplyAll(Called(m, cb), if key in m.keys then script else []), cb, now)
  }

  // What OnTimer leaves in the node it is called on.
  function Aged(n: Node): Node {
    if n.repeat == 0 then n
    else n.(time := n.time + n.period, repeat := if n.repeat > 0 then n.repeat - 1 else n.repeat)
  }

  // One turn of the loop in Update: OnTimer, then back into the multimap.
  function FireNode(m: Mgr, n: Node, script: seq<TimedOp>, now: int): Mgr {
    var r := if n.repeat == 0 then m else Run(m, n.cb, script, now);
    if Aged(n).repeat != 0 then r.(queue := Insert(r.queue, Aged(n))) else r
  }

  // How many nodes Update takes at the reading `now`.
  function DueCount(q: seq<Node>, now: int, room: nat): (c: nat)
    ensures c <= |q| && c <= room
    ensures forall i :: 0 <= i < c ==> q[i].time <= now
    ensures c < room && c < |q| ==> q[c].time > now
  {
    if room == 0 || q == [] || q[0].time > now then 0 else 1 + DueCount(q[1..], now, room - 1)
  }

  datatype Step =
    | Do(t: TimedOp)
    | Collect(now: int)
    | FireFirst(script: seq<TimedOp>, now: int)

  predicate Enabled(m: Mgr, s: Step) {
    match s
    case Do(_) => true
    case Collect(_) => m.batch == []
    case FireFirst(_, _) => m.batch != []
  }

  function Next(m: Mgr, s: Step): Mgr
    requires Enabled(m, s)
  {
    match s
    case Do(t) => Apply(m, t)
    case Collect(now) =>
      var c := DueCount(m.queue, now, MAX_PER_UPDATE);
      m.(queue := m.queue[c..], batch := m.queue[..c])
    case FireFirst(script, now) => FireNode(m.(batch := m.batch[1..]), m.batch[0], script, now)
  }

  function TryStep(m: Mgr, a: Step): Option<Mgr> {
    if Enabled(m, a) then Some(Next(m, a)) else None
  }

  function Exec(m: Mgr, steps: seq<Step>): Option<Mgr> {
    Runs.Exec(TryStep, m, steps)
  }

  lemma ExecExtend(m: Mgr, steps: seq<Step>, s: Step)
    requires Exec(m, steps).Some? && Enabled(Exec(m, steps).value, s)
    ensures Exec(m, steps + [s]) == Some(Next(Exec(m, steps).value, s))
  {
    assert (steps + [s])[..|steps + [s]| - 1] == steps;
  }

  // ---------- The invariant ----------

  ghost predicate Valid(m: Mgr, id: int)
    requires id in m.hist
  {
    var k := IntKey(m.hist[id].key);
    k in m.keys && m.keys[k] == id
  }

  // A node tells the truth about its id, and its own count says whether it can
  // still fire.
  ghost predicate NodeOk(m: Mgr, n: Node) {
    n.cb.Keyed? ==>
      && n.cb.id in m.hist
      && var r := m.hist[n.cb.id];
      && r.key == n.cb.key && r.user == n.cb.user && r.period == n.period
      && (r.repeat == 0 ==> n.repeat == 0)
      && (r.repeat > 0 ==> n.repeat >= 1)
      && (r.repeat < 0 ==> n.repeat == r.repeat)
  }

  // The nodes of id: queued, taken by the current Update, or in hand.
  function Total(m: Mgr, cur: seq<Node>, id: int): nat {
    Count(m.queue, id) + Count(m.batch, id) + Count(cur, id)
  }

  // What the tables hold for an id that is still owed runs, `fired` of which are booked.
  ghost predicate Booked(m: Mgr, id: int, fired: int)
    requires id in m.hist
  {
    var r := m.hist[id];
    && Valid(m, id) && id in m.repeats && m.repeats[id].1 == r.period
    && m.repeats[id].0 == (if r.repeat > 0 then r.repeat - fired else r.repeat)
    && (r.repeat > 0 ==> fired < r.repeat)
  }

  ghost predicate Account(m: Mgr, cur: seq<Node>, id: int, firing: bool)
    requires id in m.hist
  {
    var r := m.hist[id];
    var fired := if firing then r.runs - 1 else r.runs;
    && fired >= 0
    && r.calls == (if IntKey(r.key) == r.key then r.runs else 0)
    && (r.dropped ==> !Valid(m, id) && id !in m.repeats)
    && if r.repeat == 0 then
         // set with count 0: never runs, and stays in the key table until dropped
         r.runs == 0 && id !in m.repeats && (r.dropped || Valid(m, id))
       else if r.repeat > 0 then
         && r.runs <= r.repeat
         && (!r.dropped ==>
               if fired == r.repeat then !Valid(m, id) && id !in m.repeats && !firing
               else Booked(m, id, fired) && Total(m, cur, id) >= 1)
       else
         && Total(m, cur, id) >= 1
         && (r.repeat < -1 ==> Total(m, cur, id) == 1)
         && (!r.dropped ==> Booked(m, id, fired) && (r.repeat == -1 ==> Total(m, cur, id) == fired + 1))
  }

  ghost predicate Tables(m: Mgr) {
    && m.nextId >= 0
    && (forall id :: id in m.hist <==> 0 <= id < m.nextId)
    && (forall id :: id in m.repeats ==> id in m.hist)
    && (forall k :: k in m.keys ==> m.keys[k] in m.hist && IntKey(m.hist[m.keys[k]].key) == k && IntKey(k) == k)
  }

  ghost predicate NodesOk(m: Mgr, cur: seq<Node>) {
    && (forall n :: n in m.queue ==> NodeOk(m, n))
    && (forall n :: n in m.batch ==> NodeOk(m, n))
    && (forall n :: n in cur ==> NodeOk(m, n))
  }

  // `cur` is the node in hand, if any; `firing` the id whose user function runs, or -1.
  ghost predicate Inv(m: Mgr, cur: seq<Node>, firing: int) {
    && Tables(m) && NodesOk(m, cur) && Sorted(m.queue)
    && (forall id :: id in m.hist ==> Account(m, cur, id, id == firing))
  }

  lemma CancelAccount(m: Mgr, key: Key, cur: seq<Node>, id: int, firing: bool)
    requires Tables(m) && id in m.hist && Account(m, cur, id, firing)
    ensures Account(Cancel(m, key), cur, id, firing)
  {
    var c := Cancel(m, key);
    if key in m.keys && id != m.keys[key] {
      assert Valid(c, id) <==> Valid(m, id);
    }
  }

  lemma CancelTables(m: Mgr, key: Key, cur: seq<Node>)
    requires Tables(m) && NodesOk(m, cur)
    ensures Tables(Cancel(m, key)) && NodesOk(Cancel(m, key), cur)
  {
    var c := Cancel(m, key);
    forall n | n in m.queue || n in m.batch || n in cur
      ensures NodeOk(c, n)
    {
      assert NodeOk(m, n);
    }
  }

  lemma CancelKeeps(m: Mgr, key: Key, cur: seq<Node>, firing: int)
    requires Inv(m, cur, firing)
    ensures Inv(Cancel(m, key), cur, firing)
  {
    CancelTables(m, key, cur);
    forall id | id in m.hist
      ensures Account(Cancel(m, key), cur, id, id == firing)
    {
      assert Account(m, cur, id, id == firing);
      CancelAccount(m, key, cur, id, id == firing);
    }
  }

  lemma {:induction false} CountUnknown(q: seq<Node>, id: int)
    requires forall n :: n in q && n.cb.Keyed? ==> n.cb.id != id
    ensures Count(q, id) == 0
  {
    CountWitness(q, id);
  }

  lemma ArmElsewhere(m: Mgr, key: Key, ms: Int32, repeat: Int32, user: UserFn, now: int,
                     cur: seq<Node>, id: int, firing: bool)
    requires Tables(m) && IntKey(key) !in m.keys
    requires id in m.hist && Account(m, cur, id, firing)
    ensures Account(Arm(m, key, ms, repeat, user, now), cur, id, firing)
  {
    var a := Arm(m, key, ms, repeat, user, now);
    var period := AtLeastOne(ms);
    CountInsert(m.queue, Node(now + period, Keyed(m.nextId, key, user), period, repeat), id);
    assert a.hist[id] == m.hist[id];
    assert Valid(a, id) <==> Valid(m, id);
  }

  lemma ArmNew(m: Mgr, key: Key, ms: Int32, repeat: Int32, user: UserFn, now: int, cur: seq<Node>)
    requires Tables(m) && NodesOk(m, cur)
    ensures Account(Arm(m, key, ms, repeat, user, now), cur, m.nextId, false)
  {
    var id, period := m.nextId, AtLeastOne(ms);
    CountInsert(m.queue, Node(now + period, Keyed(id, key, user), period, repeat), id);
    CountUnknown(m.queue, id);
    CountUnknown(m.batch, id);
    CountUnknown(cur, id);
  }

  lemma ArmTables(m: Mgr, key: Key, ms: Int32, repeat: Int32, user: UserFn, now: int, cur: seq<Node>)
    requires Tables(m) && NodesOk(m, cur) && Sorted(m.queue) && IntKey(key) !in m.keys
    ensures var a := Arm(m, key, ms, repeat, user, now); Tables(a) && NodesOk(a, cur) && Sorted(a.queue)
  {
    var a := Arm(m, key, ms, repeat, user, now);
    var period := AtLeastOne(ms);
    var n := Node(now + period, Keyed(m.nextId, key, user), period, repeat);
    InsertMembers(m.queue, n);
    InsertSorted(m.queue, n);
    forall x | x in a.queue || x in a.batch || x in cur
      ensures NodeOk(a, x)
    {
      if x != n { assert NodeOk(m, x); }
    }
  }

  lemma ArmKeeps(m: Mgr, key: Key, ms: Int32, repeat: Int32, user: UserFn, now: int, cur: seq<Node>, firing: int)
    requires Inv(m, cur, firing) && firing < m.nextId && IntKey(key) !in m.keys
    ensures Inv(Arm(m, key, ms, repeat, user, now), cur, firing)
  {
    var a := Arm(m, key, ms, repeat, user, now);
    ArmTables(m, key, ms, repeat, user, now, cur);
    ArmNew(m, key, ms, repeat, user, now, cur);
    forall i | i in a.hist
      ensures Account(a, cur, i, i == firing)
    {
      if i in m.hist {
        assert Account(m, cur, i, i == firing);
        ArmElsewhere(m, key, ms, repeat, user, now, cur, i, i == firing);
      }
    }
  }

  lemma ApplyKeeps(m: Mgr, t: TimedOp, cur: seq<Node>, firing: int)
    requires Inv(m, cur, firing) && firing < m.nextId
    ensures Inv(Apply(m, t), cur, firing) && m.nextId <= Apply(m, t).nextId
  {
    match t.op
    case Schedule(ms, repeat, user) =>
      InsertPlain(m, Node(t.now + AtLeastOne(ms), Plain(m.nextTag, user), AtLeastOne(ms), repeat), cur, firing);
      SameTables(m.(queue := Apply(m, t).queue), Apply(m, t), cur, firing);
    case ScheduleWithKey(key, ms, repeat, user) =>
      CancelKeeps(m, key, cur, firing);
      CancelKeeps(Cancel(m, key), IntKey(key), cur, firing);
      ArmKeeps(Cancel(Cancel(m, key), IntKey(key)), key, ms, repeat, user, t.now, cur, firing);
    case CancelByKey(key) => CancelKeeps(m, key, cur, firing);
  }

  // The invariant does not look at the history of timers without a key.
  lemma SameTables(m: Mgr, n: Mgr, cur: seq<Node>, firing: int)
    requires Inv(m, cur, firing) && n == m.(nextTag := n.nextTag, plain := n.plain)
    ensures Inv(n, cur, firing)
  {
    forall id | id in n.hist
      ensures Account(n, cur, id, id == firing)
    {
      assert Account(m, cur, id, id == firing);
      assert Valid(n, id) <==> Valid(m, id);
    }
    forall x | x in n.queue || x in n.batch || x in cur
      ensures NodeOk(n, x)
    {
      assert NodeOk(m, x);
    }
  }

  lemma InsertPlain(m: Mgr, n: Node, cur: seq<Node>, firing: int)
    requires Inv(m, cur, firing) && n.cb.Plain?
    ensures Inv(m.(queue := Insert(m.queue, n)), cur, firing)
  {
    var a := m.(queue := Insert(m.queue, n));
    InsertMembers(m.queue, n);
    InsertSorted(m.queue, n);
    forall id | id in m.hist
      ensures Account(a, cur, id, id == firing)
    {
      CountInsert(m.queue, n, id);
      assert Valid(a, id) <==> Valid(m, id);
      assert Account(m, cur, id, id == firing);
    }
  }

  lemma {:induction false} ApplyAllKeeps(m: Mgr, ts: seq<TimedOp>, cur: seq<Node>, firing: int)
    requires Inv(m, cur, firing) && firing < m.nextId
    ensures Inv(ApplyAll(m, ts), cur, firing) && m.nextId <= ApplyAll(m, ts).nextId
  {
    if ts != [] {
      ApplyAllKeeps(m, ts[..|ts| - 1], cur, firing);
      ApplyKeeps(ApplyAll(m, ts[..|ts| - 1]), ts[|ts| - 1], cur, firing);
    }
  }

  lemma CallAccount(m: Mgr, n: Node, id: int)
    requires Tables(m) && NodeOk(m, n) && Current(m, n.cb) && n.repeat != 0
    requires id in m.hist && Account(m, [n], id, false)
    ensures Account(Called(m, n.cb), [n], id, id == n.cb.id)
  {
    assert Valid(Called(m, n.cb), id) <==> Valid(m, id);
  }

  // The user function is called exactly when the key survives its passage through int.
  lemma CallKeeps(m: Mgr, n: Node)
    requires Inv(m, [n], -1) && Current(m, n.cb) && n.repeat != 0
    ensures Inv(Called(m, n.cb), [n], n.cb.id)
    ensures n.cb.key in m.keys <==> IntKey(n.cb.key) == n.cb.key
  {
    var c := Called(m, n.cb);
    assert NodeOk(m, n);
    forall x | x in m.queue || x in m.batch || x == n
      ensures NodeOk(c, x)
    {
      assert NodeOk(m, x);
    }
    forall id | id in c.hist
      ensures Account(c, [n], id, id == n.cb.id)
    {
      assert Account(m, [n], id, false);
      CallAccount(m, n, id);
    }
  }

  // The node in hand goes back into the multimap, or is let go.
  function Requeue(m: Mgr, n: Node): Mgr {
    if Aged(n).repeat != 0 then m.(queue := Insert(m.queue, Aged(n))) else m
  }

  lemma CountOne(n: Node, id: int)
    ensures Count([n], id) == if Owned(n, id) then 1 else 0
  {
    assert [n][1..] == [];
    assert Sum([n], OwnedBy(id)) == OwnedBy(id)(n) + Sum([n][1..], OwnedBy(id));
  }

  lemma RequeueCounts(m: Mgr, n: Node, id: int)
    ensures Total(Requeue(m, n), [], id) ==
            Total(m, [n], id) - if Owned(n, id) && Aged(n).repeat == 0 then 1 else 0
  {
    CountOne(n, id);
    CountInsert(m.queue, Aged(n), id);
  }

  lemma RequeueNodes(m: Mgr, n: Node)
    requires NodesOk(m, [n]) && Sorted(m.queue)
    ensures NodesOk(Requeue(m, n), []) && Sorted(Requeue(m, n).queue)
  {
    InsertMembers(m.queue, Aged(n));
    InsertSorted(m.queue, Aged(n));
    assert NodeOk(m, n);
    assert Aged(n).repeat != 0 ==> NodeOk(m, Aged(n));
  }

  // A node whose key has moved on, or whose count is 0, changes no account.
  lemma RequeueKeeps(m: Mgr, n: Node)
    requires Inv(m, [n], -1) && (n.repeat == 0 || !Current(m, n.cb))
    ensures Inv(Requeue(m, n), [], -1)
  {
    var g := Requeue(m, n);
    RequeueNodes(m, n);
    assert NodeOk(m, n);
    forall id | id in g.hist
      ensures Account(g, [], id, false)
    {
      RequeueCounts(m, n, id);
      assert Account(m, [n], id, false);
      assert Valid(g, id) <==> Valid(m, id);
    }
  }

  lemma FinishNodes(m: Mgr, n: Node, now: int)
    requires n.cb.Keyed? && n.repeat != 0 && Inv(m, [n], n.cb.id)
    ensures Tables(Finish(m, n.cb, now)) && NodesOk(Finish(m, n.cb, now), [n]) && Sorted(Finish(m, n.cb, now).queue)
  {
    var f := Finish(m, n.cb, now);
    assert NodeOk(m, n);
    assert Account(m, [n], n.cb.id, true);
    if Current(m, n.cb) && n.cb.id in m.repeats {
      var (remaining, period) := m.repeats[n.cb.id];
      var x := Node(now + period, n.cb, period, if remaining > 0 then remaining - 1 else remaining);
      InsertMembers(m.queue, x);
      InsertSorted(m.queue, x);
    }
    forall x | x in f.queue || x in f.batch || x == n
      ensures NodeOk(f, x)
    {
      if x in m.queue || x in m.batch { assert NodeOk(m, x); }
    }
  }

  lemma FinishElsewhere(m: Mgr, n: Node, now: int, id: int)
    requires Tables(m) && NodeOk(m, n) && n.cb.Keyed? && id in m.hist && id != n.cb.id
    requires Account(m, [n], id, false)
    ensures Account(Finish(m, n.cb, now), [n], id, false)
  {
    var f := Finish(m, n.cb, now);
    assert Valid(f, id) <==> Valid(m, id);
    if n.cb.id in m.repeats {
      var (remaining, period) := m.repeats[n.cb.id];
      CountInsert(m.queue, Node(now + period, n.cb, period, if remaining > 0 then remaining - 1 else remaining), id);
    }
  }

  // The id that fired: its run is booked, and what was inserted and put back keeps its count.
  lemma FinishOwn(m: Mgr, n: Node, now: int)
    requires Tables(m) && NodeOk(m, n) && n.cb.Keyed? && n.repeat != 0
    requires Account(m, [n], n.cb.id, true)
    ensures Account(Requeue(Finish(m, n.cb, now), n), [], n.cb.id, false)
  {
    var id := n.cb.id;
    var f := Finish(m, n.cb, now);
    RequeueCounts(f, n, id);
    CountOne(n, id);
    assert Current(m, n.cb) <==> Valid(m, id);
    if id in m.repeats {
      var (remaining, period) := m.repeats[id];
      CountInsert(m.queue, Node(now + period, n.cb, period, if remaining > 0 then remaining - 1 else remaining), id);
    }
  }

  lemma RequeueElsewhere(m: Mgr, n: Node, id: int)
    requires id in m.hist && !Owned(n, id) && Account(m, [n], id, false)
    ensures Account(Requeue(m, n), [], id, false)
  {
    RequeueCounts(m, n, id);
    assert Valid(Requeue(m, n), id) <==> Valid(m, id);
  }

  lemma FinishRequeueKeeps(m: Mgr, n: Node, now: int)
    requires n.cb.Keyed? && n.repeat != 0 && Inv(m, [n], n.cb.id)
    ensures Inv(Requeue(Finish(m, n.cb, now), n), [], -1)
  {
    var f := Finish(m, n.cb, now);
    var g := Requeue(f, n);
    FinishNodes(m, n, now);
    RequeueNodes(f, n);
    assert NodeOk(m, n);
    forall id | id in g.hist
      ensures Account(g, [], id, false)
    {
      assert Account(m, [n], id, id == n.cb.id);
      if id == n.cb.id {
        FinishOwn(m, n, now);
      } else {
        FinishElsewhere(m, n, now, id);
        RequeueElsewhere(f, n, id);
      }
    }
  }

  lemma FireNodeKeeps(m: Mgr, n: Node, script: seq<TimedOp>, now: int)
    requires Inv(m, [n], -1)
    ensures Inv(FireNode(m, n, script, now), [], -1)
  {
    assert NodeOk(m, n);
    if n.repeat == 0 || (n.cb.Keyed? && !Current(m, n.cb)) {
      RequeueKeeps(m, n);
    } else if n.cb.Plain? {
      var c := PlainCalled(m, n.cb.tag);
      SameTables(m, c, [n], -1);
      ApplyAllKeeps(c, script, [n], -1);
      RequeueKeeps(ApplyAll(c, script), n);
    } else {
      CallKeeps(m, n);
      var ts := if n.cb.key in m.keys then script else [];
      ApplyAllKeeps(Called(m, n.cb), ts, [n], n.cb.id);
      FinishRequeueKeeps(ApplyAll(Called(m, n.cb), ts), n, now);
    }
  }

  lemma TakeFirstKeeps(m: Mgr)
    requires Inv(m, [], -1) && m.batch != []
    ensures Inv(m.(batch := m.batch[1..]), [m.batch[0]], -1)
  {
    var n := m.batch[0];
    var p := m.(batch := m.batch[1..]);
    forall id | id in p.hist
      ensures Account(p, [n], id, false)
    {
      CountOne(n, id);
      assert Account(m, [], id, false);
      assert Valid(p, id) <==> Valid(m, id);
    }
    forall x | x in p.batch || x in p.queue || x in [n]
      ensures NodeOk(p, x)
    {
      assert x in m.batch || x in m.queue;
      assert NodeOk(m, x);
    }
  }

  lemma CollectKeeps(m: Mgr, now: int)
    requires Inv(m, [], -1) && m.batch == []
    ensures Inv(Next(m, Collect(now)), [], -1)
  {
    var c := DueCount(m.queue, now, MAX_PER_UPDATE);
    var p := Next(m, Collect(now));
    Split(m.queue, c);
    forall id | id in p.hist
      ensures Account(p, [], id, false)
    {
      CountConcat(m.queue[..c], m.queue[c..], id);
      assert Account(m, [], id, false);
      assert Valid(p, id) <==> Valid(m, id);
    }
    forall x | x in p.batch || x in p.queue
      ensures NodeOk(p, x)
    {
      assert x in m.queue;
      assert NodeOk(m, x);
    }
  }

  lemma NextKeeps(m: Mgr, s: Step)
    requires Inv(m, [], -1) && Enabled(m, s)
    ensures Inv(Next(m, s), [], -1)
  {
    match s
    case Do(t) => ApplyKeeps(m, t, [], -1);
    case Collect(now) => CollectKeeps(m, now);
    case FireFirst(script, now) =>
      TakeFirstKeeps(m);
      FireNodeKeeps(m.(batch := m.batch[1..]), m.batch[0], script, now);
  }

  lemma {:induction false} RunKeeps(steps: seq<Step>)
    requires Exec(INIT, steps).Some?
    ensures Inv(Exec(INIT, steps).value, [], -1)
  {
    if steps != [] {
      RunKeeps(steps[..|steps| - 1]);
      NextKeeps(Exec(INIT, steps[..|steps| - 1]).value, steps[|steps| - 1]);
    }
  }

  // ---------- What every run shows ----------

  // Does this step call the user function of id?
  predicate Calls(m: Mgr, s: Step, id: int) {
    && s.FireFirst? && m.batch != [] && Owned(m.batch[0], id) && m.batch[0].repeat != 0
    && Current(m, m.batch[0].cb) && m.batch[0].cb.key in m.keys
  }

  // How often a run has called the user function of id.
  function UserCalls(steps: seq<Step>, id: int): nat {
    if steps == [] then 0
    else
      var init := steps[..|steps| - 1];
      var p := Exec(INIT, init);
      UserCalls(init, id) + if p.Some? && Calls(p.value, steps[|steps| - 1], id) then 1 else 0
  }

  // What a script leaves alone: the counts of every id and the record of a dropped one.
  ghost predicate Extends(a: Mgr, b: Mgr) {
    && (forall id :: id in b.hist && id !in a.hist ==> b.hist[id].calls == 0)
    && (forall id :: id in a.hist ==>
          && id in b.hist && b.hist[id].calls == a.hist[id].calls
          && (a.hist[id].dropped ==> b.hist[id] == a.hist[id]))
  }

  lemma ApplyExtends(m: Mgr, t: TimedOp)
    requires Tables(m)
    ensures Extends(m, Apply(m, t)) && Tables(Apply(m, t))
  {
    match t.op
    case Schedule(ms, repeat, user) =>
    case ScheduleWithKey(key, ms, repeat, user) =>
      CancelKeepsTables(m, key);
      var c := Cancel(m, key);
      CancelKeepsTables(c, IntKey(key));
      ArmExtends(Cancel(c, IntKey(key)), key, ms, repeat, user, t.now);
    case CancelByKey(key) => CancelKeepsTables(m, key);
  }

  lemma CancelKeepsTables(m: Mgr, key: Key)
    requires Tables(m)
    ensures Extends(m, Cancel(m, key)) && Tables(Cancel(m, key)) && key !in Cancel(m, key).keys
  {
  }

  lemma ArmExtends(m: Mgr, key: Key, ms: Int32, repeat: Int32, user: UserFn, now: int)
    requires Tables(m) && IntKey(key) !in m.keys
    ensures Extends(m, Arm(m, key, ms, repeat, user, now)) && Tables(Arm(m, key, ms, repeat, user, now))
  {
  }

  lemma {:induction false} ApplyAllExtends(m: Mgr, ts: seq<TimedOp>)
    requires Tables(m)
    ensures Extends(m, ApplyAll(m, ts)) && Tables(ApplyAll(m, ts))
  {
    if ts != [] {
      ApplyAllExtends(m, ts[..|ts| - 1]);
      ApplyExtends(ApplyAll(m, ts[..|ts| - 1]), ts[|ts| - 1]);
    }
  }

  // The histories before and after a step that makes the calls of s.
  ghost predicate Advances(m: Mgr, s: Step, hist: map<int, Record>) {
    && (forall id :: id in hist && id !in m.hist ==> hist[id].calls == 0)
    && (forall id :: id in m.hist ==>
          && id in hist
          && hist[id].calls == m.hist[id].calls + (if Calls(m, s, id) then 1 else 0)
          && (m.hist[id].dropped ==> hist[id] == m.hist[id]))
  }

  lemma FireKeyedHist(m: Mgr, script: seq<TimedOp>, now: int)
    requires m.batch != [] && m.batch[0].repeat != 0 && Current(m, m.batch[0].cb)
    ensures var p, n := m.(batch := m.batch[1..]), m.batch[0];
            Next(m, FireFirst(script, now)).hist ==
            ApplyAll(Called(p, n.cb), if n.cb.key in p.keys then script else []).hist
  {
    var p, n := m.(batch := m.batch[1..]), m.batch[0];
    var a := ApplyAll(Called(p, n.cb), if n.cb.key in p.keys then script else []);
    assert Run(p, n.cb, script, now) == Finish(a, n.cb, now);
    FinishHist(a, n.cb, now);
  }

  lemma FinishHist(m: Mgr, cb: Callback, now: int)
    requires cb.Keyed?
    ensures Finish(m, cb, now).hist == m.hist
  {
  }

  lemma FireKeyed(m: Mgr, script: seq<TimedOp>, now: int)
    requires Tables(m) && m.batch != [] && m.batch[0].repeat != 0 && Current(m, m.batch[0].cb)
    requires m.batch[0].cb.id in m.hist && !m.hist[m.batch[0].cb.id].dropped
    ensures Advances(m, FireFirst(script, now), Next(m, FireFirst(script, now)).hist)
  {
    var p, n := m.(batch := m.batch[1..]), m.batch[0];
    var c := Called(p, n.cb);
    var ts := if n.cb.key in p.keys then script else [];
    ApplyAllExtends(c, ts);
    var h := ApplyAll(c, ts).hist;
    FireKeyedHist(m, script, now);
    forall id | id in m.hist
      ensures id in h && h[id].calls == m.hist[id].calls + (if Calls(m, FireFirst(script, now), id) then 1 else 0)
      ensures m.hist[id].dropped ==> h[id] == m.hist[id]
    {
      if id != n.cb.id {
        assert c.hist[id] == m.hist[id];
      }
    }
  }

  // A firing raises the count of its own id, if it reaches the user function, and
  // leaves dropped records alone.
  lemma FireExtends(m: Mgr, script: seq<TimedOp>, now: int)
    requires Inv(m, [], -1) && m.batch != []
    ensures Advances(m, FireFirst(script, now), Next(m, FireFirst(script, now)).hist)
  {
    var p, n := m.(batch := m.batch[1..]), m.batch[0];
    assert NodeOk(m, n);
    if n.repeat == 0 || (n.cb.Keyed? && !Current(p, n.cb)) {
      assert Next(m, FireFirst(script, now)).hist == m.hist;
    } else if n.cb.Plain? {
      ApplyAllExtends(PlainCalled(p, n.cb.tag), script);
      assert Next(m, FireFirst(script, now)).hist == ApplyAll(PlainCalled(p, n.cb.tag), script).hist;
    } else {
      assert Account(m, [], n.cb.id, false);
      assert Valid(m, n.cb.id);
      FireKeyed(m, script, now);
    }
  }

  lemma {:induction false} CallsCounted(steps: seq<Step>, id: int)
    requires Exec(INIT, steps).Some?
    ensures var m := Exec(INIT, steps).value;
            UserCalls(steps, id) == if id in m.hist then m.hist[id].calls else 0
  {
    if steps != [] {
      var init, s := steps[..|steps| - 1], steps[|steps| - 1];
      CallsCounted(init, id);
      RunKeeps(init);
      var p := Exec(INIT, init).value;
      match s {
        case Do(t) => ApplyExtends(p, t);
        case Collect(now) =>
        case FireFirst(script, now) =>
          FireExtends(p, script, now);
          assert NodeOk(p, p.batch[0]);
      }
    }
  }

  // A timer set with count k >= 1 and not dropped: calls and owed calls add up to
  // k; while some are owed a node is in hand, and between Updates one is queued;
  // when none is owed no table mentions the id.  A key that does not survive int
  // has all its runs and none of its calls.
  lemma {:induction false} RepeatCount(steps: seq<Step>, id: int)
    requires Exec(INIT, steps).Some? && id in Exec(INIT, steps).value.hist
    requires !Exec(INIT, steps).value.hist[id].dropped && Exec(INIT, steps).value.hist[id].repeat >= 1
    ensures var m := Exec(INIT, steps).value;
            var r := m.hist[id];
            && (r.runs < r.repeat <==> Valid(m, id))
            && (Valid(m, id) ==> id in m.repeats && r.runs + m.repeats[id].0 == r.repeat)
            && (Valid(m, id) && m.batch == [] ==> exists n :: n in m.queue && Owned(n, id) && n.repeat >= 1)
            && (!Valid(m, id) ==> r.runs == r.repeat && id !in m.repeats)
            && UserCalls(steps, id) == (if IntKey(r.key) == r.key then r.runs else 0)
  {
    RunKeeps(steps);
    CallsCounted(steps, id);
    var m := Exec(INIT, steps).value;
    assert Account(m, [], id, false);
    if Valid(m, id) && m.batch == [] {
      CountWitness(m.queue, id);
      var n :| n in m.queue && Owned(n, id);
      assert NodeOk(m, n);
    }
  }

  // A timer set with count 0 never calls its user function, and its key stays taken.
  lemma {:induction false} ZeroNeverCalls(steps: seq<Step>, id: int)
    requires Exec(INIT, steps).Some? && id in Exec(INIT, steps).value.hist
    requires Exec(INIT, steps).value.hist[id].repeat == 0
    ensures UserCalls(steps, id) == 0
    ensures var m := Exec(INIT, steps).value; m.hist[id].dropped || Valid(m, id)
  {
    RunKeeps(steps);
    CallsCounted(steps, id);
    assert Account(Exec(INIT, steps).value, [], id, false);
  }

  // A timer set for ever has one node more after each run.
  lemma ForeverMultiplies(steps: seq<Step>, id: int)
    requires Exec(INIT, steps).Some? && id in Exec(INIT, steps).value.hist
    requires !Exec(INIT, steps).value.hist[id].dropped && Exec(INIT, steps).value.hist[id].repeat == -1
    ensures var m := Exec(INIT, steps).value;
            Count(m.queue, id) + Count(m.batch, id) == m.hist[id].runs + 1
  {
    RunKeeps(steps);
    assert Account(Exec(INIT, steps).value, [], id, false);
  }

  // A timer set with a negative count never leaves the multimap, cancelled or not.
  lemma NegativeNeverLeaves(steps: seq<Step>, id: int)
    requires Exec(INIT, steps).Some? && id in Exec(INIT, steps).value.hist
    requires Exec(INIT, steps).value.hist[id].repeat < 0
    ensures var m := Exec(INIT, steps).value; Count(m.queue, id) + Count(m.batch, id) >= 1
  {
    RunKeeps(steps);
    assert Account(Exec(INIT, steps).value, [], id, false);
  }

  // After a cancellation or replacement the nodes left over never call the user.
  lemma {:induction false} DroppedNeverCalls(before: seq<Step>, after: seq<Step>, id: int)
    requires Exec(INIT, before).Some? && Exec(INIT, before + after).Some?
    requires id in Exec(INIT, before).value.hist && Exec(INIT, before).value.hist[id].dropped
    ensures UserCalls(before + after, id) == UserCalls(before, id)
    ensures var m := Exec(INIT, before + after).value; id in m.hist && m.hist[id].dropped
  {
    if after == [] {
      assert before + after == before;
    } else {
      var all := before + after;
      var init := before + after[..|after| - 1];
      assert all[..|all| - 1] == init && all[|all| - 1] == after[|after| - 1];
      DroppedNeverCalls(before, after[..|after| - 1], id);
      RunKeeps(init);
      var p, s := Exec(INIT, init).value, after[|after| - 1];
      match s {
        case Do(t) => ApplyExtends(p, t);
        case Collect(now) =>
        case FireFirst(script, now) =>
          FireExtends(p, script, now);
          assert Account(p, [], id, false);
          assert NodeOk(p, p.batch[0]);
      }
    }
  }

  // The operations that drop the timer a key holds, in a whole run.
  lemma CancelledNeverCalls(before: seq<Step>, t: TimedOp, after: seq<Step>)
    requires Exec(INIT, before).Some? && Exec(INIT, before + [Do(t)] + after).Some?
    requires (t.op.CancelByKey? || t.op.ScheduleWithKey?) && t.op.key in Exec(INIT, before).value.keys
    ensures var id := Exec(INIT, before).value.keys[t.op.key];
            UserCalls(before + [Do(t)] + after, id) == UserCalls(before, id)
  {
    var m := Exec(INIT, before).value;
    var id, mid := m.keys[t.op.key], before + [Do(t)];
    assert mid[..|mid| - 1] == before;
    Runs.ExecPrefix(TryStep, INIT, mid, after);
    RunKeeps(before);
    CancelKeepsTables(m, t.op.key);
    var c := Cancel(m, t.op.key);
    if t.op.ScheduleWithKey? {
      CancelKeepsTables(c, IntKey(t.op.key));
    }
    DroppedNeverCalls(mid, after, id);
  }

  // Update takes every node that is due, up to its limit.
  lemma CollectTakesAllDue(m: Mgr, now: int)
    requires Sorted(m.queue) && m.batch == []
    ensures var c := Next(m, Collect(now));
            && c.batch + c.queue == m.queue && |c.batch| <= MAX_PER_UPDATE
            && (forall n :: n in c.batch ==> n.time <= now)
            && (|c.batch| < MAX_PER_UPDATE ==> forall n :: n in c.queue ==> n.time > now)
  {
    DueFirst(m.queue, now, MAX_PER_UPDATE);
  }

  lemma DueFirst(q: seq<Node>, now: int, room: nat)
    requires Sorted(q)
    ensures var d := DueCount(q, now, room);
            && q[..d] + q[d..] == q
            && (forall n :: n in q[..d] ==> n.time <= now)
            && (d < room ==> forall n :: n in q[d..] ==> n.time > now)
  {
    var d := DueCount(q, now, room);
    Split(q, d);
    NoneLater(q, d, now);
    if d < room && d < |q| {
      AllLater(q, d, now);
    }
  }

  lemma NoneLater(q: seq<Node>, d: nat, now: int)
    requires d <= |q| && forall i :: 0 <= i < d ==> q[i].time <= now
    ensures forall n :: n in q[..d] ==> n.time <= now
  {
  }

  lemma AllLater(q: seq<Node>, d: nat, now: int)
    requires d < |q| && Sorted(q) && q[d].time > now
    ensures forall n :: n in q[d..] ==> n.time > now
  {
  }

  lemma Split(q: seq<Node>, d: nat)
    requires d <= |q|
    ensures q[..d] + q[d..] == q
  {
  }

  lemma {:induction false} DueCountIs(q: seq<Node>, now: int, room: nat, c: nat)
    requires c <= |q| && c <= room && forall i :: 0 <= i < c ==> q[i].time <= now
    requires c == room || c == |q| || q[c].time > now
    ensures DueCount(q, now, room) == c
  {
    if c > 0 {
      assert q[0].time <= now;
      DueCountIs(q[1..], now, room - 1, c - 1);
    }
  }
}
