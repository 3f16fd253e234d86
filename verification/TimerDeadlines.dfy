// When the timers of the heap timer manager fire, from the operations of a run alone.
//
// Every scheduling operation that is carried out, by a caller or by a user function,
// issues the next id; so the operations of a run, in order, say what each id stands for.
module TimerDeadlines {
  import opened Prelude
  import opened HeapTimer
  import opened TimerManagerSpec

  // The operations that a step carries out.
  function Ops(s: Step): seq<TimedOp> {
    match s
    case Do(t) => [t]
    case Expire(_, _, script, _) => script
  }

  // Those of them that schedule.
  function Issues(ts: seq<TimedOp>): seq<TimedOp> {
    if ts == [] then []
    else
      var t := ts[|ts| - 1];
      Issues(ts[..|ts| - 1]) + if t.op.CancelByKey? then [] else [t]
  }

  // The scheduling operations of a run: the id-th of them has issued id.
  function Issued(steps: seq<Step>): seq<TimedOp> {
    if steps == [] then [] else Issued(steps[..|steps| - 1]) + Issues(Ops(steps[|steps| - 1]))
  }

  // The reading from which id was last set: that of its last firing, after its user
  // function has returned, or that of the operation that issued it.
  function LastSet(steps: seq<Step>, id: nat): int {
    if steps == [] then 0
    else
      var init, s := steps[..|steps| - 1], steps[|steps| - 1];
      if s.Expire? && s.id == id then s.rearmAt
      else if |Issued(init)| <= id < |Issued(steps)| then Issued(steps)[id].now
      else LastSet(init, id)
  }

  function KeyOf(op: Op): Option<int> {
    if op.ScheduleWithKey? then Some(op.key) else None
  }

  // The record of an id says what the operation asked for.
  predicate RecordOf(r: Record, op: Op) {
    && !op.CancelByKey? && r.key == KeyOf(op)
    && r.period == op.ms && r.repeat == op.repeat && r.user == op.user
  }

  // What a script does to the ids: those it issues stand for its operations, are uncalled,
  // and are set from their readings; the others keep their records and, if anything, lose
  // their nodes.
  ghost predicate Issuing(a: Mgr, b: Mgr, issues: seq<TimedOp>) {
    && b.nextId == a.nextId + |issues|
    && (forall id :: a.nextId <= id < b.nextId ==>
          && id in b.hist && RecordOf(b.hist[id], issues[id - a.nextId].op)
          && (id in b.nodes ==>
                b.nodes[id].expires == issues[id - a.nextId].now + issues[id - a.nextId].op.ms * 1_000_000))
    && (forall id :: id in a.hist ==>
          && id in b.hist && b.hist[id].key == a.hist[id].key && b.hist[id].user == a.hist[id].user
          && b.hist[id].period == a.hist[id].period && b.hist[id].repeat == a.hist[id].repeat)
    && (forall id :: id in b.nodes && id < a.nextId ==> id in a.nodes && b.nodes[id] == a.nodes[id])
  }

  lemma ApplyIssues(m: Mgr, t: TimedOp)
    requires Tables(m)
    ensures Issuing(m, Apply(m, t), if t.op.CancelByKey? then [] else [t])
    ensures Tables(Apply(m, t))
  {
    ApplyExtends(m, t);
  }

  lemma {:induction false} ApplyAllIssues(m: Mgr, ts: seq<TimedOp>)
    requires Tables(m)
    ensures Issuing(m, ApplyAll(m, ts), Issues(ts)) && Tables(ApplyAll(m, ts))
  {
    if ts != [] {
      var init, t := ts[..|ts| - 1], ts[|ts| - 1];
      ApplyAllIssues(m, init);
      ApplyIssues(ApplyAll(m, init), t);
      IssuingBoth(m, ApplyAll(m, init), Apply(ApplyAll(m, init), t), Issues(init), if t.op.CancelByKey? then [] else [t]);
    }
  }

  lemma IssuingBoth(a: Mgr, b: Mgr, c: Mgr, p: seq<TimedOp>, q: seq<TimedOp>)
    requires Tables(a) && Tables(b) && Issuing(a, b, p) && Issuing(b, c, q)
    ensures Issuing(a, c, p + q)
  {
    forall id | a.nextId <= id < c.nextId
      ensures id in c.hist && RecordOf(c.hist[id], (p + q)[id - a.nextId].op)
      ensures id in c.nodes ==>
                c.nodes[id].expires == (p + q)[id - a.nextId].now + (p + q)[id - a.nextId].op.ms * 1_000_000
    {
      if id < b.nextId {
        assert id in b.hist && (p + q)[id - a.nextId] == p[id - a.nextId];
      } else {
        assert (p + q)[id - a.nextId] == q[id - b.nextId];
      }
    }
  }

  // What holds of every id after a run.
  ghost predicate Deadlines(m: Mgr, steps: seq<Step>) {
    && m.nextId == |Issued(steps)|
    && (forall id :: id in m.hist ==> 0 <= id < |Issued(steps)| && RecordOf(m.hist[id], Issued(steps)[id].op))
    && (forall id :: id in m.nodes ==> DueAt(m.nodes[id].expires, steps, id))
  }

  // Its period after it was last set.
  ghost predicate DueAt(expires: int, steps: seq<Step>, id: int) {
    && 0 <= id < |Issued(steps)| && !Issued(steps)[id].op.CancelByKey?
    && expires == LastSet(steps, id) + Issued(steps)[id].op.ms * 1_000_000
  }

  // The end of a closure sets its own node again, by the period of its record, and no other.
  lemma FinishSets(m: Mgr, cb: Callback, now: int)
    requires Inv(m, cb.id) && cb.id in m.hist
    requires cb.key == m.hist[cb.id].key && cb.user == m.hist[cb.id].user
    ensures var f := Finish(m, cb, now);
            && f.nextId == m.nextId && f.hist == m.hist
            && (forall id :: id in f.nodes && id != cb.id ==> id in m.nodes && f.nodes[id] == m.nodes[id])
            && (cb.id in f.nodes ==> f.nodes[cb.id].expires == now + m.hist[cb.id].period * 1_000_000)
  {
    assert Account(m, cb.id, true);
  }

  lemma FireSets(m: Mgr, id: int, script: seq<TimedOp>, now: int)
    requires Inv(m, -1) && id in m.nodes
    ensures var f, c := Fire(m, id, script, now), Called(m.(nodes := m.nodes - {id}), id);
            && id in m.hist && f.nextId == m.nextId + |Issues(script)|
            && Issuing(c, ApplyAll(c, script), Issues(script)) && c.nextId == m.nextId && Tables(c)
            && f.hist == ApplyAll(c, script).hist
            && (forall i :: i in f.nodes && i != id ==> i in ApplyAll(c, script).nodes && f.nodes[i] == ApplyAll(c, script).nodes[i])
            && (id in f.nodes ==> f.nodes[id].expires == now + m.hist[id].period * 1_000_000)
  {
    var c, cb := Called(m.(nodes := m.nodes - {id}), id), m.nodes[id].callback;
    FireIs(m, id, script, now);
    ApplyAllKeeps(c, script, id);
    ApplyAllIssues(c, script);
    ApplyAllExtends(c, script);
    FinishSets(ApplyAll(c, script), cb, now);
  }

  // In every run, each id stands for the operation that issued it, and its node, if it has
  // one, is due exactly its period after it was last set.
  lemma {:induction false} RunDeadlines(steps: seq<Step>)
    requires Exec(INIT, steps).Some?
    ensures Deadlines(Exec(INIT, steps).value, steps)
  {
    if steps != [] {
      var init, s := steps[..|steps| - 1], steps[|steps| - 1];
      RunDeadlines(init);
      RunKeeps(init);
      RunKeeps(steps);
      assert init + [s] == steps;
      var p := Exec(INIT, init).value;
      match s {
        case Do(t) => DoDeadlines(p, t, init);
        case Expire(id, at, script, rearmAt) => ExpireDeadlines(p, id, at, script, rearmAt, init);
      }
    }
  }

  lemma IssuedMore(init: seq<Step>, s: Step)
    ensures Issued(init + [s]) == Issued(init) + Issues(Ops(s))
    ensures forall id: nat :: id < |Issued(init)| && !(s.Expire? && s.id == id) ==>
              LastSet(init + [s], id) == LastSet(init, id)
  {
    assert (init + [s])[..|init + [s]| - 1] == init;
  }

  lemma DoDeadlines(m: Mgr, t: TimedOp, init: seq<Step>)
    requires Inv(m, -1) && Deadlines(m, init) && Tables(Apply(m, t))
    ensures Deadlines(Apply(m, t), init + [Do(t)])
  {
    var n, steps := Apply(m, t), init + [Do(t)];
    IssuedMore(init, Do(t));
    assert [t][..0] == [] && Issues([t]) == Issues([]) + if t.op.CancelByKey? then [] else [t];
    ApplyIssues(m, t);
    assert steps[..|steps| - 1] == init;
    IssuingDeadlines(m, n, init, Do(t));
  }

  // An id after a step that does not fire it: an old one, or one that the step issues.
  lemma AfterStep(init: seq<Step>, s: Step, id: nat)
    requires id < |Issued(init + [s])|
    ensures var known := id < |Issued(init)|;
            && Issued(init + [s])[id] == (if known then Issued(init)[id] else Issues(Ops(s))[id - |Issued(init)|])
            && (known && !(s.Expire? && s.id == id) ==> LastSet(init + [s], id) == LastSet(init, id))
            && (!known && !(s.Expire? && s.id == id) ==> LastSet(init + [s], id) == Issued(init + [s])[id].now)
  {
    IssuedMore(init, s);
    assert (init + [s])[..|init + [s]| - 1] == init;
  }

  // The ids of a step that sets no node again.
  lemma IssuingDeadlines(m: Mgr, n: Mgr, init: seq<Step>, s: Step)
    requires Tables(m) && Deadlines(m, init) && Tables(n) && Issuing(m, n, Issues(Ops(s)))
    requires s.Expire? ==> s.id !in n.nodes
    ensures Deadlines(n, init + [s])
  {
    IssuedMore(init, s);
    forall id | id in n.hist
      ensures 0 <= id < |Issued(init + [s])| && RecordOf(n.hist[id], Issued(init + [s])[id].op)
      ensures id in n.nodes ==> DueAt(n.nodes[id].expires, init + [s], id)
    {
      if id < m.nextId {
        OldDeadline(m, n, init, s, id);
      } else {
        AfterStep(init, s, id);
      }
    }
  }

  lemma OldDeadline(m: Mgr, n: Mgr, init: seq<Step>, s: Step, id: nat)
    requires Tables(m) && Deadlines(m, init) && Issuing(m, n, Issues(Ops(s)))
    requires id in n.hist && id < m.nextId && (s.Expire? && s.id == id ==> id !in n.nodes)
    ensures id < |Issued(init + [s])| && RecordOf(n.hist[id], Issued(init + [s])[id].op)
    ensures id in n.nodes ==> DueAt(n.nodes[id].expires, init + [s], id)
  {
    IssuedMore(init, s);
    AfterStep(init, s, id);
    assert id in m.hist;
    assert id in n.nodes ==> DueAt(m.nodes[id].expires, init, id);
  }

  // A firing, without the node that is set again.
  lemma FireIssues(m: Mgr, id: int, script: seq<TimedOp>, now: int)
    requires Inv(m, -1) && id in m.nodes
    ensures var f := Fire(m, id, script, now);
            Issuing(m.(nodes := m.nodes - {id}), f.(nodes := f.nodes - {id}), Issues(script))
  {
    var d := m.(nodes := m.nodes - {id});
    var c := Called(d, id);
    FireSets(m, id, script, now);
    IssuingFrom(d, c, ApplyAll(c, script), Issues(script));
    IssuingTo(d, ApplyAll(c, script), Fire(m, id, script, now), Issues(script), id);
  }

  // What a script does is the same before a call is booked and after.
  lemma IssuingFrom(d: Mgr, c: Mgr, b: Mgr, issues: seq<TimedOp>)
    requires Issuing(c, b, issues) && c.nextId == d.nextId && c.nodes == d.nodes
    requires forall i :: i in d.hist ==>
               && i in c.hist && c.hist[i].key == d.hist[i].key && c.hist[i].user == d.hist[i].user
               && c.hist[i].period == d.hist[i].period && c.hist[i].repeat == d.hist[i].repeat
    ensures Issuing(d, b, issues)
  {
  }

  // Nor does it matter that a node is set again, if that is left aside.
  lemma IssuingTo(d: Mgr, b: Mgr, f: Mgr, issues: seq<TimedOp>, id: int)
    requires Issuing(d, b, issues) && f.nextId == b.nextId && f.hist == b.hist
    requires forall i :: i in f.nodes && i != id ==> i in b.nodes && f.nodes[i] == b.nodes[i]
    ensures Issuing(d, f.(nodes := f.nodes - {id}), issues)
  {
  }

  lemma ExpireDeadlines(m: Mgr, id: int, at: int, script: seq<TimedOp>, rearmAt: int, init: seq<Step>)
    requires Inv(m, -1) && id in m.nodes && Deadlines(m, init) && Tables(Fire(m, id, script, rearmAt))
    ensures Deadlines(Fire(m, id, script, rearmAt), init + [Expire(id, at, script, rearmAt)])
  {
    FireSets(m, id, script, rearmAt);
    FireIssues(m, id, script, rearmAt);
    assert Deadlines(m.(nodes := m.nodes - {id}), init);
    AgainDeadlines(m.(nodes := m.nodes - {id}), Fire(m, id, script, rearmAt), init, Expire(id, at, script, rearmAt));
  }

  lemma AgainDeadlines(d: Mgr, f: Mgr, init: seq<Step>, s: Step)
    requires Tables(d) && Tables(f) && Deadlines(d, init) && s.Expire? && s.id in d.hist
    requires Issuing(d, f.(nodes := f.nodes - {s.id}), Issues(Ops(s)))
    requires s.id in f.nodes ==> f.nodes[s.id].expires == s.rearmAt + d.hist[s.id].period * 1_000_000
    ensures Deadlines(f, init + [s])
  {
    IssuingDeadlines(d, f.(nodes := f.nodes - {s.id}), init, s);
    SetAgain(d, init, s);
  }

  lemma SetAgain(m: Mgr, init: seq<Step>, s: Step)
    requires Deadlines(m, init) && s.Expire? && s.id in m.hist
    ensures DueAt(s.rearmAt + m.hist[s.id].period * 1_000_000, init + [s], s.id)
  {
    IssuedMore(init, s);
    assert (init + [s])[..|init + [s]| - 1] == init;
    assert Issued(init + [s])[s.id] == Issued(init)[s.id];
  }

  // No timer fires a millisecond before its time: a firing that Tick finds due comes later
  // than its period, less a millisecond, after the reading from which the timer was last
  // set, be that its operation or its firing before.
  lemma NeverEarly(before: seq<Step>, s: Step)
    requires Exec(INIT, before).Some? && Enabled(Exec(INIT, before).value, s) && s.Expire?
    requires Exec(INIT, before).value.nodes[s.id].expires - s.at < 1_000_000
    ensures 0 <= s.id < |Issued(before)| && !Issued(before)[s.id].op.CancelByKey?
            && s.at > LastSet(before, s.id) + (Issued(before)[s.id].op.ms - 1) * 1_000_000
  {
    RunDeadlines(before);
    RunKeeps(before);
  }

  // Nor is one left behind that should have fired: one that has a millisecond or more to go,
  // as every one has that a Tick leaves with its hundred not used up, is not yet due.
  lemma {:induction false} NeverForgotten(before: seq<Step>, id: nat, now: int)
    requires Exec(INIT, before).Some? && id in Exec(INIT, before).value.nodes
    requires Exec(INIT, before).value.nodes[id].expires - now >= 1_000_000
    ensures id < |Issued(before)| && !Issued(before)[id].op.CancelByKey?
            && now <= LastSet(before, id) + (Issued(before)[id].op.ms - 1) * 1_000_000
  {
    RunDeadlines(before);
    RunKeeps(before);
  }

  // An operation drops the timer that its key holds, if it has a key, and no other; of the
  // others it leaves the nodes, the counts and the keys as they are.
  lemma DropsOnlyItsKey(m: Mgr, t: TimedOp)
    requires Tables(m)
    ensures var b := Apply(m, t);
            var held := if !t.op.Schedule? && t.op.key in m.keys then Some(m.keys[t.op.key]) else None;
            && (forall id :: id in m.hist ==>
                  id in b.hist && (b.hist[id].dropped <==> m.hist[id].dropped || held == Some(id)))
            && (forall id :: id in m.hist && held != Some(id) ==>
                  && (id in b.nodes <==> id in m.nodes) && (id in m.nodes ==> b.nodes[id] == m.nodes[id])
                  && (id in b.repeats <==> id in m.repeats) && (id in m.repeats ==> b.repeats[id] == m.repeats[id]))
            && (forall id :: id in m.hist && held == Some(id) ==> id !in b.nodes && id !in b.repeats)
            && (forall k :: k in m.keys && (t.op.Schedule? || k != t.op.key) ==> k in b.keys && b.keys[k] == m.keys[k])
            && (t.op.CancelByKey? ==> t.op.key !in b.keys)
            && (t.op.ScheduleWithKey? ==> t.op.key in b.keys && b.keys[t.op.key] == m.nextId)
            && (!t.op.CancelByKey? ==>
                  && m.nextId in b.nodes && b.nodes[m.nextId].callback.user == t.op.user
                  && b.nodes[m.nextId].expires == t.now + t.op.ms * 1_000_000
                  && (t.op.repeat != 0 ==> m.nextId in b.repeats && b.repeats[m.nextId] == (t.op.repeat, t.op.ms)))
  {
    ApplyExtends(m, t);
  }
}
