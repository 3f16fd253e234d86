// The nodes of the multimap timer manager, counted by weight: the firings that a
// dropped timer still has to come, and the calls of timers without a key.
module MapTimerNodes {
  import opened Prelude
  import opened MapTimerSpec

  // ---------- Weighing nodes ----------

  // What the nodes that are queued or taken weigh.
  function Weight(m: Mgr, w: Node -> nat): nat {
    Sum(m.queue, w) + Sum(m.batch, w)
  }

  // Timers that have yet to be set weigh nothing.
  ghost predicate KnownOnly(m: Mgr, w: Node -> nat) {
    forall n: Node :: (if n.cb.Keyed? then n.cb.id >= m.nextId else n.cb.tag >= m.nextTag) ==> w(n) == 0
  }

  lemma ApplyWeight(m: Mgr, t: TimedOp, w: Node -> nat)
    requires KnownOnly(m, w)
    ensures Weight(Apply(m, t), w) == Weight(m, w) && Apply(m, t).batch == m.batch
    ensures m.nextId <= Apply(m, t).nextId && m.nextTag <= Apply(m, t).nextTag
  {
    match t.op
    case Schedule(ms, repeat, user) =>
      SumInsert(m.queue, Node(t.now + AtLeastOne(ms), Plain(m.nextTag, user), AtLeastOne(ms), repeat), w);
    case ScheduleWithKey(key, ms, repeat, user) =>
      SumInsert(m.queue, Node(t.now + AtLeastOne(ms), Keyed(m.nextId, key, user), AtLeastOne(ms), repeat), w);
    case CancelByKey(key) =>
  }

  // A script changes the weight of nothing that is known.
  lemma {:induction false} ApplyAllWeight(m: Mgr, ts: seq<TimedOp>, w: Node -> nat)
    requires KnownOnly(m, w)
    ensures Weight(ApplyAll(m, ts), w) == Weight(m, w) && ApplyAll(m, ts).batch == m.batch
    ensures m.nextId <= ApplyAll(m, ts).nextId && m.nextTag <= ApplyAll(m, ts).nextTag
  {
    if ts != [] {
      ApplyAllWeight(m, ts[..|ts| - 1], w);
      ApplyWeight(ApplyAll(m, ts[..|ts| - 1]), ts[|ts| - 1], w);
    }
  }

  lemma CollectWeight(m: Mgr, now: int, w: Node -> nat)
    requires m.batch == []
    ensures Weight(Next(m, Collect(now)), w) == Weight(m, w)
  {
    var c := DueCount(m.queue, now, MAX_PER_UPDATE);
    SumConcat(m.queue[..c], m.queue[c..], w);
    assert m.queue[..c] + m.queue[c..] == m.queue;
  }

  lemma RequeueWeight(m: Mgr, n: Node, w: Node -> nat)
    ensures Weight(Requeue(m, n), w) == Weight(m, w) + if Aged(n).repeat != 0 then w(Aged(n)) else 0
  {
    SumInsert(m.queue, Aged(n), w);
  }

  lemma FinishWeight(m: Mgr, cb: Callback, now: int, w: Node -> nat)
    requires cb.Keyed? && forall x: Node :: x.cb == cb ==> w(x) == 0
    ensures Weight(Finish(m, cb, now), w) == Weight(m, w)
  {
    if cb.id in m.repeats {
      var (remaining, period) := m.repeats[cb.id];
      SumInsert(m.queue, Node(now + period, cb, period, if remaining > 0 then remaining - 1 else remaining), w);
    }
  }

  // A closure changes no weight that its own nodes have no part in.
  lemma RunWeight(m: Mgr, cb: Callback, script: seq<TimedOp>, now: int, w: Node -> nat)
    requires KnownOnly(m, w)
    requires cb.Keyed? && Current(m, cb) ==> forall x: Node :: x.cb == cb ==> w(x) == 0
    ensures Weight(Run(m, cb, script, now), w) == Weight(m, w)
  {
    match cb
    case Plain(tag, _) => ApplyAllWeight(PlainCalled(m, tag), script, w);
    case Keyed(_, key, _) =>
      if Current(m, cb) {
        var ts := if key in m.keys then script else [];
        ApplyAllWeight(Called(m, cb), ts, w);
        FinishWeight(ApplyAll(Called(m, cb), ts), cb, now, w);
      }
  }

  // A firing takes the weight of the node in hand and gives back that of the aged one.
  lemma FireWeight(m: Mgr, script: seq<TimedOp>, now: int, w: Node -> nat)
    requires m.batch != [] && KnownOnly(m, w)
    requires var cb := m.batch[0].cb; cb.Keyed? && Current(m, cb) ==> forall x: Node :: x.cb == cb ==> w(x) == 0
    ensures var n := m.batch[0];
            Weight(Next(m, FireFirst(script, now)), w) ==
            Weight(m, w) - w(n) + if Aged(n).repeat != 0 then w(Aged(n)) else 0
  {
    var n, p := m.batch[0], m.(batch := m.batch[1..]);
    RunWeight(p, n.cb, script, now, w);
    RequeueWeight(if n.repeat == 0 then p else Run(p, n.cb, script, now), n, w);
  }

  // ---------- Nodes left over ----------

  // How many firings a node has left if its closure queues no other: one for count 0.
  function FiringsLeft(id: int): Node -> nat {
    n => if !Owned(n, id) then 0 else if n.repeat <= 1 then 1 else n.repeat
  }

  // How often a run has fired a node of id, whether or not that reached the user function.
  function Firings(steps: seq<Step>, id: int): nat {
    if steps == [] then 0
    else
      var init, s := steps[..|steps| - 1], steps[|steps| - 1];
      var p := Exec(INIT, init);
      Firings(init, id) + if s.FireFirst? && p.Some? && p.value.batch != [] && Owned(p.value.batch[0], id) then 1 else 0
  }

  // One step, for an id that has been dropped and was set with count 0 or more.
  lemma LeftoverStep(m: Mgr, s: Step, id: int)
    requires Inv(m, [], -1) && Enabled(m, s)
    requires id in m.hist && m.hist[id].dropped && m.hist[id].repeat >= 0
    ensures Weight(Next(m, s), FiringsLeft(id)) ==
            Weight(m, FiringsLeft(id)) - if s.FireFirst? && Owned(m.batch[0], id) then 1 else 0
  {
    assert Account(m, [], id, false);
    match s
    case Do(t) => ApplyWeight(m, t, FiringsLeft(id));
    case Collect(now) => CollectWeight(m, now, FiringsLeft(id));
    case FireFirst(script, now) =>
      assert NodeOk(m, m.batch[0]);
      FireWeight(m, script, now, FiringsLeft(id));
  }

  // The nodes that a dropped timer leaves behind fire a fixed number of times in all:
  // in every continuation, the firings made and those left add up to the same.
  lemma {:induction false} LeftoverFirings(before: seq<Step>, after: seq<Step>, id: int)
    requires Exec(INIT, before).Some? && Exec(INIT, before + after).Some?
    requires var m := Exec(INIT, before).value; id in m.hist && m.hist[id].dropped && m.hist[id].repeat >= 0
    ensures Firings(before + after, id) + Weight(Exec(INIT, before + after).value, FiringsLeft(id)) ==
            Firings(before, id) + Weight(Exec(INIT, before).value, FiringsLeft(id))
  {
    if after == [] {
      assert before + after == before;
    } else {
      var all, init := before + after, before + after[..|after| - 1];
      assert all[..|all| - 1] == init && all[|all| - 1] == after[|after| - 1];
      LeftoverFirings(before, after[..|after| - 1], id);
      RunKeeps(init);
      var p, s := Exec(INIT, init).value, after[|after| - 1];
      RepeatStays(before, after[..|after| - 1], id);
      LeftoverStep(p, s, id);
    }
  }

  // No node of id is queued or taken.
  ghost predicate Gone(m: Mgr, id: int) {
    Count(m.queue, id) + Count(m.batch, id) == 0
  }

  lemma GoneIsWeightless(m: Mgr, id: int)
    ensures Gone(m, id) <==> Weight(m, FiringsLeft(id)) == 0
  {
    var w := FiringsLeft(id);
    CountWitness(m.queue, id);
    CountWitness(m.batch, id);
    SumPositive(m.queue, w);
    SumPositive(m.batch, w);
    forall n | n in m.queue || n in m.batch
      ensures w(n) > 0 <==> Owned(n, id)
    {
    }
  }

  // A dropped timer leaves the multimap if and only if its count was not negative, and
  // then exactly when its nodes have fired as often as they had left when it was dropped.
  lemma LeftoversLeave(before: seq<Step>, after: seq<Step>, id: int)
    requires Exec(INIT, before).Some? && Exec(INIT, before + after).Some?
    requires var m := Exec(INIT, before).value; id in m.hist && m.hist[id].dropped
    ensures var m := Exec(INIT, before).value;
            Gone(Exec(INIT, before + after).value, id) <==>
            m.hist[id].repeat >= 0
            && Firings(before + after, id) - Firings(before, id) == Weight(m, FiringsLeft(id))
  {
    if Exec(INIT, before).value.hist[id].repeat >= 0 {
      LeftoverFirings(before, after, id);
      GoneIsWeightless(Exec(INIT, before + after).value, id);
    } else {
      DroppedNeverCalls(before, after, id);
      RepeatStays(before, after, id);
      NegativeNeverLeaves(before + after, id);
    }
  }

  lemma {:induction false} RepeatStays(before: seq<Step>, after: seq<Step>, id: int)
    requires Exec(INIT, before).Some? && Exec(INIT, before + after).Some?
    requires id in Exec(INIT, before).value.hist && Exec(INIT, before).value.hist[id].dropped
    ensures var m := Exec(INIT, before + after).value; id in m.hist && m.hist[id] == Exec(INIT, before).value.hist[id]
  {
    if after == [] {
      assert before + after == before;
    } else {
      var all, init := before + after, before + after[..|after| - 1];
      assert all[..|all| - 1] == init && all[|all| - 1] == after[|after| - 1];
      RepeatStays(before, after[..|after| - 1], id);
      RunKeeps(init);
      match after[|after| - 1] {
        case Do(t) => ApplyExtends(Exec(INIT, init).value, t);
        case Collect(now) =>
        case FireFirst(script, now) => FireExtends(Exec(INIT, init).value, script, now);
      }
    }
  }

  // ---------- Timers without a key ----------

  function Tagged(tag: int): Node -> nat {
    (n: Node) => if n.cb.Plain? && n.cb.tag == tag then 1 else 0
  }

  // The node of a timer without a key carries the calls still owed.
  ghost predicate PlainNodeOk(plain: map<int, PlainRecord>, n: Node) {
    n.cb.Plain? ==>
      && n.cb.tag in plain
      && var r := plain[n.cb.tag];
      if r.repeat > 0 then n.repeat == r.repeat - r.calls >= 1 else n.repeat == r.repeat
  }

  ghost predicate PlainAccount(m: Mgr, tag: int)
    requires tag in m.plain
  {
    var r, nodes := m.plain[tag], Weight(m, Tagged(tag));
    && (r.repeat == 0 ==> r.calls == 0)
    && (r.repeat > 0 ==> r.calls <= r.repeat && nodes == if r.calls < r.repeat then 1 else 0)
    && (r.repeat < 0 ==> nodes == 1)
  }

  // `hand` is the timer whose user function is running and whose node is in hand, or -1.
  ghost predicate PlainInv(m: Mgr, hand: int) {
    && m.nextTag >= 0
    && (forall tag :: tag in m.plain <==> 0 <= tag < m.nextTag)
    && (forall n :: n in m.queue || n in m.batch ==> PlainNodeOk(m.plain, n))
    && (forall tag :: tag in m.plain ==>
          if tag == hand then Weight(m, Tagged(tag)) == 0 else PlainAccount(m, tag))
  }

  lemma SamePlain(m: Mgr, n: Mgr, hand: int)
    requires PlainInv(m, hand)
    requires n.queue == m.queue && n.batch == m.batch && n.nextTag == m.nextTag && n.plain == m.plain
    ensures PlainInv(n, hand)
  {
    forall tag | tag in n.plain && tag != hand
      ensures PlainAccount(n, tag)
    {
      assert PlainAccount(m, tag);
    }
  }

  lemma InsertKeyedPlain(m: Mgr, x: Node, hand: int)
    requires PlainInv(m, hand) && x.cb.Keyed?
    ensures PlainInv(m.(queue := Insert(m.queue, x)), hand)
  {
    var a := m.(queue := Insert(m.queue, x));
    InsertMembers(m.queue, x);
    forall tag | tag in a.plain
      ensures Weight(a, Tagged(tag)) == Weight(m, Tagged(tag))
    {
      SumInsert(m.queue, x, Tagged(tag));
    }
    forall tag | tag in a.plain && tag != hand
      ensures PlainAccount(a, tag)
    {
      assert PlainAccount(m, tag);
    }
  }

  lemma UnknownTag(m: Mgr, hand: int)
    requires PlainInv(m, hand)
    ensures Weight(m, Tagged(m.nextTag)) == 0
  {
    var w := Tagged(m.nextTag);
    SumPositive(m.queue, w);
    SumPositive(m.batch, w);
    forall n | n in m.queue || n in m.batch
      ensures w(n) == 0
    {
      assert PlainNodeOk(m.plain, n);
    }
  }

  lemma ArmPlainKeeps(m: Mgr, ms: Int32, repeat: Int32, user: UserFn, now: int, hand: int)
    requires PlainInv(m, hand) && hand < m.nextTag
    ensures PlainInv(ArmPlain(m, ms, repeat, user, now), hand)
  {
    var a := ArmPlain(m, ms, repeat, user, now);
    var x := Node(now + AtLeastOne(ms), Plain(m.nextTag, user), AtLeastOne(ms), repeat);
    InsertMembers(m.queue, x);
    UnknownTag(m, hand);
    forall tag | tag in a.plain
      ensures Weight(a, Tagged(tag)) == Weight(m, Tagged(tag)) + if tag == m.nextTag then 1 else 0
    {
      SumInsert(m.queue, x, Tagged(tag));
    }
    forall tag | tag in a.plain && tag != hand
      ensures PlainAccount(a, tag)
    {
      if tag != m.nextTag { assert PlainAccount(m, tag); }
    }
    forall n | n in a.queue || n in a.batch
      ensures PlainNodeOk(a.plain, n)
    {
      if n != x { assert PlainNodeOk(m.plain, n); }
    }
  }

  // What a script leaves alone: the records of the timers set before it.
  ghost predicate PlainExtends(a: Mgr, b: Mgr) {
    && (forall tag :: tag in a.plain ==> tag in b.plain && b.plain[tag] == a.plain[tag])
    && (forall tag :: tag in b.plain && tag !in a.plain ==> b.plain[tag].calls == 0)
    && a.nextTag <= b.nextTag
  }

  lemma ApplyPlain(m: Mgr, t: TimedOp, hand: int)
    requires PlainInv(m, hand) && hand < m.nextTag
    ensures PlainInv(Apply(m, t), hand) && PlainExtends(m, Apply(m, t))
  {
    match t.op
    case Schedule(ms, repeat, user) => ArmPlainKeeps(m, ms, repeat, user, t.now, hand);
    case ScheduleWithKey(key, ms, repeat, user) =>
      var x := Node(t.now + AtLeastOne(ms), Keyed(m.nextId, key, user), AtLeastOne(ms), repeat);
      InsertKeyedPlain(m, x, hand);
      SamePlain(m.(queue := Insert(m.queue, x)), Apply(m, t), hand);
    case CancelByKey(key) => SamePlain(m, Cancel(m, key), hand);
  }

  lemma {:induction false} ApplyAllPlain(m: Mgr, ts: seq<TimedOp>, hand: int)
    requires PlainInv(m, hand) && hand < m.nextTag
    ensures PlainInv(ApplyAll(m, ts), hand) && PlainExtends(m, ApplyAll(m, ts))
  {
    if ts != [] {
      ApplyAllPlain(m, ts[..|ts| - 1], hand);
      ApplyPlain(ApplyAll(m, ts[..|ts| - 1]), ts[|ts| - 1], hand);
    }
  }

  // Does this step call the user function of the timer without a key?
  predicate CallsPlain(m: Mgr, s: Step, tag: int) {
    s.FireFirst? && m.batch != [] && m.batch[0].cb.Plain? && m.batch[0].cb.tag == tag && m.batch[0].repeat != 0
  }

  function PlainCalls(steps: seq<Step>, tag: int): nat {
    if steps == [] then 0
    else
      var init := steps[..|steps| - 1];
      var p := Exec(INIT, init);
      PlainCalls(init, tag) + if p.Some? && CallsPlain(p.value, steps[|steps| - 1], tag) then 1 else 0
  }

  ghost predicate PlainAdvances(m: Mgr, s: Step, n: Mgr) {
    && (forall tag :: tag in n.plain && tag !in m.plain ==> n.plain[tag].calls == 0)
    && (forall tag :: tag in m.plain ==>
          && tag in n.plain && n.plain[tag].repeat == m.plain[tag].repeat
          && n.plain[tag].calls == m.plain[tag].calls + if CallsPlain(m, s, tag) then 1 else 0)
  }

  // The node in hand belongs to a timer without a key and is taken off the batch; the
  // call is booked.
  lemma CallPlainKeeps(m: Mgr)
    requires PlainInv(m, -1) && m.batch != [] && m.batch[0].cb.Plain? && m.batch[0].repeat != 0
    ensures var n := m.batch[0];
            PlainInv(PlainCalled(m.(batch := m.batch[1..]), n.cb.tag), n.cb.tag)
  {
    var n, p := m.batch[0], m.(batch := m.batch[1..]);
    var c := PlainCalled(p, n.cb.tag);
    assert PlainNodeOk(m.plain, n) && PlainAccount(m, n.cb.tag);
    forall tag | tag in c.plain
      ensures Weight(c, Tagged(tag)) == Weight(m, Tagged(tag)) - if tag == n.cb.tag then 1 else 0
    {
    }
    OnlyOne(c, n.cb.tag);
    forall x | x in c.queue || x in c.batch
      ensures PlainNodeOk(c.plain, x)
    {
      assert x in m.queue || x in m.batch;
      assert PlainNodeOk(m.plain, x);
    }
    forall tag | tag in c.plain && tag != n.cb.tag
      ensures PlainAccount(c, tag)
    {
      assert PlainAccount(m, tag);
    }
  }

  lemma OnlyOne(m: Mgr, tag: int)
    requires Weight(m, Tagged(tag)) == 0
    ensures forall x: Node :: (x in m.queue || x in m.batch) && x.cb.Plain? ==> x.cb.tag != tag
  {
    SumPositive(m.queue, Tagged(tag));
    SumPositive(m.batch, Tagged(tag));
    forall x: Node | (x in m.queue || x in m.batch) && x.cb.Plain?
      ensures x.cb.tag != tag
    {
      assert Tagged(tag)(x) == 0;
    }
  }

  // The aged node goes back into the multimap, or is let go.
  lemma RequeuePlainKeeps(m: Mgr, n: Node)
    requires n.cb.Plain? && n.repeat != 0 && n.cb.tag in m.plain && PlainInv(m, n.cb.tag)
    requires var r := m.plain[n.cb.tag];
             if r.repeat > 0 then n.repeat == r.repeat - r.calls + 1 >= 1 else n.repeat == r.repeat
    ensures PlainInv(Requeue(m, n), -1)
  {
    var g := Requeue(m, n);
    InsertMembers(m.queue, Aged(n));
    forall tag | tag in g.plain
      ensures Weight(g, Tagged(tag)) ==
              Weight(m, Tagged(tag)) + if tag == n.cb.tag && Aged(n).repeat != 0 then 1 else 0
    {
      RequeueWeight(m, n, Tagged(tag));
    }
    forall tag | tag in g.plain
      ensures PlainAccount(g, tag)
    {
      if tag != n.cb.tag { assert PlainAccount(m, tag); }
    }
  }

  lemma FirePlain(m: Mgr, script: seq<TimedOp>, now: int)
    requires PlainInv(m, -1) && m.batch != [] && m.batch[0].cb.Plain? && m.batch[0].repeat != 0
    ensures PlainInv(Next(m, FireFirst(script, now)), -1)
    ensures PlainAdvances(m, FireFirst(script, now), Next(m, FireFirst(script, now)))
  {
    var n, p := m.batch[0], m.(batch := m.batch[1..]);
    var c := PlainCalled(p, n.cb.tag);
    assert PlainNodeOk(m.plain, n);
    CallPlainKeeps(m);
    ApplyAllPlain(c, script, n.cb.tag);
    RequeuePlainKeeps(ApplyAll(c, script), n);
  }

  // A node whose timer has a key, or whose count is 0, makes no such call.
  lemma FireOtherPlain(m: Mgr, script: seq<TimedOp>, now: int)
    requires PlainInv(m, -1) && m.batch != [] && (m.batch[0].cb.Keyed? || m.batch[0].repeat == 0)
    ensures PlainInv(Next(m, FireFirst(script, now)), -1)
    ensures PlainAdvances(m, FireFirst(script, now), Next(m, FireFirst(script, now)))
  {
    var n, p := m.batch[0], m.(batch := m.batch[1..]);
    DropOtherPlain(m);
    if n.repeat != 0 {
      RunKeyedPlain(p, n.cb, script, now);
      InsertKeyedPlain(Run(p, n.cb, script, now), Aged(n), -1);
    }
  }

  lemma DropOtherPlain(m: Mgr)
    requires PlainInv(m, -1) && m.batch != [] && (m.batch[0].cb.Keyed? || m.batch[0].repeat == 0)
    ensures PlainInv(m.(batch := m.batch[1..]), -1)
  {
    var n, p := m.batch[0], m.(batch := m.batch[1..]);
    assert PlainNodeOk(m.plain, n);
    forall tag | tag in p.plain
      ensures PlainAccount(p, tag)
    {
      assert PlainAccount(m, tag);
      assert Weight(p, Tagged(tag)) == Weight(m, Tagged(tag)) - Tagged(tag)(n);
    }
    forall x | x in p.queue || x in p.batch
      ensures PlainNodeOk(p.plain, x)
    {
      assert x in m.queue || x in m.batch;
    }
  }

  lemma RunKeyedPlain(m: Mgr, cb: Callback, script: seq<TimedOp>, now: int)
    requires PlainInv(m, -1) && cb.Keyed?
    ensures PlainInv(Run(m, cb, script, now), -1) && PlainExtends(m, Run(m, cb, script, now))
  {
    if Current(m, cb) {
      var ts := if cb.key in m.keys then script else [];
      SamePlain(m, Called(m, cb), -1);
      ApplyAllPlain(Called(m, cb), ts, -1);
      FinishPlain(ApplyAll(Called(m, cb), ts), cb, now);
    }
  }

  lemma FinishPlain(a: Mgr, cb: Callback, now: int)
    requires PlainInv(a, -1) && cb.Keyed?
    ensures PlainInv(Finish(a, cb, now), -1) && Finish(a, cb, now).plain == a.plain
    ensures Finish(a, cb, now).nextTag == a.nextTag
  {
    var f := Finish(a, cb, now);
    if f.queue == a.queue {
      SamePlain(a, f, -1);
    } else {
      var (remaining, period) := a.repeats[cb.id];
      var x := Node(now + period, cb, period, if remaining > 0 then remaining - 1 else remaining);
      InsertKeyedPlain(a, x, -1);
      SamePlain(a.(queue := Insert(a.queue, x)), f, -1);
    }
  }

  lemma CollectPlain(m: Mgr, now: int)
    requires PlainInv(m, -1) && m.batch == []
    ensures PlainInv(Next(m, Collect(now)), -1)
  {
    var c := Next(m, Collect(now));
    assert c.batch + c.queue == m.queue;
    forall tag | tag in c.plain
      ensures PlainAccount(c, tag)
    {
      CollectWeight(m, now, Tagged(tag));
      assert PlainAccount(m, tag);
    }
    forall x | x in c.queue || x in c.batch
      ensures PlainNodeOk(c.plain, x)
    {
      assert x in m.queue;
    }
  }

  lemma {:induction false} PlainRunKeeps(steps: seq<Step>)
    requires Exec(INIT, steps).Some?
    ensures var m := Exec(INIT, steps).value;
            && PlainInv(m, -1)
            && (forall tag :: tag in m.plain ==> m.plain[tag].calls == PlainCalls(steps, tag))
            && (forall tag :: tag !in m.plain ==> PlainCalls(steps, tag) == 0)
  {
    if steps != [] {
      var init, s := steps[..|steps| - 1], steps[|steps| - 1];
      PlainRunKeeps(init);
      var p := Exec(INIT, init).value;
      match s {
        case Do(t) => ApplyPlain(p, t, -1);
        case Collect(now) => CollectPlain(p, now);
        case FireFirst(script, now) =>
          assert PlainNodeOk(p.plain, p.batch[0]);
          if p.batch[0].cb.Plain? && p.batch[0].repeat != 0 {
            FirePlain(p, script, now);
          } else {
            FireOtherPlain(p, script, now);
          }
      }
    }
  }

  // How often the user function of a timer without a key is called, in every run: k
  // times for k >= 1, and then no node is left; never for 0; a negative count always
  // has its one node.
  lemma PlainCount(steps: seq<Step>, tag: int)
    requires Exec(INIT, steps).Some? && tag in Exec(INIT, steps).value.plain
    ensures var m := Exec(INIT, steps).value;
            var k, n, nodes := m.plain[tag].repeat, PlainCalls(steps, tag), Weight(m, Tagged(tag));
            && (k >= 1 ==> n <= k && nodes == (if n < k then 1 else 0))
            && (k >= 1 && n < k && m.batch == [] ==> exists x: Node :: x in m.queue && x.cb.Plain? && x.cb.tag == tag && x.repeat == k - n)
            && (k == 0 ==> n == 0)
            && (k < 0 ==> nodes == 1)
  {
    PlainRunKeeps(steps);
    var m := Exec(INIT, steps).value;
    assert PlainAccount(m, tag);
    if m.batch == [] && Weight(m, Tagged(tag)) == 1 {
      SumPositive(m.queue, Tagged(tag));
      var x :| x in m.queue && Tagged(tag)(x) > 0;
      assert PlainNodeOk(m.plain, x);
    }
  }
}
