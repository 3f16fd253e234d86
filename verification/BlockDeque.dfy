// The blocking deque of include/utils/blockdeque.h as a monitor.
//
// A step is what one thread does between taking the mutex and giving it up (by
// returning or by waiting), or one notification sent without the mutex.  Any
// number of threads may be inside.  A thread that has been notified still has to
// take the mutex and look again; until then it is `woken`.
module BlockDeque {
  import opened Prelude
  import Runs
  import opened Places

  // Where a thread inside the deque stands.  In the gap of Close it has released the
  // mutex and not yet notified the producers (1) or the consumers (2).
  datatype Place = ConsumerSleeps | ConsumerWoken | ProducerSleeps | ProducerWoken | Gap1 | Gap2

  datatype Want<T> = Want(item: T, front: bool)

  datatype State<T> = State(
    deq: seq<T>, capacity: nat, closed: bool,
    at: map<Tid, Place>,
    // what each sleeping or woken producer wants to push
    wants: map<Tid, Want<T>>,
    // history: everything pushed, popped, and thrown away by Close
    pushed: seq<T>, popped: seq<T>, cleared: seq<T>, anyFront: bool)

  function Init<T>(capacity: nat): State<T> {
    State([], capacity, false, map[], map[], [], [], [], false)
  }

  datatype Step<T> =
    | PushEnter(t: Tid, want: Want<T>, w: Option<Tid>)
    | PushResume(t: Tid, w: Option<Tid>)
    | PopEnter(t: Tid, w: Option<Tid>)
    | PopResume(t: Tid, w: Option<Tid>)
    | Flush(w: Option<Tid>)
    | SpuriousWake(t: Tid)
    | CloseLock(t: Tid)
    | CloseNotifyProducers(t: Tid)
    | CloseNotifyConsumers(t: Tid)

  predicate Full<T>(s: State<T>) {
    |s.deq| >= s.capacity
  }

  predicate Enabled<T(==)>(s: State<T>, a: Step<T>) {
    match a
    case PushEnter(t, _, w) => t !in s.at && (!Full(s) ==> Picks(s.at, ConsumerSleeps, w))
    case PushResume(t, w) => Is(s.at, t, ProducerWoken) && t in s.wants && (!Full(s) ==> Picks(s.at, ConsumerSleeps, w))
    case PopEnter(t, w) => t !in s.at && (s.deq != [] ==> Picks(s.at, ProducerSleeps, w))
    case PopResume(t, w) => Is(s.at, t, ConsumerWoken) && (!s.closed && s.deq != [] ==> Picks(s.at, ProducerSleeps, w))
    case Flush(w) => Picks(s.at, ConsumerSleeps, w)
    case SpuriousWake(t) => Is(s.at, t, ConsumerSleeps) || Is(s.at, t, ProducerSleeps)
    case CloseLock(t) => t !in s.at
    case CloseNotifyProducers(t) => Is(s.at, t, Gap1)
    case CloseNotifyConsumers(t) => Is(s.at, t, Gap2)
  }

  // push_back and push_front with room: insert and notify one consumer.
  function Push<T>(s: State<T>, want: Want<T>, w: Option<Tid>): State<T> {
    s.(deq := if want.front then [want.item] + s.deq else s.deq + [want.item],
       pushed := s.pushed + [want.item],
       anyFront := s.anyFront || want.front,
       at := Wake(s.at, w, ConsumerWoken))
  }

  // pop with something there: take the front and notify one producer.
  function Pop<T>(s: State<T>, w: Option<Tid>): State<T>
    requires s.deq != []
  {
    s.(deq := s.deq[1..], popped := s.popped + [s.deq[0]], at := Wake(s.at, w, ProducerWoken))
  }

  function Next<T(==)>(s: State<T>, a: Step<T>): State<T>
    requires Enabled(s, a)
  {
    match a
    case PushEnter(t, want, w) =>
      if Full(s) then s.(at := s.at[t := ProducerSleeps], wants := s.wants[t := want])
      else Push(s, want, w)
    case PushResume(t, w) =>
      if Full(s) then s.(at := s.at[t := ProducerSleeps])
      else Push(s.(at := s.at - {t}, wants := s.wants - {t}), s.wants[t], w)
    case PopEnter(t, w) =>
      if s.deq == [] then s.(at := s.at[t := ConsumerSleeps]) else Pop(s, w)
    case PopResume(t, w) =>
      if s.closed then s.(at := s.at - {t})  // pop returns false
      else if s.deq == [] then s.(at := s.at[t := ConsumerSleeps])
      else Pop(s.(at := s.at - {t}), w)
    case Flush(w) => s.(at := Wake(s.at, w, ConsumerWoken))
    case SpuriousWake(t) =>
      s.(at := s.at[t := if s.at[t] == ConsumerSleeps then ConsumerWoken else ProducerWoken])
    case CloseLock(t) =>
      s.(deq := [], cleared := s.cleared + s.deq, closed := true, at := s.at[t := Gap1])
    case CloseNotifyProducers(t) =>
      s.(at := MoveAll(s.at, ProducerSleeps, ProducerWoken)[t := Gap2])
    case CloseNotifyConsumers(t) =>
      s.(at := MoveAll(s.at, ConsumerSleeps, ConsumerWoken) - {t})
  }

  // ---------- Invariants ----------

  // A thread has something to push exactly while it waits to push it.
  ghost predicate WantsMatch<T>(s: State<T>) {
    forall t :: t in s.wants <==> t in s.at && (s.at[t] == ProducerSleeps || s.at[t] == ProducerWoken)
  }

  ghost predicate Shape<T>(s: State<T>) {
    s.capacity > 0 && |s.deq| <= s.capacity && WantsMatch(s)
  }

  // Nothing is lost or made up; without push_front and Close, first in is first out.
  ghost predicate Conserved<T>(s: State<T>) {
    && multiset(s.pushed) == multiset(s.popped) + multiset(s.deq) + multiset(s.cleared)
    && (!s.closed ==> s.cleared == [])
    && (!s.anyFront && !s.closed ==> s.pushed == s.popped + s.deq)
  }

  // While a consumer sleeps, every item there has a woken consumer coming for it.
  ghost predicate ConsumersServed<T>(s: State<T>) {
    N(s.at, ConsumerSleeps) > 0 ==> |s.deq| <= N(s.at, ConsumerWoken)
  }

  // While a producer sleeps, every free slot has a woken producer coming for it,
  // except between the two halves of a Close.
  ghost predicate ProducersServed<T>(s: State<T>) {
    N(s.at, Gap1) == 0 && N(s.at, ProducerSleeps) > 0 ==> s.capacity - |s.deq| <= N(s.at, ProducerWoken)
  }

  lemma StepKeepsWants<T>(s: State<T>, a: Step<T>)
    requires WantsMatch(s) && Enabled(s, a)
    ensures WantsMatch(Next(s, a))
  {
  }

  lemma StepKeepsShape<T>(s: State<T>, a: Step<T>)
    requires Shape(s) && Enabled(s, a)
    ensures Shape(Next(s, a))
    ensures s.closed ==> Next(s, a).closed
    ensures Next(s, a).capacity == s.capacity
  {
    StepKeepsWants(s, a);
  }

  lemma PushConserves<T>(s: State<T>, want: Want<T>, w: Option<Tid>)
    requires Conserved(s)
    ensures Conserved(Push(s, want, w))
  {
    assert want.front || s.popped + s.deq + [want.item] == s.popped + (s.deq + [want.item]);
  }

  lemma PopConserves<T>(s: State<T>, w: Option<Tid>)
    requires Conserved(s) && s.deq != []
    ensures Conserved(Pop(s, w))
  {
    assert s.deq == [s.deq[0]] + s.deq[1..];
    assert s.popped + s.deq == s.popped + [s.deq[0]] + s.deq[1..];
  }

  lemma StepConserves<T>(s: State<T>, a: Step<T>)
    requires Conserved(s) && Enabled(s, a)
    ensures Conserved(Next(s, a))
  {
    match a {
      case PushEnter(t, want, w) => PushConserves(s, want, w);
      case PushResume(t, w) => PushConserves(s.(at := s.at - {t}, wants := s.wants - {t}), s.wants[t], w);
      case PopEnter(t, w) => if s.deq != [] { PopConserves(s, w); }
      case PopResume(t, w) => if s.deq != [] { PopConserves(s.(at := s.at - {t}), w); }
      case _ =>
    }
  }

  // How many more threads are at r after a step that notifies at most one.
  function Change<T(==)>(s: State<T>, a: Step<T>, r: Place): int
    requires Enabled(s, a) && !a.CloseNotifyProducers? && !a.CloseNotifyConsumers?
  {
    match a
    case PushEnter(_, _, w) =>
      if Full(s) then One(r == ProducerSleeps)
      else One(w.Some? && r == ConsumerWoken) - One(w.Some? && r == ConsumerSleeps)
    case PushResume(_, w) =>
      if Full(s) then One(r == ProducerSleeps) - One(r == ProducerWoken)
      else One(w.Some? && r == ConsumerWoken) - One(w.Some? && r == ConsumerSleeps) - One(r == ProducerWoken)
    case PopEnter(_, w) =>
      if s.deq == [] then One(r == ConsumerSleeps)
      else One(w.Some? && r == ProducerWoken) - One(w.Some? && r == ProducerSleeps)
    case PopResume(_, w) =>
      if s.closed then -One(r == ConsumerWoken)
      else if s.deq == [] then One(r == ConsumerSleeps) - One(r == ConsumerWoken)
      else One(w.Some? && r == ProducerWoken) - One(w.Some? && r == ProducerSleeps) - One(r == ConsumerWoken)
    case Flush(w) => One(w.Some? && r == ConsumerWoken) - One(w.Some? && r == ConsumerSleeps)
    case SpuriousWake(t) =>
      One(r == (if s.at[t] == ConsumerSleeps then ConsumerWoken else ProducerWoken)) - One(r == s.at[t])
    case CloseLock(_) => One(r == Gap1)
  }

  lemma CountPush<T>(s: State<T>, a: Step<T>, r: Place)
    requires Enabled(s, a) && (a.PushEnter? || a.PushResume?)
    ensures N(Next(s, a).at, r) == N(s.at, r) + Change(s, a, r)
  {
    if Full(s) {
      PutCount(s.at, a.t, ProducerSleeps, r);
    } else if a.PushEnter? {
      WakeCount(s.at, a.w, ConsumerSleeps, ConsumerWoken, r);
    } else {
      WakeAfterDropCount(s.at, a.t, a.w, ConsumerSleeps, ConsumerWoken, r);
    }
  }

  lemma CountPop<T>(s: State<T>, a: Step<T>, r: Place)
    requires Enabled(s, a) && (a.PopEnter? || a.PopResume?)
    ensures N(Next(s, a).at, r) == N(s.at, r) + Change(s, a, r)
  {
    if a.PopResume? && s.closed {
      DropCount(s.at, a.t, r);
    } else if s.deq == [] {
      PutCount(s.at, a.t, ConsumerSleeps, r);
    } else if a.PopEnter? {
      WakeCount(s.at, a.w, ProducerSleeps, ProducerWoken, r);
    } else {
      WakeAfterDropCount(s.at, a.t, a.w, ProducerSleeps, ProducerWoken, r);
    }
  }

  lemma CountStep<T>(s: State<T>, a: Step<T>, r: Place)
    requires Enabled(s, a) && !a.CloseNotifyProducers? && !a.CloseNotifyConsumers?
    ensures N(Next(s, a).at, r) == N(s.at, r) + Change(s, a, r)
  {
    if a.PushEnter? || a.PushResume? {
      CountPush(s, a, r);
    } else if a.PopEnter? || a.PopResume? {
      CountPop(s, a, r);
    } else if a.Flush? {
      WakeCount(s.at, a.w, ConsumerSleeps, ConsumerWoken, r);
    } else if a.SpuriousWake? {
      PutCount(s.at, a.t, if s.at[a.t] == ConsumerSleeps then ConsumerWoken else ProducerWoken, r);
    } else {
      PutCount(s.at, a.t, Gap1, r);
    }
  }

  lemma CountNotifyProducers<T>(s: State<T>, t: Tid, r: Place)
    requires Enabled(s, CloseNotifyProducers(t))
    ensures var m := N(Next(s, CloseNotifyProducers(t)).at, r);
            if r == ProducerSleeps then m == 0
            else if r == ProducerWoken then m >= N(s.at, r)
            else m == N(s.at, r) - One(r == Gap1) + One(r == Gap2)
  {
    MoveAllCount(s.at, ProducerSleeps, ProducerWoken, r);
    PutCount(MoveAll(s.at, ProducerSleeps, ProducerWoken), t, Gap2, r);
  }

  lemma CountNotifyConsumers<T>(s: State<T>, t: Tid, r: Place)
    requires Enabled(s, CloseNotifyConsumers(t))
    ensures var m := N(Next(s, CloseNotifyConsumers(t)).at, r);
            if r == ConsumerSleeps then m == 0
            else if r == ConsumerWoken then m >= N(s.at, r)
            else m == N(s.at, r) - One(r == Gap2)
  {
    MoveAllCount(s.at, ConsumerSleeps, ConsumerWoken, r);
    DropCount(MoveAll(s.at, ConsumerSleeps, ConsumerWoken), t, r);
  }

  lemma StepServesProducers<T>(s: State<T>, a: Step<T>)
    requires Shape(s) && ProducersServed(s) && Enabled(s, a)
    ensures ProducersServed(Next(s, a))
  {
    if a.CloseNotifyProducers? {
      CountNotifyProducers(s, a.t, ProducerSleeps);
    } else if a.CloseNotifyConsumers? {
      CountNotifyConsumers(s, a.t, ProducerSleeps);
      CountNotifyConsumers(s, a.t, ProducerWoken);
      CountNotifyConsumers(s, a.t, Gap1);
    } else {
      CountStep(s, a, ProducerSleeps);
      CountStep(s, a, ProducerWoken);
      CountStep(s, a, Gap1);
    }
  }

  // A woken consumer returns from a closed deque although the items there are just
  // enough for the woken ones and others still sleep.
  predicate Abandons<T(==)>(s: State<T>, a: Step<T>) {
    a.PopResume? && s.closed && N(s.at, ConsumerSleeps) > 0 && |s.deq| == N(s.at, ConsumerWoken)
  }

  // Which steps leave a sleeping consumer with an item that nobody is coming for:
  // exactly the return of a woken consumer from a closed deque when the items
  // there were just enough for the woken ones.
  lemma StepServesConsumers<T>(s: State<T>, a: Step<T>)
    requires Shape(s) && ConsumersServed(s) && Enabled(s, a)
    ensures ConsumersServed(Next(s, a)) <==>
            !Abandons(s, a)
  {
    if a.CloseNotifyProducers? {
      CountNotifyProducers(s, a.t, ConsumerSleeps);
      CountNotifyProducers(s, a.t, ConsumerWoken);
    } else if a.CloseNotifyConsumers? {
      CountNotifyConsumers(s, a.t, ConsumerSleeps);
    } else {
      CountStep(s, a, ConsumerSleeps);
      CountStep(s, a, ConsumerWoken);
    }
  }

  // ---------- Runs ----------

  function TryStep<T(==)>(s: State<T>, a: Step<T>): Option<State<T>> {
    if Enabled(s, a) then Some(Next(s, a)) else None
  }

  function Exec<T(==)>(s: State<T>, steps: seq<Step<T>>): Option<State<T>> {
    Runs.Exec(TryStep, s, steps)
  }

  // Every run from an empty deque keeps the capacity, loses no item, and serves the
  // producers; until the deque is closed it serves the consumers too.
  lemma {:induction false} RunKeeps<T>(capacity: nat, steps: seq<Step<T>>)
    requires capacity > 0 && Exec(Init(capacity), steps).Some?
    ensures var s := Exec(Init(capacity), steps).value;
            && s.capacity == capacity && Shape(s) && Conserved(s) && ProducersServed(s)
            && (!s.closed ==> ConsumersServed(s))
  {
    if steps != [] {
      RunKeeps(capacity, steps[..|steps| - 1]);
      var p, a := Exec(Init(capacity), steps[..|steps| - 1]).value, steps[|steps| - 1];
      StepKeepsShape(p, a);
      StepConserves(p, a);
      StepServesProducers(p, a);
      if !p.closed {
        StepServesConsumers(p, a);
      }
    }
  }

  // ---------- What the callers asked for ----------

  // The items that a run gives to push_back and push_front.
  function Given<T>(steps: seq<Step<T>>): seq<T> {
    if steps == [] then []
    else
      var a := steps[|steps| - 1];
      Given(steps[..|steps| - 1]) + if a.PushEnter? then [a.want.item] else []
  }

  function Wanting<T(==)>(wants: map<Tid, Want<T>>, x: T): set<Tid> {
    set t | t in wants && wants[t].item == x
  }

  lemma WantMore<T>(wants: map<Tid, Want<T>>, t: Tid, want: Want<T>, x: T)
    requires t !in wants
    ensures |Wanting(wants[t := want], x)| == |Wanting(wants, x)| + if want.item == x then 1 else 0
  {
    if want.item == x {
      assert Wanting(wants[t := want], x) == Wanting(wants, x) + {t};
    } else {
      assert Wanting(wants[t := want], x) == Wanting(wants, x);
    }
  }

  lemma WantLess<T>(wants: map<Tid, Want<T>>, t: Tid, x: T)
    requires t in wants
    ensures |Wanting(wants - {t}, x)| == |Wanting(wants, x)| - if wants[t].item == x then 1 else 0
  {
    assert wants == (wants - {t})[t := wants[t]];
    WantMore(wants - {t}, t, wants[t], x);
  }

  // One step: an item is pushed, or waits with its producer.
  lemma StepPushesGiven<T>(s: State<T>, a: Step<T>, x: T)
    requires WantsMatch(s) && Enabled(s, a)
    ensures var n := Next(s, a);
            multiset(n.pushed)[x] + |Wanting(n.wants, x)| ==
            multiset(s.pushed)[x] + |Wanting(s.wants, x)| + if a.PushEnter? && a.want.item == x then 1 else 0
  {
    if a.PushEnter? {
      WantMore(s.wants, a.t, a.want, x);
    } else if a.PushResume? {
      WantLess(s.wants, a.t, x);
    } else {
      assert Next(s, a).pushed == s.pushed && Next(s, a).wants == s.wants;
    }
  }

  // In every run each item given is in what was pushed, or waits with its producer, as
  // often as it was given.
  lemma {:induction false} GivenIsPushed<T>(capacity: nat, steps: seq<Step<T>>, x: T)
    requires capacity > 0 && Exec(Init(capacity), steps).Some?
    ensures var s := Exec(Init(capacity), steps).value;
            multiset(Given(steps))[x] == multiset(s.pushed)[x] + |Wanting(s.wants, x)|
  {
    if steps == [] {
      assert Wanting(Init<T>(capacity).wants, x) == {};
    } else {
      var init, a := steps[..|steps| - 1], steps[|steps| - 1];
      GivenIsPushed(capacity, init, x);
      RunKeeps(capacity, init);
      StepPushesGiven(Exec(Init(capacity), init).value, a, x);
    }
  }

  // The deque is closed if and only if somebody has closed it.
  lemma {:induction false} ClosedIsAsked<T>(capacity: nat, steps: seq<Step<T>>)
    requires Exec(Init(capacity), steps).Some?
    ensures Exec(Init(capacity), steps).value.closed <==> exists a :: a in steps && a.CloseLock?
  {
    if steps != [] {
      var init, a := steps[..|steps| - 1], steps[|steps| - 1];
      ClosedIsAsked(capacity, init);
      assert steps == init + [a];
    }
  }

  // push_front puts its item before the others and push_back behind them, if there is room;
  // pop takes the first item, if there is one, unless it was woken by a Close.
  lemma StepMoves<T>(s: State<T>, a: Step<T>)
    requires WantsMatch(s) && Enabled(s, a)
    ensures var n := Next(s, a);
            && (a.PushEnter? || a.PushResume? ==>
                  var want := if a.PushEnter? then a.want else s.wants[a.t];
                  n.deq == if |s.deq| >= s.capacity then s.deq
                           else if want.front then [want.item] + s.deq else s.deq + [want.item])
            && (a.PopEnter? || a.PopResume? ==>
                  if s.deq == [] || (a.PopResume? && s.closed) then n.deq == s.deq && n.popped == s.popped
                  else n.deq == s.deq[1..] && n.popped == s.popped + [s.deq[0]])
            && (a.CloseLock? ==> n.deq == [] && n.cleared == s.cleared + s.deq)
            && (a.Flush? || a.SpuriousWake? || a.CloseNotifyProducers? || a.CloseNotifyConsumers? ==> n.deq == s.deq)
  {
  }

  // flush wakes one sleeping consumer, if there is one; Close wakes them all.
  lemma FlushAndCloseWake<T>(s: State<T>, a: Step<T>)
    requires Enabled(s, a) && (a.Flush? || a.CloseNotifyProducers? || a.CloseNotifyConsumers?)
    ensures var n := Next(s, a);
            && (a.Flush? ==>
                  N(n.at, ConsumerSleeps) == if N(s.at, ConsumerSleeps) > 0 then N(s.at, ConsumerSleeps) - 1 else 0)
            && (a.CloseNotifyProducers? ==> N(n.at, ProducerSleeps) == 0)
            && (a.CloseNotifyConsumers? ==> N(n.at, ConsumerSleeps) == 0)
  {
    match a {
      case Flush(w) => WakeCount(s.at, w, ConsumerSleeps, ConsumerWoken, ConsumerSleeps);
      case CloseNotifyProducers(t) => CountNotifyProducers(s, t, ProducerSleeps);
      case CloseNotifyConsumers(t) => CountNotifyConsumers(s, t, ConsumerSleeps);
      case _ =>
    }
  }

  // Before the deque is closed, no item waits while every consumer sleeps, no slot
  // is free while every producer sleeps, and they never all sleep at once.
  lemma NobodyStranded<T>(capacity: nat, steps: seq<Step<T>>)
    requires capacity > 0 && Exec(Init(capacity), steps).Some?
    requires !Exec(Init(capacity), steps).value.closed
    ensures var s := Exec(Init(capacity), steps).value;
            && (s.deq != [] && N(s.at, ConsumerSleeps) > 0 ==> N(s.at, ConsumerWoken) > 0)
            && (!Full(s) && N(s.at, ProducerSleeps) > 0 ==> N(s.at, ProducerWoken) > 0)
            && (N(s.at, ConsumerSleeps) > 0 && N(s.at, ProducerSleeps) > 0 ==>
                  N(s.at, ConsumerWoken) + N(s.at, ProducerWoken) > 0)
  {
    RunKeeps(capacity, steps);
    NoGapWhileOpen(capacity, steps);
  }

  lemma {:induction false} NoGapWhileOpen<T>(capacity: nat, steps: seq<Step<T>>)
    requires Exec(Init<T>(capacity), steps).Some? && !Exec(Init<T>(capacity), steps).value.closed
    ensures N(Exec(Init<T>(capacity), steps).value.at, Gap1) == 0
  {
    if steps != [] {
      NoGapWhileOpen(capacity, steps[..|steps| - 1]);
      var p, a := Exec(Init<T>(capacity), steps[..|steps| - 1]).value, steps[|steps| - 1];
      if a.CloseNotifyProducers? {
        CountNotifyProducers(p, a.t, Gap1);
      } else if a.CloseNotifyConsumers? {
        CountNotifyConsumers(p, a.t, Gap1);
      } else {
        CountStep(p, a, Gap1);
      }
    }
  }

  // Consumers are served at the end of any run, closed or not, in which no step
  // abandoned a sleeper ...
  ghost predicate NoneAbandoned<T>(capacity: nat, steps: seq<Step<T>>) {
    steps == [] ||
    var init := steps[..|steps| - 1];
    NoneAbandoned(capacity, init) && Exec(Init(capacity), init).Some?
    && !Abandons(Exec(Init(capacity), init).value, steps[|steps| - 1])
  }

  lemma {:induction false} ServedUnlessAbandoned<T>(capacity: nat, steps: seq<Step<T>>)
    requires capacity > 0 && Exec(Init(capacity), steps).Some? && NoneAbandoned(capacity, steps)
    ensures ConsumersServed(Exec(Init(capacity), steps).value)
  {
    if steps != [] {
      var init := steps[..|steps| - 1];
      ServedUnlessAbandoned(capacity, init);
      RunKeeps(capacity, init);
      StepServesConsumers(Exec(Init(capacity), init).value, steps[|steps| - 1]);
    }
  }

  // ... and such a step can be reached: Close; two consumers wait; a producer
  // pushes and wakes one of them, which returns false and leaves the item to the
  // other, whom nobody will wake.
  lemma StrandedAfterClose(item: nat)
    ensures exists steps: seq<Step<nat>> ::
              && Exec(Init(1), steps).Some?
              && var s := Exec(Init(1), steps).value;
              s.closed && s.deq == [item] && N(s.at, ConsumerSleeps) == 1 && N(s.at, ConsumerWoken) == 0
              && N(s.at, Gap1) == N(s.at, Gap2) == 0
  {
    var c := [CloseLock(0)] + [CloseNotifyProducers(0)] + [CloseNotifyConsumers(0)];
    var s1 := ClosedEmpty();
    var both := c + [PopEnter(1, None)] + [PopEnter(2, None)];
    OneStep(Init(1), c, s1, PopEnter(1, None));
    var s2 := Next(s1, PopEnter(1, None));
    OneStep(Init(1), c + [PopEnter(1, None)], s2, PopEnter(2, None));
    var s3 := Next(s2, PopEnter(2, None));
    assert s3 == s1.(at := map[1 := ConsumerSleeps, 2 := ConsumerSleeps]);
    var last := LeftBehind(s3, both, item);
  }

  // Two consumers sleep at a closed empty deque when an item is pushed.
  lemma LeftBehind(s: State<nat>, steps: seq<Step<nat>>, item: nat) returns (last: seq<Step<nat>>)
    requires Exec(Init(1), steps) == Some(s)
    requires s == Init<nat>(1).(closed := true, at := map[1 := ConsumerSleeps, 2 := ConsumerSleeps])
    ensures Exec(Init(1), last).Some?
    ensures var e := Exec(Init(1), last).value;
            e.closed && e.deq == [item] && N(e.at, ConsumerSleeps) == 1 && N(e.at, ConsumerWoken) == 0
            && N(e.at, Gap1) == N(e.at, Gap2) == 0
  {
    var push := PushEnter(3, Want(item, false), Some(1));
    assert Where(s.at, ConsumerSleeps) == {1, 2};
    OneStep(Init(1), steps, s, push);
    var p := Next(s, push);
    OneStep(Init(1), steps + [push], p, PopResume(1, None));
    var e := Next(p, PopResume(1, None));
    assert e.at == map[2 := ConsumerSleeps] && e.deq == [item];
    assert Where(e.at, ConsumerSleeps) == {2};
    assert Where(e.at, ConsumerWoken) == {} && Where(e.at, Gap1) == {} && Where(e.at, Gap2) == {};
    last := steps + [push] + [PopResume(1, None)];
  }

  // A Close with nobody inside, run to its end.
  lemma ClosedEmpty() returns (s: State<nat>)
    ensures var steps := [Step<nat>.CloseLock(0)] + [CloseNotifyProducers(0)] + [CloseNotifyConsumers(0)];
            Exec(Init(1), steps) == Some(s)
    ensures s == Init<nat>(1).(closed := true)
  {
    var s0 := Init<nat>(1);
    assert Exec(s0, []) == Some(s0);
    OneStep(s0, [], s0, CloseLock(0));
    assert [] + [Step<nat>.CloseLock(0)] == [CloseLock(0)];
    var s1 := Next(s0, CloseLock(0));
    assert s1.at == map[0 := Gap1];
    OneStep(s0, [CloseLock(0)], s1, CloseNotifyProducers(0));
    var s2 := Next(s1, CloseNotifyProducers(0));
    assert s2.at == map[0 := Gap2];
    OneStep(s0, [CloseLock(0)] + [CloseNotifyProducers(0)], s2, CloseNotifyConsumers(0));
    s := Next(s2, CloseNotifyConsumers(0));
    assert s.at == map[];
  }

  lemma OneStep<T>(s: State<T>, steps: seq<Step<T>>, m: State<T>, a: Step<T>)
    requires Exec(s, steps) == Some(m) && Enabled(m, a)
    ensures Exec(s, steps + [a]) == Some(Next(m, a))
  {
    Runs.ExecOne(TryStep, s, steps, a);
  }
}
