// The table of connections of src/core/server.cpp: who is entered under a file
// descriptor, under which id, and what the timers armed for a descriptor do.
//
// A step is one handler run by the reactor, or what a worker thread does under the lock.
// A worker that closes a connection takes the descriptor from its Conn first and erases
// the entry of that descriptor later; the reactor, which alone accepts, may run in
// between.  What the kernel answers is arbitrary.
module ConnTable {
  import opened Prelude
  import Runs

  const MAX_FD: int := 65536
  const INVALID_CONN_ID: int := 0

  type Tid = nat

  // Class Conn, as far as the table is concerned.
  datatype Conn = Conn(fd: int, connId: int, isClose: bool)

  // A default entry, made by looking up a descriptor that is not in the table, has
  // no connection and the invalid id.
  datatype ConnInfo = ConnInfo(conn: Option<Conn>, connId: int)

  const DEFAULT_INFO: ConnInfo := ConnInfo(None, INVALID_CONN_ID)

  // The callback armed under a descriptor: the one addClient arms, or the one
  // extentTime arms in its place.
  datatype Armed = Fresh(connId: int) | Refreshed(connId: int)

  datatype Table = Table(
    users: map<int, ConnInfo>, nextConnId: int, userCount: int,
    timers: map<int, Armed>, timeoutMS: int, isClose: bool,
    // the descriptors the kernel has given out and not got back
    openFds: set<int>,
    // the worker threads between the two halves of closeConn, and the Conn they mean
    closing: map<Tid, Conn>)

  function Start(timeoutMS: int): Table {
    Table(map[], 1, 0, map[], timeoutMS, false, {}, map[])
  }

  // ---------- Steps ----------

  datatype Step =
    | Accept(fd: int, nonBlockOk: bool, epollOk: bool)
    | CloseConn(fd: int)
    | CloseBegins(t: Tid, fd: int)
    | CloseEnds(t: Tid)
    | Extend(fd: int)
    | TimerFires(fd: int)
    | Hangup(fd: int)
    | Ready(fd: int)
    | Stop

  predicate HasConn(s: Table, fd: int) {
    fd in s.users && s.users[fd].conn.Some?
  }

  predicate Enabled(s: Table, a: Step) {
    match a
    case Accept(fd, _, _) => fd > 0 && fd !in s.openFds
    case CloseConn(fd) => HasConn(s, fd)
    case CloseBegins(t, fd) => HasConn(s, fd) && t !in s.closing
    case CloseEnds(t) => t in s.closing
    case Extend(fd) => HasConn(s, fd)
    case TimerFires(fd) => fd in s.timers
    case Hangup(fd) => 0 < fd <= MAX_FD
    case Ready(fd) => 0 < fd <= MAX_FD
    case Stop => true
  }

  // Erasing an entry destroys its Conn, which closes the descriptor and is no longer
  // counted, unless it has been closed before.
  function Erase(s: Table, fd: int): Table {
    if HasConn(s, fd) && !s.users[fd].conn.value.isClose then
      s.(users := s.users - {fd}, userCount := s.userCount - 1, openFds := s.openFds - {s.users[fd].conn.value.fd})
    else s.(users := s.users - {fd})
  }

  function CloseFd(s: Table, fd: int): Table {
    s.(openFds := s.openFds - {fd})
  }

  // Source: operator[] of the map.
  function Touch(s: Table, fd: int): Table {
    if fd in s.users then s else s.(users := s.users[fd := DEFAULT_INFO])
  }

  function ArmTimer(s: Table, fd: int, armed: Armed): Table {
    if s.timeoutMS > 0 then s.(timers := s.timers[fd := armed]) else s
  }

  // Entering a connection under a fresh id.
  function Enter(s: Table, fd: int): Table {
    ArmTimer(s.(nextConnId := s.nextConnId + 1,
                users := s.users[fd := ConnInfo(Some(Conn(fd, s.nextConnId, false)), s.nextConnId)],
                userCount := s.userCount + 1), fd, Fresh(s.nextConnId))
  }

  function Added(s: Table, fd: int, nonBlockOk: bool, epollOk: bool): Table {
    if fd in s.users then CloseFd(Erase(s.(nextConnId := s.nextConnId + 1), fd), fd)
    else if !nonBlockOk || !epollOk then CloseFd(Erase(Enter(s, fd), fd), fd)
    else Enter(s, fd)
  }

  // Does the callback armed for fd close a connection?
  predicate TimerCloses(s: Table, fd: int)
    requires fd in s.timers
  {
    && !s.isClose && HasConn(s, fd) && s.users[fd].connId == s.timers[fd].connId
    && (s.timers[fd].Refreshed? ==> s.users[fd].conn.value.isClose)
  }

  function Next(s: Table, a: Step): Table
    requires Enabled(s, a)
  {
    match a
    case Accept(fd, nonBlockOk, epollOk) =>
      var o := s.(openFds := s.openFds + {fd});
      if s.userCount >= MAX_FD then CloseFd(o, fd) else Added(o, fd, nonBlockOk, epollOk)
    case CloseConn(fd) => Erase(s, s.users[fd].conn.value.fd)
    case CloseBegins(t, fd) => s.(closing := s.closing[t := s.users[fd].conn.value])
    case CloseEnds(t) => Erase(s.(closing := s.closing - {t}), s.closing[t].fd)
    case Extend(fd) =>
      var client := s.users[fd].conn.value;
      if client.fd in s.users then ArmTimer(s, client.fd, Refreshed(s.users[client.fd].connId)) else s
    case TimerFires(fd) =>
      var t := s.(timers := s.timers - {fd});
      if TimerCloses(s, fd) then Erase(t, s.users[fd].conn.value.fd)
      else if s.timers[fd].Refreshed? && !s.isClose then Touch(t, fd)
      else t
    case Hangup(fd) =>
      if HasConn(s, fd) then Erase(s, s.users[fd].conn.value.fd) else Touch(s, fd)
    case Ready(fd) =>
      if HasConn(s, fd) then
        var client := s.users[fd].conn.value;
        if client.fd in s.users then ArmTimer(s, client.fd, Refreshed(s.users[client.fd].connId)) else s
      else CloseFd(Touch(s, fd), fd)
    case Stop => s.(isClose := true)
  }

  // ---------- The invariant ----------

  function Live(s: Table): set<int> {
    set fd | fd in s.users && s.users[fd].conn.Some?
  }

  // An entry that holds a Conn agrees with it, and the Conn is open.
  predicate EntryOk(s: Table, fd: int)
    requires HasConn(s, fd)
  {
    var c := s.users[fd].conn.value;
    && c.fd == fd && !c.isClose && fd in s.openFds
    && c.connId == s.users[fd].connId && 0 < c.connId < s.nextConnId
  }

  ghost predicate Entries(s: Table) {
    && (forall fd :: HasConn(s, fd) ==> EntryOk(s, fd))
    && (forall fd :: fd in s.users && s.users[fd].conn.None? ==> s.users[fd].connId == INVALID_CONN_ID)
    && (forall fd :: fd in s.timers ==> 0 < s.timers[fd].connId < s.nextConnId)
    && s.nextConnId >= 1
  }

  // No two connections share an id.
  ghost predicate IdsDistinct(s: Table) {
    forall fd, fe :: HasConn(s, fd) && HasConn(s, fe) && s.users[fd].connId == s.users[fe].connId ==> fd == fe
  }

  ghost predicate Inv(s: Table) {
    Entries(s) && IdsDistinct(s) && s.userCount == |Live(s)| && s.userCount <= MAX_FD
  }

  lemma EraseKeeps(s: Table, fd: int)
    requires Inv(s)
    ensures Inv(Erase(s, fd)) && !HasConn(Erase(s, fd), fd)
    ensures Live(Erase(s, fd)) == Live(s) - {fd}
  {
    var n := Erase(s, fd);
    EraseCounts(s, fd);
    forall fe | HasConn(n, fe)
      ensures EntryOk(n, fe)
    {
      assert HasConn(s, fe) && EntryOk(s, fe);
      if HasConn(s, fd) { assert EntryOk(s, fd); }
    }
    forall fe, ff | HasConn(n, fe) && HasConn(n, ff) && n.users[fe].connId == n.users[ff].connId
      ensures fe == ff
    {
      assert HasConn(s, fe) && HasConn(s, ff);
    }
  }

  lemma EraseCounts(s: Table, fd: int)
    requires Inv(s)
    ensures var n := Erase(s, fd);
            Live(n) == Live(s) - {fd} && n.userCount == |Live(n)| && n.userCount <= MAX_FD
  {
    assert Live(Erase(s, fd)) == Live(s) - {fd};
    if HasConn(s, fd) {
      assert EntryOk(s, fd) && fd in Live(s);
    } else {
      assert Live(s) - {fd} == Live(s);
    }
  }

  lemma LiveIsOpen(s: Table)
    requires Inv(s)
    ensures Live(s) <= s.openFds
  {
    forall fd | fd in Live(s)
      ensures fd in s.openFds
    {
      assert HasConn(s, fd) && EntryOk(s, fd);
    }
  }

  // A change that leaves the connections alone and only adds default entries.
  lemma SameConnsKeeps(s: Table, n: Table)
    requires Inv(s) && Live(n) == Live(s) && n.userCount == s.userCount && n.nextConnId >= s.nextConnId
    requires forall fd :: fd in Live(s) ==> fd in n.users && n.users[fd] == s.users[fd]
    requires Live(s) <= n.openFds
    requires forall fd :: fd in n.users && fd !in Live(n) ==> n.users[fd].connId == INVALID_CONN_ID
    requires forall fd :: fd in n.timers ==> 0 < n.timers[fd].connId < n.nextConnId
    ensures Inv(n)
  {
    forall fd | HasConn(n, fd)
      ensures EntryOk(n, fd)
    {
      assert fd in Live(n) && fd in Live(s);
      assert HasConn(s, fd) && EntryOk(s, fd);
    }
    forall fd, fe | HasConn(n, fd) && HasConn(n, fe) && n.users[fd].connId == n.users[fe].connId
      ensures fd == fe
    {
      assert fd in Live(s) && fe in Live(s);
      assert HasConn(s, fd) && HasConn(s, fe);
    }
  }

  lemma EnterEntry(s: Table, fd: int, fe: int)
    requires Inv(s) && fd !in s.users && fd in s.openFds && HasConn(Enter(s, fd), fe)
    ensures EntryOk(Enter(s, fd), fe)
    ensures fe != fd ==> HasConn(s, fe) && Enter(s, fd).users[fe] == s.users[fe] && s.users[fe].connId < s.nextConnId
  {
    if fe != fd { assert HasConn(s, fe) && EntryOk(s, fe); }
  }

  lemma EnterKeeps(s: Table, fd: int)
    requires Inv(s) && fd !in s.users && fd in s.openFds && s.userCount < MAX_FD
    ensures Inv(Enter(s, fd)) && Live(Enter(s, fd)) == Live(s) + {fd}
  {
    var e := Enter(s, fd);
    assert Live(e) == Live(s) + {fd};
    forall fe | HasConn(e, fe)
      ensures EntryOk(e, fe)
    {
      EnterEntry(s, fd, fe);
    }
    forall fe, ff | HasConn(e, fe) && HasConn(e, ff) && e.users[fe].connId == e.users[ff].connId
      ensures fe == ff
    {
      EnterEntry(s, fd, fe);
      EnterEntry(s, fd, ff);
    }
  }

  lemma CloseFdKeeps(s: Table, fd: int)
    requires Inv(s) && !HasConn(s, fd)
    ensures Inv(CloseFd(s, fd)) && Live(CloseFd(s, fd)) == Live(s)
  {
    var n := CloseFd(s, fd);
    LiveIsOpen(s);
    SameConnsKeeps(s, n);
  }

  lemma TouchKeeps(s: Table, fd: int)
    requires Inv(s)
    ensures Inv(Touch(s, fd)) && Live(Touch(s, fd)) == Live(s)
  {
    var n := Touch(s, fd);
    assert Live(n) == Live(s);
    LiveIsOpen(s);
    SameConnsKeeps(s, n);
  }

  lemma ArmKeeps(s: Table, fd: int, armed: Armed)
    requires Inv(s) && 0 < armed.connId < s.nextConnId
    ensures Inv(ArmTimer(s, fd, armed)) && Live(ArmTimer(s, fd, armed)) == Live(s)
  {
    var n := ArmTimer(s, fd, armed);
    LiveIsOpen(s);
    SameConnsKeeps(s, n);
  }

  lemma EnterFailsKeeps(s: Table, fd: int)
    requires Inv(s) && fd !in s.users && fd in s.openFds && s.userCount < MAX_FD
    ensures var n := CloseFd(Erase(Enter(s, fd), fd), fd); Inv(n) && Live(n) == Live(s)
  {
    EnterKeeps(s, fd);
    EraseKeeps(Enter(s, fd), fd);
    CloseFdKeeps(Erase(Enter(s, fd), fd), fd);
    assert fd !in Live(s);
    assert Live(s) + {fd} - {fd} == Live(s);
  }

  lemma DuplicateKeeps(s: Table, fd: int)
    requires Inv(s) && !HasConn(s, fd)
    ensures var n := CloseFd(Erase(s.(nextConnId := s.nextConnId + 1), fd), fd); Inv(n) && Live(n) == Live(s)
  {
    var i := s.(nextConnId := s.nextConnId + 1);
    IssueKeeps(s);
    EraseKeeps(i, fd);
    CloseFdKeeps(Erase(i, fd), fd);
    assert fd !in Live(s);
  }

  lemma AddClientKeeps(s: Table, fd: int, nonBlockOk: bool, epollOk: bool)
    requires Inv(s) && !HasConn(s, fd) && fd in s.openFds && s.userCount < MAX_FD
    ensures Inv(Added(s, fd, nonBlockOk, epollOk))
    ensures Live(Added(s, fd, nonBlockOk, epollOk)) ==
            if fd !in s.users && nonBlockOk && epollOk then Live(s) + {fd} else Live(s)
  {
    if fd in s.users {
      DuplicateKeeps(s, fd);
    } else if !nonBlockOk || !epollOk {
      EnterFailsKeeps(s, fd);
    } else {
      EnterKeeps(s, fd);
    }
  }

  lemma IssueKeeps(s: Table)
    requires Inv(s)
    ensures Inv(s.(nextConnId := s.nextConnId + 1)) && Live(s.(nextConnId := s.nextConnId + 1)) == Live(s)
  {
    var n := s.(nextConnId := s.nextConnId + 1);
    LiveIsOpen(s);
    SameConnsKeeps(s, n);
  }

  lemma OpenKeeps(s: Table, fd: int)
    requires Inv(s)
    ensures Inv(s.(openFds := s.openFds + {fd})) && Live(s.(openFds := s.openFds + {fd})) == Live(s)
  {
    var n := s.(openFds := s.openFds + {fd});
    LiveIsOpen(s);
    SameConnsKeeps(s, n);
  }

  // A new connection is entered exactly when the server is not full, the table has no
  // entry for its descriptor, not even a default one, and the kernel plays along.
  lemma AcceptKeeps(s: Table, fd: int, nonBlockOk: bool, epollOk: bool)
    requires Inv(s) && Enabled(s, Accept(fd, nonBlockOk, epollOk))
    ensures var n := Next(s, Accept(fd, nonBlockOk, epollOk));
            && Inv(n)
            && Live(n) == (if s.userCount < MAX_FD && fd !in s.users && nonBlockOk && epollOk then Live(s) + {fd} else Live(s))
  {
    var o := s.(openFds := s.openFds + {fd});
    OpenKeeps(s, fd);
    LiveIsOpen(s);
    assert fd !in Live(s);
    if s.userCount >= MAX_FD {
      CloseFdKeeps(o, fd);
    } else {
      AddClientKeeps(o, fd, nonBlockOk, epollOk);
    }
  }

  lemma DisarmKeeps(s: Table, fd: int)
    requires Inv(s)
    ensures Inv(s.(timers := s.timers - {fd})) && Live(s.(timers := s.timers - {fd})) == Live(s)
  {
    var n := s.(timers := s.timers - {fd});
    LiveIsOpen(s);
    SameConnsKeeps(s, n);
  }

  lemma StepKeeps(s: Table, a: Step)
    requires Inv(s) && Enabled(s, a)
    ensures Inv(Next(s, a))
  {
    match a {
      case Accept(fd, nonBlockOk, epollOk) => AcceptKeeps(s, fd, nonBlockOk, epollOk);
      case CloseConn(fd) => EraseKeeps(s, s.users[fd].conn.value.fd);
      case CloseBegins(t, fd) =>
        LiveIsOpen(s);
        SameConnsKeeps(s, Next(s, a));
      case CloseEnds(t) =>
        var n := s.(closing := s.closing - {t});
        LiveIsOpen(s);
        SameConnsKeeps(s, n);
        EraseKeeps(n, s.closing[t].fd);
      case Extend(fd) =>
        assert EntryOk(s, fd);
        ArmKeeps(s, fd, Refreshed(s.users[fd].connId));
      case TimerFires(fd) =>
        var t := s.(timers := s.timers - {fd});
        DisarmKeeps(s, fd);
        if TimerCloses(s, fd) {
          EraseKeeps(t, s.users[fd].conn.value.fd);
        } else {
          TouchKeeps(t, fd);
        }
      case Hangup(fd) =>
        if HasConn(s, fd) { EraseKeeps(s, s.users[fd].conn.value.fd); } else { TouchKeeps(s, fd); }
      case Ready(fd) =>
        if HasConn(s, fd) {
          assert EntryOk(s, fd);
          ArmKeeps(s, fd, Refreshed(s.users[fd].connId));
        } else {
          TouchKeeps(s, fd);
          CloseFdKeeps(Touch(s, fd), fd);
        }
      case Stop =>
        LiveIsOpen(s);
        SameConnsKeeps(s, Next(s, a));
    }
  }

  // ---------- What every run shows ----------

  function TryStep(s: Table, a: Step): Option<Table> {
    if Enabled(s, a) then Some(Next(s, a)) else None
  }

  function Exec(s: Table, steps: seq<Step>): Option<Table> {
    Runs.Exec(TryStep, s, steps)
  }

  // In every run the ids of connections are positive, distinct, and those of their
  // Conns, and the user count is the number of connections, between 0 and MAX_FD.
  lemma {:induction false} RunKeeps(timeoutMS: int, steps: seq<Step>)
    requires Exec(Start(timeoutMS), steps).Some?
    ensures Inv(Exec(Start(timeoutMS), steps).value)
    ensures 0 <= Exec(Start(timeoutMS), steps).value.userCount <= MAX_FD
  {
    if steps == [] {
      assert Live(Start(timeoutMS)) == {};
    } else {
      RunKeeps(timeoutMS, steps[..|steps| - 1]);
      StepKeeps(Exec(Start(timeoutMS), steps[..|steps| - 1]).value, steps[|steps| - 1]);
    }
  }

  // After a step, a connection is an old one or has the next id in line.
  lemma StepIssues(s: Table, a: Step, fd: int)
    requires Inv(s) && Enabled(s, a) && HasConn(Next(s, a), fd)
    ensures (HasConn(s, fd) && Next(s, a).users[fd] == s.users[fd]) || Next(s, a).users[fd].connId == s.nextConnId
    ensures Next(s, a).nextConnId >= s.nextConnId
  {
    if a.Accept? {
      var o := s.(openFds := s.openFds + {a.fd});
      if a.fd != fd {
        AcceptElsewhere(s, a.fd, a.nonBlockOk, a.epollOk, fd);
      } else {
        assert s.userCount < MAX_FD && fd !in s.users && a.nonBlockOk && a.epollOk by {
          AcceptKeeps(s, fd, a.nonBlockOk, a.epollOk);
          LiveIsOpen(s);
          assert fd in Live(Next(s, a));
        }
      }
    }
  }

  ghost predicate NobodyHas(s: Table, id: int) {
    forall fd :: HasConn(s, fd) ==> s.users[fd].connId != id
  }

  lemma StepReissuesNothing(s: Table, a: Step, id: int)
    requires Inv(s) && Enabled(s, a) && id < s.nextConnId && NobodyHas(s, id)
    ensures NobodyHas(Next(s, a), id) && id < Next(s, a).nextConnId
  {
    forall fd | HasConn(Next(s, a), fd)
      ensures Next(s, a).users[fd].connId != id
    {
      StepIssues(s, a, fd);
    }
    NextIdGrows(s, a);
  }

  lemma NextIdGrows(s: Table, a: Step)
    requires Enabled(s, a)
    ensures Next(s, a).nextConnId >= s.nextConnId
  {
  }

  // An id that has been issued and is no longer in the table never comes back.
  lemma {:induction false} NeverReissued(timeoutMS: int, before: seq<Step>, after: seq<Step>, id: int)
    requires Exec(Start(timeoutMS), before).Some? && Exec(Start(timeoutMS), before + after).Some?
    requires id < Exec(Start(timeoutMS), before).value.nextConnId
    requires NobodyHas(Exec(Start(timeoutMS), before).value, id)
    ensures var s := Exec(Start(timeoutMS), before + after).value; NobodyHas(s, id) && id < s.nextConnId
  {
    if after == [] {
      assert before + after == before;
    } else {
      var all, rest := before + after, after[..|after| - 1];
      assert all[..|all| - 1] == before + rest && all[|all| - 1] == after[|after| - 1];
      NeverReissued(timeoutMS, before, rest, id);
      RunKeeps(timeoutMS, before + rest);
      StepReissuesNothing(Exec(Start(timeoutMS), before + rest).value, after[|after| - 1], id);
    }
  }

  // A timer that fires closes a connection exactly when it is the one addClient armed
  // for that very connection and the server is running; then it closes that one and
  // no other, even if the descriptor has been reused since.
  lemma TimerClosesOnlyItsOwn(s: Table, fd: int)
    requires Inv(s) && fd in s.timers
    ensures var n := Next(s, TimerFires(fd));
            var closes := s.timers[fd].Fresh? && !s.isClose && HasConn(s, fd) && s.users[fd].connId == s.timers[fd].connId;
            && Live(n) == (if closes then Live(s) - {fd} else Live(s))
            && (forall fe :: fe in Live(n) ==> n.users[fe] == s.users[fe])
  {
    var t := s.(timers := s.timers - {fd});
    DisarmKeeps(s, fd);
    if HasConn(s, fd) {
      assert EntryOk(s, fd);
      EraseKeeps(t, fd);
    }
    TouchKeeps(t, fd);
  }

  // Another connection than the one that thread t means is entered under its descriptor.
  predicate Reused(s: Table, t: Tid)
    requires t in s.closing
  {
    HasConn(s, s.closing[t].fd) && s.users[s.closing[t].fd].connId != s.closing[t].connId
  }

  // A worker that ends a close takes out whatever connection is under the descriptor by
  // then.  It leaves every connection but the one it means alone if and only if the
  // descriptor has not gone to another since it began.
  lemma CloseEndsExact(s: Table, t: Tid)
    requires Inv(s) && t in s.closing
    ensures var c, n := s.closing[t], Next(s, CloseEnds(t));
            && Live(n) == Live(s) - {c.fd}
            && (forall fd :: fd in Live(n) ==> n.users[fd] == s.users[fd])
            && ((forall fd :: HasConn(s, fd) && s.users[fd].connId != c.connId ==> HasConn(n, fd)) <==> !Reused(s, t))
  {
    var r := s.(closing := s.closing - {t});
    LiveIsOpen(s);
    SameConnsKeeps(s, r);
    EraseKeeps(r, s.closing[t].fd);
    var n := Next(s, CloseEnds(t));
    forall fd
      ensures HasConn(n, fd) <==> fd in Live(n)
      ensures HasConn(s, fd) <==> fd in Live(s)
    {
    }
  }

  // It does happen: the connection that a worker is closing is closed first by its timer,
  // the descriptor goes to a new connection, and the worker closes that.
  lemma ClosesAnother()
    ensures var steps := [Accept(5, true, true), CloseBegins(0, 5), TimerFires(5), Accept(5, true, true)];
            var before, after := Exec(Start(1), steps), Exec(Start(1), steps + [CloseEnds(0)]);
            && before.Some? && 0 in before.value.closing && before.value.closing[0].connId == 1
            && HasConn(before.value, 5) && before.value.users[5].connId == 2
            && after.Some? && 5 !in after.value.users
  {
    var a, b, c := Accept(5, true, true), CloseBegins(0, 5), TimerFires(5);
    var one := Table(map[5 := ConnInfo(Some(Conn(5, 1, false)), 1)], 2, 1, map[5 := Fresh(1)], 1, false, {5}, map[]);
    assert Next(Start(1), a) == one;
    assert Next(one.(closing := map[0 := Conn(5, 1, false)]), c) == Table(map[], 2, 0, map[], 1, false, {}, map[0 := Conn(5, 1, false)]);
    Runs.ExecOne(TryStep, Start(1), [], a);
    Runs.ExecOne(TryStep, Start(1), [a], b);
    Runs.ExecOne(TryStep, Start(1), [a, b], c);
    Runs.ExecOne(TryStep, Start(1), [a, b, c], a);
    Runs.ExecOne(TryStep, Start(1), [a, b, c, a], CloseEnds(0));
    assert [] + [a] == [a] && [a] + [b] == [a, b] && [a, b] + [c] == [a, b, c] && [a, b, c] + [a] == [a, b, c, a];
  }

  // Closing a connection, or a hangup of its peer, takes it out, with its descriptor, and no
  // other.
  lemma ClosesExactly(s: Table, fd: int)
    requires Inv(s) && HasConn(s, fd)
    ensures 0 < fd <= MAX_FD ==> Next(s, CloseConn(fd)) == Next(s, Hangup(fd))
    ensures var n := Next(s, CloseConn(fd));
            && fd !in n.users && n.openFds == s.openFds - {fd} && n.userCount == s.userCount - 1
            && (forall fe :: fe != fd ==> (fe in n.users <==> fe in s.users) && (fe in s.users ==> n.users[fe] == s.users[fe]))
            && n.timers == s.timers && n.nextConnId == s.nextConnId
  {
    assert EntryOk(s, fd);
  }

  // A new connection gets its descriptor, the next id, and, with a time limit, its timer;
  // a refused one is closed.
  lemma AcceptExact(s: Table, fd: int, nonBlockOk: bool, epollOk: bool)
    requires Inv(s) && Enabled(s, Accept(fd, nonBlockOk, epollOk))
    ensures var n := Next(s, Accept(fd, nonBlockOk, epollOk));
            if s.userCount < 65536 && fd !in s.users && nonBlockOk && epollOk then
              && HasConn(n, fd) && n.users[fd] == ConnInfo(Some(Conn(fd, s.nextConnId, false)), s.nextConnId)
              && n.nextConnId == s.nextConnId + 1 && fd in n.openFds
              && (s.timeoutMS > 0 ==> fd in n.timers && n.timers[fd] == Fresh(s.nextConnId))
            else !HasConn(n, fd) && fd !in n.openFds
  {
    AcceptKeeps(s, fd, nonBlockOk, epollOk);
    LiveIsOpen(s);
    assert fd !in Live(s);
  }

  // An event on a descriptor with a connection puts the timer off; on one without, it
  // leaves no connection there and no open descriptor, and touches no other.
  lemma ReadyExact(s: Table, fd: int)
    requires Inv(s) && Enabled(s, Ready(fd))
    ensures var n := Next(s, Ready(fd));
            && (forall fe :: HasConn(n, fe) <==> HasConn(s, fe))
            && (forall fe :: HasConn(s, fe) ==> n.users[fe] == s.users[fe])
            && n.openFds == (if HasConn(s, fd) then s.openFds else s.openFds - {fd})
            && n.timers == (if HasConn(s, fd) && s.timeoutMS > 0 then s.timers[fd := Refreshed(s.users[fd].connId)] else s.timers)
    ensures HasConn(s, fd) ==> Next(s, Ready(fd)) == Next(s, Extend(fd))
  {
    if HasConn(s, fd) {
      assert EntryOk(s, fd);
    }
  }

  // Does the step touch what stands under fd, or stop the server?
  predicate Touches(a: Step, fd: int) {
    MeansToClose(a, fd) || a == Extend(fd) || a == Ready(fd) || a == TimerFires(fd) || a == Stop
  }

  // The timer of addClient stands ready for the connection under fd.
  ghost predicate Pending(s: Table, fd: int, id: int) {
    && HasConn(s, fd) && s.users[fd].connId == id && !s.isClose
    && fd in s.timers && s.timers[fd] == Fresh(id)
    && (forall t :: t in s.closing ==> s.closing[t].fd != fd)
  }

  lemma StepKeepsPending(s: Table, a: Step, fd: int, id: int)
    requires Inv(s) && Enabled(s, a) && Pending(s, fd, id) && !Touches(a, fd)
    ensures Pending(Next(s, a), fd, id)
  {
    assert EntryOk(s, fd);
    match a {
      case Accept(fe, nonBlockOk, epollOk) =>
        assert fe != fd;
        AcceptElsewhere(s, fe, nonBlockOk, epollOk, fd);
        AcceptKeepsOpen(s, fe, nonBlockOk, epollOk);
      case CloseConn(fe) => assert EntryOk(s, fe);
      case CloseBegins(t, fe) => assert EntryOk(s, fe);
      case CloseEnds(t) =>
      case Extend(fe) => assert EntryOk(s, fe);
      case TimerFires(fe) => if HasConn(s, fe) { assert EntryOk(s, fe); }
      case Hangup(fe) => if HasConn(s, fe) { assert EntryOk(s, fe); }
      case Ready(fe) => if HasConn(s, fe) { assert EntryOk(s, fe); }
      case Stop =>
    }
  }

  lemma AcceptKeepsOpen(s: Table, fd: int, nonBlockOk: bool, epollOk: bool)
    requires Enabled(s, Accept(fd, nonBlockOk, epollOk))
    ensures Next(s, Accept(fd, nonBlockOk, epollOk)).isClose == s.isClose
  {
  }

  lemma {:induction false} PendingStays(timeoutMS: int, before: seq<Step>, after: seq<Step>, fd: int, id: int)
    requires Exec(Start(timeoutMS), before).Some? && Exec(Start(timeoutMS), before + after).Some?
    requires Pending(Exec(Start(timeoutMS), before).value, fd, id)
    requires forall a :: a in after ==> !Touches(a, fd)
    ensures Pending(Exec(Start(timeoutMS), before + after).value, fd, id)
  {
    if after == [] {
      assert before + after == before;
    } else {
      var all, rest := before + after, after[..|after| - 1];
      assert all[..|all| - 1] == before + rest && all[|all| - 1] == after[|after| - 1];
      PendingStays(timeoutMS, before, rest, fd, id);
      RunKeeps(timeoutMS, before + rest);
      assert after[|after| - 1] in after;
      StepKeepsPending(Exec(Start(timeoutMS), before + rest).value, after[|after| - 1], fd, id);
    }
  }

  // In every run a connection that was entered and is then left alone is closed by its
  // timer, and no other is.
  lemma IdleTimesOut(timeoutMS: int, before: seq<Step>, fd: int, after: seq<Step>)
    requires timeoutMS > 0 && Exec(Start(timeoutMS), before).Some?
    requires var all := before + [Accept(fd, true, true)] + after; Exec(Start(timeoutMS), all).Some?
    requires var p := Exec(Start(timeoutMS), before).value;
             p.userCount < 65536 && fd !in p.users && !p.isClose && forall t :: t in p.closing ==> p.closing[t].fd != fd
    requires forall a :: a in after ==> !Touches(a, fd)
    ensures var s := Exec(Start(timeoutMS), before + [Accept(fd, true, true)] + after).value;
            && HasConn(s, fd) && Enabled(s, TimerFires(fd))
            && var n := Next(s, TimerFires(fd));
            fd !in n.users && Live(n) == Live(s) - {fd}
  {
    var p, a := Exec(Start(timeoutMS), before).value, Accept(fd, true, true);
    var mid := before + [a];
    assert mid[..|mid| - 1] == before;
    Runs.ExecPrefix(TryStep, Start(timeoutMS), mid, after);
    RunKeeps(timeoutMS, before);
    TimeoutFixed(timeoutMS, before);
    AcceptExact(p, fd, true, true);
    AcceptElsewhereClosing(p, fd);
    PendingStays(timeoutMS, mid, after, fd, p.nextConnId);
    RunKeeps(timeoutMS, mid + after);
    var s := Exec(Start(timeoutMS), mid + after).value;
    assert EntryOk(s, fd);
    TimerClosesOnlyItsOwn(s, fd);
  }

  lemma AcceptElsewhereClosing(s: Table, fd: int)
    requires Enabled(s, Accept(fd, true, true))
    ensures Next(s, Accept(fd, true, true)).closing == s.closing
    ensures Next(s, Accept(fd, true, true)).isClose == s.isClose
  {
  }

  // No timer is going to close the connection under fd.
  ghost predicate Immune(s: Table, fd: int, id: int) {
    && HasConn(s, fd) && s.users[fd].connId == id
    && (fd in s.timers ==> s.timers[fd].Refreshed? || s.timers[fd].connId != id)
    && (forall t :: t in s.closing ==> s.closing[t].fd != fd)
  }

  // Does the step close, or begin to close, what is entered under fd?
  predicate MeansToClose(a: Step, fd: int) {
    a == CloseConn(fd) || a == Hangup(fd) || (a.CloseBegins? && a.fd == fd)
  }

  lemma StepKeepsImmune(s: Table, a: Step, fd: int, id: int)
    requires Inv(s) && Enabled(s, a) && Immune(s, fd, id)
    requires !MeansToClose(a, fd)
    ensures Immune(Next(s, a), fd, id)
  {
    assert EntryOk(s, fd);
    match a {
      case Accept(fe, nonBlockOk, epollOk) =>
        assert fe != fd;
        AcceptElsewhere(s, fe, nonBlockOk, epollOk, fd);
      case CloseConn(fe) => assert EntryOk(s, fe);
      case CloseBegins(t, fe) => assert EntryOk(s, fe);
      case CloseEnds(t) =>
      case Extend(fe) => assert EntryOk(s, fe);
      case TimerFires(fe) => if HasConn(s, fe) { assert EntryOk(s, fe); }
      case Hangup(fe) => if HasConn(s, fe) { assert EntryOk(s, fe); }
      case Ready(fe) => if HasConn(s, fe) { assert EntryOk(s, fe); }
      case Stop =>
    }
  }

  // The tables agree on fd, and on who is closing.
  predicate SameAt(s: Table, n: Table, fd: int) {
    && (fd in n.users <==> fd in s.users) && (fd in s.users ==> n.users[fd] == s.users[fd])
    && (fd in n.timers <==> fd in s.timers) && (fd in s.timers ==> n.timers[fd] == s.timers[fd])
    && n.closing == s.closing
  }

  lemma EnterElsewhere(s: Table, fe: int, fd: int)
    requires fe != fd
    ensures SameAt(s, Enter(s, fe), fd)
  {
  }

  lemma EraseElsewhere(s: Table, fe: int, fd: int)
    requires fe != fd
    ensures SameAt(s, CloseFd(Erase(s, fe), fe), fd)
  {
  }

  lemma AcceptElsewhere(s: Table, fe: int, nonBlockOk: bool, epollOk: bool, fd: int)
    requires Enabled(s, Accept(fe, nonBlockOk, epollOk)) && fe != fd
    ensures SameAt(s, Next(s, Accept(fe, nonBlockOk, epollOk)), fd)
  {
    var o := s.(openFds := s.openFds + {fe});
    if s.userCount < MAX_FD {
      AddedElsewhere(o, fe, nonBlockOk, epollOk, fd);
    }
  }

  lemma AddedElsewhere(s: Table, fe: int, nonBlockOk: bool, epollOk: bool, fd: int)
    requires fe != fd
    ensures SameAt(s, Added(s, fe, nonBlockOk, epollOk), fd)
  {
    if fe in s.users {
      EraseElsewhere(s.(nextConnId := s.nextConnId + 1), fe, fd);
    } else {
      EnterElsewhere(s, fe, fd);
      if !nonBlockOk || !epollOk {
        EraseElsewhere(Enter(s, fe), fe, fd);
      }
    }
  }

  lemma {:induction false} ImmuneStays(timeoutMS: int, before: seq<Step>, after: seq<Step>, fd: int, id: int)
    requires Exec(Start(timeoutMS), before).Some? && Exec(Start(timeoutMS), before + after).Some?
    requires Immune(Exec(Start(timeoutMS), before).value, fd, id)
    requires forall a :: a in after ==> !MeansToClose(a, fd)
    ensures Immune(Exec(Start(timeoutMS), before + after).value, fd, id)
  {
    if after == [] {
      assert before + after == before;
    } else {
      var all, rest := before + after, after[..|after| - 1];
      assert all[..|all| - 1] == before + rest && all[|all| - 1] == after[|after| - 1];
      ImmuneStays(timeoutMS, before, rest, fd, id);
      RunKeeps(timeoutMS, before + rest);
      assert after[|after| - 1] in after;
      StepKeepsImmune(Exec(Start(timeoutMS), before + rest).value, after[|after| - 1], fd, id);
    }
  }

  // The callback of extentTime closes a connection only if it is closed already, so a
  // connection that has once been extended is never closed by a timer: it stays until
  // a handler or a worker closes it or the peer hangs up.
  lemma ExtendedNeverTimesOut(timeoutMS: int, before: seq<Step>, fd: int, after: seq<Step>)
    requires timeoutMS > 0
    requires Exec(Start(timeoutMS), before).Some? && Exec(Start(timeoutMS), before + [Extend(fd)] + after).Some?
    requires forall a :: a in after ==> !MeansToClose(a, fd)
    requires forall t :: t in Exec(Start(timeoutMS), before).value.closing ==>
               Exec(Start(timeoutMS), before).value.closing[t].fd != fd
    ensures HasConn(Exec(Start(timeoutMS), before).value, fd)
    ensures var p, s := Exec(Start(timeoutMS), before).value, Exec(Start(timeoutMS), before + [Extend(fd)] + after).value;
            HasConn(s, fd) && s.users[fd].connId == p.users[fd].connId
  {
    var mid := before + [Extend(fd)];
    assert mid[..|mid| - 1] == before;
    Runs.ExecPrefix(TryStep, Start(timeoutMS), mid, after);
    var p := Exec(Start(timeoutMS), before).value;
    RunKeeps(timeoutMS, before);
    assert EntryOk(p, fd);
    TimeoutFixed(timeoutMS, before);
    ImmuneStays(timeoutMS, mid, after, fd, p.users[fd].connId);
  }

  lemma NextKeepsTimeout(s: Table, a: Step)
    requires Enabled(s, a)
    ensures Next(s, a).timeoutMS == s.timeoutMS
  {
    match a {
      case Accept(fd, nonBlockOk, epollOk) =>
        assert Enter(s, fd).timeoutMS == s.timeoutMS;
      case _ =>
    }
  }

  lemma {:induction false} TimeoutFixed(timeoutMS: int, steps: seq<Step>)
    requires Exec(Start(timeoutMS), steps).Some?
    ensures Exec(Start(timeoutMS), steps).value.timeoutMS == timeoutMS
  {
    if steps != [] {
      TimeoutFixed(timeoutMS, steps[..|steps| - 1]);
      NextKeepsTimeout(Exec(Start(timeoutMS), steps[..|steps| - 1]).value, steps[|steps| - 1]);
    }
  }

  // ---------- The object ----------

  class Server {
    var users: map<int, ConnInfo>
    var nextConnId: int
    var userCount: int
    var timers: map<int, Armed>
    var isClose: bool
    const timeoutMS: int
    ghost var openFds: set<int>
    ghost var closing: map<Tid, Conn>

    ghost function State(): Table
      reads this
    {
      Table(users, nextConnId, userCount, timers, timeoutMS, isClose, openFds, closing)
    }

    constructor (timeoutMS: int)
      ensures State() == Start(timeoutMS)
    {
      this.timeoutMS := timeoutMS;
      users, nextConnId, userCount, timers, isClose, openFds := map[], 1, 0, map[], false, {};
      closing := map[];
    }

    // _users.erase(fd), with the destructors it runs.
    method EraseUser(fd: int)
      modifies this`users, this`userCount, this`openFds
      ensures State() == Erase(old(State()), fd)
    {
      if fd in users {
        var conn := users[fd].conn;
        users := users - {fd};
        if conn.Some? && !conn.value.isClose {
          userCount := userCount - 1;
          openFds := openFds - {conn.value.fd};
        }
      } else {
        assert users - {fd} == users;
      }
    }

    method ScheduleWithKey(fd: int, armed: Armed)
      modifies this`timers
      ensures State() == old(State()).(timers := old(timers)[fd := armed])
    {
      timers := timers[fd := armed];
    }

    method AddClient(fd: int, nonBlockOk: bool, epollOk: bool)
      requires fd > 0
      modifies this
      ensures State() == Added(old(State()), fd, nonBlockOk, epollOk)
    {
      var connId := nextConnId;
      nextConnId := nextConnId + 1;
      if fd in users {
        EraseUser(fd);
        openFds := openFds - {fd};
        return;
      }
      userCount := userCount + 1;
      users := users[fd := ConnInfo(Some(Conn(fd, connId, false)), connId)];
      if timeoutMS > 0 {
        ScheduleWithKey(fd, Fresh(connId));
      }
      assert State() == Enter(old(State()), fd);
      if !nonBlockOk || !epollOk {
        EraseUser(fd);
        openFds := openFds - {fd};
      }
    }

    // accept, checkServerNotFull, and addClient if there is room.
    method DealListen(fd: int, nonBlockOk: bool, epollOk: bool)
      requires fd > 0 && fd !in openFds
      modifies this
      ensures State() == Next(old(State()), Accept(fd, nonBlockOk, epollOk))
    {
      openFds := openFds + {fd};
      if userCount >= MAX_FD {
        openFds := openFds - {fd};
      } else {
        AddClient(fd, nonBlockOk, epollOk);
      }
    }

    // Close the connection whose Conn is `client`.
    method CloseClient(client: Conn)
      modifies this`users, this`userCount, this`openFds
      ensures State() == Erase(old(State()), client.fd)
    {
      var fd, connId := client.fd, client.connId;
      if fd <= 0 || fd > MAX_FD || connId == 0 {
        EraseUser(fd);
        return;
      }
      if fd in users {
        EraseUser(fd);
      } else {
        assert users - {fd} == users;
      }
    }

    // The two halves of closeConn in a worker thread: the Conn is taken while it is in the
    // table, the entry is erased later.
    method BeginClose(ghost t: Tid, fd: int) returns (client: Conn)
      requires HasConn(State(), fd) && t !in closing
      modifies this`closing
      ensures State() == Next(old(State()), CloseBegins(t, fd)) && closing[t] == client
    {
      client := users[fd].conn.value;
      closing := closing[t := client];
    }

    method EndClose(ghost t: Tid, client: Conn)
      requires t in closing && closing[t] == client
      modifies this`users, this`userCount, this`openFds, this`closing
      ensures State() == Next(old(State()), CloseEnds(t))
    {
      closing := closing - {t};
      CloseClient(client);
    }

    method ExtentTime(client: Conn)
      requires client.fd > 0
      modifies this`timers
      ensures State() == if client.fd in old(users) then ArmTimer(old(State()), client.fd, Refreshed(old(users)[client.fd].connId)) else old(State())
    {
      if timeoutMS <= 0 {
        return;
      }
      var fd := client.fd;
      if fd !in users {
        return;
      }
      var connId := users[fd].connId;
      ScheduleWithKey(fd, Refreshed(connId));
    }

    // The timer armed under fd fires; its repeat count is 0, so it is gone.
    method OnTimer(fd: int)
      requires fd in timers && Entries(State())
      modifies this`users, this`userCount, this`openFds, this`timers
      ensures State() == Next(old(State()), TimerFires(fd))
    {
      var armed := timers[fd];
      timers := timers - {fd};
      match armed {
        case Fresh(connId) =>
          var conn := None;
          if !isClose && fd in users && users[fd].connId == connId {
            conn := users[fd].conn;
          }
          if conn.Some? {
            CloseClient(conn.value);
          }
        case Refreshed(connId) =>
          if isClose {
            return;
          }
          if fd !in users {
            users := users[fd := DEFAULT_INFO];
          }
          if users[fd].connId != connId {
            return;
          }
          var conn := users[fd].conn;
          if conn.Some? {
            if conn.value.isClose {
              CloseClient(conn.value);
            }
          }
      }
    }

    // Source: checkFdAndMatchId.  A Conn passes exactly when it is open and the table
    // still has it under its descriptor.
    method CheckFdAndMatchId(client: Conn) returns (ok: bool)
      requires Entries(State())
      ensures ok <==> 0 < client.fd <= MAX_FD && client.fd in users && users[client.fd].conn == Some(client)
    {
      ghost var s := State();
      if HasConn(s, client.fd) { assert EntryOk(s, client.fd); }
      var fd := client.fd;
      if fd <= 0 || fd > MAX_FD {
        return false;
      }
      if client.isClose {
        return false;
      }
      if fd !in users {
        return false;
      }
      var connId := client.connId;
      if connId == 0 || users[fd].connId != connId {
        return false;
      }
      return true;
    }
  }
}
