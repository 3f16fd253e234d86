// One connection from accept to close, as a state machine: onRead, onProcess and onWrite of
// src/core/server.cpp, and what holds in every run.
//
// The descriptor is armed for one event at a time (EPOLLONESHOT), so a handler runs only
// for the event it was armed for, and never beside another.  What the server answers to a
// text is a parameter here; Session gives it its value.
module Serving {
  import opened Prelude
  import opened Buffers
  import opened ConnIo
  import Requests
  import Responses

  datatype Armed = In | Out | Closed

  // What the world gives one call: the allocator, reading and appending; the database; the
  // file system; and whether epoll takes the new registration.
  datatype World = World(reading: nat -> bool, appending: nat -> bool,
                         verify: Requests.Verify, disk: Responses.Disk, armOk: bool)

  // What is made of a text in the read buffer: is it defined, what is sent, what stays in
  // the buffer, is the connection kept, and how does a write buffer stand after the head of
  // the reply, if it can hold it.
  datatype Answer = Answer(defined: bool, message: string, rest: string, keepAlive: bool, fit: Shape -> Option<Shape>)

  type Server = (string, World) -> Answer

  // One answered request.
  datatype Exchange = Exchange(text: string, w: World)

  // What goes out when exchanges are answered one after the other.
  function Replies(f: Server, log: seq<Exchange>): string {
    if log == [] then "" else Replies(f, log[..|log| - 1]) + f(log[|log| - 1].text, log[|log| - 1].w).message
  }

  // What an exchange takes off the stream.
  function Used(f: Server, e: Exchange): string {
    var rest := f(e.text, e.w).rest;
    if |rest| <= |e.text| then e.text[..|e.text| - |rest|] else ""
  }

  function AllUsed(f: Server, log: seq<Exchange>): string {
    if log == [] then "" else AllUsed(f, log[..|log| - 1]) + Used(f, log[|log| - 1])
  }

  // ---------- Steps ----------

  datatype Snap = Snap(
    armed: Armed,
    // the read buffer: what is in it, what has been appended to it, how it stands
    inbox: string, appended: string, inShape: Shape,
    // the answered requests, the last reply, what the kernel has accepted of it, how much
    // is left, and how the write buffer stands
    log: seq<Exchange>, response: string, accepted: string, toWrite: nat, outShape: Shape,
    keepAlive: bool,
    // the socket
    sent: string, taken: string, readResults: seq<int>, writeResults: seq<int>)

  // onProcess, from `a` to `b`.
  ghost predicate Processed(f: Server, a: Snap, w: World, b: Snap) {
    if a.inbox == "" then b == a.(armed := if w.armOk then In else Closed)
    else Answered(f, a, w, b)
  }

  // With something in the read buffer: it is answered, unless the parser runs past the end
  // of a form or the write buffer cannot hold the reply.
  ghost predicate Answered(f: Server, a: Snap, w: World, b: Snap) {
    var r := f(a.inbox, w);
    && b.sent == a.sent && b.taken == a.taken && b.readResults == a.readResults && b.writeResults == a.writeResults
    && b.appended == a.appended
    && if !r.defined || r.fit(a.outShape).None?
       then b.armed == Closed && b.log == a.log && b.response == a.response && b.accepted == a.accepted
       else
         && b.armed == (if w.armOk then Out else Closed)
         && b.inbox == r.rest && b.keepAlive == r.keepAlive
         && b.log == a.log + [Exchange(a.inbox, w)]
         && b.response == r.message && b.accepted == "" && b.toWrite == |r.message|
  }

  // After the reads `rs`.
  ghost function HasRead(a: Snap, rs: seq<OneRead>): Snap
    requires ShapeOk(a.inShape)
  {
    a.(inbox := a.inbox + AllKept(rs), appended := a.appended + AllKept(rs), inShape := After(a.inShape, rs),
       taken := a.taken + AllBytes(rs), readResults := a.readResults + Results(rs))
  }

  // onRead.
  ghost predicate HandledIn(f: Server, isET: bool, a: Snap, w: World, rs: seq<OneRead>, ret: int, err: Option<Errno>, b: Snap) {
    && ShapeOk(a.inShape)
    && Logged(a.inShape, rs, w.reading) && Stops(isET, rs) && OneReadOk(rs[|rs| - 1]) && Reports(rs, ret, err)
    && if ret <= 0 then b == HasRead(a, rs).(armed := Closed) else Processed(f, HasRead(a, rs), w, b)
  }

  // After the kernel has accepted `chunk`.
  function HasWritten(a: Snap, chunk: string, counts: seq<int>, outShape: Shape): Snap {
    a.(accepted := a.accepted + chunk, sent := a.sent + chunk, writeResults := a.writeResults + counts,
       toWrite := if |chunk| <= a.toWrite then a.toWrite - |chunk| else 0, outShape := outShape)
  }

  // onWrite.
  ghost predicate HandledOut(f: Server, isET: bool, a: Snap, w: World, chunk: string, counts: seq<int>,
                             ret: int, err: Option<Errno>, outShape: Shape, b: Snap)
  {
    var m := HasWritten(a, chunk, counts, outShape);
    && |chunk| <= a.toWrite && a.accepted + chunk <= a.response
    && Attempts(isET, a.toWrite, counts, m.toWrite) && Outcome(counts, |chunk|, ret, err)
    && if m.toWrite == 0 then
         if a.keepAlive then Processed(f, m, w, b) else b == m.(armed := Closed)
       else if ret < 0 && err != Some(EAGAIN) then b == m.(armed := Closed)
       else b == m
  }

  // One event, as the socket has answered it; `input` is what a read has put into the buffer.
  ghost predicate Handled(f: Server, isET: bool, a: Snap, event: Armed, w: World, input: string, b: Snap) {
    if event != a.armed || event == Closed then b == a && input == ""
    else if event == In then
      exists rs, ret, err :: HandledIn(f, isET, a, w, rs, ret, err, b) && input == AllKept(rs)
    else
      input == "" &&
      exists chunk, counts, ret, err, sh :: HandledOut(f, isET, a, w, chunk, counts, ret, err, sh, b)
  }

  datatype Event = Event(kind: Armed, w: World)

  // The states of a run and the inputs between them.
  ghost predicate Run(f: Server, isET: bool, events: seq<Event>, trace: seq<Snap>, inputs: seq<string>) {
    && |trace| == |events| + 1 && |inputs| == |events|
    && forall i :: 0 <= i < |events| ==>
         Handled(f, isET, trace[i], events[i].kind, events[i].w, inputs[i], trace[i + 1])
  }

  // ---------- What every handler keeps ----------

  // What stays in the buffer is the end of what was there.
  ghost predicate LeavesEnd(f: Server) {
    forall t, w :: var rest := f(t, w).rest; |rest| <= |t| && rest == t[|t| - |rest|..]
  }

  // What the peer has been sent is the replies to the logged requests, in order, up to what
  // is left of the last.
  ghost predicate InOrder(f: Server, s: Snap) {
    if s.log == [] then s.response == "" && s.accepted == "" && s.sent == ""
    else
      var n := |s.log| - 1;
      && s.response == f(s.log[n].text, s.log[n].w).message && s.accepted <= s.response
      && s.sent == Replies(f, s.log[..n]) + s.accepted
  }

  // The requests are parsed from the stream, each from where the one before has stopped.
  ghost predicate OnStream(f: Server, s: Snap) {
    && (forall i :: 0 <= i < |s.log| ==> AllUsed(f, s.log[..i]) + s.log[i].text <= s.appended)
    && (s.armed != Closed ==> s.appended == AllUsed(f, s.log) + s.inbox)
  }

  // In the middle of a handler there may be something in the read buffer.
  ghost predicate Core(f: Server, s: Snap) {
    && InOrder(f, s) && OnStream(f, s)
    && (s.armed != Closed ==> s.toWrite == |s.response| - |s.accepted|)
    && (s.armed == In ==> s.toWrite == 0)
  }

  ghost predicate Inv(f: Server, s: Snap) {
    Core(f, s) && (s.armed == In ==> s.inbox == "")
  }

  lemma StartInv(f: Server, s: Snap)
    requires s.armed == In && s.log == [] && s.inbox == "" && s.appended == ""
    requires s.response == "" && s.accepted == "" && s.toWrite == 0 && s.sent == ""
    ensures Inv(f, s)
  {
  }

  lemma RepliesOne(f: Server, log: seq<Exchange>, e: Exchange)
    ensures Replies(f, log + [e]) == Replies(f, log) + f(e.text, e.w).message
    ensures AllUsed(f, log + [e]) == AllUsed(f, log) + Used(f, e)
  {
    assert (log + [e])[..|log + [e]| - 1] == log;
  }

  // Everything logged has gone out when nothing is left to write.
  lemma WholeLog(f: Server, s: Snap)
    requires InOrder(f, s) && |s.accepted| == |s.response|
    ensures s.sent == Replies(f, s.log)
  {
    if s.log != [] {
      var n := |s.log| - 1;
      assert s.accepted == s.response;
      assert s.log == s.log[..n] + [s.log[n]];
      RepliesOne(f, s.log[..n], s.log[n]);
    }
  }

  lemma UsedAndRest(f: Server, e: Exchange)
    requires LeavesEnd(f)
    ensures Used(f, e) + f(e.text, e.w).rest == e.text
  {
  }

  lemma LoggedOne(f: Server, log: seq<Exchange>, e: Exchange, appended: string)
    requires LeavesEnd(f) && appended == AllUsed(f, log) + e.text
    requires forall i :: 0 <= i < |log| ==> AllUsed(f, log[..i]) + log[i].text <= appended
    ensures forall i :: 0 <= i < |log + [e]| ==> AllUsed(f, (log + [e])[..i]) + (log + [e])[i].text <= appended
    ensures appended == AllUsed(f, log + [e]) + f(e.text, e.w).rest
  {
    RepliesOne(f, log, e);
    UsedAndRest(f, e);
    Reassociate(AllUsed(f, log), Used(f, e), f(e.text, e.w).rest);
    FirstPart(log, e);
  }

  lemma FirstPart(log: seq<Exchange>, e: Exchange)
    ensures forall i :: 0 <= i < |log| ==> (log + [e])[..i] == log[..i] && (log + [e])[i] == log[i]
    ensures (log + [e])[..|log|] == log
  {
  }

  lemma AnsweredKeeps(f: Server, a: Snap, w: World, b: Snap)
    requires LeavesEnd(f) && Core(f, a) && a.armed != Closed && a.toWrite == 0 && a.inbox != ""
    requires Answered(f, a, w, b)
    ensures Inv(f, b)
  {
    if b.log == a.log {
      SameLogKeeps(f, a, b);
    } else {
      var e := Exchange(a.inbox, w);
      LoggedOne(f, a.log, e, a.appended);
      AnsweredInOrder(f, a, e, b);
    }
  }

  lemma SameLogKeeps(f: Server, a: Snap, b: Snap)
    requires Core(f, a) && b.armed == Closed && b.log == a.log && b.response == a.response && b.accepted == a.accepted
    requires b.sent == a.sent && b.appended == a.appended
    ensures Inv(f, b)
  {
    assert forall i :: 0 <= i < |a.log| ==> AllUsed(f, b.log[..i]) + b.log[i].text <= b.appended;
  }

  lemma AnsweredInOrder(f: Server, a: Snap, e: Exchange, b: Snap)
    requires InOrder(f, a) && |a.accepted| == |a.response|
    requires b.log == a.log + [e] && b.sent == a.sent && b.accepted == "" && b.response == f(e.text, e.w).message
    ensures InOrder(f, b)
  {
    WholeLog(f, a);
    assert b.log[..|b.log| - 1] == a.log;
    assert a.sent == Replies(f, a.log) + "";
  }

  lemma ProcessedKeeps(f: Server, a: Snap, w: World, b: Snap)
    requires LeavesEnd(f) && Core(f, a) && a.armed != Closed && a.toWrite == 0
    requires Processed(f, a, w, b)
    ensures Inv(f, b)
  {
    if a.inbox == "" {
      SameLogWaits(f, a, b);
    } else {
      AnsweredKeeps(f, a, w, b);
    }
  }

  lemma SameLogWaits(f: Server, a: Snap, b: Snap)
    requires Core(f, a) && a.armed != Closed && a.toWrite == 0 && a.inbox == ""
    requires b == a.(armed := b.armed)
    ensures Inv(f, b)
  {
    assert InOrder(f, b);
    assert forall i :: 0 <= i < |a.log| ==> AllUsed(f, b.log[..i]) + b.log[i].text <= b.appended;
  }

  lemma InKeeps(f: Server, isET: bool, a: Snap, w: World, rs: seq<OneRead>, ret: int, err: Option<Errno>, b: Snap)
    requires LeavesEnd(f) && Inv(f, a) && a.armed == In
    requires HandledIn(f, isET, a, w, rs, ret, err, b)
    ensures Inv(f, b)
  {
    var m := HasRead(a, rs);
    Reassociate(AllUsed(f, a.log), a.inbox, AllKept(rs));
    forall i | 0 <= i < |a.log|
      ensures AllUsed(f, m.log[..i]) + m.log[i].text <= m.appended
    {
      assert AllUsed(f, a.log[..i]) + a.log[i].text <= a.appended <= m.appended;
    }
    if ret > 0 { ProcessedKeeps(f, m, w, b); }
  }

  lemma HasWrittenKeeps(f: Server, a: Snap, chunk: string, counts: seq<int>, outShape: Shape)
    requires Core(f, a) && a.armed == Out && |chunk| <= a.toWrite && a.accepted + chunk <= a.response
    ensures Core(f, HasWritten(a, chunk, counts, outShape))
  {
    var m := HasWritten(a, chunk, counts, outShape);
    if a.log != [] {
      Reassociate(Replies(f, a.log[..|a.log| - 1]), a.accepted, chunk);
    }
    assert forall i :: 0 <= i < |a.log| ==> AllUsed(f, m.log[..i]) + m.log[i].text <= m.appended;
  }

  lemma OutKeeps(f: Server, isET: bool, a: Snap, w: World, chunk: string, counts: seq<int>,
                 ret: int, err: Option<Errno>, outShape: Shape, b: Snap)
    requires LeavesEnd(f) && Inv(f, a) && a.armed == Out
    requires HandledOut(f, isET, a, w, chunk, counts, ret, err, outShape, b)
    ensures Inv(f, b)
  {
    var m := HasWritten(a, chunk, counts, outShape);
    HasWrittenKeeps(f, a, chunk, counts, outShape);
    if m.toWrite == 0 && a.keepAlive { ProcessedKeeps(f, m, w, b); }
  }

  lemma HandledKeeps(f: Server, isET: bool, a: Snap, event: Armed, w: World, input: string, b: Snap)
    requires LeavesEnd(f) && Inv(f, a) && Handled(f, isET, a, event, w, input, b)
    ensures Inv(f, b)
  {
    if event == a.armed && event == In {
      var rs, ret, err :| HandledIn(f, isET, a, w, rs, ret, err, b) && input == AllKept(rs);
      InKeeps(f, isET, a, w, rs, ret, err, b);
    } else if event == a.armed && event == Out {
      var chunk, counts, ret, err, sh :| HandledOut(f, isET, a, w, chunk, counts, ret, err, sh, b);
      OutKeeps(f, isET, a, w, chunk, counts, ret, err, sh, b);
    }
  }

  // In every run what has been sent is whole replies, each to a request taken from the
  // stream in order, and a first part of the last.
  lemma {:induction false} RunKeeps(f: Server, isET: bool, events: seq<Event>, trace: seq<Snap>, inputs: seq<string>, i: nat)
    requires LeavesEnd(f) && Run(f, isET, events, trace, inputs) && Inv(f, trace[0]) && i < |trace|
    ensures Inv(f, trace[i])
  {
    if i > 0 {
      RunKeeps(f, isET, events, trace, inputs, i - 1);
      EventKeeps(f, isET, events, trace, inputs, i - 1);
    }
  }

  lemma EventKeeps(f: Server, isET: bool, events: seq<Event>, trace: seq<Snap>, inputs: seq<string>, i: nat)
    requires LeavesEnd(f) && Run(f, isET, events, trace, inputs) && i < |events| && Inv(f, trace[i])
    ensures Inv(f, trace[i + 1])
  {
    HandledKeeps(f, isET, trace[i], events[i].kind, events[i].w, inputs[i], trace[i + 1]);
  }

  lemma RunOn(f: Server, isET: bool, events: seq<Event>, trace: seq<Snap>, inputs: seq<string>, i: nat, b: Snap, input: string)
    requires i < |events| && |trace| == i + 1 && |inputs| == i && Run(f, isET, events[..i], trace, inputs)
    requires Handled(f, isET, trace[i], events[i].kind, events[i].w, input, b)
    ensures Run(f, isET, events[..i + 1], trace + [b], inputs + [input])
  {
    var es, ts, ins := events[..i + 1], trace + [b], inputs + [input];
    forall j | 0 <= j <= i
      ensures Handled(f, isET, ts[j], es[j].kind, es[j].w, ins[j], ts[j + 1])
    {
      if j < i {
        assert events[..i][j] == es[j] && ts[j] == trace[j] && ts[j + 1] == trace[j + 1] && ins[j] == inputs[j];
      }
    }
  }

  // A handler logs one request at most, with the world of its event.
  lemma HandledLogs(f: Server, isET: bool, a: Snap, event: Armed, w: World, input: string, b: Snap)
    requires Handled(f, isET, a, event, w, input, b)
    ensures forall e :: e in b.log ==> e in a.log || e.w == w
  {
    if event == a.armed && event == In {
      var rs, ret, err :| HandledIn(f, isET, a, w, rs, ret, err, b) && input == AllKept(rs);
      if ret > 0 { ProcessedLogs(f, HasRead(a, rs), w, b); }
    } else if event == a.armed && event == Out {
      var chunk, counts, ret, err, sh :| HandledOut(f, isET, a, w, chunk, counts, ret, err, sh, b);
      var m := HasWritten(a, chunk, counts, sh);
      if m.toWrite == 0 && a.keepAlive { ProcessedLogs(f, m, w, b); }
    }
  }

  lemma ProcessedLogs(f: Server, a: Snap, w: World, b: Snap)
    requires Processed(f, a, w, b)
    ensures forall e :: e in b.log ==> e in a.log || e.w == w
  {
  }

  lemma {:induction false} RunLogs(f: Server, isET: bool, events: seq<Event>, trace: seq<Snap>, inputs: seq<string>, i: nat, e: Exchange)
    requires Run(f, isET, events, trace, inputs) && i < |trace| && trace[0].log == [] && e in trace[i].log
    ensures exists j :: 0 <= j < i && e.w == events[j].w
  {
    HandledLogs(f, isET, trace[i - 1], events[i - 1].kind, events[i - 1].w, inputs[i - 1], trace[i]);
    if e.w != events[i - 1].w {
      RunLogs(f, isET, events, trace, inputs, i - 1, e);
    }
  }

  // ---------- When a connection is closed ----------

  // There is something to answer that cannot be: the parser runs past the end of a form, or
  // the write buffer cannot hold the head of the reply.
  predicate Stuck(f: Server, inbox: string, w: World, outShape: Shape) {
    inbox != "" && (!f(inbox, w).defined || f(inbox, w).fit(outShape).None?)
  }

  // The reply to `text` stands ready, and nothing of it has gone out.
  ghost predicate ReplyReady(f: Server, text: string, w: World, b: Snap) {
    var r := f(text, w);
    && b.armed == Out && b.inbox == r.rest && b.keepAlive == r.keepAlive
    && b.response == r.message && b.accepted == "" && b.toWrite == |r.message|
    && b.log != [] && b.log[|b.log| - 1] == Exchange(text, w)
  }

  // Nothing in the read buffer, and waiting for more.
  predicate Waiting(b: Snap) {
    b.armed == In && b.inbox == ""
  }

  lemma ProcessedCloses(f: Server, a: Snap, w: World, b: Snap)
    requires Processed(f, a, w, b)
    ensures b.armed == Closed <==> !w.armOk || Stuck(f, a.inbox, w, a.outShape)
    ensures b.armed != Closed ==> if a.inbox == "" then Waiting(b) else ReplyReady(f, a.inbox, w, b)
    ensures b.sent == a.sent
  {
  }

  // A read closes the connection exactly at its end, on an error, if epoll refuses, or if
  // what is there then cannot be answered; otherwise it leaves the reply ready.
  lemma InCloses(f: Server, isET: bool, a: Snap, w: World, rs: seq<OneRead>, ret: int, err: Option<Errno>, b: Snap)
    requires HandledIn(f, isET, a, w, rs, ret, err, b)
    ensures var text := a.inbox + AllKept(rs);
            && (b.armed == Closed <==> ret <= 0 || !w.armOk || Stuck(f, text, w, a.outShape))
            && (b.armed != Closed ==> if text == "" then Waiting(b) else ReplyReady(f, text, w, b))
            && b.sent == a.sent
  {
    if ret > 0 { ProcessedCloses(f, HasRead(a, rs), w, b); }
  }

  // A write closes it exactly if it fails other than by blocking with something left, or if
  // nothing is left and the connection is not kept, epoll refuses, or what is there cannot
  // be answered; otherwise it goes on writing, leaves the next reply ready, or waits.
  lemma OutCloses(f: Server, isET: bool, a: Snap, w: World, chunk: string, counts: seq<int>,
                  ret: int, err: Option<Errno>, outShape: Shape, b: Snap)
    requires a.armed == Out && HandledOut(f, isET, a, w, chunk, counts, ret, err, outShape, b)
    ensures b.armed == Closed <==>
            if |chunk| < a.toWrite then ret < 0 && err != Some(EAGAIN)
            else !a.keepAlive || !w.armOk || Stuck(f, a.inbox, w, outShape)
    ensures b.armed != Closed ==>
              if |chunk| < a.toWrite
              then && b.armed == Out && b.response == a.response && b.accepted == a.accepted + chunk
                   && b.toWrite == a.toWrite - |chunk| && b.inbox == a.inbox && b.keepAlive == a.keepAlive && b.log == a.log
              else if a.inbox == "" then Waiting(b) else ReplyReady(f, a.inbox, w, b)
    ensures b.sent == a.sent + chunk
  {
    var m := HasWritten(a, chunk, counts, outShape);
    if m.toWrite == 0 && a.keepAlive { ProcessedCloses(f, m, w, b); }
  }

  // A reply that stands ready goes out whole when the kernel has accepted as much as is
  // left, however many writes that takes: what is accepted is always its next part.
  lemma {:induction false} WritesReply(f: Server, isET: bool, events: seq<Event>, trace: seq<Snap>, inputs: seq<string>, i: nat)
    requires LeavesEnd(f) && Run(f, isET, events, trace, inputs) && Inv(f, trace[0]) && trace[0].armed == Out
    requires i < |trace| && forall j :: 0 <= j < i ==> trace[j].armed == Out && trace[j].toWrite > 0 && trace[j].log == trace[0].log
    requires trace[i].log == trace[0].log
    ensures trace[i].response == trace[0].response && trace[i].accepted <= trace[i].response
    ensures trace[i].sent + trace[i].response[|trace[i].accepted|..] ==
            trace[0].sent + trace[0].response[|trace[0].accepted|..]
  {
    RunKeeps(f, isET, events, trace, inputs, i);
    RunKeeps(f, isET, events, trace, inputs, 0);
    if trace[0].log == [] {
    } else {
      var n := |trace[0].log| - 1;
      var all := Replies(f, trace[0].log[..n]);
      SentAndLeft(all, trace[0].accepted, trace[0].response);
      SentAndLeft(all, trace[i].accepted, trace[i].response);
    }
  }

  lemma SentAndLeft(all: string, accepted: string, response: string)
    requires accepted <= response
    ensures all + accepted + response[|accepted|..] == all + response
  {
    assert accepted + response[|accepted|..] == response;
    Reassociate(all, accepted, response[|accepted|..]);
  }

  // A reply on its way: its first part has gone out behind what was sent before.
  ghost predicate Sending(before: string, reply: string, b: Snap) {
    && b.armed == Out && b.inbox == "" && b.response == reply && b.accepted <= reply
    && b.toWrite == |reply| - |b.accepted| > 0 && b.sent == before + b.accepted
  }

  // One event while it is on its way: it goes on, is complete, or the connection is closed.
  lemma SendsOn(f: Server, isET: bool, before: string, reply: string, a: Snap, event: Armed, w: World, input: string, b: Snap)
    requires Sending(before, reply, a) && Handled(f, isET, a, event, w, input, b)
    ensures b.sent <= before + reply && |b.sent| >= |a.sent|
    ensures |b.sent| < |before| + |reply| ==> b.armed == Closed || Sending(before, reply, b)
    ensures |b.sent| == |before| + |reply| ==> b.sent == before + reply && (b.armed == Closed || Waiting(b))
    ensures |b.sent| == |before| + |reply| && a.keepAlive && w.armOk ==> Waiting(b)
    ensures Sending(before, reply, b) ==> b.keepAlive == a.keepAlive
  {
    assert before + a.accepted <= before + reply;
    if event == Out {
      var chunk, counts, ret, err, sh :| HandledOut(f, isET, a, w, chunk, counts, ret, err, sh, b);
      OutCloses(f, isET, a, w, chunk, counts, ret, err, sh, b);
      Reassociate(before, a.accepted, chunk);
      assert a.accepted + chunk <= reply;
      assert before + (a.accepted + chunk) <= before + reply;
    }
  }

  // In every run a reply that stands ready goes out from its first byte to its last, however
  // many writes that takes, unless the connection is closed on the way; then, if it is kept,
  // it waits for more.
  lemma {:induction false} ReplyGoesOut(f: Server, isET: bool, events: seq<Event>, trace: seq<Snap>, inputs: seq<string>,
                                        i: nat, text: string, w: World)
    requires Run(f, isET, events, trace, inputs) && i < |trace| && ReplyReady(f, text, w, trace[0])
    requires f(text, w).rest == "" && f(text, w).message != ""
    requires forall j :: 0 <= j < i ==>
               trace[j].armed != Closed && |trace[j].sent| < |trace[0].sent| + |f(text, w).message|
    ensures var reply := f(text, w).message;
            && trace[0].sent <= trace[i].sent <= trace[0].sent + reply
            && (|trace[i].sent| < |trace[0].sent| + |reply| ==>
                  trace[i].armed == Closed
                  || (Sending(trace[0].sent, reply, trace[i]) && trace[i].keepAlive == trace[0].keepAlive))
            && (|trace[i].sent| == |trace[0].sent| + |reply| ==>
                  trace[i].sent == trace[0].sent + reply && (trace[i].armed == Closed || Waiting(trace[i])))
    ensures (i > 0 && |trace[i].sent| == |trace[0].sent| + |f(text, w).message|
             && trace[0].keepAlive && events[i - 1].w.armOk) ==> Waiting(trace[i])
  {
    if i > 0 {
      ReplyGoesOut(f, isET, events, trace, inputs, i - 1, text, w);
      SendsOn(f, isET, trace[0].sent, f(text, w).message, trace[i - 1], events[i - 1].kind, events[i - 1].w, inputs[i - 1], trace[i]);
    }
  }

  // ---------- How many answers ----------

  // The answer to a text is defined, leaves the same, and keeps the connection, whatever
  // the world says; and a connection is kept only if something was taken.
  ghost predicate Steady(f: Server) {
    && (forall t, w, x :: f(t, w).defined == f(t, x).defined && f(t, w).rest == f(t, x).rest
                          && f(t, w).keepAlive == f(t, x).keepAlive)
    && (forall t, w :: f(t, w).keepAlive ==> |f(t, w).rest| < |t|)
  }

  // The texts that are answered one after the other when nothing more is read.
  function Rounds(f: Server, text: string, w: World): seq<string>
    decreases |text|
  {
    if text == "" || !f(text, w).defined then []
    else
      var r := f(text, w);
      [text] + if r.keepAlive && |r.rest| < |text| then Rounds(f, r.rest, w) else []
  }

  lemma {:induction false} RoundsSame(f: Server, text: string, w: World, x: World)
    requires Steady(f)
    ensures Rounds(f, text, w) == Rounds(f, text, x)
    decreases |text|
  {
    if text != "" && f(text, w).defined && f(text, w).keepAlive {
      RoundsSame(f, f(text, w).rest, w, x);
    }
  }

  function Texts(log: seq<Exchange>): seq<string> {
    seq(|log|, i requires 0 <= i < |log| => log[i].text)
  }

  // The texts that are still to be answered.
  function Left(f: Server, s: Snap, w: World): seq<string> {
    if s.armed == Out && s.keepAlive then Rounds(f, s.inbox, w) else []
  }

  // Answering moves one text from those left to those answered.
  lemma ProcessedAnswers(f: Server, a: Snap, w: World, b: Snap, x: World)
    requires Steady(f) && Processed(f, a, w, b) && b.armed != Closed
    ensures Texts(b.log) + Left(f, b, x) == Texts(a.log) + Rounds(f, a.inbox, x)
  {
    if a.inbox != "" {
      assert Texts(b.log) == Texts(a.log) + [a.inbox];
      assert f(a.inbox, w).defined == f(a.inbox, x).defined && f(a.inbox, w).rest == f(a.inbox, x).rest;
      assert f(a.inbox, w).keepAlive == f(a.inbox, x).keepAlive;
      assert Rounds(f, a.inbox, x) == [a.inbox] + Left(f, b, x);
    }
  }

  lemma InAnswers(f: Server, isET: bool, a: Snap, w: World, rs: seq<OneRead>, ret: int, err: Option<Errno>, b: Snap, x: World)
    requires Steady(f) && a.inbox == "" && HandledIn(f, isET, a, w, rs, ret, err, b) && b.armed != Closed
    ensures Texts(b.log) + Left(f, b, x) == Texts(a.log) + Rounds(f, AllKept(rs), x)
  {
    assert "" + AllKept(rs) == AllKept(rs);
    ProcessedAnswers(f, HasRead(a, rs), w, b, x);
  }

  lemma OutAnswers(f: Server, isET: bool, a: Snap, w: World, chunk: string, counts: seq<int>,
                   ret: int, err: Option<Errno>, outShape: Shape, b: Snap, x: World)
    requires Steady(f) && a.armed == Out && HandledOut(f, isET, a, w, chunk, counts, ret, err, outShape, b)
    requires b.armed != Closed
    ensures Texts(b.log) + Left(f, b, x) == Texts(a.log) + Left(f, a, x)
  {
    var m := HasWritten(a, chunk, counts, outShape);
    if m.toWrite == 0 {
      ProcessedAnswers(f, m, w, b, x);
    }
  }

  // While the connection stays open, an event answers nothing beyond what its input brings.
  lemma HandledAnswers(f: Server, isET: bool, a: Snap, event: Armed, w: World, input: string, b: Snap, x: World)
    requires Steady(f) && Inv(f, a) && Handled(f, isET, a, event, w, input, b) && b.armed != Closed
    ensures Texts(b.log) + Left(f, b, x) == Texts(a.log) + Left(f, a, x) + Rounds(f, input, x)
  {
    if event == a.armed && event == In {
      var rs, ret, err :| HandledIn(f, isET, a, w, rs, ret, err, b) && input == AllKept(rs);
      InAnswers(f, isET, a, w, rs, ret, err, b, x);
      assert Texts(a.log) + [] == Texts(a.log);
    } else {
      if event == a.armed && event == Out {
        var chunk, counts, ret, err, sh :| HandledOut(f, isET, a, w, chunk, counts, ret, err, sh, b);
        OutAnswers(f, isET, a, w, chunk, counts, ret, err, sh, b, x);
      }
      assert Texts(a.log) + Left(f, a, x) + [] == Texts(a.log) + Left(f, a, x);
    }
  }

  function AllRounds(f: Server, inputs: seq<string>, w: World): seq<string> {
    if inputs == [] then [] else AllRounds(f, inputs[..|inputs| - 1], w) + Rounds(f, inputs[|inputs| - 1], w)
  }

  // In every run in which the connection stays open, the texts answered and those left are
  // what each input, for itself, comes to: the replies do not depend on how the requests
  // of the peer are spread over the reads, but on the reads alone.
  lemma {:induction false} RunAnswers(f: Server, isET: bool, events: seq<Event>, trace: seq<Snap>, inputs: seq<string>, i: nat, x: World)
    requires LeavesEnd(f) && Steady(f) && Run(f, isET, events, trace, inputs) && Inv(f, trace[0]) && i < |trace|
    requires forall j :: 0 <= j <= i ==> trace[j].armed != Closed
    ensures Texts(trace[i].log) + Left(f, trace[i], x) ==
            Texts(trace[0].log) + Left(f, trace[0], x) + AllRounds(f, inputs[..i], x)
  {
    if i == 0 {
      assert Texts(trace[0].log) + Left(f, trace[0], x) + [] == Texts(trace[0].log) + Left(f, trace[0], x);
    } else {
      RunAnswers(f, isET, events, trace, inputs, i - 1, x);
      EventAnswers(f, isET, events, trace, inputs, i - 1, x);
      assert inputs[..i][..i - 1] == inputs[..i - 1];
      Concat3(Texts(trace[0].log) + Left(f, trace[0], x), AllRounds(f, inputs[..i - 1], x), Rounds(f, inputs[i - 1], x));
    }
  }

  lemma EventAnswers(f: Server, isET: bool, events: seq<Event>, trace: seq<Snap>, inputs: seq<string>, i: nat, x: World)
    requires LeavesEnd(f) && Steady(f) && Run(f, isET, events, trace, inputs) && Inv(f, trace[0]) && i < |events|
    requires trace[i + 1].armed != Closed
    ensures Texts(trace[i + 1].log) + Left(f, trace[i + 1], x) ==
            Texts(trace[i].log) + Left(f, trace[i], x) + Rounds(f, inputs[i], x)
  {
    RunKeeps(f, isET, events, trace, inputs, i);
    HandledAnswers(f, isET, trace[i], events[i].kind, events[i].w, inputs[i], trace[i + 1], x);
  }

  lemma Concat3(a: seq<string>, b: seq<string>, c: seq<string>)
    ensures a + b + c == a + (b + c)
  {
  }

  function NonEmpty(inputs: seq<string>): seq<string> {
    if inputs == [] then []
    else NonEmpty(inputs[..|inputs| - 1]) + if inputs[|inputs| - 1] == "" then [] else [inputs[|inputs| - 1]]
  }

  lemma {:induction false} OnlyNonEmpty(f: Server, inputs: seq<string>, w: World)
    ensures AllRounds(f, NonEmpty(inputs), w) == AllRounds(f, inputs, w)
  {
    if inputs != [] {
      var n := |inputs| - 1;
      var init := NonEmpty(inputs[..n]);
      OnlyNonEmpty(f, inputs[..n], w);
      if inputs[n] == "" {
        assert AllRounds(f, inputs[..n], w) + [] == AllRounds(f, inputs[..n], w);
        assert init + [] == init;
      } else {
        assert (init + [inputs[n]])[..|init|] == init;
      }
    }
  }
}
