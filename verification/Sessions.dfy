// The handlers onRead, onProcess and onWrite of src/core/server.cpp over Conn, Request and
// Response, as the state machine of Serving; and what they answer to printed requests.
module Sessions {
  import opened Prelude
  import opened Buffers
  import opened ConnIo
  import opened Requests
  import opened Responses
  import opened Serving
  import Forms
  import ReplyTexts

  const NO_STAT: FileStat := FileStat(false, false, 0)

  function ReplyOf(dir: string, p: Parsed, disk: Disk): (r: Reply)
    ensures r.code >= 0
  {
    var ok := p.outcome == Accepted;
    ReplyTo(disk, dir, p.fields.path, ok && KeepAlive(p.fields), if ok then 200 else 400, NO_STAT)
  }

  // What is made of a text: it is parsed, and MakeResponse replies.
  function AnswerTo(dir: string, text: string, w: World): Answer {
    AnswerBelow(3, dir, text, w)
  }

  // The definition stands `depth` levels down, where a proof does not unfold it by itself.
  function AnswerBelow(depth: nat, dir: string, text: string, w: World): Answer {
    if depth > 0 then AnswerBelow(depth - 1, dir, text, w)
    else
      var p := ParseText(EMPTY, text, w.verify);
      var r := ReplyOf(dir, p, w.disk);
      Answer(p.outcome != Undefined, Message(r), p.rest, KeepAlive(p.fields),
             sh => if ShapeOk(sh) then AppendAll(sh, Pieces(r), w.appending, 0) else None)
  }

  lemma AnswerIs(dir: string, text: string, w: World)
    ensures var p := ParseText(EMPTY, text, w.verify);
            var r, a := ReplyOf(dir, p, w.disk), ServerOf(dir)(text, w);
            && a.defined == (p.outcome != Undefined) && a.message == Message(r) && a.rest == p.rest
            && a.keepAlive == KeepAlive(p.fields)
            && forall sh :: ShapeOk(sh) ==> a.fit(sh) == AppendAll(sh, Pieces(r), w.appending, 0)
  {
    assert AnswerBelow(3, dir, text, w) == AnswerBelow(2, dir, text, w);
    assert AnswerBelow(2, dir, text, w) == AnswerBelow(1, dir, text, w);
    assert AnswerBelow(1, dir, text, w) == AnswerBelow(0, dir, text, w);
  }

  function ServerOf(dir: string): Server {
    (text: string, w: World) => AnswerTo(dir, text, w)
  }

  // ---------- Its laws ----------

  // Parsing takes a first part of the text.
  lemma {:induction false} RestIsEnd(r: Fields, text: string, verify: Verify)
    ensures var rest := ParseText(r, text, verify).rest;
            |rest| <= |text| && rest == text[|text| - |rest|..]
    decreases |text|
  {
    if text != "" && r.state != FINISH {
      ParseStep(r, text, verify);
      var e := FindCrlf(text);
      var n := Line(r, text[..e], |text|, verify);
      if n.outcome == Accepted && e < |text| {
        RestIsEnd(n.fields, text[e + 2..], verify);
        EndOfEnd(text, e + 2, ParseText(n.fields, text[e + 2..], verify).rest);
      }
    }
  }

  lemma EndOfEnd(text: string, k: nat, rest: string)
    requires k <= |text| && |rest| <= |text| - k && rest == text[k..][|text| - k - |rest|..]
    ensures rest == text[|text| - |rest|..]
  {
  }

  lemma ServerLeavesEnd(dir: string)
    ensures LeavesEnd(ServerOf(dir))
  {
    forall t: string, w: World
      ensures var rest := ServerOf(dir)(t, w).rest; |rest| <= |t| && rest == t[|t| - |rest|..]
    {
      AnswerIs(dir, t, w);
      RestIsEnd(EMPTY, t, w.verify);
    }
  }

  // The results that the database has no say in.
  predicate Alike(a: Parsed, b: Parsed) {
    a.outcome == b.outcome && a.rest == b.rest && KeepAlive(a.fields) == KeepAlive(b.fields)
  }

  lemma PostedAlike(r: Fields, v: Verify, x: Verify)
    ensures Posted(r, v).Some? == Posted(r, x).Some?
    ensures Posted(r, v).Some? ==> KeepAlive(Posted(r, v).value) == KeepAlive(Posted(r, x).value)
    ensures Posted(r, v).Some? ==> KeepAlive(Posted(r, v).value) == KeepAlive(r)
    ensures Posted(r, v).Some? ==> Posted(r, v).value.state == r.state
  {
    PostedKeepsState(r, v);
    assert CONTENT_TYPE[1] == 'o' && CONTENT_TYPE[3] == 't' && "Connection"[3] == 'n';
  }

  lemma {:induction false} ParsedAlike(r: Fields, text: string, v: Verify, x: Verify)
    ensures Alike(ParseText(r, text, v), ParseText(r, text, x))
    decreases |text|
  {
    if text != "" && r.state != FINISH {
      var e := FindCrlf(text);
      ParseStep(r, text, v);
      ParseStep(r, text, x);
      if r.state == BODY {
        PostedAlike(r.(body := text[..e]), v, x);
      } else if Line(r, text[..e], |text|, v).outcome == Accepted && e < |text| {
        ParsedAlike(Line(r, text[..e], |text|, v).fields, text[e + 2..], v, x);
      }
    }
  }

  // A connection is kept only for a request of which at least the first line was taken.
  lemma KeepAliveTakes(text: string, v: Verify)
    ensures KeepAlive(ParseText(EMPTY, text, v).fields) ==> |ParseText(EMPTY, text, v).rest| < |text|
  {
    if text != "" {
      ParseStep(EMPTY, text, v);
      var e := FindCrlf(text);
      StartRefuses(text[..e], |text|, v);
      if ParseRequestLine(text[..e]).Some? && e < |text| {
        RestIsEnd(Line(EMPTY, text[..e], |text|, v).fields, text[e + 2..], v);
      }
    }
  }

  lemma ServerIsSteady(dir: string)
    ensures Steady(ServerOf(dir))
  {
    forall t: string, w: World, x: World
      ensures var a, b := ServerOf(dir)(t, w), ServerOf(dir)(t, x);
              a.defined == b.defined && a.rest == b.rest && a.keepAlive == b.keepAlive
    {
      AnswerIs(dir, t, w);
      AnswerIs(dir, t, x);
      ParsedAlike(EMPTY, t, w.verify, x.verify);
    }
    forall t: string, w: World
      ensures ServerOf(dir)(t, w).keepAlive ==> |ServerOf(dir)(t, w).rest| < |t|
    {
      AnswerIs(dir, t, w);
      KeepAliveTakes(t, w.verify);
    }
  }

  // The reply is its head, which is not empty, and the bytes of its file.
  lemma HeadOf(dir: string, text: string, w: World)
    requires MappingsSuffice(w.disk)
    ensures var r, a := ReplyOf(dir, ParseText(EMPTY, text, w.verify), w.disk), ServerOf(dir)(text, w);
            && a.message == Flatten(Pieces(r)) + FileBytes(r) && Flatten(Pieces(r)) != ""
            && (r.file.Some? ==> 0 < r.stat.size <= |r.file.value|)
            && forall sh :: ShapeOk(sh) ==> a.fit(sh) == AppendAll(sh, Pieces(r), w.appending, 0)
  {
    AnswerIs(dir, text, w);
    MessageFrames(ReplyOf(dir, ParseText(EMPTY, text, w.verify), w.disk));
  }

  // A reply is framed unless the mapping it sends from is shorter than stat said.
  lemma AnswerFramed(dir: string, text: string, w: World)
    requires MappingsSuffice(w.disk)
    ensures Framed(ServerOf(dir)(text, w).message)
  {
    AnswerIs(dir, text, w);
    MessageFrames(ReplyOf(dir, ParseText(EMPTY, text, w.verify), w.disk));
  }

  // ---------- Answers to printed requests ----------

  datatype Printed = Printed(m: string, target: string, v: string, hs: Headers, body: string)

  function Text(q: Printed): string {
    Print(q.m, q.target, q.v, q.hs, q.body)
  }

  ghost predicate CanPrint(q: Printed) {
    Printable(q.m, q.target, q.v, q.hs, q.body)
  }

  // Does the request ask for the connection to be kept?
  predicate KeepsOpen(q: Printed) {
    var h := Collect(map[], q.hs);
    "Connection" in h && h["Connection"] == "keep-alive" && q.v == "1.1"
  }

  // The decoder runs past the end of its body.
  predicate RunsPast(q: Printed) {
    q.body != "" && IsForm(q.m, Collect(map[], q.hs)) && Forms.RunsOver(q.body)
  }

  function FieldsOf(q: Printed): Fields {
    Fields(HEADERS, q.m, ServedPath(q.target), q.v, "", Collect(map[], q.hs), map[])
  }

  lemma WithBodyAnswer(q: Printed, verify: Verify)
    ensures var p := WithBody(FieldsOf(q), q.body, verify);
            && (p.outcome == Undefined <==> RunsPast(q)) && p.outcome != Refused && p.rest == q.body
            && (!RunsPast(q) ==> (KeepAlive(p.fields) <==> KeepsOpen(q)))
  {
    if q.body != "" {
      var r := FieldsOf(q).(state := BODY, body := q.body);
      Forms.DefinedExact("", q.body, "", map[]);
      PostedAlike(r, verify, verify);
    }
  }

  lemma PrintedAnswer(dir: string, q: Printed, w: World)
    requires CanPrint(q)
    ensures var a := ServerOf(dir)(Text(q), w);
            && (a.defined <==> !RunsPast(q)) && a.rest == q.body
            && (a.defined ==> (a.keepAlive <==> KeepsOpen(q)))
  {
    AnswerIs(dir, Text(q), w);
    RoundTrip(q.m, q.target, q.v, q.hs, q.body, w.verify);
    WithBodyAnswer(q, w.verify);
  }

  // One line by itself is answered once, whatever it is.
  lemma LineAnsweredOnce(dir: string, line: string, w: World)
    requires line != "" && '\n' !in line
    ensures Rounds(ServerOf(dir), line, w) == [line]
  {
    AnswerIs(dir, line, w);
    FindCrlfNone(line);
    assert line[..|line|] == line;
    ParseStep(EMPTY, line, w.verify);
    StartRefuses(line, |line|, w.verify);
    assert ServerOf(dir)(line, w).defined && !ServerOf(dir)(line, w).keepAlive;
  }

  // How often a text is answered, from what is made of it.
  lemma RoundsOf(f: Server, text: string, w: World)
    requires text != ""
    ensures !f(text, w).defined ==> Rounds(f, text, w) == []
    ensures f(text, w).defined && (!f(text, w).keepAlive || f(text, w).rest == "") ==> Rounds(f, text, w) == [text]
    ensures var rest := f(text, w).rest;
            f(text, w).defined && f(text, w).keepAlive && |rest| < |text| && Rounds(f, rest, w) == [rest] ==>
              Rounds(f, text, w) == [text, rest]
  {
    if f(text, w).rest == "" {
      assert Rounds(f, "", w) == [];
    }
  }

  // How often a request that arrives alone and whole is answered: once, unless the decoder
  // runs past the end of its form, and then not at all; and a second time, as if the body
  // were a request, if it has one and the connection is kept.
  lemma PrintedRounds(dir: string, q: Printed, w: World)
    requires CanPrint(q)
    ensures Rounds(ServerOf(dir), Text(q), w) ==
            if RunsPast(q) then [] else if q.body == "" || !KeepsOpen(q) then [Text(q)] else [Text(q), q.body]
  {
    PrintedAnswer(dir, q, w);
    TextIsLonger(q);
    if q.body != "" {
      LineAnsweredOnce(dir, q.body, w);
    }
    RoundsOf(ServerOf(dir), Text(q), w);
  }

  lemma TextIsLonger(q: Printed)
    ensures |Text(q)| > |q.body|
  {
    assert |RequestLine(q.m, q.target, q.v)| > 0;
  }

  // Exactly these requests are answered once.
  predicate AnsweredOnce(q: Printed) {
    !RunsPast(q) && (q.body == "" || !KeepsOpen(q))
  }

  lemma OnceExact(dir: string, q: Printed, w: World)
    requires CanPrint(q)
    ensures |Rounds(ServerOf(dir), Text(q), w)| == 1 <==> AnsweredOnce(q)
  {
    PrintedRounds(dir, q, w);
  }

  // Texts that are answered once each are answered one by one.
  lemma {:induction false} EachOnce(f: Server, texts: seq<string>, w: World)
    requires forall t :: t in texts ==> Rounds(f, t, w) == [t]
    ensures AllRounds(f, texts, w) == texts
  {
    if texts != [] {
      var n := |texts| - 1;
      assert texts[n] in texts;
      EachOnce(f, texts[..n], w);
      assert texts == texts[..n] + [texts[n]];
    }
  }

  function AllTexts(qs: seq<Printed>): (ts: seq<string>)
    ensures |ts| == |qs| && forall i :: 0 <= i < |qs| ==> ts[i] == Text(qs[i])
  {
    seq(|qs|, i requires 0 <= i < |qs| => Text(qs[i]))
  }

  // Requests that each fill one read are answered one by one.
  lemma OneReplyEach(dir: string, qs: seq<Printed>, w: World)
    requires forall q :: q in qs ==> CanPrint(q) && AnsweredOnce(q)
    ensures AllRounds(ServerOf(dir), AllTexts(qs), w) == AllTexts(qs)
  {
    forall t | t in AllTexts(qs)
      ensures Rounds(ServerOf(dir), t, w) == [t]
    {
      var i :| 0 <= i < |qs| && t == Text(qs[i]);
      PrintedRounds(dir, qs[i], w);
    }
    EachOnce(ServerOf(dir), AllTexts(qs), w);
  }

  // Over every run of a connection that stays open: if the reads bring these requests, one
  // each, then the requests answered and the one that is left are these requests, in order.
  lemma RequestsAnswered(dir: string, isET: bool, events: seq<Event>, trace: seq<Snap>, inputs: seq<string>, i: nat,
                         qs: seq<Printed>, w: World)
    requires Run(ServerOf(dir), isET, events, trace, inputs) && i < |trace|
    requires Inv(ServerOf(dir), trace[0]) && trace[0].log == []
    requires forall j :: 0 <= j <= i ==> trace[j].armed != Closed
    requires NonEmpty(inputs[..i]) == AllTexts(qs) && forall q :: q in qs ==> CanPrint(q) && AnsweredOnce(q)
    requires trace[0].armed == In
    ensures Texts(trace[i].log) + Left(ServerOf(dir), trace[i], w) == AllTexts(qs)
  {
    var f := ServerOf(dir);
    ServerLeavesEnd(dir);
    ServerIsSteady(dir);
    RunAnswers(f, isET, events, trace, inputs, i, w);
    OnlyNonEmpty(f, inputs[..i], w);
    OneReplyEach(dir, qs, w);
    assert Texts(trace[0].log) + Left(f, trace[0], w) + AllTexts(qs) == AllTexts(qs);
  }

  // What a run sends is framed replies, if no mapping is shorter than stat said.
  lemma RunFramed(dir: string, isET: bool, events: seq<Event>, trace: seq<Snap>, inputs: seq<string>, i: nat, e: Exchange)
    requires Run(ServerOf(dir), isET, events, trace, inputs) && i < |trace| && trace[0].log == [] && e in trace[i].log
    requires forall v :: v in events ==> MappingsSuffice(v.w.disk)
    ensures Framed(ServerOf(dir)(e.text, e.w).message)
  {
    RunLogs(ServerOf(dir), isET, events, trace, inputs, i, e);
    var j :| 0 <= j < i && e.w == events[j].w;
    assert events[j] in events;
    AnswerFramed(dir, e.text, e.w);
  }

  // ---------- From a request to its reply ----------

  // A waiting connection that reads one printed request, with memory and epoll willing, is
  // armed for output with the reply to that request ready.
  lemma RequestIsAnswered(dir: string, isET: bool, a: Snap, w: World, rs: seq<OneRead>, ret: int, err: Option<Errno>,
                          b: Snap, q: Printed)
    requires Inv(ServerOf(dir), a) && a.armed == In && ShapeOk(a.outShape)
    requires HandledIn(ServerOf(dir), isET, a, w, rs, ret, err, b)
    requires CanPrint(q) && !RunsPast(q) && ret > 0 && AllKept(rs) == Text(q)
    requires w.armOk && (forall i: nat :: w.appending(i)) && MappingsSuffice(w.disk)
    requires a.outShape.writePos + |ServerOf(dir)(Text(q), w).message| + 1 <= MAX_BYTES
    ensures b.armed == Out && b.response == ServerOf(dir)(Text(q), w).message && b.accepted == "" && b.toWrite == |b.response|
    ensures b.sent == a.sent && b.inbox == q.body && (b.keepAlive <==> KeepsOpen(q))
  {
    assert a.inbox + AllKept(rs) == Text(q);
    PrintedAnswer(dir, q, w);
    TextIsLonger(q);
    HasRoom(dir, Text(q), w, a.outShape);
    InCloses(ServerOf(dir), isET, a, w, rs, ret, err, b);
  }

  lemma HasRoom(dir: string, text: string, w: World, sh: Shape)
    requires ShapeOk(sh) && (forall i: nat :: w.appending(i)) && MappingsSuffice(w.disk)
    requires sh.writePos + |ServerOf(dir)(text, w).message| + 1 <= MAX_BYTES
    ensures ServerOf(dir)(text, w).fit(sh).Some?
  {
    var r := ReplyOf(dir, ParseText(EMPTY, text, w.verify), w.disk);
    HeadOf(dir, text, w);
    FitsWith(sh, Pieces(r), w.appending, 0);
  }

  // A write that accepts all that is left of a reply completes it; the connection then ends,
  // or waits for the next request.
  lemma ReplyIsSent(dir: string, isET: bool, a: Snap, w: World, chunk: string, counts: seq<int>,
                    ret: int, err: Option<Errno>, outShape: Shape, b: Snap)
    requires Inv(ServerOf(dir), a) && a.armed == Out && a.accepted == ""
    requires HandledOut(ServerOf(dir), isET, a, w, chunk, counts, ret, err, outShape, b)
    requires |chunk| == a.toWrite
    ensures b.sent == a.sent + a.response
    ensures a.inbox == "" && w.armOk ==> (if a.keepAlive then Waiting(b) else b.armed == Closed)
  {
    OutCloses(ServerOf(dir), isET, a, w, chunk, counts, ret, err, outShape, b);
    assert chunk == a.response by {
      assert "" + chunk == chunk;
    }
  }

  // What a browser reads, of a file of n bytes.
  function PageOf(q: Printed, n: nat, mapped: string): string
    requires |mapped| >= n
  {
    ReplyTexts.Sent(ReplyTexts.StatusOf("200", "OK"), KeepsOpen(q), FileType(ServedPath(q.target)), n, mapped[..n])
  }

  // The reply to a printed request without a body whose file is there: what the peer gets.
  lemma PrintedReply(dir: string, q: Printed, w: World, n: nat, mapped: string)
    requires CanPrint(q) && q.body == ""
    requires var path := dir + ServedPath(q.target);
             && w.disk.stat(path) == Some(FileStat(false, true, n)) && n > 0
             && w.disk.mapping(path, n) == Some(mapped) && |mapped| >= n
    ensures ServerOf(dir)(Text(q), w).message == PageOf(q, n, mapped)
  {
    AnswerIs(dir, Text(q), w);
    RoundTrip(q.m, q.target, q.v, q.hs, q.body, w.verify);
    ReplyTexts.PageText(w.disk, dir, ServedPath(q.target), KeepsOpen(q), n, mapped);
  }

  // From accept to page.  In every run, after a read that brings a printed request without
  // a body for a file that is there, and does not close the connection, what the peer gets
  // is the page of that file, from its first byte on; and once as many bytes have gone out
  // as that has, it has gone out whole, and a connection that is kept waits for more.
  lemma PageIsServed(dir: string, isET: bool, events: seq<Event>, trace: seq<Snap>, inputs: seq<string>,
                     k: nat, q: Printed, n: nat, mapped: string)
    requires Run(ServerOf(dir), isET, events, trace, inputs) && 1 <= k < |trace|
    requires Waiting(trace[0]) && CanPrint(q) && q.body == "" && inputs[0] == Text(q)
    requires var disk, path := events[0].w.disk, dir + ServedPath(q.target);
             && disk.stat(path) == Some(FileStat(false, true, n)) && n > 0
             && disk.mapping(path, n) == Some(mapped) && |mapped| >= n
    requires forall j :: 1 <= j < k ==>
               trace[j].armed != Closed && |trace[j].sent| < |trace[0].sent| + |PageOf(q, n, mapped)|
    ensures trace[1].armed == Closed || (trace[1].armed == Out && trace[1].sent == trace[0].sent)
    ensures trace[1].armed != Closed ==>
              && trace[k].sent <= trace[0].sent + PageOf(q, n, mapped)
              && (|trace[k].sent| == |trace[0].sent| + |PageOf(q, n, mapped)| ==>
                    trace[k].sent == trace[0].sent + PageOf(q, n, mapped))
              && (|trace[k].sent| < |trace[0].sent| + |PageOf(q, n, mapped)| ==>
                    trace[k].armed == Closed || trace[k].armed == Out)
    ensures (1 < k && |trace[k].sent| == |trace[0].sent| + |PageOf(q, n, mapped)|
             && KeepsOpen(q) && events[k - 1].w.armOk) ==> Waiting(trace[k])
  {
    var f, w := ServerOf(dir), events[0].w;
    ReadIsAnswered(f, isET, events, trace, inputs);
    if trace[1].armed != Closed {
      PrintedReply(dir, q, w, n, mapped);
      PrintedAnswer(dir, q, w);
      assert Run(f, isET, events[1..], trace[1..], inputs[1..]);
      ReplyGoesOut(f, isET, events[1..], trace[1..], inputs[1..], k - 1, Text(q), w);
    }
  }

  // The first event of a run from a waiting state, if it brings something.
  lemma ReadIsAnswered(f: Server, isET: bool, events: seq<Event>, trace: seq<Snap>, inputs: seq<string>)
    requires Run(f, isET, events, trace, inputs) && events != [] && Waiting(trace[0]) && inputs[0] != ""
    ensures trace[1].armed == Closed || ReplyReady(f, inputs[0], events[0].w, trace[1])
    ensures trace[1].sent == trace[0].sent
  {
    assert Handled(f, isET, trace[0], events[0].kind, events[0].w, inputs[0], trace[1]);
    var rs, ret, err :| HandledIn(f, isET, trace[0], events[0].w, rs, ret, err, trace[1]) && inputs[0] == AllKept(rs);
    InCloses(f, isET, trace[0], events[0].w, rs, ret, err, trace[1]);
    assert "" + AllKept(rs) == AllKept(rs);
  }

  // A text whose first line is no request line, when there is a page for that.
  lemma BadRequestReply(dir: string, text: string, w: World, n: nat, mapped: string)
    requires text != "" && ParseRequestLine(text[..FindCrlf(text)]).None?
    requires ReplyTexts.Find(w.disk, dir + "") == ReplyTexts.NotFound
    requires w.disk.stat(dir + "/404.html").Some? && w.disk.stat(dir + "/404.html").value.size == n > 0
    requires w.disk.mapping(dir + "/404.html", n) == Some(mapped) && |mapped| >= n
    ensures ServerOf(dir)(text, w).message ==
            ReplyTexts.Sent(ReplyTexts.StatusOf("404", "Not Found"), false, "text/html", n, mapped[..n])
    ensures !ServerOf(dir)(text, w).keepAlive
  {
    AnswerIs(dir, text, w);
    FailsOnRequestLineOnly(text, w.verify);
    ReplyTexts.ErrorText(w.disk, dir, "", false, 400, n, mapped);
  }

  // ---------- A head in two reads ----------

  // The request line and the headers, without the empty line.
  function FirstPart(q: Printed): string {
    RequestLine(q.m, q.target, q.v) + "\r\n" + PrintHeaders(q.hs)
  }

  lemma {:induction false} HeadersAlone(r: Fields, hs: Headers, verify: Verify)
    requires r.state == HEADERS
    requires forall h :: h in hs ==> '\n' !in h.0 && '\n' !in h.1 && ':' !in h.0
    ensures ParseText(r, PrintHeaders(hs), verify) == Parsed(Accepted, r.(header := Collect(r.header, hs)), "")
    decreases |hs|
  {
    if hs != [] {
      var (name, value) := hs[0];
      assert hs[0] in hs;
      HeaderPrinted(name, " ", value);
      var n := r.(header := r.header[name := value]);
      TakeLine(r, HeaderLine(name, " ", value), PrintHeaders(hs[1..]), n, verify);
      HeadersAlone(n, hs[1..], verify);
    }
  }

  lemma FirstPartAnswer(dir: string, q: Printed, w: World)
    requires CanPrint(q)
    ensures var a := ServerOf(dir)(FirstPart(q), w); a.defined && a.rest == "" && (a.keepAlive <==> KeepsOpen(q))
  {
    AnswerIs(dir, FirstPart(q), w);
    var line := RequestLine(q.m, q.target, q.v);
    var n := Fields(HEADERS, q.m, ServedPath(q.target), q.v, "", map[], map[]);
    FirstLine(q.m, q.target, q.v, |line| + 2 + |PrintHeaders(q.hs)|, w.verify);
    NoNewline(q.m, q.target, q.v);
    TakeLine(EMPTY, line, PrintHeaders(q.hs), n, w.verify);
    HeadersAlone(n, q.hs, w.verify);
  }

  lemma EmptyLineAnswer(dir: string, w: World)
    ensures var a := ServerOf(dir)("\r\n", w); a.defined && !a.keepAlive
  {
    AnswerIs(dir, "\r\n", w);
    FindCrlfFirst("", "");
    assert "" + "\r\n" + "" == "\r\n" && "\r\n"[..0] == "";
    ParseStep(EMPTY, "\r\n", w.verify);
  }

  // A head that arrives in two reads is answered twice: its first part is taken for a whole
  // request, and the empty line for a bad one.  If the connection is not kept, the second
  // part is not read any more.
  lemma HeadInTwo(dir: string, q: Printed, w: World)
    requires CanPrint(q) && q.body == ""
    ensures Text(q) == FirstPart(q) + "\r\n"
    ensures AllRounds(ServerOf(dir), [Text(q)], w) == [Text(q)]
    ensures AllRounds(ServerOf(dir), [FirstPart(q), "\r\n"], w) == [FirstPart(q), "\r\n"]
    ensures ServerOf(dir)(FirstPart(q), w).keepAlive <==> KeepsOpen(q)
  {
    var f, first := ServerOf(dir), FirstPart(q);
    PrintedRounds(dir, q, w);
    FirstPartAnswer(dir, q, w);
    EmptyLineAnswer(dir, w);
    HeadSplits(q);
    RoundsOf(f, first, w);
    RoundsOf(f, "\r\n", w);
    EachOnce(f, [Text(q)], w);
    EachOnce(f, [first, "\r\n"], w);
  }

  lemma HeadSplits(q: Printed)
    requires q.body == ""
    ensures Text(q) == FirstPart(q) + "\r\n" && FirstPart(q) != ""
  {
    assert "\r\n" + "" == "\r\n";
    Reassociate(RequestLine(q.m, q.target, q.v) + "\r\n", PrintHeaders(q.hs), "\r\n");
    assert |RequestLine(q.m, q.target, q.v)| > 0;
  }

  // ---------- The object ----------

  class Session {
    const conn: Conn
    const request: Request
    const response: Response
    const staticDir: string
    var armed: Armed
    // The requests answered so far.
    ghost var log: seq<Exchange>

    ghost function Now(): Snap
      reads this, conn, conn.readBuff, conn.readBuff.data, conn.writeBuff, conn.writeBuff.data, conn.sock, request
      requires conn.readBuff.Valid()
    {
      Snap(armed, conn.readBuff.Contents(), conn.readBuff.appended, conn.readBuff.GetShape(),
           log, conn.response, conn.accepted, conn.ToWriteBytes(), conn.writeBuff.GetShape(), request.IsKeepAlive(),
           conn.sock.sent, conn.sock.taken, conn.sock.readResults, conn.sock.writeResults)
    }

    // The objects of a session are its own; while it is open they are as they should be.
    ghost predicate Objects()
      reads this, conn, conn.readBuff, conn.readBuff.data, conn.writeBuff, conn.writeBuff.data
    {
      && conn.readBuff != conn.writeBuff && conn.readBuff.data != conn.writeBuff.data
      && staticDir != "" && conn.readBuff.Valid()
      && (armed != Closed ==> conn.Valid())
    }

    ghost predicate Valid()
      reads this, conn, conn.readBuff, conn.readBuff.data, conn.writeBuff, conn.writeBuff.data, conn.sock, request
    {
      Objects() && Inv(ServerOf(staticDir), Now())
    }

    constructor (isET: bool, sock: Socket, staticDir: string)
      requires staticDir != "" && sock.sent == []
      ensures Started() && this.staticDir == staticDir
      ensures conn.isET == isET && conn.sock == sock
      ensures fresh(conn) && fresh(conn.readBuff) && fresh(conn.writeBuff) && fresh(request) && fresh(response)
      ensures fresh(conn.readBuff.data) && fresh(conn.writeBuff.data)
    {
      var readBuff := new Buffer(1024);
      var writeBuff := new Buffer(1024);
      conn := new Conn(isET, readBuff, writeBuff, sock);
      request := new Request();
      response := new Response(staticDir, "", false, -1);
      this.staticDir := staticDir;
      armed, log := In, [];
    }

    // Nothing has been read or sent.
    ghost predicate Started()
      reads this, conn, conn.readBuff, conn.readBuff.data, conn.writeBuff, conn.writeBuff.data, conn.sock
    {
      && Objects() && armed == In && log == []
      && conn.readBuff.Contents() == [] && conn.readBuff.appended == []
      && conn.response == [] && conn.accepted == [] && conn.ToWriteBytes() == 0 && conn.sock.sent == []
    }

    lemma StartsValid()
      requires Started()
      ensures Valid()
    {
      StartInv(ServerOf(staticDir), Now());
    }

    // Source: Process, its first half: take one request off the read buffer.
    method TakeRequest(w: World) returns (outcome: Requests.Outcome)
      requires conn.readBuff.Valid() && conn.readBuff.Contents() != []
      modifies request, conn.readBuff`readPos, conn.readBuff`retrieved
      ensures conn.readBuff.Valid()
      ensures var text := old(conn.readBuff.Contents());
              var a := ServerOf(staticDir)(text, w);
              && (outcome == Undefined <==> !a.defined)
              && (outcome != Undefined ==>
                    && Took(text, w.verify, outcome == Accepted)
                    && conn.readBuff.Contents() == a.rest && request.IsKeepAlive() == a.keepAlive)
    {
      AnswerIs(staticDir, conn.readBuff.Contents(), w);
      request.Init();
      outcome := request.Parse(conn.readBuff, w.verify);
    }

    // The request has been parsed from the text.
    ghost predicate Took(text: string, verify: Verify, ok: bool)
      reads request
    {
      var p := ParseText(EMPTY, text, verify);
      request.fields == p.fields && ok == (p.outcome == Accepted)
    }

    // Source: Process, its second half: the head of the reply to `text` goes into the write
    // buffer, if it can hold it, and the mapping into the response.
    method Build(ok: bool, w: World, ghost text: string) returns (st: Status, ghost head: string)
      requires conn.writeBuff.Valid() && staticDir != "" && MappingsSuffice(w.disk)
      requires Took(text, w.verify, ok)
      modifies response, conn.writeBuff, conn.writeBuff.data
      ensures conn.writeBuff.Valid()
      ensures conn.writeBuff.data == old(conn.writeBuff.data) || fresh(conn.writeBuff.data)
      ensures var a := ServerOf(staticDir)(text, w);
              (st == Done <==> a.fit(old(conn.writeBuff.GetShape())).Some?)
              && (st == Done ==>
                    && head != "" && conn.writeBuff.Contents() == old(conn.writeBuff.Contents()) + head
                    && (response.file.Some? ==> 0 < response.fileStat.size <= |response.file.value|)
                    && a.message == head + FileBytes(response.AsReply()))
    {
      ghost var r := ReplyOf(staticDir, ParseText(EMPTY, text, w.verify), w.disk);
      HeadOf(staticDir, text, w);
      head := Flatten(Pieces(r));
      st := Make(ok, w, r);
    }

    // The calls of the response.
    method Make(ok: bool, w: World, ghost r: Reply) returns (st: Status)
      requires conn.writeBuff.Valid() && staticDir != ""
      requires r == ReplyTo(w.disk, staticDir, request.fields.path, ok && request.IsKeepAlive(), if ok then 200 else 400, NO_STAT)
      modifies response, conn.writeBuff, conn.writeBuff.data
      ensures conn.writeBuff.Valid()
      ensures conn.writeBuff.data == old(conn.writeBuff.data) || fresh(conn.writeBuff.data)
      ensures match AppendAll(old(conn.writeBuff.GetShape()), Pieces(r), w.appending, 0)
              case Some(sh) =>
                && st == Done && response.AsReply() == r
                && conn.writeBuff.Contents() == old(conn.writeBuff.Contents()) + Flatten(Pieces(r))
              case None => st != Done
    {
      response.UnmapFile();
      response.Init(staticDir, request.fields.path, ok && request.IsKeepAlive(), if ok then 200 else 400);
      st := response.MakeResponse(conn.writeBuff, w.disk, w.appending);
    }

    // Source: onProcess.
    method OnProcess(w: World)
      requires Objects() && armed != Closed && conn.ToWriteBytes() == 0 && MappingsSuffice(w.disk)
      modifies this, conn, request, response, conn.readBuff, conn.writeBuff, conn.writeBuff.data
      ensures Objects() && Processed(ServerOf(staticDir), old(Now()), w, Now())
      ensures conn.readBuff.data == old(conn.readBuff.data)
      ensures conn.writeBuff.data == old(conn.writeBuff.data) || fresh(conn.writeBuff.data)
    {
      if conn.readBuff.ReadableBytes() == 0 {
        armed := if w.armOk then In else Closed;
        return;
      }
      var ok := Process(w);
      armed := if ok && w.armOk then Out else Closed;
    }

    // Source: Process, with something in the read buffer.
    method Process(w: World) returns (ok: bool)
      requires Objects() && armed != Closed && conn.readBuff.Contents() != []
      requires conn.ToWriteBytes() == 0 && MappingsSuffice(w.disk)
      modifies this`log, conn, request, response, conn.readBuff, conn.writeBuff, conn.writeBuff.data
      ensures conn.readBuff != conn.writeBuff && conn.readBuff.data != conn.writeBuff.data && conn.readBuff.Valid()
      ensures conn.readBuff.data == old(conn.readBuff.data) && conn.readBuff.appended == old(conn.readBuff.appended)
      ensures conn.writeBuff.data == old(conn.writeBuff.data) || fresh(conn.writeBuff.data)
      ensures var text := old(conn.readBuff.Contents());
              var a := ServerOf(staticDir)(text, w);
              if !a.defined || a.fit(old(conn.writeBuff.GetShape())).None?
              then !ok && log == old(log) && conn.response == old(conn.response) && conn.accepted == old(conn.accepted)
              else
                && ok && conn.Valid() && log == old(log) + [Exchange(text, w)]
                && conn.readBuff.Contents() == a.rest && request.IsKeepAlive() == a.keepAlive
                && conn.response == a.message && conn.accepted == [] && conn.ToWriteBytes() == |a.message|
    {
      ghost var text := conn.readBuff.Contents();
      conn.AllWritten();
      var outcome := TakeRequest(w);
      if outcome == Undefined {
        return false;  // nothing is known of what follows
      }
      ok := Respond(outcome == Accepted, w, text);
      if ok {
        log := log + [Exchange(text, w)];
      }
    }

    // Source: Process, its second half.  Nothing of an earlier response is left over, and so
    // the blocks cover the new one.
    method Respond(ok: bool, w: World, ghost text: string) returns (done: bool)
      requires conn.Valid() && conn.ToWriteBytes() == 0 && conn.writeBuff.Contents() == []
      requires staticDir != "" && MappingsSuffice(w.disk)
      requires Took(text, w.verify, ok)
      modifies response, conn, conn.writeBuff, conn.writeBuff.data
      ensures conn.writeBuff.data == old(conn.writeBuff.data) || fresh(conn.writeBuff.data)
      ensures var a := ServerOf(staticDir)(text, w);
              if a.fit(old(conn.writeBuff.GetShape())).None?
              then !done && conn.response == old(conn.response) && conn.accepted == old(conn.accepted)
              else
                && done && conn.Valid()
                && conn.response == a.message && conn.accepted == [] && conn.ToWriteBytes() == |a.message|
    {
      var st;
      ghost var head;
      st, head := Build(ok, w, text);
      if st != Done {
        return false;
      }
      assert [] + head == head;
      done := conn.SetUp(response.file, response.fileStat.size);
      conn.CoversAll();
    }

    // Source: onRead.
    method OnRead(w: World) returns (ghost rs: seq<OneRead>, ghost ret: int, ghost err: Option<Errno>)
      requires Objects() && armed == In && conn.ToWriteBytes() == 0 && MappingsSuffice(w.disk)
      modifies this, conn, request, response, conn.sock
      modifies conn.readBuff, conn.readBuff.data, conn.writeBuff, conn.writeBuff.data
      ensures Objects() && HandledIn(ServerOf(staticDir), conn.isET, old(Now()), w, rs, ret, err, Now())
      // It closes at the end of the stream, on an error, if epoll refuses, or if what is there
      // cannot be answered, and in no other case; with a text, its reply stands ready.
      ensures var text := old(conn.readBuff.Contents()) + AllKept(rs);
              && (armed == Closed <==>
                    ret <= 0 || !w.armOk || Stuck(ServerOf(staticDir), text, w, old(conn.writeBuff.GetShape())))
              && (armed != Closed && text != [] ==>
                    armed == Out && conn.response == ServerOf(staticDir)(text, w).message && conn.accepted == [])
              && conn.sock.sent == old(conn.sock.sent)
      ensures conn.readBuff.data == old(conn.readBuff.data) || fresh(conn.readBuff.data)
      ensures conn.writeBuff.data == old(conn.writeBuff.data) || fresh(conn.writeBuff.data)
    {
      rs, ret, err := ReadAndProcess(w);
      InCloses(ServerOf(staticDir), conn.isET, old(Now()), w, rs, ret, err, Now());
    }

    method ReadAndProcess(w: World) returns (ghost rs: seq<OneRead>, ghost ret: int, ghost err: Option<Errno>)
      requires Objects() && armed == In && conn.ToWriteBytes() == 0 && MappingsSuffice(w.disk)
      modifies this, conn, request, response, conn.sock
      modifies conn.readBuff, conn.readBuff.data, conn.writeBuff, conn.writeBuff.data
      ensures Objects() && HandledIn(ServerOf(staticDir), conn.isET, old(Now()), w, rs, ret, err, Now())
      ensures conn.readBuff.data == old(conn.readBuff.data) || fresh(conn.readBuff.data)
      ensures conn.writeBuff.data == old(conn.writeBuff.data) || fresh(conn.writeBuff.data)
    {
      var res, errno;
      res, errno, rs := Take(w);
      ret, err := res, errno;
      if res <= 0 {
        armed := Closed;
        return;
      }
      OnProcess(w);
    }

    // The call of Read in onRead.
    method Take(w: World) returns (ret: int, err: Option<Errno>, ghost rs: seq<OneRead>)
      requires Objects() && armed == In
      modifies conn.sock, conn.readBuff, conn.readBuff.data
      ensures Objects() && (conn.readBuff.data == old(conn.readBuff.data) || fresh(conn.readBuff.data))
      ensures ShapeOk(old(conn.readBuff.GetShape())) && Now() == HasRead(old(Now()), rs)
      ensures Logged(old(conn.readBuff.GetShape()), rs, w.reading) && Stops(conn.isET, rs)
      ensures OneReadOk(rs[|rs| - 1]) && Reports(rs, ret, err)
    {
      ret, err, rs := conn.Read(w.reading);
      assert conn.readBuff.appended == old(conn.readBuff.appended) + AllKept(rs) by {
        Reassociate(conn.readBuff.retrieved, old(conn.readBuff.Contents()), AllKept(rs));
      }
    }

    // Source: onWrite.
    method OnWrite(w: World)
      returns (ghost chunk: string, ghost counts: seq<int>, ghost ret: int, ghost err: Option<Errno>, ghost outShape: Shape)
      requires Objects() && armed == Out && MappingsSuffice(w.disk)
      modifies this, conn, request, response, conn.sock
      modifies conn.readBuff, conn.writeBuff, conn.writeBuff.data
      ensures Objects()
      ensures HandledOut(ServerOf(staticDir), conn.isET, old(Now()), w, chunk, counts, ret, err, outShape, Now())
      // It closes if something is left and the write failed other than by blocking; with the
      // reply gone out whole, if the connection is not kept, epoll refuses, or what is there
      // cannot be answered; and in no other case.
      ensures armed == Closed <==>
              if |chunk| < old(conn.ToWriteBytes()) then ret < 0 && err != Some(EAGAIN)
              else !old(request.IsKeepAlive()) || !w.armOk
                   || Stuck(ServerOf(staticDir), old(conn.readBuff.Contents()), w, outShape)
      ensures conn.sock.sent == old(conn.sock.sent) + chunk
      ensures conn.readBuff.data == old(conn.readBuff.data)
      ensures conn.writeBuff.data == old(conn.writeBuff.data) || fresh(conn.writeBuff.data)
    {
      var res, errno;
      res, errno, chunk, counts := Give();
      ret, err, outShape := res, errno, conn.writeBuff.GetShape();
      if conn.ToWriteBytes() == 0 {
        if request.IsKeepAlive() {
          OnProcess(w);
        } else {
          armed := Closed;
        }
      } else if res < 0 && errno != Some(EAGAIN) {
        armed := Closed;
      }
      // a registration for EPOLLOUT that fails is only logged
      OutCloses(ServerOf(staticDir), conn.isET, old(Now()), w, chunk, counts, ret, err, outShape, Now());
    }

    // The call of Write in onWrite.
    method Give() returns (ret: int, err: Option<Errno>, ghost chunk: string, ghost counts: seq<int>)
      requires Objects() && armed == Out
      modifies conn, conn.writeBuff, conn.writeBuff.data, conn.sock
      ensures Objects() && conn.writeBuff.data == old(conn.writeBuff.data)
      ensures Now() == HasWritten(old(Now()), chunk, counts, conn.writeBuff.GetShape())
      ensures |chunk| <= old(conn.ToWriteBytes()) && old(conn.accepted) + chunk <= conn.response
      ensures Attempts(conn.isET, old(conn.ToWriteBytes()), counts, conn.ToWriteBytes())
      ensures ConnIo.Outcome(counts, |chunk|, ret, err)
    {
      ret, err, chunk, counts := conn.Write();
      assert |chunk + conn.Pending()| == |chunk| + conn.ToWriteBytes();
    }

    // Any events, in any order; one that the descriptor is not armed for does not come.  The
    // states in between, and what the reads have put into the buffer, make a run.
    method Serve(events: seq<Event>) returns (ghost trace: seq<Snap>, ghost inputs: seq<string>)
      requires Valid() && forall e :: e in events ==> MappingsSuffice(e.w.disk)
      modifies this, conn, request, response, conn.sock
      modifies conn.readBuff, conn.readBuff.data, conn.writeBuff, conn.writeBuff.data
      ensures Valid()
      ensures Run(ServerOf(staticDir), conn.isET, events, trace, inputs)
      ensures trace[0] == old(Now()) && trace[|events|] == Now()
    {
      trace, inputs := [Now()], [];
      for i := 0 to |events|
        invariant Valid() && |trace| == i + 1 && |inputs| == i
        invariant Run(ServerOf(staticDir), conn.isET, events[..i], trace, inputs)
        invariant trace[0] == old(Now()) && trace[i] == Now()
        invariant conn.readBuff.data == old(conn.readBuff.data) || fresh(conn.readBuff.data)
        invariant conn.writeBuff.data == old(conn.writeBuff.data) || fresh(conn.writeBuff.data)
      {
        assert events[i] in events;
        ghost var input := Handle(events[i].kind, events[i].w);
        RunOn(ServerOf(staticDir), conn.isET, events, trace, inputs, i, Now(), input);
        trace, inputs := trace + [Now()], inputs + [input];
      }
      assert events[..|events|] == events;
    }

    // One event.
    method Handle(event: Armed, w: World) returns (ghost input: string)
      requires Valid() && MappingsSuffice(w.disk)
      modifies this, conn, request, response, conn.sock
      modifies conn.readBuff, conn.readBuff.data, conn.writeBuff, conn.writeBuff.data
      ensures Valid() && Handled(ServerOf(staticDir), conn.isET, old(Now()), event, w, input, Now())
      ensures conn.readBuff.data == old(conn.readBuff.data) || fresh(conn.readBuff.data)
      ensures conn.writeBuff.data == old(conn.writeBuff.data) || fresh(conn.writeBuff.data)
    {
      ghost var before := Now();
      input := Dispatch(event, w);
      ServerLeavesEnd(staticDir);
      HandledKeeps(ServerOf(staticDir), conn.isET, before, event, w, input, Now());
    }

    method Dispatch(event: Armed, w: World) returns (ghost input: string)
      requires Objects() && MappingsSuffice(w.disk) && (armed == In ==> conn.ToWriteBytes() == 0)
      modifies this, conn, request, response, conn.sock
      modifies conn.readBuff, conn.readBuff.data, conn.writeBuff, conn.writeBuff.data
      ensures Objects() && Handled(ServerOf(staticDir), conn.isET, old(Now()), event, w, input, Now())
      ensures conn.readBuff.data == old(conn.readBuff.data) || fresh(conn.readBuff.data)
      ensures conn.writeBuff.data == old(conn.writeBuff.data) || fresh(conn.writeBuff.data)
    {
      input := "";
      if event == armed {
        match event {
          case In =>
            ghost var rs, ret, err := OnRead(w);
            input := AllKept(rs);
          case Out =>
            ghost var chunk, counts, ret, err, sh := OnWrite(w);
          case Closed =>
        }
      }
    }
  }
}
