// The request parser of src/http/request.cpp: a state machine over the lines of
// the read buffer, and the printer that it undoes.
module Requests {
  import opened Prelude
  import opened Buffers
  import Forms

  datatype ParseState = REQUEST_LINE | HEADERS | BODY | FINISH

  // The fields of class Request that parse sets.
  datatype Fields = Fields(state: ParseState, method_: string, path: string, version: string,
                           body: string, header: map<string, string>, post: map<string, string>)

  const EMPTY: Fields := Fields(REQUEST_LINE, "", "", "", "", map[], map[])

  // What the database answers about a name, a password, and whether it is a login.
  type Verify = (string, string, bool) -> bool

  const DEFAULT_HTML: set<string> :=
    {"/index", "/register", "/login", "/welcome", "/video", "/picture"}

  // ---------- Lines ----------

  // The first occurrence of c at k or later, or the length.
  function IndexFrom(s: string, c: char, k: nat): (i: nat)
    requires k <= |s|
    ensures k <= i <= |s| && (forall j :: k <= j < i ==> s[j] != c) && (i < |s| ==> s[i] == c)
    decreases |s| - k
  {
    if k == |s| || s[k] == c then k else IndexFrom(s, c, k + 1)
  }

  function IndexOf(s: string, c: char): (i: nat)
    ensures i <= |s| && c !in s[..i] && (i < |s| ==> s[i] == c)
  {
    IndexFrom(s, c, 0)
  }

  predicate CrlfAt(s: string, j: nat) {
    j + 1 < |s| && s[j] == '\r' && s[j + 1] == '\n'
  }

  // Source: std::search for CR LF; the end if there is none.
  function CrlfFrom(s: string, k: nat): (i: nat)
    requires k <= |s|
    ensures k <= i <= |s| && (forall j :: k <= j < i ==> !CrlfAt(s, j)) && (i < |s| ==> CrlfAt(s, i))
    decreases |s| - k
  {
    if k == |s| || CrlfAt(s, k) then k else CrlfFrom(s, k + 1)
  }

  function FindCrlf(s: string): (i: nat)
    ensures i <= |s| && (forall j :: 0 <= j < i ==> !CrlfAt(s, j)) && (i < |s| ==> CrlfAt(s, i))
  {
    CrlfFrom(s, 0)
  }

  lemma FindCrlfFirst(line: string, rest: string)
    requires '\n' !in line
    ensures FindCrlf(line + "\r\n" + rest) == |line|
  {
    var s := line + "\r\n" + rest;
    assert s[|line|] == '\r' && s[|line| + 1] == '\n';
    assert CrlfAt(s, |line|);
    forall j | 0 <= j < |line|
      ensures !CrlfAt(s, j)
    {
      if j + 1 < |line| { assert s[j + 1] == line[j + 1]; }
    }
  }

  lemma FindCrlfNone(s: string)
    requires '\n' !in s
    ensures FindCrlf(s) == |s|
  {
    assert forall j :: 0 <= j < |s| ==> s[j] in s;
  }

  // The regular expression for a request line: two spaces, and HTTP/ after the second.
  function ParseRequestLine(line: string): Option<(string, string, string)> {
    var i := IndexOf(line, ' ');
    if i == |line| then None else
      var rest := line[i + 1..];
      var j := IndexOf(rest, ' ');
      if j == |rest| then None else
        var tail := rest[j + 1..];
        if "HTTP/" <= tail && ' ' !in tail[5..] then Some((line[..i], rest[..j], tail[5..])) else None
  }

  function RequestLine(m: string, p: string, v: string): string {
    m + [' '] + (p + [' '] + ("HTTP/" + v))
  }

  lemma CutAt(s: string, c: char)
    requires c in s
    ensures var i := IndexOf(s, c); i < |s| && s == s[..i] + [c] + s[i + 1..]
  {
    assert s[..|s|] == s;
  }

  lemma CutBack(a: string, c: char, b: string)
    requires c !in a
    ensures var s := a + [c] + b;
            var i := IndexOf(s, c);
            i == |a| && i < |s| && s[..i] == a && s[i + 1..] == b
  {
    var s := a + [c] + b;
    var i := IndexFrom(s, c, 0);
    assert s[|a|] == c;
    forall j | 0 <= j < |a|
      ensures s[j] != c
    {
      assert s[j] == a[j];
    }
  }

  lemma RequestLinePrinted(m: string, p: string, v: string)
    requires ' ' !in m && ' ' !in p && ' ' !in v
    ensures ParseRequestLine(RequestLine(m, p, v)) == Some((m, p, v))
  {
    var tail := "HTTP/" + v;
    CutBack(m, ' ', p + [' '] + tail);
    CutBack(p, ' ', tail);
    assert tail[5..] == v && tail[..5] == "HTTP/";
  }

  lemma JoinLine(line: string, m: string, rest: string, p: string, tail: string, v: string)
    requires line == m + [' '] + rest && rest == p + [' '] + tail && tail == "HTTP/" + v
    ensures line == RequestLine(m, p, v)
  {
  }

  lemma CutVersion(tail: string)
    requires "HTTP/" <= tail
    ensures tail == "HTTP/" + tail[5..]
  {
    assert tail == tail[..5] + tail[5..];
  }

  lemma RequestLineRead(line: string)
    requires ParseRequestLine(line).Some?
    ensures var (m, p, v) := ParseRequestLine(line).value;
            ' ' !in m && ' ' !in p && ' ' !in v && line == RequestLine(m, p, v)
  {
    var i := IndexOf(line, ' ');
    CutAt(line, ' ');
    var rest := line[i + 1..];
    var j := IndexOf(rest, ' ');
    CutAt(rest, ' ');
    var tail := rest[j + 1..];
    CutVersion(tail);
    JoinLine(line, line[..i], rest, rest[..j], tail, tail[5..]);
  }

  // The expression matches exactly the lines of that form, and in one way only.
  lemma RequestLineExact(line: string, m: string, p: string, v: string)
    ensures ParseRequestLine(line) == Some((m, p, v)) <==>
            ' ' !in m && ' ' !in p && ' ' !in v && line == RequestLine(m, p, v)
  {
    if ParseRequestLine(line).Some? {
      RequestLineRead(line);
    }
    if ' ' !in m && ' ' !in p && ' ' !in v {
      RequestLinePrinted(m, p, v);
    }
  }

  // The regular expression for a header: up to the first colon, then at most one
  // space, then the value.
  function ParseHeader(line: string): Option<(string, string)> {
    var i := IndexOf(line, ':');
    if i == |line| then None else
      var rest := line[i + 1..];
      Some((line[..i], if rest != "" && rest[0] == ' ' then rest[1..] else rest))
  }

  function HeaderLine(name: string, gap: string, value: string): string {
    name + [':'] + (gap + value)
  }

  lemma HeaderPrinted(name: string, gap: string, value: string)
    requires ':' !in name && (gap == " " || (gap == "" && !(" " <= value)))
    ensures ParseHeader(HeaderLine(name, gap, value)) == Some((name, value))
  {
    CutBack(name, ':', gap + value);
    if gap == " " {
      assert (gap + value)[1..] == value;
    } else {
      assert gap + value == value;
    }
  }

  lemma HeaderRead(line: string)
    ensures ParseHeader(line).Some? <==> ':' in line
    ensures ParseHeader(line).Some? ==>
              var (name, value) := ParseHeader(line).value;
              ':' !in name
              && (line == HeaderLine(name, " ", value) || (line == HeaderLine(name, "", value) && !(" " <= value)))
  {
    if ':' in line {
      CutAt(line, ':');
      var name, rest := line[..IndexOf(line, ':')], line[IndexOf(line, ':') + 1..];
      if rest != "" && rest[0] == ' ' {
        JoinHeader(line, name, rest, " ", rest[1..]);
      } else {
        JoinHeader(line, name, rest, "", rest);
      }
    }
  }

  lemma JoinHeader(line: string, name: string, rest: string, gap: string, value: string)
    requires line == name + [':'] + rest && rest == gap + value
    ensures line == HeaderLine(name, gap, value)
  {
  }

  // The expression matches exactly the lines with a colon: the name ends at the first
  // one, and a space after it is not part of the value.
  lemma HeaderExact(line: string, name: string, value: string)
    ensures ParseHeader(line) == Some((name, value)) <==>
            ':' !in name
            && (line == HeaderLine(name, " ", value) || (line == HeaderLine(name, "", value) && !(" " <= value)))
    ensures ParseHeader(line) == None <==> ':' !in line
  {
    HeaderRead(line);
    if ':' !in name {
      HeaderPrinted(name, " ", value);
      if !(" " <= value) {
        HeaderPrinted(name, "", value);
      }
    }
  }

  function ServedPath(path: string): string {
    if path == "/" then "/index.html"
    else if path in DEFAULT_HTML then path + ".html"
    else path
  }

  // ---------- The state machine ----------

  const CONTENT_TYPE: string := "Content-Type"
  const FORM: string := "application/x-www-form-urlencoded"

  // Source: operator[] of a map of strings.
  function Touch(m: map<string, string>, key: string): map<string, string> {
    if key in m then m else m[key := ""]
  }

  // Source: userVerify.  The database is not asked about an empty name or password.
  function UserVerify(verify: Verify, name: string, password: string, isLogin: bool): bool {
    name != "" && password != "" && verify(name, password, isLogin)
  }

  function AfterVerify(r: Fields, verify: Verify): Fields {
    if r.path != "/register.html" && r.path != "/login.html" then r
    else
      var post := Touch(Touch(r.post, "username"), "password");
      var known := UserVerify(verify, post["username"], post["password"], r.path == "/login.html");
      r.(post := post, path := if known then "/welcome.html" else "/error.html")
  }

  // Source: parsePost.  None where the decoder runs past the end of the body.
  function Posted(r: Fields, verify: Verify): Option<Fields> {
    if r.method_ != "POST" then Some(r)
    else
      var h := r.(header := Touch(r.header, CONTENT_TYPE));
      if h.header[CONTENT_TYPE] != FORM then Some(h)
      else
        var post, body := Forms.Scan("", r.body, "", r.post), Forms.Restore(r.body);
        if post.None? || body.None? then None
        else Some(AfterVerify(h.(post := post.value, body := body.value), verify))
  }

  // What a line or a text comes to.
  datatype Outcome = Accepted | Refused | Undefined

  datatype Moved = Moved(outcome: Outcome, fields: Fields)

  // What one line does; `readable` counts the bytes in the buffer, this line included.
  function Line(r: Fields, line: string, readable: nat, verify: Verify): Moved {
    match r.state
    case REQUEST_LINE =>
      (match ParseRequestLine(line)
       case None => Moved(Refused, r)
       case Some((m, p, v)) =>
         Moved(Accepted, r.(state := HEADERS, method_ := m, path := ServedPath(p), version := v)))
    case HEADERS =>
      var h := match ParseHeader(line)
        case Some((name, value)) => r.(header := r.header[name := value])
        case None => r.(state := BODY);
      Moved(Accepted, if readable <= 2 then h.(state := FINISH) else h)
    case BODY =>
      (match Posted(r.(body := line), verify)
       case None => Moved(Undefined, r)
       case Some(p) => Moved(Accepted, p.(state := FINISH)))
    case FINISH => Moved(Accepted, r)
  }

  datatype Parsed = Parsed(outcome: Outcome, fields: Fields, rest: string)

  // The loop of parse.
  function ParseText(r: Fields, text: string, verify: Verify): Parsed
    decreases |text|
  {
    if text == "" || r.state == FINISH then Parsed(Accepted, r, text)
    else
      var e := FindCrlf(text);
      var n := Line(r, text[..e], |text|, verify);
      if n.outcome != Accepted then Parsed(n.outcome, r, text)
      else if e == |text| then Parsed(Accepted, n.fields, text)
      else ParseText(n.fields, text[e + 2..], verify)
  }

  // ---------- The printer ----------

  type Headers = seq<(string, string)>

  function PrintHeaders(hs: Headers): string {
    if hs == [] then "" else HeaderLine(hs[0].0, " ", hs[0].1) + "\r\n" + PrintHeaders(hs[1..])
  }

  // A request: the request line, the header lines, an empty line, the body.
  function Print(m: string, target: string, v: string, hs: Headers, body: string): string {
    RequestLine(m, target, v) + "\r\n" + (PrintHeaders(hs) + ("\r\n" + body))
  }

  // The header map that a list of headers leaves; of two with one name the later stays.
  function Collect(m: map<string, string>, hs: Headers): map<string, string>
    decreases |hs|
  {
    if hs == [] then m else Collect(m[hs[0].0 := hs[0].1], hs[1..])
  }

  ghost predicate Printable(m: string, target: string, v: string, hs: Headers, body: string) {
    && '\n' !in m && '\n' !in target && '\n' !in v && '\n' !in body
    && ' ' !in m && ' ' !in target && ' ' !in v
    && forall h :: h in hs ==> '\n' !in h.0 && '\n' !in h.1 && ':' !in h.0
  }

  lemma ParseOne(r: Fields, text: string, e: nat, verify: Verify)
    requires r.state != FINISH && e < |text| && FindCrlf(text) == e
    requires Line(r, text[..e], |text|, verify).outcome == Accepted
    ensures ParseText(r, text, verify) == ParseText(Line(r, text[..e], |text|, verify).fields, text[e + 2..], verify)
  {
  }

  lemma ParseStep(r: Fields, text: string, verify: Verify)
    requires r.state != FINISH && text != ""
    ensures var e := FindCrlf(text);
            var n := Line(r, text[..e], |text|, verify);
            ParseText(r, text, verify) ==
            if n.outcome != Accepted then Parsed(n.outcome, r, text)
            else if e == |text| then Parsed(Accepted, n.fields, text)
            else ParseText(n.fields, text[e + 2..], verify)
  {
  }

  // One complete line: it is taken off the text.
  lemma {:induction false} TakeLine(r: Fields, line: string, rest: string, n: Fields, verify: Verify)
    requires '\n' !in line && r.state != FINISH
    requires Line(r, line, |line| + 2 + |rest|, verify) == Moved(Accepted, n)
    ensures ParseText(r, line + "\r\n" + rest, verify) == ParseText(n, rest, verify)
  {
    var text := line + "\r\n" + rest;
    FindCrlfFirst(line, rest);
    assert text[..|line|] == line;
    assert text[|line| + 2..] == rest;
    ParseOne(r, text, |line|, verify);
  }

  // What the body, which is the rest of the text, does to the fields.
  function WithBody(r: Fields, body: string, verify: Verify): Parsed {
    if body == "" then Parsed(Accepted, r.(state := FINISH), "")
    else
      match Posted(r.(state := BODY, body := body), verify)
      case None => Parsed(Undefined, r.(state := BODY), body)
      case Some(p) => Parsed(Accepted, p.(state := FINISH), body)
  }

  // The end of the headers, and what follows.
  lemma EndOfHeaders(r: Fields, body: string, verify: Verify)
    requires r.state == HEADERS && '\n' !in body
    ensures ParseText(r, "\r\n" + body, verify) == WithBody(r, body, verify)
  {
    assert "\r\n" + body == "" + "\r\n" + body;
    TakeLine(r, "", body, if body == "" then r.(state := FINISH) else r.(state := BODY), verify);
    if body != "" {
      FindCrlfNone(body);
      assert body[..|body|] == body;
    }
  }

  lemma {:induction false} HeaderLines(r: Fields, hs: Headers, body: string, verify: Verify)
    requires r.state == HEADERS && '\n' !in body
    requires forall h :: h in hs ==> '\n' !in h.0 && '\n' !in h.1 && ':' !in h.0
    ensures ParseText(r, PrintHeaders(hs) + ("\r\n" + body), verify) ==
            WithBody(r.(header := Collect(r.header, hs)), body, verify)
    decreases |hs|
  {
    if hs == [] {
      assert PrintHeaders(hs) + ("\r\n" + body) == "\r\n" + body;
      EndOfHeaders(r, body, verify);
    } else {
      var (name, value) := hs[0];
      assert hs[0] in hs;
      var line, rest := HeaderLine(name, " ", value), PrintHeaders(hs[1..]) + ("\r\n" + body);
      assert PrintHeaders(hs) + ("\r\n" + body) == line + "\r\n" + rest;
      HeaderPrinted(name, " ", value);
      var n := r.(header := r.header[name := value]);
      TakeLine(r, line, rest, n, verify);
      HeaderLines(n, hs[1..], body, verify);
    }
  }

  // Parsing undoes printing, up to what parsePost makes of a body.  The body is
  // recognised but stays in the buffer, so the buffer is left empty exactly when the
  // request has no body.
  lemma RoundTrip(m: string, target: string, v: string, hs: Headers, body: string, verify: Verify)
    requires Printable(m, target, v, hs, body)
    ensures ParseText(EMPTY, Print(m, target, v, hs, body), verify) ==
            WithBody(Fields(HEADERS, m, ServedPath(target), v, "", Collect(map[], hs), map[]), body, verify)
  {
    var line, rest := RequestLine(m, target, v), PrintHeaders(hs) + ("\r\n" + body);
    var n := Fields(HEADERS, m, ServedPath(target), v, "", map[], map[]);
    FirstLine(m, target, v, |line| + 2 + |rest|, verify);
    NoNewline(m, target, v);
    TakeLine(EMPTY, line, rest, n, verify);
    HeaderLines(n, hs, body, verify);
  }

  lemma FirstLine(m: string, target: string, v: string, readable: nat, verify: Verify)
    requires ' ' !in m && ' ' !in target && ' ' !in v
    ensures Line(EMPTY, RequestLine(m, target, v), readable, verify) ==
            Moved(Accepted, Fields(HEADERS, m, ServedPath(target), v, "", map[], map[]))
  {
    RequestLinePrinted(m, target, v);
  }

  lemma NoNewline(m: string, target: string, v: string)
    requires '\n' !in m && '\n' !in target && '\n' !in v
    ensures '\n' !in RequestLine(m, target, v)
  {
  }

  // A form that leaves nothing behind, and is not sent to a login or registration.
  ghost predicate FormStays(body: string, path: string) {
    Forms.Stays(body) && path != "/register.html" && path != "/login.html"
  }

  // What parsePost looks at: the method, and the Content-Type header.
  predicate NoForm(m: string, header: map<string, string>) {
    m != "POST" || ("Content-Type" in header && header["Content-Type"] != "application/x-www-form-urlencoded")
  }

  predicate IsForm(m: string, header: map<string, string>) {
    m == "POST" && "Content-Type" in header && header["Content-Type"] == "application/x-www-form-urlencoded"
  }

  // What is served for a target: the index for "/", a page for each of six names, and the
  // target itself for any other.
  lemma ServedPathExact(target: string)
    ensures target == "/" || target == "/index" ==> ServedPath(target) == "/index.html"
    ensures target == "/register" ==> ServedPath(target) == "/register.html"
    ensures target == "/login" ==> ServedPath(target) == "/login.html"
    ensures target == "/welcome" ==> ServedPath(target) == "/welcome.html"
    ensures target == "/video" ==> ServedPath(target) == "/video.html"
    ensures target == "/picture" ==> ServedPath(target) == "/picture.html"
    ensures target != "/" && target !in {"/index", "/register", "/login", "/welcome", "/video", "/picture"} ==>
              ServedPath(target) == target
  {
  }

  // A printed request line and a printed header, as they are sent.
  lemma PrintedSamples()
    ensures RequestLine("GET", "/a", "1.1") == "GET /a HTTP/1.1"
    ensures HeaderLine("Host", " ", "b") == "Host: b"
  {
  }

  lemma AfterVerifyStays(r: Fields, verify: Verify)
    ensures AfterVerify(r, verify) == r <==> r.path != "/register.html" && r.path != "/login.html"
    ensures AfterVerify(r, verify) == r.(path := AfterVerify(r, verify).path, post := AfterVerify(r, verify).post)
    ensures AfterVerify(r, verify) != r ==> AfterVerify(r, verify).path != r.path
  {
    assert "/register.html"[1] == 'r' && "/login.html"[1] == 'l';
    assert "/welcome.html"[1] == 'w' && "/error.html"[1] == 'e';
  }

  lemma PostedStays(r: Fields, verify: Verify)
    requires r.post == map[]
    ensures Posted(r, verify) == Some(r) <==>
            NoForm(r.method_, r.header) || (IsForm(r.method_, r.header) && FormStays(r.body, r.path))
  {
    if IsForm(r.method_, r.header) {
      Forms.DefinedTogether("", r.body, "", map[]);
      Forms.StaysExact(r.body);
      assert r.(header := Touch(r.header, CONTENT_TYPE)) == r;
      var post, body := Forms.Scan("", r.body, "", map[]), Forms.Restore(r.body);
      if post.Some? {
        AfterVerifyStays(r.(post := post.value, body := body.value), verify);
      }
    } else if !NoForm(r.method_, r.header) {
      assert CONTENT_TYPE !in r.header && CONTENT_TYPE in Touch(r.header, CONTENT_TYPE);
    }
  }

  lemma PostedKeepsState(r: Fields, verify: Verify)
    ensures Posted(r, verify).Some? ==> Posted(r, verify).value.state == r.state
  {
    if r.method_ == "POST" {
      var post, body := Forms.Scan("", r.body, "", r.post), Forms.Restore(r.body);
      var h := r.(header := Touch(r.header, CONTENT_TYPE));
      if post.Some? && body.Some? { AfterVerifyStays(h.(post := post.value, body := body.value), verify); }
    }
  }

  lemma WithBodyStays(r: Fields, body: string, verify: Verify)
    requires r.post == map[] && r.body == ""
    ensures WithBody(r, body, verify) == Parsed(Accepted, r.(state := FINISH, body := body), body) <==>
            body == "" || NoForm(r.method_, r.header) || (IsForm(r.method_, r.header) && FormStays(body, r.path))
  {
    var b := r.(state := BODY, body := body);
    if body != "" {
      PostedStays(b, verify);
      PostedKeepsState(b, verify);
      var p := Posted(b, verify);
      assert p.Some? ==> (p.value.(state := FINISH) == b.(state := FINISH) <==> p.value == b);
    }
  }

  // All fields come back as they were printed exactly when there is no body, or parsePost
  // does not take it for a form, or the form leaves nothing behind.
  lemma ComesBack(m: string, target: string, v: string, hs: Headers, body: string, verify: Verify)
    requires Printable(m, target, v, hs, body)
    ensures var header := Collect(map[], hs);
            ParseText(EMPTY, Print(m, target, v, hs, body), verify) ==
            Parsed(Accepted, Fields(FINISH, m, ServedPath(target), v, body, header, map[]), body)
            <==> body == "" || NoForm(m, header) || (IsForm(m, header) && FormStays(body, ServedPath(target)))
  {
    RoundTrip(m, target, v, hs, body, verify);
    WithBodyStays(Fields(HEADERS, m, ServedPath(target), v, "", Collect(map[], hs), map[]), body, verify);
  }

  // What a form that decodes to `sent` leaves in `r`.
  ghost predicate Arrived(r: Fields, header: map<string, string>, path: string, sent: map<string, string>, verify: Verify) {
    var signsIn := path == "/register.html" || path == "/login.html";
    && r.header == header
    && (forall k :: k in sent ==> k in r.post && r.post[k] == sent[k])
    // a login or registration adds the name and the password if they are missing
    && (forall k :: k in r.post && k !in sent ==> signsIn && (k == "username" || k == "password") && r.post[k] == "")
    && (signsIn ==> "username" in r.post && "password" in r.post)
    // and the database, asked about a name and a password that are not empty, decides the path
    && (!signsIn ==> r.path == path)
    && (signsIn ==>
          && (r.path == "/welcome.html" <==>
                && r.post["username"] != "" && r.post["password"] != ""
                && verify(r.post["username"], r.post["password"], path == "/login.html"))
          && (r.path == "/welcome.html" || r.path == "/error.html"))
  }

  lemma PostedForm(r: Fields, verify: Verify)
    requires r.post == map[] && IsForm(r.method_, r.header) && Forms.Decode(r.body).Some?
    ensures Posted(r, verify).Some?
    ensures Arrived(Posted(r, verify).value, r.header, r.path, Forms.Decode(r.body).value, verify)
  {
    Forms.DefinedTogether("", r.body, "", map[]);
    var h := r.(header := Touch(r.header, CONTENT_TYPE));
    var d := h.(post := Forms.Decode(r.body).value, body := Forms.Restore(r.body).value);
    assert Posted(r, verify) == Some(AfterVerify(d, verify));
    assert h.header == r.header;
    assert "/welcome.html"[1] == 'w' && "/error.html"[1] == 'e';
  }

  lemma EncodeNotEmpty(ps: Forms.Pairs)
    requires ps != []
    ensures Forms.Encode(ps) != ""
  {
    assert Forms.EncodePair(ps[0]) != "";
  }

  // A printed form arrives: its pairs are in `post`.
  lemma {:induction false} FormArrives(target: string, v: string, hs: Headers, ps: Forms.Pairs, verify: Verify)
    requires Printable("POST", target, v, hs, Forms.Encode(ps)) && IsForm("POST", Collect(map[], hs))
    requires Forms.DistinctKeys(ps) && Forms.PlainPairs(ps) && ps != [] && ps[|ps| - 1].1 != ""
    ensures var p := ParseText(EMPTY, Print("POST", target, v, hs, Forms.Encode(ps)), verify);
            && p.outcome == Accepted && p.fields.state == FINISH
            && Arrived(p.fields, Collect(map[], hs), ServedPath(target), Forms.PutAll(map[], ps), verify)
  {
    var body := Forms.Encode(ps);
    var r := Fields(HEADERS, "POST", ServedPath(target), v, "", Collect(map[], hs), map[]);
    RoundTrip("POST", target, v, hs, body, verify);
    Forms.RoundTrip(ps);
    EncodeNotEmpty(ps);
    PostedForm(r.(state := BODY, body := body), verify);
  }

  // With distinct names every header is found again under its name.
  lemma {:induction false} CollectDistinct(m: map<string, string>, hs: Headers)
    requires forall i, j :: 0 <= i < j < |hs| ==> hs[i].0 != hs[j].0
    ensures var c := Collect(m, hs);
            && (forall i :: 0 <= i < |hs| ==> hs[i].0 in c && c[hs[i].0] == hs[i].1)
            && (forall k :: k in c <==> k in m || exists i :: 0 <= i < |hs| && hs[i].0 == k)
            && (forall k :: k in m && (forall i :: 0 <= i < |hs| ==> hs[i].0 != k) ==> c[k] == m[k])
    decreases |hs|
  {
    if hs != [] {
      var n, t := m[hs[0].0 := hs[0].1], hs[1..];
      assert forall i :: 0 <= i < |t| ==> t[i] == hs[i + 1];
      CollectDistinct(n, t);
      var c := Collect(n, t);
      assert hs[0].0 in n && forall i :: 0 <= i < |t| ==> t[i].0 != hs[0].0;
      assert hs[0].0 in c && c[hs[0].0] == n[hs[0].0];
      forall i | 0 <= i < |hs|
        ensures hs[i].0 in c && c[hs[i].0] == hs[i].1
      {
        if i > 0 { assert hs[i] == t[i - 1]; }
      }
      forall k
        ensures k in c <==> k in m || exists i :: 0 <= i < |hs| && hs[i].0 == k
      {
        if k in c && k !in m && k != hs[0].0 {
          var i :| 0 <= i < |t| && t[i].0 == k;
          assert hs[i + 1].0 == k;
        }
        if i :| 0 <= i < |hs| && hs[i].0 == k {
          if i > 0 { assert t[i - 1].0 == k; }
        }
      }
    }
  }

  lemma {:induction false} PastRequestLine(r: Fields, text: string, verify: Verify)
    requires r.state != REQUEST_LINE
    ensures ParseText(r, text, verify).outcome != Refused
    decreases |text|
  {
    if text != "" && r.state != FINISH {
      var e := FindCrlf(text);
      var n := Line(r, text[..e], |text|, verify);
      if n.outcome == Accepted && e < |text| {
        PastRequestLine(n.fields, text[e + 2..], verify);
      }
    }
  }

  lemma StartRefuses(line: string, readable: nat, verify: Verify)
    ensures var n := Line(EMPTY, line, readable, verify);
            if ParseRequestLine(line).None? then n == Moved(Refused, EMPTY)
            else n.outcome == Accepted && n.fields.state == HEADERS
  {
  }

  // parse fails exactly when the first line is not a request line; whatever follows,
  // complete or not, it does not report a failure.
  lemma {:induction false} FailsOnRequestLineOnly(text: string, verify: Verify)
    requires text != ""
    ensures ParseText(EMPTY, text, verify).outcome == Refused <==> ParseRequestLine(text[..FindCrlf(text)]).None?
    ensures ParseText(EMPTY, text, verify).outcome == Refused ==> ParseText(EMPTY, text, verify) == Parsed(Refused, EMPTY, text)
  {
    var e := FindCrlf(text);
    StartRefuses(text[..e], |text|, verify);
    if ParseRequestLine(text[..e]).Some? && e < |text| {
      ParseOne(EMPTY, text, e, verify);
      PastRequestLine(Line(EMPTY, text[..e], |text|, verify).fields, text[e + 2..], verify);
    }
  }

  predicate KeepAlive(r: Fields) {
    "Connection" in r.header && r.header["Connection"] == "keep-alive" && r.version == "1.1"
  }

  class Request {
    var fields: Fields

    constructor ()
      ensures fields == EMPTY
    {
      fields := EMPTY;
    }

    method Init()
      modifies this
      ensures fields == EMPTY
    {
      fields := EMPTY;
    }

    predicate IsKeepAlive()
      reads this
    {
      KeepAlive(fields)
    }

    // Source: parsePost.
    method ParsePost(verify: Verify) returns (defined: bool)
      modifies this
      ensures Posted(old(fields), verify) == if defined then Some(fields) else None
      ensures !defined ==> fields.state == old(fields.state)
    {
      defined := true;
      if fields.method_ == "POST" {
        fields := fields.(header := Touch(fields.header, CONTENT_TYPE));
        if fields.header[CONTENT_TYPE] == FORM {
          defined := DecodeForm();
          if defined {
            VerifyUser(verify);
          }
        }
      }
    }

    // Source: parseFromUrlencoded, on the body and the form fields.
    method DecodeForm() returns (defined: bool)
      modifies this
      ensures defined <==> Forms.Scan("", old(fields.body), "", old(fields.post)).Some?
      ensures defined <==> Forms.Restore(old(fields.body)).Some?
      ensures defined ==>
                fields == old(fields).(post := Forms.Scan("", old(fields.body), "", old(fields.post)).value,
                                       body := Forms.Restore(old(fields.body)).value)
      ensures !defined ==> fields == old(fields)
    {
      Forms.DefinedExact("", fields.body, "", fields.post);
      var form := new Forms.Form(fields.body, fields.post);
      defined := form.ParseFromUrlencoded();
      if defined {
        fields := fields.(body := form.body, post := form.post);
      }
    }

    // The part of parsePost that looks for a login or a registration.
    method VerifyUser(verify: Verify)
      modifies this
      ensures fields == AfterVerify(old(fields), verify)
    {
      if fields.path == "/register.html" || fields.path == "/login.html" {
        var isLogin := fields.path == "/login.html";
        fields := fields.(post := Touch(fields.post, "username"));
        fields := fields.(post := Touch(fields.post, "password"));
        if UserVerify(verify, fields.post["username"], fields.post["password"], isLogin) {
          fields := fields.(path := "/welcome.html");
        } else {
          fields := fields.(path := "/error.html");
        }
      }
    }

    // The switch in the loop of parse.
    method ParseLine(line: string, readable: nat, verify: Verify) returns (outcome: Outcome)
      modifies this
      ensures outcome == Line(old(fields), line, readable, verify).outcome
      ensures outcome == Accepted ==> fields == Line(old(fields), line, readable, verify).fields
      ensures outcome == Refused ==> fields == old(fields)
    {
      match fields.state {
        case REQUEST_LINE =>
          var matched := ParseRequestLine(line);
          if matched.None? {
            return Refused;
          }
          var (m, p, v) := matched.value;
          fields := fields.(method_ := m, path := p, version := v, state := HEADERS);
          if fields.path == "/" {
            fields := fields.(path := "/index.html");
          } else if fields.path in DEFAULT_HTML {
            fields := fields.(path := fields.path + ".html");
          }
        case HEADERS =>
          var matched := ParseHeader(line);
          if matched.Some? {
            fields := fields.(header := fields.header[matched.value.0 := matched.value.1]);
          } else {
            fields := fields.(state := BODY);
          }
          if readable <= 2 {
            fields := fields.(state := FINISH);
          }
        case BODY =>
          fields := fields.(body := line);
          var defined := ParsePost(verify);
          if !defined {
            return Undefined;
          }
          fields := fields.(state := FINISH);
        case FINISH =>
      }
      outcome := Accepted;
    }

    // Parse what is readable.  Every line that is retrieved lies before the write
    // position, and the loop ends.
    method Parse(buff: Buffer, verify: Verify) returns (outcome: Outcome)
      requires buff.Valid()
      modifies this, buff`readPos, buff`retrieved
      ensures buff.Valid() && buff.writePos == old(buff.writePos)
      ensures old(buff.Contents()) == [] ==> outcome == Refused && fields == old(fields)
      ensures old(buff.Contents()) != [] ==>
                var p := ParseText(old(fields), old(buff.Contents()), verify);
                outcome == p.outcome && (outcome != Undefined ==> p == Parsed(outcome, fields, buff.Contents()))
    {
      if buff.ReadableBytes() <= 0 {
        return Refused;
      }
      outcome := Accepted;
      var last := false;
      while buff.ReadableBytes() > 0 && fields.state != FINISH
        invariant buff.Valid() && buff.writePos == old(buff.writePos)
        invariant ParseText(fields, buff.Contents(), verify) == ParseText(old(fields), old(buff.Contents()), verify)
        decreases buff.ReadableBytes()
      {
        ParseStep(fields, buff.Contents(), verify);
        outcome, last := ParseNext(buff, verify);
        if outcome != Accepted || last {
          return;
        }
      }
      outcome := Accepted;
    }

    // One turn of the loop of parse; `last` says that the line has no end.
    method ParseNext(buff: Buffer, verify: Verify) returns (outcome: Outcome, last: bool)
      requires buff.Valid() && buff.Contents() != [] && fields.state != FINISH
      modifies this, buff`readPos, buff`retrieved
      ensures buff.Valid() && buff.writePos == old(buff.writePos)
      ensures var text := old(buff.Contents());
              var e := FindCrlf(text);
              var n := Line(old(fields), text[..e], |text|, verify);
              && outcome == n.outcome && (last <==> outcome == Accepted && e == |text|)
              && (outcome == Accepted ==> fields == n.fields) && (outcome == Refused ==> fields == old(fields))
              && buff.Contents() == (if outcome == Accepted && !last then text[e + 2..] else text)
              && (outcome == Accepted && !last ==> buff.readPos > old(buff.readPos))
    {
      var text := buff.data[buff.readPos..buff.writePos];
      var lineEnd := FindCrlf(text);
      last := false;
      outcome := ParseLine(text[..lineEnd], buff.ReadableBytes(), verify);
      if outcome != Accepted {
        return;
      }
      if lineEnd == |text| {
        last := true;
        return;
      }
      buff.RetrieveUntil(buff.readPos + lineEnd + 2);
    }
  }
}
