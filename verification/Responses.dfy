// The response builder of src/http/response.cpp, and a reader that takes its output
// apart again by the rules of section 6.3 of RFC 9112.
module Responses {
  import opened Prelude
  import opened Buffers
  import Requests

  // ---------- Decimal numbers ----------

  function Digit(d: nat): char
    requires d < 10
  {
    ('0' as int + d) as char
  }

  // Source: std::to_string.
  function Decimal(n: nat): (s: string)
    ensures s != "" && forall c :: c in s ==> '0' <= c <= '9'
  {
    if n < 10 then [Digit(n)] else Decimal(n / 10) + [Digit(n % 10)]
  }

  function ReadDecimal(s: string): Option<nat> {
    if s == "" then Some(0)
    else
      var c, p := s[|s| - 1], ReadDecimal(s[..|s| - 1]);
      if p.Some? && '0' <= c <= '9' then Some(10 * p.value + (c as int - '0' as int)) else None
  }

  lemma {:induction false} DecimalRoundTrip(n: nat)
    ensures ReadDecimal(Decimal(n)) == Some(n)
  {
    var s := Decimal(n);
    if n < 10 {
      assert s[..0] == "";
      assert ReadDecimal(s[..|s| - 1]) == Some(0);
    } else {
      assert s[..|s| - 1] == Decimal(n / 10);
      DecimalRoundTrip(n / 10);
    }
  }

  // ---------- What is sent ----------

  datatype FileStat = FileStat(isDir: bool, othersRead: bool, size: nat)

  // The file system as one request sees it: stat by path, and the mapping of a file
  // whose stat gave a size.
  datatype Disk = Disk(stat: string -> Option<FileStat>, mapping: (string, nat) -> Option<string>)

  // No mapping is shorter than stat said; a cached one may be, if the file has grown
  // within the second of its modification time.
  ghost predicate MappingsSuffice(d: Disk) {
    forall p, n :: d.mapping(p, n).Some? ==> |d.mapping(p, n).value| >= n
  }

  function StatusText(code: int): Option<string> {
    if code == 200 then Some("OK")
    else if code == 400 then Some("Bad Request")
    else if code == 403 then Some("Forbidden")
    else if code == 404 then Some("Not Found")
    else None
  }

  function ErrorPage(code: int): Option<string> {
    if code == 400 then Some("/400.html")
    else if code == 403 then Some("/403.html")
    else if code == 404 then Some("/404.html")
    else None
  }

  // The last '.' before position k.
  function LastDot(path: string, k: nat): Option<nat>
    requires k <= |path|
    ensures match LastDot(path, k)
            case Some(i) => i < k && path[i] == '.' && forall j :: i < j < k ==> path[j] != '.'
            case None => forall j :: 0 <= j < k ==> path[j] != '.'
  {
    if k == 0 then None else if path[k - 1] == '.' then Some(k - 1) else LastDot(path, k - 1)
  }

  function TypeOfSuffix(suffix: string): (t: string)
    ensures '\n' !in t
  {
    match suffix
    case ".html" => "text/html"
    case ".xml" => "text/xml"
    case ".xhtml" => "application/xhtml+xml"
    case ".txt" => "text/plain"
    case ".rtf" => "application/rtf"
    case ".pdf" => "application/pdf"
    case ".word" => "application/nsword"
    case ".png" => "image/png"
    case ".gif" => "image/gif"
    case ".jpg" => "image/jpeg"
    case ".jpeg" => "image/jpeg"
    case ".au" => "audio/basic"
    case ".mpeg" => "video/mpeg"
    case ".mpg" => "video/mpeg"
    case ".avi" => "video/x-msvideo"
    case ".gz" => "application/x-gzip"
    case ".tar" => "application/x-tar"
    case ".css" => "text/css "
    case ".js" => "text/javascript "
    case _ => "text/plain"
  }

  function FileType(path: string): (t: string)
    ensures '\n' !in t
  {
    var idx := LastDot(path, |path|);
    if idx.None? then "text/plain" else TypeOfSuffix(path[idx.value..])
  }

  function PrintLines(ls: seq<string>): string {
    if ls == [] then "" else ls[0] + "\r\n" + PrintLines(ls[1..])
  }

  function LengthLine(n: nat): string {
    "Content-length: " + Decimal(n)
  }

  function StatusLine(code: int): string
    requires code >= 0
  {
    "HTTP/1.1 " + Decimal(code) + " " + (if StatusText(code).Some? then StatusText(code).value else "")
  }

  function ConnectionLines(keepAlive: bool): seq<string> {
    if keepAlive then ["Connection: keep-alive", "keep-alive: max=6, timeout=120"] else ["Connection: close"]
  }

  // The generated page for a file that could not be mapped.
  function ErrorBody(code: int, message: string): string
    requires code >= 0
  {
    "<html><title>Error</title>" + "<body bgcolor=\"ffffff\">"
    + Decimal(code) + " : " + (if StatusText(code).Some? then StatusText(code).value else "Bad Request") + "\n"
    + "<p>" + message + "</p>" + "<hr><em>TinyWebServer</em></body></html>"
  }

  function EarlyLines(code: int, keepAlive: bool, path: string): seq<string>
    requires code >= 0
  {
    [StatusLine(code)] + ConnectionLines(keepAlive) + ["Content-type: " + FileType(path)]
  }

  // The lines, the Content-length field, and the empty line.
  function Head(lines: seq<string>, length: nat): string {
    PrintLines(lines) + EndOfHead(length)
  }

  function EndOfHead(length: nat): string {
    LengthLine(length) + "\r\n" + "\r\n"
  }

  // ---------- The reader ----------

  // Read header lines up to the first empty one.  The result is the value of the
  // one Content-length field, and what follows the empty line.
  function ReadHead(s: string, length: Option<nat>): Option<(Option<nat>, string)>
    decreases |s|
  {
    var e := Requests.FindCrlf(s);
    if e == |s| then None
    else
      var line, rest := s[..e], s[e + 2..];
      if line == "" then Some((length, rest))
      else if "Content-length: " <= line then
        var n := ReadDecimal(line[16..]);
        if n.None? || length.Some? then None else ReadHead(rest, n)
      else ReadHead(rest, length)
  }

  lemma {:induction false} ReadLine(line: string, rest: string, length: Option<nat>)
    requires '\n' !in line && line != ""
    ensures ReadHead(line + "\r\n" + rest, length) ==
            if "Content-length: " <= line then
              (if ReadDecimal(line[16..]).None? || length.Some? then None else ReadHead(rest, ReadDecimal(line[16..])))
            else ReadHead(rest, length)
  {
    var s := line + "\r\n" + rest;
    Requests.FindCrlfFirst(line, rest);
    assert s[..|line|] == line;
    assert s[|line| + 2..] == rest;
  }

  lemma ReadEmptyLine(rest: string, length: Option<nat>)
    ensures ReadHead("\r\n" + rest, length) == Some((length, rest))
  {
    var s := "\r\n" + rest;
    Requests.FindCrlfFirst("", rest);
    assert s == "" + "\r\n" + rest;
    assert s[0 + 2..] == rest;
  }

  // Lines before the Content-length line are passed over.
  lemma {:induction false} SkipLines(ls: seq<string>, rest: string)
    requires forall l :: l in ls ==> '\n' !in l && l != "" && !("Content-length: " <= l)
    ensures ReadHead(PrintLines(ls) + rest, None) == ReadHead(rest, None)
  {
    if ls == [] {
      assert PrintLines(ls) + rest == rest;
    } else {
      assert ls[0] in ls;
      assert PrintLines(ls) + rest == ls[0] + "\r\n" + (PrintLines(ls[1..]) + rest);
      ReadLine(ls[0], PrintLines(ls[1..]) + rest, None);
      assert forall l :: l in ls[1..] ==> l in ls;
      SkipLines(ls[1..], rest);
    }
  }

  lemma ReadLengthLine(n: nat, rest: string)
    ensures ReadHead(LengthLine(n) + "\r\n" + ("\r\n" + rest), None) == Some((Some(n), rest))
  {
    var line := LengthLine(n);
    assert '\n' !in Decimal(n);
    assert line[16..] == Decimal(n) && line[..16] == "Content-length: ";
    DecimalRoundTrip(n);
    ReadLine(line, "\r\n" + rest, None);
    ReadEmptyLine(rest, Some(n));
  }

  predicate Early(l: string) {
    '\n' !in l && l != "" && !("Content-length: " <= l)
  }

  lemma StatusLineOk(code: int)
    requires code >= 0
    ensures Early(StatusLine(code))
  {
    assert StatusLine(code)[0] == 'H';
    assert '\n' !in Decimal(code);
  }

  lemma ConnectionLinesOk(keepAlive: bool)
    ensures forall l :: l in ConnectionLines(keepAlive) ==> Early(l)
  {
    assert "Connection: keep-alive"[3] == 'n' && "Connection: close"[3] == 'n';
    assert "keep-alive: max=6, timeout=120"[0] == 'k';
    assert "Content-length: "[3] == 't';
  }

  lemma TypeLineOk(path: string)
    ensures Early("Content-type: " + FileType(path))
  {
    assert ("Content-type: " + FileType(path))[8] == 't';
    assert "Content-length: "[8] == 'l';
  }

  lemma EarlyLinesOk(code: int, keepAlive: bool, path: string)
    requires code >= 0
    ensures forall l :: l in EarlyLines(code, keepAlive, path) ==> Early(l)
  {
    StatusLineOk(code);
    ConnectionLinesOk(keepAlive);
    TypeLineOk(path);
  }

  // The first empty line of the output is the end of the head, and the number in
  // the one Content-length field is the one printed.
  lemma HeadFrames(lines: seq<string>, n: nat, body: string)
    requires forall l :: l in lines ==> Early(l)
    ensures ReadHead(Head(lines, n) + body, None) == Some((Some(n), body))
  {
    var l, c := LengthLine(n), "\r\n";
    Regroup(PrintLines(lines), l, c, c, body);
    SkipLines(lines, l + c + (c + body));
    ReadLengthLine(n, body);
  }

  // A message whose one Content-length field counts the bytes after its head.
  ghost predicate Framed(message: string) {
    var r := ReadHead(message, None);
    r.Some? && r.value.0 == Some(|r.value.1|)
  }

  lemma Regroup(p: string, l: string, c: string, d: string, body: string)
    ensures p + (l + c + d) + body == p + (l + c + (d + body))
  {
  }

  // ---------- The reply ----------

  // What a string of appends writes.
  function Flatten(pieces: seq<string>): string {
    if pieces == [] then "" else Flatten(pieces[..|pieces| - 1]) + pieces[|pieces| - 1]
  }

  lemma {:induction false} FlattenConcat(a: seq<string>, b: seq<string>)
    ensures Flatten(a + b) == Flatten(a) + Flatten(b)
  {
    if b == [] {
      assert a + b == a;
    } else {
      assert (a + b)[..|a + b| - 1] == a + b[..|b| - 1];
      FlattenConcat(a, b[..|b| - 1]);
    }
  }

  lemma FlattenOne(p: string)
    ensures Flatten([p]) == p
  {
    assert [p][..0] == [];
  }

  function ConnectionPieces(keepAlive: bool): seq<string> {
    if keepAlive then ["Connection: ", "keep-alive\r\n", "keep-alive: max=6, timeout=120\r\n"]
    else ["Connection: ", "close\r\n"]
  }

  function HeadPieces(code: int, keepAlive: bool, path: string): seq<string>
    requires code >= 0
  {
    [StatusLine(code) + "\r\n"] + (ConnectionPieces(keepAlive) + ["Content-type: " + FileType(path) + "\r\n"])
  }

  lemma HeadCount(code: int, keepAlive: bool, path: string)
    requires code >= 0
    ensures |HeadPieces(code, keepAlive, path)| == if keepAlive then 5 else 4
  {
  }

  // What MakeResponse makes of a request: the code, path and stat it settles on, and the
  // mapping it gets.
  datatype Reply = Reply(code: int, path: string, keepAlive: bool, stat: FileStat, file: Option<string>)

  function CodeFor(disk: Disk, asked: string, code: int): int {
    match disk.stat(asked)
    case None => 404
    case Some(st) => if st.isDir then 404 else if !st.othersRead then 403 else if code == -1 then 200 else code
  }

  // The path and the stat that a response with this code is made from: those of the
  // error page if it has one, and the request's own where there is nothing better.
  function PathFor(code: int, asked: string): string {
    if ErrorPage(code).Some? then ErrorPage(code).value else asked
  }

  function StatFor(disk: Disk, staticDir: string, code: int, asked: string, before: FileStat): FileStat {
    var page, own := disk.stat(staticDir + PathFor(code, asked)), disk.stat(staticDir + asked);
    if page.Some? then page.value else if own.Some? then own.value else before
  }

  // An unknown code is sent as 400.
  function SentCode(code: int): (c: nat)
    ensures StatusText(c).Some?
  {
    if StatusText(code).Some? then code else 400
  }

  function ReplyTo(disk: Disk, staticDir: string, asked: string, keepAlive: bool, code: int, before: FileStat): (r: Reply)
    ensures r.code >= 0 && (r.file.Some? ==> r.stat.size > 0)
  {
    var c := CodeFor(disk, staticDir + asked, code);
    var path, stat := PathFor(c, asked), StatFor(disk, staticDir, c, asked, before);
    Reply(SentCode(c), path, keepAlive, stat, if stat.size > 0 then disk.mapping(staticDir + path, stat.size) else None)
  }

  // The page made for a file that could not be mapped.
  function Generated(r: Reply): string
    requires r.code >= 0
  {
    if r.stat.size > 0 && r.file.None? then ErrorBody(r.code, "File NotFound!") else ""
  }

  // The number in the Content-length field.
  function Length(r: Reply): nat
    requires r.code >= 0
  {
    if r.file.Some? then r.stat.size else |Generated(r)|
  }

  // What is sent of the file: as much of the mapping as stat said, if there is that much.
  function FileBytes(r: Reply): string {
    if r.file.None? then ""
    else if r.stat.size <= |r.file.value| then r.file.value[..r.stat.size]
    else r.file.value
  }

  function TailPieces(r: Reply): seq<string>
    requires r.code >= 0
  {
    if r.stat.size > 0 && r.file.None? then [EndOfHead(Length(r)), Generated(r)] else [EndOfHead(Length(r))]
  }

  function Pieces(r: Reply): seq<string>
    requires r.code >= 0
  {
    HeadPieces(r.code, r.keepAlive, r.path) + TailPieces(r)
  }

  // The head and what was generated go into the buffer; the file follows from its mapping.
  function Message(r: Reply): string
    requires r.code >= 0
  {
    Flatten(Pieces(r)) + FileBytes(r)
  }

  lemma FlattenTwo(a: string, b: string)
    ensures Flatten([a, b]) == a + b
  {
    assert [a, b] == [a] + [b];
    FlattenConcat([a], [b]);
    FlattenOne(a);
    FlattenOne(b);
  }

  lemma FlattenThree(a: string, b: string, c: string)
    ensures Flatten([a, b, c]) == a + b + c
  {
    assert [a, b, c] == [a, b] + [c];
    FlattenConcat([a, b], [c]);
    FlattenTwo(a, b);
    FlattenOne(c);
  }

  lemma ConnectionPrinted(keepAlive: bool)
    ensures Flatten(ConnectionPieces(keepAlive)) == PrintLines(ConnectionLines(keepAlive))
  {
    if keepAlive {
      FlattenThree("Connection: ", "keep-alive\r\n", "keep-alive: max=6, timeout=120\r\n");
      PrintTwo("Connection: keep-alive", "keep-alive: max=6, timeout=120");
    } else {
      FlattenTwo("Connection: ", "close\r\n");
      PrintOne("Connection: close");
    }
  }

  lemma PrintTwo(a: string, b: string)
    ensures PrintLines([a, b]) == a + "\r\n" + (b + "\r\n")
  {
    assert [a, b][1..] == [b];
    PrintOne(b);
  }

  lemma {:induction false} PrintLinesAppend(a: seq<string>, b: seq<string>)
    ensures PrintLines(a + b) == PrintLines(a) + PrintLines(b)
  {
    if a == [] {
      assert a + b == b;
    } else {
      assert (a + b)[0] == a[0] && (a + b)[1..] == a[1..] + b;
      PrintLinesAppend(a[1..], b);
    }
  }

  lemma PrintOne(l: string)
    ensures PrintLines([l]) == l + "\r\n"
  {
    assert [l][1..] == [];
    assert l + "\r\n" + "" == l + "\r\n";
  }

  lemma HeadPrinted(code: int, keepAlive: bool, path: string)
    requires code >= 0
    ensures Flatten(HeadPieces(code, keepAlive, path)) == PrintLines(EarlyLines(code, keepAlive, path))
  {
    var a, b, c := StatusLine(code), ConnectionLines(keepAlive), "Content-type: " + FileType(path);
    ConnectionPrinted(keepAlive);
    FlattenConcat([a + "\r\n"], ConnectionPieces(keepAlive) + [c + "\r\n"]);
    FlattenConcat(ConnectionPieces(keepAlive), [c + "\r\n"]);
    FlattenOne(a + "\r\n");
    FlattenOne(c + "\r\n");
    PrintLinesAppend([a], b + [c]);
    PrintLinesAppend(b, [c]);
    PrintOne(a);
    PrintOne(c);
    assert [a] + (b + [c]) == [a] + b + [c];
  }

  lemma TailPrinted(r: Reply)
    requires r.code >= 0
    ensures Flatten(TailPieces(r)) == EndOfHead(Length(r)) + Generated(r)
  {
    FlattenOne(EndOfHead(Length(r)));
    if r.stat.size > 0 && r.file.None? {
      FlattenOne(Generated(r));
      FlattenConcat([EndOfHead(Length(r))], [Generated(r)]);
    } else {
      assert EndOfHead(Length(r)) + "" == EndOfHead(Length(r));
    }
  }

  // A reader that starts at the head of the message finds the end of the head at the
  // first empty line.  The one Content-length field counts the body exactly if and only
  // if the mapping, if there is one, is no shorter than stat said.
  lemma MessageFrames(r: Reply)
    requires r.code >= 0
    ensures ReadHead(Message(r), None) == Some((Some(Length(r)), Generated(r) + FileBytes(r)))
    ensures Framed(Message(r)) <==> (r.file.Some? ==> |r.file.value| >= r.stat.size)
    ensures Flatten(Pieces(r)) != ""
  {
    var lines := EarlyLines(r.code, r.keepAlive, r.path);
    HeadPrinted(r.code, r.keepAlive, r.path);
    TailPrinted(r);
    FlattenConcat(HeadPieces(r.code, r.keepAlive, r.path), TailPieces(r));
    Joined(PrintLines(lines), EndOfHead(Length(r)), Generated(r), FileBytes(r));
    EarlyLinesOk(r.code, r.keepAlive, r.path);
    HeadFrames(lines, Length(r), Generated(r) + FileBytes(r));
  }

  // A file that was mapped when it had 5 bytes and has grown to 9: its reply is not framed.
  lemma ShortMappingBreaksFrame()
    ensures var d := Disk((p: string) => Some(FileStat(false, true, 9)), (p: string, n: nat) => Some("12345"));
            !Framed(Message(ReplyTo(d, "/srv", "/f", true, 200, FileStat(false, false, 0))))
  {
    var d := Disk((p: string) => Some(FileStat(false, true, 9)), (p: string, n: nat) => Some("12345"));
    MessageFrames(ReplyTo(d, "/srv", "/f", true, 200, FileStat(false, false, 0)));
  }

  lemma Joined(lines: string, end: string, generated: string, file: string)
    ensures lines + (end + generated) + file == lines + end + (generated + file)
  {
  }

  // ---------- Appending it ----------

  // How a buffer stands after some appends, the first of which has the k-th answer of the
  // allocator; None if one of them fails.
  function AppendAll(sh: Shape, pieces: seq<string>, memory: nat -> bool, k: nat): (r: Option<Shape>)
    requires ShapeOk(sh)
    ensures r.Some? ==> ShapeOk(r.value)
  {
    if pieces == [] then Some(sh)
    else
      var n := |pieces| - 1;
      var p := AppendAll(sh, pieces[..n], memory, k);
      if p.None? then None else Appended(p.value, |pieces[n]|, memory(k + n))
  }

  lemma {:induction false} AppendAllConcat(sh: Shape, a: seq<string>, b: seq<string>, memory: nat -> bool, k: nat)
    requires ShapeOk(sh)
    ensures AppendAll(sh, a + b, memory, k) ==
            var p := AppendAll(sh, a, memory, k);
            if p.None? then None else AppendAll(p.value, b, memory, k + |a|)
  {
    if b == [] {
      assert a + b == a;
    } else {
      assert (a + b)[..|a + b| - 1] == a + b[..|b| - 1];
      AppendAllConcat(sh, a, b[..|b| - 1], memory, k);
    }
  }

  // What fits, once the readable bytes have been moved, is appended whatever the allocator
  // answers; without memory nothing else is.
  lemma {:induction false} FitsWithout(sh: Shape, pieces: seq<string>, memory: nat -> bool, k: nat)
    requires ShapeOk(sh)
    ensures |Flatten(pieces)| <= Room(sh) + sh.readPos ==>
              var r := AppendAll(sh, pieces, memory, k);
              r.Some? && Room(r.value) + r.value.readPos == Room(sh) + sh.readPos - |Flatten(pieces)|
    ensures (forall i: nat :: !memory(i)) ==>
              (AppendAll(sh, pieces, memory, k).Some? <==> |Flatten(pieces)| <= Room(sh) + sh.readPos)
  {
    if pieces != [] {
      FitsWithout(sh, pieces[..|pieces| - 1], memory, k);
    }
  }

  // With memory everything that can be addressed is appended.
  lemma {:induction false} FitsWith(sh: Shape, pieces: seq<string>, memory: nat -> bool, k: nat)
    requires ShapeOk(sh) && (forall i: nat :: memory(i)) && sh.writePos + |Flatten(pieces)| + 1 <= MAX_BYTES
    ensures var r := AppendAll(sh, pieces, memory, k);
            r.Some? && r.value.writePos <= sh.writePos + |Flatten(pieces)|
  {
    if pieces != [] {
      FitsWith(sh, pieces[..|pieces| - 1], memory, k);
    }
  }

  // A buffer as far as appending goes.
  datatype Written = Written(shape: Shape, contents: string)

  // From `a`, appending the pieces has come to `b`, or has failed.
  ghost predicate Wrote(a: Written, pieces: seq<string>, memory: nat -> bool, k: nat, st: Status, b: Written)
    requires ShapeOk(a.shape)
  {
    WroteBelow(3, a, pieces, memory, k, st, b)
  }

  // The methods below use three laws of the relation and not its definition, which stands
  // `depth` levels down, where a proof does not unfold it by itself.
  ghost predicate WroteBelow(depth: nat, a: Written, pieces: seq<string>, memory: nat -> bool, k: nat, st: Status, b: Written)
    requires ShapeOk(a.shape)
  {
    if depth > 0 then WroteBelow(depth - 1, a, pieces, memory, k, st, b)
    else
      match AppendAll(a.shape, pieces, memory, k)
      case Some(sh) => st == Done && b == Written(sh, a.contents + Flatten(pieces))
      case None => st != Done
  }

  lemma WroteIs(a: Written, pieces: seq<string>, memory: nat -> bool, k: nat, st: Status, b: Written)
    requires ShapeOk(a.shape)
    ensures Wrote(a, pieces, memory, k, st, b) <==>
            match AppendAll(a.shape, pieces, memory, k)
            case Some(sh) => st == Done && b == Written(sh, a.contents + Flatten(pieces))
            case None => st != Done
  {
    assert WroteBelow(3, a, pieces, memory, k, st, b) == WroteBelow(2, a, pieces, memory, k, st, b);
    assert WroteBelow(2, a, pieces, memory, k, st, b) == WroteBelow(1, a, pieces, memory, k, st, b);
    assert WroteBelow(1, a, pieces, memory, k, st, b) == WroteBelow(0, a, pieces, memory, k, st, b);
  }

  // One append.
  lemma WroteOne(a: Written, p: string, memory: nat -> bool, k: nat, st: Status, b: Written)
    requires ShapeOk(a.shape)
    requires match Appended(a.shape, |p|, memory(k))
             case Some(sh) => st == Done && b == Written(sh, a.contents + p)
             case None => st != Done
    ensures Wrote(a, [p], memory, k, st, b)
  {
    assert [p][..0] == [];
    assert AppendAll(a.shape, [], memory, k) == Some(a.shape);
    FlattenOne(p);
    WroteIs(a, [p], memory, k, st, b);
  }

  // Some appends and then others.
  lemma WroteBoth(a: Written, p: seq<string>, b: Written, q: seq<string>, memory: nat -> bool, k: nat, st: Status, c: Written)
    requires ShapeOk(a.shape) && Wrote(a, p, memory, k, Done, b)
    requires ShapeOk(b.shape) && Wrote(b, q, memory, k + |p|, st, c)
    ensures Wrote(a, p + q, memory, k, st, c)
  {
    WroteIs(a, p, memory, k, Done, b);
    WroteIs(b, q, memory, k + |p|, st, c);
    WroteIs(a, p + q, memory, k, st, c);
    AppendAllConcat(a.shape, p, q, memory, k);
    FlattenConcat(p, q);
    Reassociate(a.contents, Flatten(p), Flatten(q));
  }

  // Nothing comes after an append that failed.
  lemma WroteNot(a: Written, p: seq<string>, q: seq<string>, memory: nat -> bool, k: nat, st: Status, b: Written)
    requires ShapeOk(a.shape) && Wrote(a, p, memory, k, st, b) && st != Done
    ensures Wrote(a, p + q, memory, k, st, b)
  {
    WroteIs(a, p, memory, k, st, b);
    WroteIs(a, p + q, memory, k, st, b);
    AppendAllConcat(a.shape, p, q, memory, k);
  }

  // ---------- The builder ----------

  // `memory` are the allocator's answers to the appends of one response.
  class Response {
    var code: int
    var isKeepAlive: bool
    var path: string
    var staticDir: string
    var fileStat: FileStat
    var file: Option<string>

    constructor (staticDir: string, path: string, isKeepAlive: bool, code: int)
      requires staticDir != ""
      ensures this.code == code && this.isKeepAlive == isKeepAlive && this.path == path && this.staticDir == staticDir
      ensures file == None && fileStat == FileStat(false, false, 0)
    {
      this.code, this.isKeepAlive, this.path, this.staticDir := code, isKeepAlive, path, staticDir;
      file, fileStat := None, FileStat(false, false, 0);
    }

    method Init(staticDir: string, path: string, isKeepAlive: bool, code: int)
      requires staticDir != "" && file == None
      modifies this
      ensures this.code == code && this.isKeepAlive == isKeepAlive && this.path == path && this.staticDir == staticDir
      ensures file == None && fileStat == FileStat(false, false, 0)
    {
      this.code, this.isKeepAlive, this.path, this.staticDir := code, isKeepAlive, path, staticDir;
      fileStat := FileStat(false, false, 0);
    }

    // The mapping goes back to the cache.
    method UnmapFile()
      modifies this`file
      ensures file == None
    {
      file := None;
    }

    // The fields as a reply.
    function AsReply(): Reply
      reads this
    {
      Reply(code, path, isKeepAlive, fileStat, file)
    }

    method ErrorHtml(disk: Disk)
      modifies this`path, this`fileStat
      ensures ErrorPage(code).None? ==> path == old(path) && fileStat == old(fileStat)
      ensures ErrorPage(code).Some? ==>
                && path == ErrorPage(code).value
                && fileStat == (match disk.stat(staticDir + path) case Some(st) => st case None => old(fileStat))
    {
      if ErrorPage(code).Some? {
        path := ErrorPage(code).value;
        var st := disk.stat(staticDir + path);
        if st.Some? {
          fileStat := st.value;
        }
      }
    }

    ghost function Now(buff: Buffer): Written
      reads buff, buff.data
      requires buff.Valid()
    {
      Written(buff.GetShape(), buff.Contents())
    }

    // Append of a string in memory, with the k-th answer of the allocator.
    method Put(buff: Buffer, s: string, memory: nat -> bool, k: nat) returns (st: Status)
      requires buff.Valid()
      modifies buff, buff.data
      ensures buff.Valid() && (buff.data == old(buff.data) || fresh(buff.data))
      ensures Wrote(old(Now(buff)), [s], memory, k, st, Now(buff))
    {
      ghost var a := Now(buff);
      if |s| > MAX_BYTES {
        st := NoMemory;
      } else {
        st := buff.Append(s, memory(k));
      }
      WroteOne(a, s, memory, k, st, Now(buff));
    }

    method AddStateLine(buff: Buffer, memory: nat -> bool) returns (st: Status)
      requires buff.Valid()
      modifies this`code, buff, buff.data
      ensures buff.Valid() && (buff.data == old(buff.data) || fresh(buff.data))
      ensures code == SentCode(old(code))
      ensures Wrote(old(Now(buff)), [StatusLine(code) + "\r\n"], memory, 0, st, Now(buff))
    {
      if StatusText(code).None? {
        code := 400;
      }
      st := Put(buff, "HTTP/1.1 " + Decimal(code) + " " + StatusText(code).value + "\r\n", memory, 0);
    }

    method AddConnection(buff: Buffer, memory: nat -> bool) returns (st: Status)
      requires buff.Valid()
      modifies buff, buff.data
      ensures buff.Valid() && (buff.data == old(buff.data) || fresh(buff.data))
      ensures Wrote(old(Now(buff)), ConnectionPieces(isKeepAlive), memory, 1, st, Now(buff))
    {
      ghost var a := Now(buff);
      var first, second := "Connection: ", if isKeepAlive then "keep-alive\r\n" else "close\r\n";
      var third := "keep-alive: max=6, timeout=120\r\n";
      ghost var rest := if isKeepAlive then [third] else [];
      assert ConnectionPieces(isKeepAlive) == [first] + ([second] + rest) == [first] + [second] + rest;
      st := Put(buff, first, memory, 1);
      if st != Done {
        WroteNot(a, [first], [second] + rest, memory, 1, st, Now(buff));
        return;
      }
      ghost var b := Now(buff);
      st := Put(buff, second, memory, 2);
      WroteBoth(a, [first], b, [second], memory, 1, st, Now(buff));
      if st != Done {
        WroteNot(a, [first] + [second], rest, memory, 1, st, Now(buff));
        return;
      }
      if isKeepAlive {
        ghost var c := Now(buff);
        st := Put(buff, third, memory, 3);
        WroteBoth(a, [first] + [second], c, [third], memory, 1, st, Now(buff));
      } else {
        assert [first] + [second] + rest == [first] + [second];
      }
    }

    method AddHeader(buff: Buffer, memory: nat -> bool) returns (st: Status)
      requires buff.Valid()
      modifies buff, buff.data
      ensures buff.Valid() && (buff.data == old(buff.data) || fresh(buff.data))
      ensures Wrote(old(Now(buff)), ConnectionPieces(isKeepAlive) + ["Content-type: " + FileType(path) + "\r\n"],
                    memory, 1, st, Now(buff))
    {
      ghost var a, ps := Now(buff), ConnectionPieces(isKeepAlive);
      var typeLine := "Content-type: " + FileType(path) + "\r\n";
      st := AddConnection(buff, memory);
      if st != Done {
        WroteNot(a, ps, [typeLine], memory, 1, st, Now(buff));
        return;
      }
      ghost var b := Now(buff);
      st := Put(buff, typeLine, memory, 1 + if isKeepAlive then 3 else 2);
      WroteBoth(a, ps, b, [typeLine], memory, 1, st, Now(buff));
    }

    // The generated page, for a file that could not be mapped.
    method ErrorContent(buff: Buffer, message: string, memory: nat -> bool, k: nat) returns (st: Status)
      requires buff.Valid() && code >= 0
      modifies buff, buff.data
      ensures buff.Valid() && (buff.data == old(buff.data) || fresh(buff.data))
      ensures var body := ErrorBody(code, message);
              Wrote(old(Now(buff)), [EndOfHead(|body|), body], memory, k, st, Now(buff))
    {
      ghost var a := Now(buff);
      var body := ErrorBody(code, message);
      assert [EndOfHead(|body|), body] == [EndOfHead(|body|)] + [body];
      st := Put(buff, EndOfHead(|body|), memory, k);
      if st != Done {
        WroteNot(a, [EndOfHead(|body|)], [body], memory, k, st, Now(buff));
        return;
      }
      ghost var b := Now(buff);
      st := Put(buff, body, memory, k + 1);
      WroteBoth(a, [EndOfHead(|body|)], b, [body], memory, k, st, Now(buff));
    }

    // The Content-length field, the empty line, and whatever of the body is not the file.
    method AddContent(buff: Buffer, disk: Disk, memory: nat -> bool, k: nat) returns (st: Status)
      requires buff.Valid() && code >= 0 && file == None
      modifies this`file, buff, buff.data
      ensures buff.Valid() && (buff.data == old(buff.data) || fresh(buff.data))
      ensures file == if fileStat.size > 0 then disk.mapping(staticDir + path, fileStat.size) else None
      ensures Wrote(old(Now(buff)), TailPieces(AsReply()), memory, k, st, Now(buff))
    {
      var fullPath := staticDir + path;
      if fileStat.size <= 0 {
        st := Put(buff, EndOfHead(0), memory, k);
        return;
      }
      var cachedFile := disk.mapping(fullPath, fileStat.size);
      if cachedFile.None? {
        st := ErrorContent(buff, "File NotFound!", memory, k);
        return;
      }
      file := cachedFile;
      st := Put(buff, EndOfHead(fileStat.size), memory, k);
    }

    // Source: the first part of MakeResponse, which looks for the file and turns to the
    // page of the error if there is one.
    method Choose(disk: Disk)
      requires file == None
      modifies this`code, this`path, this`fileStat
      ensures code == CodeFor(disk, staticDir + old(path), old(code))
      ensures path == PathFor(code, old(path))
      ensures fileStat == StatFor(disk, staticDir, code, old(path), old(fileStat))
    {
      var found := disk.stat(staticDir + path);
      if found.Some? {
        fileStat := found.value;
      }
      if found.None? || fileStat.isDir {
        code := 404;
      } else if !fileStat.othersRead {
        code := 403;
      } else if code == -1 {
        code := 200;
      }
      ErrorHtml(disk);
    }

    method AddHead(buff: Buffer, memory: nat -> bool) returns (st: Status)
      requires buff.Valid()
      modifies this`code, buff, buff.data
      ensures buff.Valid() && (buff.data == old(buff.data) || fresh(buff.data))
      ensures code == SentCode(old(code))
      ensures Wrote(old(Now(buff)), HeadPieces(code, isKeepAlive, path), memory, 0, st, Now(buff))
    {
      ghost var a := Now(buff);
      st := AddStateLine(buff, memory);
      ghost var p, q := [StatusLine(code) + "\r\n"], ConnectionPieces(isKeepAlive) + ["Content-type: " + FileType(path) + "\r\n"];
      if st != Done {
        WroteNot(a, p, q, memory, 0, st, Now(buff));
        return;
      }
      ghost var b := Now(buff);
      st := AddHeader(buff, memory);
      WroteBoth(a, p, b, q, memory, 0, st, Now(buff));
    }

    // Source: the three calls that end MakeResponse.
    method Emit(buff: Buffer, disk: Disk, memory: nat -> bool) returns (st: Status)
      requires buff.Valid() && file == None
      modifies this`code, this`file, buff, buff.data
      ensures buff.Valid() && (buff.data == old(buff.data) || fresh(buff.data))
      ensures code == SentCode(old(code))
      ensures var r := old(WithFile(disk));
              Wrote(old(Now(buff)), Pieces(r), memory, 0, st, Now(buff)) && (st == Done ==> AsReply() == r)
    {
      ghost var a, r := Now(buff), WithFile(disk);
      st := AddHead(buff, memory);
      if st != Done {
        WroteNot(a, HeadPieces(r.code, r.keepAlive, r.path), TailPieces(r), memory, 0, st, Now(buff));
        return;
      }
      st := AddTail(buff, disk, memory, a, r);
    }

    // The last of the three calls.
    method AddTail(buff: Buffer, disk: Disk, memory: nat -> bool, ghost a: Written, ghost r: Reply) returns (st: Status)
      requires buff.Valid() && file == None && code >= 0 && WithFile(disk) == r && code == r.code
      requires ShapeOk(a.shape) && Wrote(a, HeadPieces(r.code, r.keepAlive, r.path), memory, 0, Done, Now(buff))
      modifies this`file, buff, buff.data
      ensures buff.Valid() && (buff.data == old(buff.data) || fresh(buff.data))
      ensures Wrote(a, Pieces(r), memory, 0, st, Now(buff)) && AsReply() == r
    {
      HeadCount(r.code, r.keepAlive, r.path);
      ghost var b := Now(buff);
      st := AddContent(buff, disk, memory, if isKeepAlive then 5 else 4);
      assert AsReply() == r;
      WroteBoth(a, HeadPieces(r.code, r.keepAlive, r.path), b, TailPieces(r), memory, 0, st, Now(buff));
    }

    // The reply, once the code has been checked and the mapping fetched.
    function WithFile(disk: Disk): Reply
      reads this
    {
      Reply(SentCode(code), path, isKeepAlive, fileStat,
            if fileStat.size > 0 then disk.mapping(staticDir + path, fileStat.size) else None)
    }

    // The reply to the request goes into the buffer, exactly if the buffer can hold it, and
    // the mapping into `file`.
    method MakeResponse(buff: Buffer, disk: Disk, memory: nat -> bool) returns (st: Status)
      requires buff.Valid() && file == None
      modifies this, buff, buff.data
      ensures buff.Valid() && (buff.data == old(buff.data) || fresh(buff.data))
      ensures var r := ReplyTo(disk, old(staticDir), old(path), old(isKeepAlive), old(code), old(fileStat));
              match AppendAll(old(buff.GetShape()), Pieces(r), memory, 0)
              case Some(sh) =>
                && st == Done && AsReply() == r && buff.GetShape() == sh
                && buff.Contents() == old(buff.Contents()) + Flatten(Pieces(r))
              case None => st != Done
    {
      ghost var a, r := Now(buff), ReplyTo(disk, staticDir, path, isKeepAlive, code, fileStat);
      Choose(disk);
      st := Emit(buff, disk, memory);
      WroteIs(a, Pieces(r), memory, 0, st, Now(buff));
    }
  }
}
