// The text of a response, byte by byte, from what the file system says: the promises of
// src/http/response.cpp with its literals.
module ReplyTexts {
  import opened Prelude
  import opened Responses

  // A response, as it is read by a browser.
  function Sent(status: string, keepAlive: bool, fileType: string, length: nat, body: string): string {
    status + "\r\n"
    + ((if keepAlive then "Connection: " + "keep-alive\r\n" + "keep-alive: max=6, timeout=120\r\n"
        else "Connection: " + "close\r\n")
       + ("Content-type: " + fileType + "\r\n"))
    + ("Content-length: " + Decimal(length) + "\r\n" + "\r\n")
    + body
  }

  // ---------- Status lines ----------

  function StatusOf(digits: string, text: string): string {
    "HTTP/1.1 " + digits + " " + text
  }

  lemma Hundreds()
    ensures Decimal(200) == "200" && Decimal(400) == "400" && Decimal(403) == "403" && Decimal(404) == "404"
  {
    assert Decimal(20) == "20" && Decimal(40) == "40";
  }

  lemma StatusLines()
    ensures StatusLine(200) == StatusOf("200", "OK") && StatusLine(400) == StatusOf("400", "Bad Request")
    ensures StatusLine(403) == StatusOf("403", "Forbidden") && StatusLine(404) == StatusOf("404", "Not Found")
  {
    Hundreds();
  }

  // ---------- File types ----------

  lemma LastDotIs(p: string, i: nat)
    requires i < |p| && p[i] == '.' && forall j :: i < j < |p| ==> p[j] != '.'
    ensures LastDot(p, |p|) == Some(i)
  {
  }

  // The type of a path is that of the suffix behind its last dot, and text without one.
  lemma FileTypeOf(path: string, suffix: string)
    requires '.' !in suffix
    ensures FileType(path + ("." + suffix)) == TypeOfSuffix("." + suffix)
  {
    var p := path + ("." + suffix);
    forall j | |path| < j < |p|
      ensures p[j] != '.'
    {
      assert p[j] == suffix[j - |path| - 1];
    }
    LastDotIs(p, |path|);
    assert p[|path|..] == "." + suffix;
  }

  lemma NoSuffix(path: string)
    requires '.' !in path
    ensures FileType(path) == "text/plain"
  {
  }

  lemma MarkupTypes()
    ensures TypeOfSuffix(".html") == "text/html"
    ensures TypeOfSuffix(".xml") == "text/xml"
    ensures TypeOfSuffix(".xhtml") == "application/xhtml+xml"
  {
  }

  lemma TextTypes()
    ensures TypeOfSuffix(".txt") == "text/plain"
    ensures TypeOfSuffix(".rtf") == "application/rtf"
    ensures TypeOfSuffix(".pdf") == "application/pdf"
    ensures TypeOfSuffix(".word") == "application/nsword"
  {
  }

  lemma ImageTypes()
    ensures TypeOfSuffix(".png") == "image/png"
    ensures TypeOfSuffix(".gif") == "image/gif"
    ensures TypeOfSuffix(".jpg") == "image/jpeg"
    ensures TypeOfSuffix(".jpeg") == "image/jpeg"
  {
  }

  lemma SoundTypes()
    ensures TypeOfSuffix(".au") == "audio/basic"
    ensures TypeOfSuffix(".mpeg") == "video/mpeg"
    ensures TypeOfSuffix(".mpg") == "video/mpeg"
    ensures TypeOfSuffix(".avi") == "video/x-msvideo"
  {
  }

  lemma ArchiveTypes()
    ensures TypeOfSuffix(".gz") == "application/x-gzip"
    ensures TypeOfSuffix(".tar") == "application/x-tar"
  {
  }

  lemma ScriptTypes()
    ensures TypeOfSuffix(".css") == "text/css "
    ensures TypeOfSuffix(".js") == "text/javascript "
  {
  }

  const SUFFIXES: set<string> :=
    {".html", ".xml", ".xhtml", ".txt", ".rtf", ".pdf", ".word", ".png", ".gif", ".jpg",
     ".jpeg", ".au", ".mpeg", ".mpg", ".avi", ".gz", ".tar", ".css", ".js"}

  lemma OtherTypes(suffix: string)
    requires suffix !in SUFFIXES
    ensures TypeOfSuffix(suffix) == "text/plain"
  {
  }

  lemma ErrorPages()
    ensures FileType("/400.html") == FileType("/403.html") == FileType("/404.html") == "text/html"
  {
    LastDotIs("/400.html", 4);
    LastDotIs("/403.html", 4);
    LastDotIs("/404.html", 4);
    assert "/400.html"[4..] == "/403.html"[4..] == "/404.html"[4..] == ".html";
    MarkupTypes();
  }

  // The text of any reply, from its code, path, stat and mapping.
  lemma MessageText(r: Reply)
    requires r.code >= 0
    ensures Message(r) == Sent(StatusLine(r.code), r.keepAlive, FileType(r.path), Length(r), Generated(r) + FileBytes(r))
  {
    var c := "Content-type: " + FileType(r.path) + "\r\n";
    FlattenConcat(HeadPieces(r.code, r.keepAlive, r.path), TailPieces(r));
    TailPrinted(r);
    FlattenConcat([StatusLine(r.code) + "\r\n"], ConnectionPieces(r.keepAlive) + [c]);
    FlattenConcat(ConnectionPieces(r.keepAlive), [c]);
    FlattenOne(StatusLine(r.code) + "\r\n");
    FlattenOne(c);
    ConnectionText(r.keepAlive);
    Joined(Flatten(HeadPieces(r.code, r.keepAlive, r.path)), EndOfHead(Length(r)), Generated(r), FileBytes(r));
  }

  lemma ConnectionText(keepAlive: bool)
    ensures Flatten(ConnectionPieces(keepAlive)) ==
            if keepAlive then "Connection: " + "keep-alive\r\n" + "keep-alive: max=6, timeout=120\r\n"
            else "Connection: " + "close\r\n"
  {
    if keepAlive {
      FlattenThree("Connection: ", "keep-alive\r\n", "keep-alive: max=6, timeout=120\r\n");
    } else {
      FlattenTwo("Connection: ", "close\r\n");
    }
  }

  // What a request is answered with: the code it came with, or the one of the error.
  datatype Found = Page | NotFound | NotReadable

  function Find(disk: Disk, asked: string): Found {
    var s := disk.stat(asked);
    if s.None? || s.value.isDir then NotFound else if !s.value.othersRead then NotReadable else Page
  }

  // A readable file of n > 0 bytes, with at least n of them mapped.
  lemma PageText(disk: Disk, dir: string, asked: string, keepAlive: bool, n: nat, mapped: string)
    requires disk.stat(dir + asked) == Some(FileStat(false, true, n)) && n > 0
    requires disk.mapping(dir + asked, n) == Some(mapped) && |mapped| >= n
    ensures Message(ReplyTo(disk, dir, asked, keepAlive, 200, FileStat(false, false, 0))) ==
            Sent(StatusOf("200", "OK"), keepAlive, FileType(asked), n, mapped[..n])
  {
    var r := ReplyTo(disk, dir, asked, keepAlive, 200, FileStat(false, false, 0));
    assert r.code == 200 && r.path == asked && r.stat.size == n && r.file == Some(mapped);
    StatusLines();
    TextWithFile(r, mapped);
  }

  // The code of an error, its reason, and its page: 404 for a missing file or a directory,
  // 403 for one that others may not read, 400 for a bad request of a file that is there.
  datatype Failure = Failure(code: int, digits: string, reason: string, page: string)

  function FailureOf(found: Found): Failure {
    match found
    case NotFound => Failure(404, "404", "Not Found", "/404.html")
    case NotReadable => Failure(403, "403", "Forbidden", "/403.html")
    case Page => Failure(400, "400", "Bad Request", "/400.html")
  }

  lemma ErrorReply(disk: Disk, dir: string, asked: string, keepAlive: bool, code: int, n: nat, mapped: string)
    requires code == 400 || (code == 200 && Find(disk, dir + asked) != Page)
    requires var page := FailureOf(Find(disk, dir + asked)).page;
             && disk.stat(dir + page).Some? && disk.stat(dir + page).value.size == n > 0
             && disk.mapping(dir + page, n) == Some(mapped)
    ensures var r, f := ReplyTo(disk, dir, asked, keepAlive, code, FileStat(false, false, 0)), FailureOf(Find(disk, dir + asked));
            r.code == f.code && r.path == f.page && r.keepAlive == keepAlive && r.stat.size == n && r.file == Some(mapped)
  {
  }

  // An error is answered with its page, if stat finds that with n > 0 bytes and at least n
  // of them are mapped.
  lemma ErrorText(disk: Disk, dir: string, asked: string, keepAlive: bool, code: int, n: nat, mapped: string)
    requires code == 400 || (code == 200 && Find(disk, dir + asked) != Page)
    requires var page := FailureOf(Find(disk, dir + asked)).page;
             && disk.stat(dir + page).Some? && disk.stat(dir + page).value.size == n > 0
             && disk.mapping(dir + page, n) == Some(mapped) && |mapped| >= n
    ensures var f := FailureOf(Find(disk, dir + asked));
            Message(ReplyTo(disk, dir, asked, keepAlive, code, FileStat(false, false, 0))) ==
            Sent(StatusOf(f.digits, f.reason), keepAlive, "text/html", n, mapped[..n])
  {
    ErrorReply(disk, dir, asked, keepAlive, code, n, mapped);
    TextWithFile(ReplyTo(disk, dir, asked, keepAlive, code, FileStat(false, false, 0)), mapped);
    StatusLines();
    ErrorPages();
  }

  lemma TextWithFile(r: Reply, mapped: string)
    requires r.code >= 0 && r.file == Some(mapped) && |mapped| >= r.stat.size > 0
    ensures Message(r) == Sent(StatusLine(r.code), r.keepAlive, FileType(r.path), r.stat.size, mapped[..r.stat.size])
  {
    MessageText(r);
    assert "" + mapped[..r.stat.size] == mapped[..r.stat.size];
  }

  // A file without bytes has an empty body; one that cannot be mapped is replaced by a
  // generated page.
  lemma NoFileText(disk: Disk, dir: string, asked: string, keepAlive: bool, n: nat)
    requires disk.stat(dir + asked) == Some(FileStat(false, true, n)) && (n > 0 ==> disk.mapping(dir + asked, n) == None)
    ensures var body := if n == 0 then "" else
              "<html><title>Error</title>" + "<body bgcolor=\"ffffff\">" + "200" + " : " + "OK" + "\n"
              + "<p>" + "File NotFound!" + "</p>" + "<hr><em>TinyWebServer</em></body></html>";
            Message(ReplyTo(disk, dir, asked, keepAlive, 200, FileStat(false, false, 0))) ==
            Sent(StatusOf("200", "OK"), keepAlive, FileType(asked), |body|, body)
  {
    var r := ReplyTo(disk, dir, asked, keepAlive, 200, FileStat(false, false, 0));
    StatusLines();
    Hundreds();
    MessageText(r);
    assert Generated(r) + "" == Generated(r);
  }
}
