// Reading and writing a connection: Conn::Read, Conn::Write and the part of
// Conn::Process that sets up the gathering write, of src/http/conn.cpp.
module ConnIo {
  import opened Prelude
  import opened Buffers

  const MAX_READS: nat := 8
  const READ_ENOUGH: nat := 65536
  const MAX_ATTEMPTS: nat := 2
  const MAX_WRITE_PER_CALL: nat := 4 * 1024 * 1024

  // Cutting a concatenation in its first or its second part.
  lemma CutConcat(a: seq<char>, b: seq<char>, n: nat)
    requires n <= |a| + |b|
    ensures n <= |a| ==> (a + b)[n..] == a[n..] + b
    ensures n >= |a| ==> (a + b)[n..] == b[n - |a|..]
  {
  }

  lemma CutSlice(a: seq<char>, base: nat, len: nat, n: nat)
    requires n <= len && base + len <= |a|
    ensures a[base..base + len][n..] == a[base + n..base + len]
  {
  }

  // A cut moves bytes from what is pending to what is accepted.
  lemma CutMoves(done: seq<char>, rest: seq<char>, n: nat)
    requires n <= |rest|
    ensures done + rest[..n] + rest[n..] == done + rest
  {
    assert rest[..n] + rest[n..] == rest;
  }

  // One read: what it returned, what came, and how the buffer and the allocator stood
  // before it.
  datatype OneRead = OneRead(len: int, bytes: seq<char>, before: Shape, memoryLeft: bool)

  ghost predicate OneReadOk(r: OneRead) {
    && ShapeOk(r.before) && |r.bytes| == (if r.len < 0 then 0 else r.len)
    && (!Asked(r) ==> r.len == -1)
  }

  // The kernel is not asked if the buffer cannot get the room it wants.
  predicate Asked(r: OneRead)
    requires ShapeOk(r.before)
  {
    Prepared(r.before, r.memoryLeft).Some?
  }

  // More came than fits, and the overflow area could not be appended.
  predicate Lost(r: OneRead)
    requires ShapeOk(r.before)
  {
    Loses(r.before, r.len, r.memoryLeft)
  }

  function Kept(r: OneRead): seq<char>
    requires ShapeOk(r.before)
  {
    if Lost(r) && Room(r.before) <= |r.bytes| then r.bytes[..Room(r.before)] else r.bytes
  }

  // How the buffer stands after some reads.
  function After(start: Shape, rs: seq<OneRead>): (sh: Shape)
    requires ShapeOk(start)
    ensures ShapeOk(sh)
  {
    if rs == [] || !ShapeOk(rs[|rs| - 1].before) then start
    else AfterRead(rs[|rs| - 1].before, rs[|rs| - 1].len, rs[|rs| - 1].memoryLeft)
  }

  // The reads of one call, each from where the one before has left the buffer and with its
  // own answer of the allocator; only the last may bring nothing.
  ghost predicate Logged(start: Shape, rs: seq<OneRead>, memory: nat -> bool)
    requires ShapeOk(start)
  {
    rs == [] ||
    var init, r := rs[..|rs| - 1], rs[|rs| - 1];
    && Logged(start, init, memory) && (init != [] ==> init[|init| - 1].len > 0)
    && OneReadOk(r) && r.before == After(start, init) && r.memoryLeft == memory(|init|)
  }

  function AllBytes(rs: seq<OneRead>): seq<char> {
    if rs == [] then [] else AllBytes(rs[..|rs| - 1]) + rs[|rs| - 1].bytes
  }

  function AllKept(rs: seq<OneRead>): seq<char> {
    if rs == [] then []
    else AllKept(rs[..|rs| - 1]) + if ShapeOk(rs[|rs| - 1].before) then Kept(rs[|rs| - 1]) else []
  }

  // What the kernel has returned.
  function Results(rs: seq<OneRead>): seq<int> {
    if rs == [] then []
    else Results(rs[..|rs| - 1]) +
         if ShapeOk(rs[|rs| - 1].before) && Asked(rs[|rs| - 1]) then [rs[|rs| - 1].len] else []
  }

  // Where the buffer stands before the i-th read, from where it started, what the reads
  // before returned, and the answers of the allocator.
  function Before(start: Shape, lens: seq<int>, memory: nat -> bool): (sh: Shape)
    requires ShapeOk(start)
    ensures ShapeOk(sh)
  {
    if lens == [] then start
    else AfterRead(Before(start, lens[..|lens| - 1], memory), lens[|lens| - 1], memory(|lens| - 1))
  }

  function Lens(rs: seq<OneRead>): (lens: seq<int>)
    ensures |lens| == |rs| && forall i :: 0 <= i < |rs| ==> lens[i] == rs[i].len
  {
    seq(|rs|, i requires 0 <= i < |rs| => rs[i].len)
  }

  // The i-th of the reads that returned `lens` loses bytes.
  predicate LostAt(start: Shape, lens: seq<int>, memory: nat -> bool, i: nat)
    requires ShapeOk(start) && i < |lens|
  {
    Loses(Before(start, lens[..i], memory), lens[i], memory(i))
  }

  lemma {:induction false} LoggedBefore(start: Shape, rs: seq<OneRead>, memory: nat -> bool)
    requires ShapeOk(start) && Logged(start, rs, memory)
    ensures After(start, rs) == Before(start, Lens(rs), memory)
  {
    if rs != [] {
      var init := rs[..|rs| - 1];
      LoggedBefore(start, init, memory);
      assert Lens(rs)[..|rs| - 1] == Lens(init);
    }
  }

  ghost predicate NoneLost(start: Shape, lens: seq<int>, memory: nat -> bool)
    requires ShapeOk(start)
  {
    forall i :: 0 <= i < |lens| ==> !LostAt(start, lens, memory, i)
  }

  lemma NoneLostBefore(start: Shape, lens: seq<int>, memory: nat -> bool)
    requires ShapeOk(start) && lens != []
    ensures var n := |lens| - 1;
            NoneLost(start, lens, memory) <==> NoneLost(start, lens[..n], memory) && !LostAt(start, lens, memory, n)
  {
    var n := |lens| - 1;
    forall i | 0 <= i < n
      ensures LostAt(start, lens, memory, i) <==> LostAt(start, lens[..n], memory, i)
    {
      assert lens[..n][..i] == lens[..i];
    }
  }

  // The last of some reads loses bytes exactly as the log says.
  lemma LastLost(start: Shape, rs: seq<OneRead>, memory: nat -> bool)
    requires ShapeOk(start) && rs != [] && Logged(start, rs, memory)
    ensures var n := |rs| - 1; Lens(rs)[..n] == Lens(rs[..n]) && (LostAt(start, Lens(rs), memory, n) <==> Lost(rs[n]))
  {
    var n := |rs| - 1;
    LoggedBefore(start, rs[..n], memory);
    assert Lens(rs)[..n] == Lens(rs[..n]);
  }

  // Everything is kept exactly when no read loses anything, which the start, the results of
  // the reads and the answers of the allocator decide.
  lemma {:induction false} KeptIsAll(start: Shape, rs: seq<OneRead>, memory: nat -> bool)
    requires ShapeOk(start) && Logged(start, rs, memory)
    ensures |AllKept(rs)| <= |AllBytes(rs)|
    ensures AllKept(rs) == AllBytes(rs) <==> NoneLost(start, Lens(rs), memory)
  {
    if rs != [] {
      var n := |rs| - 1;
      KeptIsAll(start, rs[..n], memory);
      LastLost(start, rs, memory);
      NoneLostBefore(start, Lens(rs), memory);
      KeptOne(AllKept(rs[..n]), AllBytes(rs[..n]), rs[n]);
    }
  }

  lemma KeptOne(kept: seq<char>, all: seq<char>, r: OneRead)
    requires OneReadOk(r) && |kept| <= |all|
    ensures |kept + Kept(r)| <= |all + r.bytes|
    ensures kept + Kept(r) == all + r.bytes <==> kept == all && !Lost(r)
  {
    if kept + Kept(r) == all + r.bytes {
      assert |kept| == |all| && |Kept(r)| == |r.bytes|;
      assert kept == (kept + Kept(r))[..|kept|] == (all + r.bytes)[..|all|] == all;
    }
  }

  // A buffer that starts no longer than this cannot reach the longest in eight reads.
  const SMALL: nat := 0x1_0000_0000

  // The kernel fills no more than the blocks it was given.
  ghost predicate WithinRoom(r: OneRead)
    requires ShapeOk(r.before)
  {
    var p := Prepared(r.before, r.memoryLeft);
    p.Some? ==> r.len <= Room(p.value) + if Room(p.value) < EXTRA_BUF_SIZE then EXTRA_BUF_SIZE else 0
  }

  ghost predicate WithinRooms(rs: seq<OneRead>) {
    forall r :: r in rs ==> ShapeOk(r.before) && WithinRoom(r)
  }

  // No larger after n reads.
  function Bound(n: nat, size: nat): nat {
    if n == 0 then size else 2 * Bound(n - 1, size) + 2 * EXTRA_BUF_SIZE + 2
  }

  lemma BoundOfSeven(size: nat, n: nat)
    requires size <= SMALL && n <= 7
    ensures Bound(n, size) <= 0x100_0000_0000
  {
    assert Bound(1, size) == 2 * Bound(0, size) + 8194;
    assert Bound(2, size) == 2 * Bound(1, size) + 8194;
    assert Bound(3, size) == 2 * Bound(2, size) + 8194;
    assert Bound(4, size) == 2 * Bound(3, size) + 8194;
    assert Bound(5, size) == 2 * Bound(4, size) + 8194;
    assert Bound(6, size) == 2 * Bound(5, size) + 8194;
    assert Bound(7, size) == 2 * Bound(6, size) + 8194;
  }

  lemma SizeAfterOne(start: Shape, rs: seq<OneRead>, memory: nat -> bool)
    requires ShapeOk(start) && rs != [] && Logged(start, rs, memory) && WithinRooms(rs)
    ensures After(start, rs).size <= 2 * After(start, rs[..|rs| - 1]).size + 2 * EXTRA_BUF_SIZE + 2
    ensures WithinRooms(rs[..|rs| - 1])
  {
    var r := rs[|rs| - 1];
    assert r in rs;
    Grows(r.before, r.len, r.memoryLeft);
  }

  lemma {:induction false} SizeAfter(start: Shape, rs: seq<OneRead>, memory: nat -> bool)
    requires ShapeOk(start) && Logged(start, rs, memory) && WithinRooms(rs)
    ensures After(start, rs).size <= Bound(|rs|, start.size)
  {
    if rs != [] {
      SizeAfterOne(start, rs, memory);
      SizeAfter(start, rs[..|rs| - 1], memory);
    }
  }

  // Where memory lasts, a read into a buffer that is not too long loses nothing.
  lemma NotLost(r: OneRead)
    requires OneReadOk(r) && WithinRoom(r) && r.memoryLeft && r.before.size <= 0x100_0000_0000
    ensures Kept(r) == r.bytes
  {
  }

  lemma {:induction false} NothingLost(start: Shape, rs: seq<OneRead>, memory: nat -> bool)
    requires ShapeOk(start) && Logged(start, rs, memory) && WithinRooms(rs)
    requires (forall i: nat :: memory(i)) && start.size <= SMALL && |rs| <= MAX_READS
    ensures AllKept(rs) == AllBytes(rs)
  {
    if rs != [] {
      var init, r := rs[..|rs| - 1], rs[|rs| - 1];
      SizeAfterOne(start, rs, memory);
      NothingLost(start, init, memory);
      SizeAfter(start, init, memory);
      BoundOfSeven(start.size, |init|);
      assert r in rs && r.memoryLeft;
      NotLost(r);
    }
  }

  // What the reads of one call come to.
  lemma ReadsEnd(start: Shape, rs: seq<OneRead>, memory: nat -> bool)
    requires ShapeOk(start) && Logged(start, rs, memory) && WithinRooms(rs) && |rs| <= MAX_READS
    ensures AllKept(rs) == AllBytes(rs) <==> NoneLost(start, Lens(rs), memory)
    ensures (forall i: nat :: memory(i)) && start.size <= SMALL ==> AllKept(rs) == AllBytes(rs)
  {
    KeptIsAll(start, rs, memory);
    if (forall i: nat :: memory(i)) && start.size <= SMALL {
      NothingLost(start, rs, memory);
    }
  }

  // How far a buffer can grow in one read.
  lemma Grows(sh: Shape, len: int, memoryLeft: bool)
    requires ShapeOk(sh)
    requires Prepared(sh, memoryLeft).Some? ==>
               var r := Room(Prepared(sh, memoryLeft).value); len <= r + if r < EXTRA_BUF_SIZE then EXTRA_BUF_SIZE else 0
    ensures AfterRead(sh, len, memoryLeft).size <= 2 * sh.size + 2 * EXTRA_BUF_SIZE + 2
  {
  }

  lemma Extend(rs: seq<OneRead>, r: OneRead)
    requires OneReadOk(r)
    ensures AllBytes(rs + [r]) == AllBytes(rs) + r.bytes && AllKept(rs + [r]) == AllKept(rs) + Kept(r)
    ensures Results(rs + [r]) == Results(rs) + if Asked(r) then [r.len] else []
  {
    assert (rs + [r])[..|rs + [r]| - 1] == rs;
  }

  // After the last read nothing calls for another: level-triggered, nothing came, enough
  // has come in, or eight reads have been made.
  ghost predicate Stops(isET: bool, rs: seq<OneRead>) {
    && 1 <= |rs| <= MAX_READS && (!isET ==> |rs| == 1)
    && (rs[|rs| - 1].len > 0 ==> !isET || |rs| == MAX_READS || |AllBytes(rs)| > READ_ENOUGH)
    && |AllBytes(rs[..|rs| - 1])| <= READ_ENOUGH
  }

  // What Read returns: an error other than EAGAIN is reported even if something was
  // read before it.
  ghost predicate Reports(rs: seq<OneRead>, ret: int, saveErrno: Option<Errno>)
    requires rs != [] && OneReadOk(rs[|rs| - 1])
  {
    var last, total := rs[|rs| - 1], |AllBytes(rs)|;
    && ret == (if last.len < 0 && saveErrno != Some(EAGAIN) then last.len else if total > 0 then total else last.len)
    && (last.len == 0 ==> saveErrno == Some(ECONNRESET))
    && (last.len < 0 ==> saveErrno.Some?)
    && (!Asked(last) ==> saveErrno == Some(ENOMEM))
  }

  // Where reading started: the buffer, and both directions of the socket.
  datatype Start = Start(contents: seq<char>, shape: Shape,
                         taken: seq<char>, incoming: seq<char>, sent: seq<char>, results: seq<int>)

  // Write goes on as long as something is left, at most twice; a second time only
  // edge-triggered and if the first write took no more than MAX_WRITE_PER_CALL.
  predicate Attempts(isET: bool, toWrite: nat, counts: seq<int>, left: nat) {
    && |counts| <= MAX_ATTEMPTS && (counts == [] <==> toWrite == 0)
    && (|counts| == 1 && counts[0] >= 0 ==> left == 0 || !isET || counts[0] > MAX_WRITE_PER_CALL)
    && (|counts| == 2 ==> 0 <= counts[0] <= MAX_WRITE_PER_CALL && isET && counts[0] < toWrite)
  }

  // Write returns what the kernel has accepted, unless a write failed other than by
  // blocking.
  predicate Outcome(counts: seq<int>, total: nat, ret: int, saveErrno: Option<Errno>) {
    if counts != [] && counts[|counts| - 1] < 0
    then saveErrno.Some? && ret == if saveErrno == Some(EAGAIN) then total else -1
    else ret == total && saveErrno == None
  }

  class Conn {
    const isET: bool
    const readBuff: Buffer
    const writeBuff: Buffer
    const sock: Socket

    // The two blocks of the gathering write.  The first points into the memory of
    // the write buffer, the second into the mapping `file`.
    var iov0Base: nat
    var iov0Len: nat
    var file: seq<char>
    var iov1Base: nat
    var iov1Len: nat
    var iovCnt: nat

    // The response that was set up last, and how much of it the kernel has accepted.
    ghost var response: seq<char>
    ghost var accepted: seq<char>

    function ToWriteBytes(): nat
      reads this
    {
      iov0Len + iov1Len
    }

    // The first block is exactly the readable part of the write buffer.
    ghost predicate FirstBlockIsBuffer()
      reads this, writeBuff
    {
      iov0Len == writeBuff.writePos - writeBuff.readPos
      && (iov0Len > 0 ==> iov0Base == writeBuff.readPos)
    }

    ghost predicate Blocks()
      reads this, writeBuff, writeBuff.data
    {
      && writeBuff.Valid() && FirstBlockIsBuffer()
      && iov1Base + iov1Len <= |file|
      && iovCnt <= 2 && (iovCnt < 2 ==> iov1Len == 0)
    }

    ghost predicate Valid()
      reads this, writeBuff, writeBuff.data
    {
      Blocks() && accepted + Pending() == response
    }

    // The bytes the two blocks still cover.
    ghost function Pending(): seq<char>
      reads this, writeBuff, writeBuff.data
      requires writeBuff.Valid() && FirstBlockIsBuffer() && iov1Base + iov1Len <= |file|
    {
      writeBuff.Contents() + file[iov1Base..iov1Base + iov1Len]
    }

    // When nothing is left to write the response has gone out.
    lemma AllWritten()
      requires Valid() && ToWriteBytes() == 0
      ensures accepted == response && writeBuff.Contents() == []
    {
    }

    // Before the first write the blocks cover the response.
    lemma CoversAll()
      requires Valid() && accepted == []
      ensures ToWriteBytes() == |response|
    {
    }

    constructor (isET: bool, readBuff: Buffer, writeBuff: Buffer, sock: Socket)
      requires writeBuff.Valid() && writeBuff.Contents() == []
      ensures Valid() && ToWriteBytes() == 0 && response == [] && accepted == []
      ensures this.isET == isET && this.readBuff == readBuff && this.writeBuff == writeBuff && this.sock == sock
    {
      this.isET, this.readBuff, this.writeBuff, this.sock := isET, readBuff, writeBuff, sock;
      iov0Base, iov0Len, file, iov1Base, iov1Len, iovCnt := 0, 0, [], 0, 0, 0;
      response, accepted := [], [];
    }

    ghost function Now(): Start
      reads this, readBuff, readBuff.data, sock
      requires readBuff.Valid()
    {
      Start(readBuff.Contents(), readBuff.GetShape(), sock.taken, sock.incoming, sock.sent, sock.readResults)
    }

    // After the reads `rs`: what they brought is off the stream, what is kept of each is
    // appended, in order, and the buffer stands where they have left it.
    ghost predicate Progress(start: Start, rs: seq<OneRead>)
      reads this, readBuff, readBuff.data, sock
      requires readBuff.Valid() && ShapeOk(start.shape)
    {
      && sock.taken == start.taken + AllBytes(rs) && start.incoming == AllBytes(rs) + sock.incoming
      && sock.sent == start.sent && sock.readResults == start.results + Results(rs)
      && readBuff.Contents() == start.contents + AllKept(rs)
      && readBuff.GetShape() == After(start.shape, rs)
    }

    // Read until the socket has no more, the peer has closed, enough has come in, or
    // eight reads have been made.  `memory` are the allocator's answers, one for each
    // read; `rs` are the reads.
    method Read(memory: nat -> bool) returns (ret: int, saveErrno: Option<Errno>, ghost rs: seq<OneRead>)
      requires readBuff.Valid() && readBuff != writeBuff && readBuff.data != writeBuff.data
      modifies readBuff, readBuff.data, sock
      ensures readBuff.Valid() && (readBuff.data == old(readBuff.data) || fresh(readBuff.data))
      ensures readBuff.retrieved == old(readBuff.retrieved) && sock.writeResults == old(sock.writeResults)
      ensures Progress(old(Now()), rs) && Logged(old(readBuff.GetShape()), rs, memory)
      // Everything taken off the stream is in the buffer if and only if no read failed
      // to append its overflow area; none does while memory lasts.
      ensures AllKept(rs) == AllBytes(rs) <==> NoneLost(old(readBuff.GetShape()), Lens(rs), memory)
      ensures (forall i: nat :: memory(i)) && old(readBuff.data.Length) <= SMALL ==> AllKept(rs) == AllBytes(rs)
      ensures Stops(isET, rs) && Reports(rs, ret, saveErrno)
    {
      ret, saveErrno, rs := -1, None, [];
      var len := -1;
      var totalLen := 0;
      var iterations := 0;
      ghost var start := Now();
      while true
        invariant iterations < MAX_READS
        invariant readBuff.Valid() && (readBuff.data == old(readBuff.data) || fresh(readBuff.data))
        invariant readBuff.retrieved == old(readBuff.retrieved) && sock.writeResults == old(sock.writeResults)
        invariant Progress(start, rs) && Logged(start.shape, rs, memory) && WithinRooms(rs)
        invariant totalLen == |AllBytes(rs)| <= READ_ENOUGH
        invariant |rs| == iterations && (!isET ==> rs == [])
        invariant rs != [] ==> rs[|rs| - 1].len > 0
        decreases MAX_READS - iterations
      {
        var err;
        len, err, rs := Turn(memory, iterations, start, rs);
        saveErrno := if err.Some? then err else saveErrno;
        if len > 0 {
          totalLen := totalLen + len;
          iterations := iterations + 1;
          if totalLen > READ_ENOUGH {
            break;
          }
        } else if len == 0 {
          saveErrno := Some(ECONNRESET);
          break;
        } else {
          if saveErrno == Some(EAGAIN) {
            break;
          }
          ReadsEnd(start.shape, rs, memory);
          return len, saveErrno, rs;
        }
        if !(isET && iterations < MAX_READS) {
          break;
        }
      }
      ReadsEnd(start.shape, rs, memory);
      ret := if totalLen > 0 then totalLen else len;
    }

    // The read of one turn of the loop, added to the log.
    method Turn(memory: nat -> bool, i: nat, ghost start: Start, ghost before: seq<OneRead>)
      returns (len: int, err: Option<Errno>, ghost rs: seq<OneRead>)
      requires readBuff.Valid() && ShapeOk(start.shape) && i == |before|
      requires Progress(start, before) && Logged(start.shape, before, memory) && WithinRooms(before)
      requires before != [] ==> before[|before| - 1].len > 0
      modifies readBuff, readBuff.data, sock
      ensures readBuff.Valid() && (readBuff.data == old(readBuff.data) || fresh(readBuff.data))
      ensures readBuff.retrieved == old(readBuff.retrieved) && sock.writeResults == old(sock.writeResults)
      ensures Progress(start, rs) && Logged(start.shape, rs, memory) && WithinRooms(rs)
      ensures |rs| == |before| + 1 && rs[..|before|] == before && rs[|before|].len == len
      ensures |AllBytes(rs)| == |AllBytes(before)| + if len < 0 then 0 else len
      ensures (len < 0 ==> err.Some?) && (!Asked(rs[|before|]) ==> err == Some(ENOMEM))
    {
      ghost var r;
      len, err, r := ReadOnce(memory(i), start, before);
      rs := before + [r];
      assert rs[..|rs| - 1] == before;
      Extend(before, r);
    }

    // One read.
    method ReadOnce(memoryLeft: bool, ghost start: Start, ghost rs: seq<OneRead>)
      returns (len: int, err: Option<Errno>, ghost r: OneRead)
      requires readBuff.Valid() && ShapeOk(start.shape) && Progress(start, rs)
      modifies readBuff, readBuff.data, sock
      ensures readBuff.Valid() && (readBuff.data == old(readBuff.data) || fresh(readBuff.data))
      ensures readBuff.retrieved == old(readBuff.retrieved) && sock.writeResults == old(sock.writeResults)
      ensures r.len == len && r.before == old(readBuff.GetShape()) && r.memoryLeft == memoryLeft
      ensures OneReadOk(r) && WithinRoom(r)
      ensures (len < 0 ==> err.Some?) && (!Asked(r) ==> err == Some(ENOMEM))
      ensures Progress(start, rs + [r])
    {
      ghost var before, got, kept := readBuff.GetShape(), [], [];
      len, err, got, kept := readBuff.ReadFd(sock, memoryLeft);
      r := OneRead(len, got, before, memoryLeft);
      Extend(rs, r);
      assert kept == Kept(r);
      Reassociate(AllBytes(rs), got, sock.incoming);
      Reassociate(start.taken, AllBytes(rs), got);
      Reassociate(start.contents, AllKept(rs), kept);
      assert start.results + Results(rs) + [len] == start.results + (Results(rs) + [len]);
      assert (rs + [r])[|rs + [r]| - 1] == r;
    }

    // Source: Process, from the point where the response is in the write buffer;
    // `mapped` is the file mapping, if the response has one, and `len` how much of it is
    // to be sent.
    //
    // A response without a file leaves the second block as it was, so the blocks
    // cover the response exactly when there is a file or nothing was left over.
    method SetUp(mapped: Option<seq<char>>, len: nat) returns (ok: bool)
      requires writeBuff.Valid() && iov1Base + iov1Len <= |file|
      requires mapped.Some? ==> len <= |mapped.value|
      modifies this
      ensures ok <==> writeBuff.Contents() != []
      ensures ok ==>
                var sent := if mapped.Some? && len > 0 then mapped.value[..len] else [];
                && FirstBlockIsBuffer() && iov1Base + iov1Len <= |file| && accepted == []
                && response == writeBuff.Contents() + sent
                && (Pending() == response <==> sent != [] || old(iov1Len) == 0)
                && (Valid() <==> sent != [] || old(iov1Len) == 0)
      // Nothing is left over if everything that was set up before has been written.
      ensures ok && old(ToWriteBytes()) == 0 ==> Valid()
    {
      if writeBuff.ReadableBytes() == 0 {
        return false;
      }
      ghost var sent := if mapped.Some? && len > 0 then mapped.value[..len] else [];
      response := writeBuff.Contents() + sent;
      accepted := [];
      iovCnt := 0;
      if writeBuff.ReadableBytes() > 0 {
        iov0Base, iov0Len := writeBuff.readPos, writeBuff.ReadableBytes();
        iovCnt := 1;
      }
      if mapped.Some? && len > 0 {
        file, iov1Base, iov1Len := mapped.value, 0, len;
        iovCnt := 2;
      }
      ok := true;
      assert iov1Len == 0 ==> file[iov1Base..iov1Base + iov1Len] == [];
      assert |Pending()| == |writeBuff.Contents()| + iov1Len;
    }

    // What one writev hands to the kernel: the bytes of the blocks in use.
    function Gathered(): (bytes: seq<char>)
      reads this, writeBuff, writeBuff.data
      requires Blocks()
      ensures bytes == Pending()
    {
      var first := writeBuff.data[writeBuff.readPos..writeBuff.readPos + iov0Len];
      assert first == writeBuff.Contents();
      assert iovCnt < 2 ==> first + file[iov1Base..iov1Base + iov1Len] == first;
      if iovCnt == 2 then first + file[iov1Base..iov1Base + iov1Len] else first
    }

    // The kernel has taken part of the first block, or just all of it.
    method AdvanceFirst(ret: nat)
      requires Blocks() && ret <= iov0Len
      modifies this`iov0Base, this`iov0Len, writeBuff
      ensures writeBuff.data == old(writeBuff.data)
      ensures writeBuff.Valid() && FirstBlockIsBuffer()
      ensures Pending() == old(Pending())[ret..]
    {
      CutConcat(writeBuff.Contents(), file[iov1Base..iov1Base + iov1Len], ret);
      iov0Base := iov0Base + ret;
      iov0Len := iov0Len - ret;
      writeBuff.Retrieve(ret);
    }

    // The kernel has taken the first block and part of the second.
    method AdvanceSecond(ret: nat)
      requires Blocks() && iov0Len < ret <= ToWriteBytes()
      modifies this`iov0Base, this`iov0Len, this`iov1Base, this`iov1Len, writeBuff, writeBuff.data
      ensures writeBuff.data == old(writeBuff.data)
      ensures writeBuff.Valid() && FirstBlockIsBuffer()
      ensures iov1Base + iov1Len <= |file| && iov1Len <= old(iov1Len)
      ensures Pending() == old(Pending())[ret..]
    {
      ghost var tail := file[iov1Base..iov1Base + iov1Len];
      CutConcat(writeBuff.Contents(), tail, ret);
      var fileWritten := ret - iov0Len;
      CutSlice(file, iov1Base, iov1Len, fileWritten);
      iov1Base := iov1Base + fileWritten;
      iov1Len := iov1Len - fileWritten;
      writeBuff.RetrieveAll();
      iov0Base, iov0Len := 0, 0;
      assert [] + tail[fileWritten..] == tail[fileWritten..];
    }

    // The blocks step over `ret` bytes that the kernel has accepted.
    method Advance(ret: nat)
      requires Blocks() && ret <= ToWriteBytes()
      modifies this`iov0Base, this`iov0Len, this`iov1Base, this`iov1Len, this`accepted
      modifies writeBuff, writeBuff.data
      ensures Blocks() && writeBuff.data == old(writeBuff.data)
      ensures accepted == old(accepted) + old(Pending())[..ret]
      ensures Pending() == old(Pending())[ret..]
    {
      ghost var before := Pending();
      if ret > iov0Len {
        AdvanceSecond(ret);
      } else {
        AdvanceFirst(ret);
      }
      CutMoves(accepted, before, ret);
      accepted := accepted + before[..ret];
    }

    // One gathering write, and the step over what it accepted.
    method WriteOnce() returns (count: int, err: Errno, ghost chunk: seq<char>)
      requires Blocks()
      modifies this`iov0Base, this`iov0Len, this`iov1Base, this`iov1Len, this`accepted
      modifies writeBuff, writeBuff.data, sock
      ensures Blocks() && writeBuff.data == old(writeBuff.data)
      ensures |chunk| == if count < 0 then 0 else count
      ensures accepted == old(accepted) + chunk && sock.sent == old(sock.sent) + chunk
      ensures chunk + Pending() == old(Pending())
      ensures sock.writeResults == old(sock.writeResults) + [count]
      ensures sock.taken == old(sock.taken) && sock.readResults == old(sock.readResults)
    {
      chunk := [];
      count, err := sock.Writev(Gathered());
      if count >= 0 {
        chunk := Pending()[..count];
        CutMoves([], Pending(), count);
        Advance(count);
      }
    }

    // Since `accepted`, `sent` and `pending` were the state, the kernel has been given `chunk`.
    ghost predicate Given(accepted0: seq<char>, sent0: seq<char>, pending0: seq<char>, chunk: seq<char>)
      reads this, writeBuff, writeBuff.data, sock
      requires Blocks()
    {
      accepted == accepted0 + chunk && sock.sent == sent0 + chunk && chunk + Pending() == pending0
    }

    // One more write.
    method WriteOn(ghost accepted0: seq<char>, ghost sent0: seq<char>, ghost pending0: seq<char>, ghost before: seq<char>)
      returns (count: int, err: Errno, ghost chunk: seq<char>)
      requires Blocks() && Given(accepted0, sent0, pending0, before)
      modifies this`iov0Base, this`iov0Len, this`iov1Base, this`iov1Len, this`accepted
      modifies writeBuff, writeBuff.data, sock
      ensures Blocks() && writeBuff.data == old(writeBuff.data)
      ensures Given(accepted0, sent0, pending0, chunk) && |chunk| == |before| + if count < 0 then 0 else count
      ensures ToWriteBytes() == old(ToWriteBytes()) - if count < 0 then 0 else count
      ensures sock.writeResults == old(sock.writeResults) + [count]
      ensures sock.taken == old(sock.taken) && sock.readResults == old(sock.readResults)
    {
      ghost var more;
      count, err, more := WriteOnce();
      Reassociate(accepted0, before, more);
      Reassociate(sent0, before, more);
      Reassociate(before, more, Pending());
      chunk := before + more;
    }

    // Write at most twice.  Whatever the kernel accepts, whenever it would block and
    // whatever error it reports, the bytes accepted so far followed by the bytes
    // still covered are the response that was set up; Valid says so.
    // `counts` are the results of the writes.
    method Write() returns (ret: int, saveErrno: Option<Errno>, ghost chunk: seq<char>, ghost counts: seq<int>)
      requires Valid()
      modifies this`iov0Base, this`iov0Len, this`iov1Base, this`iov1Len, this`accepted
      modifies writeBuff, writeBuff.data, sock
      ensures Valid() && writeBuff.data == old(writeBuff.data)
      // this call has given the kernel `chunk`, the next bytes of the response
      ensures accepted == old(accepted) + chunk && sock.sent == old(sock.sent) + chunk
      ensures chunk + Pending() == old(Pending())
      ensures sock.writeResults == old(sock.writeResults) + counts
      ensures sock.taken == old(sock.taken) && sock.readResults == old(sock.readResults)
      ensures Attempts(isET, old(ToWriteBytes()), counts, ToWriteBytes()) && Outcome(counts, |chunk|, ret, saveErrno)
      ensures ToWriteBytes() == 0 ==> accepted == response && Pending() == []
    {
      ret, saveErrno, chunk, counts := WriteLoop();
      Reassociate(old(accepted), chunk, Pending());
    }

    // The body of Write.
    method WriteLoop() returns (ret: int, saveErrno: Option<Errno>, ghost chunk: seq<char>, ghost counts: seq<int>)
      requires Blocks()
      modifies this`iov0Base, this`iov0Len, this`iov1Base, this`iov1Len, this`accepted
      modifies writeBuff, writeBuff.data, sock
      ensures Blocks() && writeBuff.data == old(writeBuff.data)
      ensures Given(old(accepted), old(sock.sent), old(Pending()), chunk)
      ensures sock.writeResults == old(sock.writeResults) + counts
      ensures sock.taken == old(sock.taken) && sock.readResults == old(sock.readResults)
      ensures Attempts(isET, old(ToWriteBytes()), counts, ToWriteBytes()) && Outcome(counts, |chunk|, ret, saveErrno)
    {
      chunk, counts, saveErrno := [], [], None;
      var totalWritten := 0;
      if ToWriteBytes() == 0 {
        return 0, None, [], [];
      }
      var attempt := 0;
      while attempt < MAX_ATTEMPTS
        invariant 0 <= attempt <= MAX_ATTEMPTS
        invariant Blocks() && writeBuff.data == old(writeBuff.data)
        invariant totalWritten == |chunk| && Given(old(accepted), old(sock.sent), old(Pending()), chunk)
        invariant sock.taken == old(sock.taken) && sock.readResults == old(sock.readResults)
        invariant |counts| == attempt && sock.writeResults == old(sock.writeResults) + counts && saveErrno == None
        invariant attempt == 0 ==> chunk == []
        invariant attempt == 0 ==> ToWriteBytes() == old(ToWriteBytes())
        invariant attempt > 0 ==> isET && ToWriteBytes() > 0
        invariant attempt == 1 ==> 0 <= counts[0] == |chunk| <= MAX_WRITE_PER_CALL && counts[0] < old(ToWriteBytes())
        invariant attempt == 2 ==> 0 <= counts[0] <= MAX_WRITE_PER_CALL && counts[0] < old(ToWriteBytes()) && counts[1] >= 0
      {
        var count, err;
        count, err, chunk := WriteOn(old(accepted), old(sock.sent), old(Pending()), chunk);
        counts := counts + [count];
        if count < 0 {
          saveErrno := Some(err);
          if err == EAGAIN {
            return totalWritten, saveErrno, chunk, counts;
          }
          return -1, saveErrno, chunk, counts;
        }
        totalWritten := totalWritten + count;
        if iov0Len + iov1Len == 0 {
          break;
        }
        if !isET || totalWritten > MAX_WRITE_PER_CALL {
          break;
        }
        attempt := attempt + 1;
      }
      ret := totalWritten;
    }
  }
}
