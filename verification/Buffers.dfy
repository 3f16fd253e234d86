// The byte buffer of include/buffer/buffer.h and src/buffer/buffer.cpp, and the
// socket it reads from and writes to.
//
// A char of the buffer is a Dafny char; no operation here looks at its value.
module Buffers {
  import opened Prelude

  const SIZE_MAX: nat := 0xFFFF_FFFF_FFFF_FFFF

  // Arithmetic of size_t.
  function Wrap(x: int): (r: nat)
    ensures r <= SIZE_MAX
    ensures 0 <= x <= SIZE_MAX ==> r == x
    ensures -1 - SIZE_MAX <= x < 0 ==> r == x + SIZE_MAX + 1
    ensures SIZE_MAX < x <= 2 * SIZE_MAX + 1 ==> r == x - SIZE_MAX - 1
  {
    x % (SIZE_MAX + 1)
  }

  // The check in makeSpace that is meant to keep the new size from wrapping round.
  predicate GuardRefuses(writePos: nat, len: nat) {
    writePos > Wrap(Wrap(SIZE_MAX - len) - 1)
  }

  function GrownSize(writePos: nat, len: nat): nat {
    Wrap(Wrap(writePos + len) + 1)
  }

  // The guard admits a request exactly when its new size does not wrap, except
  // that it admits the greatest request, whose new size leaves no room at all.
  lemma GuardIsExact(writePos: nat, len: nat)
    requires writePos <= SIZE_MAX && len <= SIZE_MAX
    ensures len < SIZE_MAX ==> (!GuardRefuses(writePos, len) <==> writePos + len + 1 <= SIZE_MAX)
    ensures len < SIZE_MAX && !GuardRefuses(writePos, len) ==> GrownSize(writePos, len) == writePos + len + 1
    ensures len == SIZE_MAX ==> !GuardRefuses(writePos, len) && GrownSize(writePos, len) == writePos
  {
  }

  // The longest a vector<char>, or any object in memory, can be.
  const MAX_BYTES: nat := 0x7FFF_FFFF_FFFF_FFFF

  // What an operation that allocates can do; the last two are exceptions.
  datatype Status = Done | Overflow | NoMemory

  datatype Errno = EAGAIN | ENOMEM | ENOBUFS | ECONNRESET | EOTHER

  // The kernel's side of a connection.  How much a call moves is arbitrary within
  // its legal range.
  class Socket {
    // What the peer has sent and nobody has read, what has been read, and what has
    // been accepted for sending.
    var incoming: seq<char>
    ghost var taken: seq<char>
    ghost var sent: seq<char>
    // What each call has returned.
    ghost var readResults: seq<int>
    ghost var writeResults: seq<int>

    // Source: readv.  `room` is the sum of the iovec lengths.
    method Readv(room: nat) returns (len: int, bytes: seq<char>, err: Errno)
      modifies this
      ensures len <= room && sent == old(sent)
      ensures readResults == old(readResults) + [len] && writeResults == old(writeResults)
      ensures len < 0 ==> bytes == [] && incoming == old(incoming) && taken == old(taken)
      ensures len >= 0 ==> |bytes| == len && old(incoming) == bytes + incoming && taken == old(taken) + bytes
    {
      err := *;
      if * {
        readResults := readResults + [-1];
        return -1, [], err;
      }
      var n: nat :| n <= room && n <= |incoming|;
      bytes := incoming[..n];
      incoming := incoming[n..];
      taken := taken + bytes;
      readResults := readResults + [n];
      len := n;
    }

    // Source: write, and writev over the bytes of its iovecs in order.
    method Writev(bytes: seq<char>) returns (ret: int, err: Errno)
      modifies this
      ensures ret <= |bytes| && incoming == old(incoming) && taken == old(taken)
      ensures writeResults == old(writeResults) + [ret] && readResults == old(readResults)
      ensures ret < 0 ==> sent == old(sent)
      ensures ret >= 0 ==> sent == old(sent) + bytes[..ret]
    {
      err := *;
      if * {
        writeResults := writeResults + [-1];
        return -1, err;
      }
      var n: nat :| n <= |bytes|;
      sent := sent + bytes[..n];
      writeResults := writeResults + [n];
      ret := n;
    }
  }

  const EXTRA_BUF_SIZE: nat := 4096

  // ---------- Where the positions stand ----------

  // The two positions and the size of a buffer.
  datatype Shape = Shape(readPos: nat, writePos: nat, size: nat)

  predicate ShapeOk(sh: Shape) {
    sh.readPos <= sh.writePos <= sh.size <= MAX_BYTES
  }

  function Room(sh: Shape): nat
    requires ShapeOk(sh)
  {
    sh.size - sh.writePos
  }

  // After room for n bytes has been asked for: it is there, or the readable bytes move to
  // the front, or the buffer grows; None if it cannot.
  function Ensured(sh: Shape, n: nat, memoryLeft: bool): (r: Option<Shape>)
    requires ShapeOk(sh)
    ensures r.Some? ==> ShapeOk(r.value) && Room(r.value) >= n
    ensures r.Some? <==> Room(sh) + sh.readPos >= n || (memoryLeft && sh.writePos + n + 1 <= MAX_BYTES)
  {
    if Room(sh) >= n then Some(sh)
    else if Room(sh) + sh.readPos >= n then Some(Shape(0, sh.writePos - sh.readPos, sh.size))
    else if memoryLeft && sh.writePos + n + 1 <= MAX_BYTES then Some(Shape(sh.readPos, sh.writePos, sh.writePos + n + 1))
    else None
  }

  // After n bytes have been appended.
  function Appended(sh: Shape, n: nat, memoryLeft: bool): (r: Option<Shape>)
    requires ShapeOk(sh)
    ensures r.Some? ==> ShapeOk(r.value) && r.value.writePos - r.value.readPos == sh.writePos - sh.readPos + n
  {
    var e := Ensured(sh, n, memoryLeft);
    if e.None? then None else Some(e.value.(writePos := e.value.writePos + n))
  }

  // Before a read, room is made if there is less than 1024 bytes of it.
  function Prepared(sh: Shape, memoryLeft: bool): (r: Option<Shape>)
    requires ShapeOk(sh)
    ensures r.Some? ==> ShapeOk(r.value)
  {
    var readable := sh.writePos - sh.readPos;
    if Room(sh) < 1024 then Ensured(sh, if readable > 4096 then readable else 4096, memoryLeft) else Some(sh)
  }

  // After a read into a prepared buffer: what does not fit is in the overflow area and is
  // appended, if it can be.
  function Booked(p: Shape, len: int, memoryLeft: bool): (r: Shape)
    requires ShapeOk(p)
    ensures ShapeOk(r)
  {
    if len <= Room(p) then p.(writePos := p.writePos + if len < 0 then 0 else len)
    else
      var e := Appended(p.(writePos := p.size), len - Room(p), memoryLeft);
      if e.None? then p.(writePos := p.size) else e.value
  }

  predicate Overflows(p: Shape, len: int, memoryLeft: bool)
    requires ShapeOk(p)
  {
    len > Room(p) && Appended(p.(writePos := p.size), len - Room(p), memoryLeft).None?
  }

  // After a read that returned len.
  function AfterRead(sh: Shape, len: int, memoryLeft: bool): (r: Shape)
    requires ShapeOk(sh)
    ensures ShapeOk(r)
  {
    var p := Prepared(sh, memoryLeft);
    if p.None? then sh else Booked(p.value, len, memoryLeft)
  }

  // A read that returned len loses what did not fit: there was room for 1024 bytes at
  // least and not for 4096, and what did not fit can be appended neither after the
  // readable bytes have been moved to the front nor after growth.
  predicate Loses(sh: Shape, len: int, memoryLeft: bool)
    requires ShapeOk(sh)
  {
    && 1024 <= Room(sh) < EXTRA_BUF_SIZE
    && len - Room(sh) > sh.readPos
    && (!memoryLeft || sh.size + (len - Room(sh)) + 1 > MAX_BYTES)
  }

  lemma LosesIsOverflow(sh: Shape, len: int, memoryLeft: bool)
    requires ShapeOk(sh) && Prepared(sh, memoryLeft).Some?
    requires var r := Room(Prepared(sh, memoryLeft).value); len <= r + if r < EXTRA_BUF_SIZE then EXTRA_BUF_SIZE else 0
    ensures Loses(sh, len, memoryLeft) <==> Overflows(Prepared(sh, memoryLeft).value, len, memoryLeft)
    ensures Loses(sh, len, memoryLeft) ==> Prepared(sh, memoryLeft) == Some(sh)
  {
  }

  lemma TwoParts(before: seq<char>, bytes: seq<char>, n: nat)
    requires n <= |bytes|
    ensures before + bytes[..n] + bytes[n..] == before + bytes
  {
    assert bytes == bytes[..n] + bytes[n..];
  }

  class Buffer {
    var data: array<char>
    var readPos: nat
    var writePos: nat
    // Every byte ever appended, and every byte ever retrieved.
    ghost var appended: seq<char>
    ghost var retrieved: seq<char>

    // The buffer is a FIFO queue of bytes: what was appended is what was
    // retrieved followed by what is readable.
    ghost predicate Valid()
      reads this, data
    {
      && readPos <= writePos <= data.Length <= MAX_BYTES
      && appended == retrieved + Contents()
    }

    ghost function Contents(): seq<char>
      reads this, data
      requires readPos <= writePos <= data.Length
    {
      data[readPos..writePos]
    }

    function WritableBytes(): nat
      reads this, data
      requires writePos <= data.Length
    {
      data.Length - writePos
    }

    function ReadableBytes(): nat
      reads this
      requires readPos <= writePos
    {
      writePos - readPos
    }

    function PrependableBytes(): nat
      reads this
    {
      readPos
    }

    function GetShape(): (sh: Shape)
      reads this, data
    {
      Shape(readPos, writePos, data.Length)
    }

    constructor (size: nat)
      requires size <= MAX_BYTES
      ensures Valid() && Contents() == [] && appended == [] && fresh(data) && GetShape() == Shape(0, 0, size)
    {
      data := new char[size];
      readPos, writePos, appended, retrieved := 0, 0, [], [];
    }

    // Source: vector::resize.
    method Resize(n: nat)
      requires Valid() && writePos <= n <= MAX_BYTES
      modifies this`data
      ensures Valid() && fresh(data) && data.Length == n
      ensures Contents() == old(Contents())
    {
      var bigger := new char[n](_ => '\0');
      var kept := if n < data.Length then n else data.Length;
      forall i | 0 <= i < kept {
        bigger[i] := data[i];
      }
      data := bigger;
      assert Contents() == old(Contents());
    }

    // Move the readable bytes to the front; source and target overlap, and the copy
    // runs forward.
    method Compact()
      requires Valid()
      modifies this`readPos, this`writePos, data
      ensures Valid() && readPos == 0
      ensures Contents() == old(Contents())
    {
      var readable := ReadableBytes();
      var i := 0;
      while i < readable
        invariant 0 <= i <= readable
        invariant readPos == old(readPos) && writePos == old(writePos)
        invariant forall k :: 0 <= k < i ==> data[k] == old(data[readPos + k])
        invariant forall k :: i <= k < data.Length ==> data[k] == old(data[k])
      {
        data[i] := data[readPos + i];
        i := i + 1;
      }
      readPos := 0;
      writePos := readable;
      assert Contents() == old(Contents());
    }

    // `memoryLeft` is the answer of the allocator, if it is asked.
    method MakeSpace(len: nat, memoryLeft: bool) returns (st: Status)
      requires Valid() && len <= SIZE_MAX
      modifies this`readPos, this`writePos, this`data, data
      ensures Valid() && (data == old(data) || fresh(data))
      ensures Contents() == old(Contents())
      ensures st == Done && len < SIZE_MAX ==> WritableBytes() >= len
      ensures st == Overflow <==>
                old(WritableBytes()) + old(readPos) < len < SIZE_MAX && old(writePos) + len + 1 > SIZE_MAX
      // The buffer grows, or fails to, only if moving the bytes would not make enough room.
      ensures st == NoMemory <==>
                && old(WritableBytes()) + old(readPos) < len
                && (len < SIZE_MAX ==> old(writePos) + len + 1 <= SIZE_MAX)
                && (GrownSize(old(writePos), len) > MAX_BYTES || !memoryLeft)
      ensures st == Done ==>
                if old(WritableBytes()) + old(readPos) < len
                then data.Length == GrownSize(old(writePos), len) && readPos == old(readPos)
                else data == old(data) && readPos == 0
      ensures st != Done ==> data == old(data) && readPos == old(readPos) && writePos == old(writePos)
    {
      GuardIsExact(writePos, len);
      if WritableBytes() + PrependableBytes() < len {
        if GuardRefuses(writePos, len) {
          return Overflow;
        }
        if GrownSize(writePos, len) > MAX_BYTES || !memoryLeft {
          return NoMemory;
        }
        Resize(GrownSize(writePos, len));
      } else {
        Compact();
      }
      st := Done;
    }

    method EnsureWritable(len: nat, memoryLeft: bool) returns (st: Status)
      requires Valid() && len < SIZE_MAX
      modifies this`readPos, this`writePos, this`data, data
      ensures Valid() && (data == old(data) || fresh(data))
      ensures Contents() == old(Contents())
      // It succeeds exactly when the room is there or can be made, and else changes nothing.
      ensures match Ensured(old(GetShape()), len, memoryLeft)
              case Some(sh) => st == Done && GetShape() == sh
              case None => st != Done && GetShape() == old(GetShape())
    {
      st := Done;
      if WritableBytes() < len {
        st := MakeSpace(len, memoryLeft);
      }
    }

    method Append(str: seq<char>, memoryLeft: bool) returns (st: Status)
      requires Valid() && |str| <= MAX_BYTES
      modifies this, data
      ensures Valid() && (data == old(data) || fresh(data)) && retrieved == old(retrieved)
      ensures match Appended(old(GetShape()), |str|, memoryLeft)
              case Some(sh) =>
                && st == Done && GetShape() == sh
                && Contents() == old(Contents()) + str && appended == old(appended) + str
              case None =>
                && st != Done && GetShape() == old(GetShape())
                && Contents() == old(Contents()) && appended == old(appended)
    {
      st := EnsureWritable(|str|, memoryLeft);
      if st == Done {
        CopyIn(str);
      }
    }

    // The bytes go behind the readable ones, where there is room for them.
    method CopyIn(str: seq<char>)
      requires Valid() && |str| <= WritableBytes()
      modifies this`writePos, this`appended, data
      ensures Valid() && GetShape() == old(GetShape()).(writePos := old(writePos) + |str|)
      ensures Contents() == old(Contents()) + str && appended == old(appended) + str
    {
      ghost var before := Contents();
      forall i | 0 <= i < |str| {
        data[writePos + i] := str[i];
      }
      assert data[readPos..writePos] == before by {
        assert forall k :: readPos <= k < writePos ==> data[k] == before[k - readPos];
      }
      assert data[writePos..writePos + |str|] == str;
      HasWritten(|str|, str, before);
    }

    // The bytes `str` are in place behind the write position; step over them.
    method HasWritten(len: nat, ghost str: seq<char>, ghost before: seq<char>)
      requires readPos <= writePos && writePos + len <= data.Length <= MAX_BYTES
      requires before == data[readPos..writePos] && appended == retrieved + before
      requires data[writePos..writePos + len] == str
      modifies this`writePos, this`appended
      ensures Valid() && Contents() == before + str && appended == old(appended) + str
      ensures writePos == old(writePos) + len
    {
      assert data[readPos..writePos + len] == before + str;
      writePos := writePos + len;
      appended := appended + str;
      assert appended == retrieved + (before + str);
    }

    method Retrieve(len: nat)
      requires Valid() && len <= ReadableBytes()
      modifies this`readPos, this`retrieved
      ensures Valid() && Contents() == old(Contents())[len..]
      ensures retrieved == old(retrieved) + old(Contents())[..len]
      ensures readPos == old(readPos) + len
    {
      retrieved := retrieved + Contents()[..len];
      readPos := readPos + len;
      assert old(Contents()) == old(Contents())[..len] + old(Contents())[len..];
    }

    // `end` is a position in the buffer.
    method RetrieveUntil(end: nat)
      requires Valid() && readPos <= end <= writePos
      modifies this`readPos, this`retrieved
      ensures Valid() && readPos == end && Contents() == old(Contents())[end - old(readPos)..]
    {
      Retrieve(end - readPos);
    }

    method RetrieveAll()
      requires Valid()
      modifies this`readPos, this`writePos, this`retrieved, data
      ensures Valid() && Contents() == [] && readPos == writePos == 0
      ensures retrieved == old(retrieved) + old(Contents())
    {
      retrieved := retrieved + Contents();
      forall i | 0 <= i < data.Length {
        data[i] := '\0';
      }
      readPos, writePos := 0, 0;
    }

    method RetrieveAllToString() returns (str: seq<char>)
      requires Valid()
      modifies this`readPos, this`writePos, this`retrieved, data
      ensures Valid() && Contents() == [] && str == old(Contents())
      ensures retrieved == old(retrieved) + str
    {
      str := data[readPos..writePos];
      RetrieveAll();
    }

    // What readv puts into the two iovecs: the first block is filled before the second.
    method Scatter(bytes: seq<char>, extraBuff: array<char>)
      requires Valid() && extraBuff != data && |bytes| <= WritableBytes() + extraBuff.Length
      modifies data, extraBuff
      ensures Valid() && Contents() == old(Contents())
      ensures |bytes| <= WritableBytes() ==> data[writePos..writePos + |bytes|] == bytes
      ensures |bytes| > WritableBytes() ==>
                data[writePos..] == bytes[..WritableBytes()]
                && extraBuff[..|bytes| - WritableBytes()] == bytes[WritableBytes()..]
    {
      var first := if |bytes| <= WritableBytes() then |bytes| else WritableBytes();
      forall i | 0 <= i < first {
        data[writePos + i] := bytes[i];
      }
      forall i | 0 <= i < |bytes| - first {
        extraBuff[i] := bytes[first + i];
      }
    }

    // Book the bytes that readv has put into the two blocks.
    method Take(bytes: seq<char>, extraBuff: array<char>, memoryLeft: bool) returns (st: Status)
      requires Valid() && extraBuff != data && extraBuff.Length == EXTRA_BUF_SIZE
      requires |bytes| <= WritableBytes() + EXTRA_BUF_SIZE
      modifies this, data, extraBuff
      ensures Valid() && (data == old(data) || fresh(data)) && retrieved == old(retrieved)
      ensures |bytes| <= old(WritableBytes()) ==>
                && st == Done && Contents() == old(Contents()) + bytes
                && GetShape() == old(GetShape()).(writePos := old(writePos) + |bytes|)
      ensures |bytes| > old(WritableBytes()) ==>
                var full := old(GetShape()).(writePos := old(data.Length));
                match Appended(full, |bytes| - old(WritableBytes()), memoryLeft)
                case Some(sh) => st == Done && GetShape() == sh && Contents() == old(Contents()) + bytes
                case None => st != Done && GetShape() == full && Contents() == old(Contents()) + bytes[..old(WritableBytes())]
    {
      st := Done;
      var len, updatedWritable := |bytes|, WritableBytes();
      ghost var before := Contents();
      Scatter(bytes, extraBuff);
      if len <= updatedWritable {
        HasWritten(len, bytes, before);
      } else {
        HasWritten(updatedWritable, bytes[..updatedWritable], before);
        var extraLen := len - updatedWritable;
        if extraLen > EXTRA_BUF_SIZE {
          assert false;  // readv never fills more than the overflow area
        }
        TwoParts(before, bytes, updatedWritable);
        st := Append(extraBuff[..extraLen], memoryLeft);
      }
    }

    // Read once from the socket.  Every byte taken from the stream ends up behind
    // the readable ones, in order, unless the overflow area cannot be appended for
    // want of memory: then just the part that fitted is kept.
    method ReadFd(sock: Socket, memoryLeft: bool)
      returns (len: int, saveErrno: Option<Errno>, ghost got: seq<char>, ghost kept: seq<char>)
      requires Valid()
      modifies this, data, sock
      ensures Valid() && (data == old(data) || fresh(data)) && retrieved == old(retrieved)
      ensures sock.taken == old(sock.taken) + got && sock.sent == old(sock.sent)
      ensures old(sock.incoming) == got + sock.incoming && sock.writeResults == old(sock.writeResults)
      // It reads once, or not at all if the buffer is short of room and cannot get more.
      ensures if Prepared(old(GetShape()), memoryLeft).None?
              then len == -1 && saveErrno == Some(ENOMEM) && sock.readResults == old(sock.readResults)
              else sock.readResults == old(sock.readResults) + [len]
      ensures len < 0 ==> got == [] && saveErrno.Some?
      ensures len >= 0 ==> |got| == len
      ensures GetShape() == AfterRead(old(GetShape()), len, memoryLeft)
      ensures var p := Prepared(old(GetShape()), memoryLeft);
              p.Some? ==> len <= Room(p.value) + if Room(p.value) < EXTRA_BUF_SIZE then EXTRA_BUF_SIZE else 0
      // What is kept: everything, or the part that fitted.
      ensures var lost := Loses(old(GetShape()), len, memoryLeft);
              && kept == (if lost then got[..old(WritableBytes())] else got)
              && (len >= 0 ==> (lost <==> saveErrno == Some(ENOBUFS)))
      ensures Contents() == old(Contents()) + kept
    {
      var st := Prepare(memoryLeft);
      if st != Done {
        return -1, Some(ENOMEM), [], [];
      }
      len, saveErrno, got, kept := ReadPrepared(sock, memoryLeft);
      LosesIsOverflow(old(GetShape()), len, memoryLeft);
    }

    // The first part of ReadFd: make room.
    method Prepare(memoryLeft: bool) returns (st: Status)
      requires Valid()
      modifies this`readPos, this`writePos, this`data, data
      ensures Valid() && (data == old(data) || fresh(data)) && Contents() == old(Contents())
      ensures match Prepared(old(GetShape()), memoryLeft)
              case Some(sh) => st == Done && GetShape() == sh
              case None => st != Done && GetShape() == old(GetShape())
    {
      st := Done;
      if WritableBytes() < 1024 {
        var newSpace := if ReadableBytes() > 4096 then ReadableBytes() else 4096;
        st := EnsureWritable(newSpace, memoryLeft);
      }
    }

    // The second part of ReadFd.
    method ReadPrepared(sock: Socket, memoryLeft: bool)
      returns (len: int, saveErrno: Option<Errno>, ghost got: seq<char>, ghost kept: seq<char>)
      requires Valid()
      modifies this, data, sock
      ensures Valid() && (data == old(data) || fresh(data)) && retrieved == old(retrieved)
      ensures sock.taken == old(sock.taken) + got && sock.sent == old(sock.sent)
      ensures old(sock.incoming) == got + sock.incoming && sock.writeResults == old(sock.writeResults)
      ensures sock.readResults == old(sock.readResults) + [len]
      ensures len < 0 ==> got == [] && saveErrno.Some?
      ensures len >= 0 ==> |got| == len
      ensures len <= old(WritableBytes()) + if old(WritableBytes()) < EXTRA_BUF_SIZE then EXTRA_BUF_SIZE else 0
      ensures GetShape() == Booked(old(GetShape()), len, memoryLeft)
      ensures var lost := Overflows(old(GetShape()), len, memoryLeft);
              && kept == (if lost then got[..old(WritableBytes())] else got)
              && (len >= 0 ==> (lost <==> saveErrno == Some(ENOBUFS)))
      ensures Contents() == old(Contents()) + kept
    {
      var extraBuff := new char[EXTRA_BUF_SIZE];
      var updatedWritable := WritableBytes();
      var iovCnt := if updatedWritable < EXTRA_BUF_SIZE then 2 else 1;
      var room := if iovCnt == 2 then updatedWritable + EXTRA_BUF_SIZE else updatedWritable;
      var bytes, err;
      len, bytes, err := sock.Readv(room);
      got, kept := bytes, bytes;
      saveErrno := None;
      if len < 0 {
        saveErrno := Some(err);
      } else if len == 0 {
        // the peer has closed
      } else {
        var st := Take(bytes, extraBuff, memoryLeft);
        if st != Done {
          saveErrno := Some(ENOBUFS);
          kept := bytes[..updatedWritable];
        }
      }
    }

    // Write once to the socket.
    method WriteFd(sock: Socket) returns (len: int, saveErrno: Option<Errno>)
      requires Valid()
      modifies this`readPos, this`retrieved, sock
      ensures Valid() && sock.incoming == old(sock.incoming)
      ensures sock.writeResults == old(sock.writeResults) + [len]
      ensures len < 0 ==> saveErrno.Some? && sock.sent == old(sock.sent) && Contents() == old(Contents())
      // every byte is either sent or still readable, in order
      ensures sock.sent + Contents() == old(sock.sent) + old(Contents())
      ensures len >= 0 ==> |Contents()| == |old(Contents())| - len
    {
      var bytes := data[readPos..writePos];
      var err;
      len, err := sock.Writev(bytes);
      saveErrno := None;
      if len < 0 {
        return len, Some(err);
      }
      Retrieve(len);
      assert bytes == bytes[..len] + bytes[len..];
    }
  }

  // The first read of a connection, into the 1024 bytes that its buffer starts with: when
  // there is no memory to grow, everything past them is lost.
  method FirstReadLoses(sock: Socket)
    returns (buff: Buffer, len: int, saveErrno: Option<Errno>, ghost got: seq<char>, ghost kept: seq<char>)
    modifies sock
    ensures fresh(buff) && buff.Valid() && buff.Contents() == kept
    ensures sock.taken == old(sock.taken) + got && |got| == if len < 0 then 0 else len
    ensures len > 1024 ==> kept == got[..1024] && saveErrno == Some(ENOBUFS)
    ensures len <= 1024 ==> kept == got
  {
    buff := new Buffer(1024);
    len, saveErrno, got, kept := buff.ReadFd(sock, false);
  }
}
