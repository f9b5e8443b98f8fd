/** `ChunkedIOFd` of src/ChunkedIO.cc: both ends of a connection that carries chunks as frames, through bounded
    buffers and a byte pipe that takes and gives as much at a time as it likes. */
module ChunkedIo {
  import opened Basics
  import opened ChunkFrames

  datatype WriteResult = Wrote(n: nat) | WriteBlocked | WriteFailed(epipe: bool)
  datatype ReadResult = Got(data: seq<Byte>) | ReadBlocked | ReadFailed(epipe: bool)

  /** How often a pipe has answered a write without taking anything, how often that was a failure, and how often
      that failure told of a broken connection; and whether the last answer was a failure. */
  datatype Writes = Writes(refused: nat, failed: nat, broken: nat, failing: bool)

  ghost function AfterWrite(w: Writes, r: WriteResult): Writes {
    match r
    case Wrote(_) => w.(failing := false)
    case WriteBlocked => w.(refused := w.refused + 1, failing := false)
    case WriteFailed(epipe) =>
      Writes(w.refused + 1, w.failed + 1, w.broken + if epipe then 1 else 0, true)
  }

  /** How often a pipe has answered a read without giving anything, how often that was a failure or an end, and how
      often the failure told of a broken connection. */
  datatype Reads = Reads(refused: nat, failed: nat, broken: nat, ended: nat)

  ghost function AfterRead(c: Reads, len: nat, r: ReadResult): Reads {
    match r
    case Got(data) => if data == [] && len > 0 then c.(refused := c.refused + 1, ended := c.ended + 1) else c
    case ReadBlocked => c.(refused := c.refused + 1)
    case ReadFailed(epipe) =>
      c.(refused := c.refused + 1, failed := c.failed + 1, broken := c.broken + if epipe then 1 else 0)
  }

  /** One direction of a connection, keeping count of its answers. */
  class Pipe {
    var bytes: seq<Byte>
    ghost var consumed: seq<Byte>
    ghost var writeTally: Writes
    ghost var readTally: Reads

    constructor ()
      ensures History() == [] && writeTally == Writes(0, 0, 0, false) && readTally == Reads(0, 0, 0, 0)
    {
      bytes, consumed, writeTally, readTally := [], [], Writes(0, 0, 0, false), Reads(0, 0, 0, 0);
    }

    /** All bytes ever put in. */
    ghost function History(): seq<Byte>
      reads `bytes, `consumed
    {
      consumed + bytes
    }

    /** `write`: takes any positive number of the bytes offered, or blocks, or fails. */
    method Write(data: seq<Byte>) returns (r: WriteResult)
      requires data != []
      modifies `bytes, `writeTally
      ensures r.Wrote? ==> 0 < r.n <= |data| && History() == old(History()) + data[..r.n]
      ensures !r.Wrote? ==> History() == old(History())
      ensures writeTally == AfterWrite(old(writeTally), r)
    {
      r :| r.Wrote? ==> 0 < r.n <= |data|;
      if r.Wrote? {
        bytes := bytes + data[..r.n];
      }
      writeTally := AfterWrite(writeTally, r);
    }

    /** `read`: gives any number of bytes up to `len` that are there, or blocks, or fails; nothing at all is how
        it tells of an end or an interruption. */
    method Read(len: nat) returns (r: ReadResult)
      modifies `bytes, `consumed, `readTally
      ensures History() == old(History())
      ensures r.Got? ==> |r.data| <= len && consumed == old(consumed) + r.data
      ensures !r.Got? ==> consumed == old(consumed)
      ensures readTally == AfterRead(old(readTally), len, r)
    {
      r :| r.Got? ==> |r.data| <= len && r.data <= bytes;
      if r.Got? {
        consumed := consumed + r.data;
        bytes := bytes[|r.data|..];
      }
      readTally := AfterRead(readTally, len, r);
    }
  }

  ghost predicate Later(a: Writes, b: Writes) {
    0 <= b.broken - a.broken <= b.failed - a.failed <= b.refused - a.refused
  }

  /** A write has failed since, and the last one has. */
  ghost predicate Failing(a: Writes, b: Writes) {
    a.failed < b.failed && b.failing
  }

  /** A read is good unless the pipe has failed, or has ended with no whole frame there; a failed one gives none. */
  ghost predicate Answers(a: Reads, b: Reads, ok: bool, frame: bool) {
    && a.failed <= b.failed && a.broken <= b.broken && a.ended <= b.ended
    && (ok <==> a.failed == b.failed && (a.ended == b.ended || frame)) && (!ok ==> !frame)
  }

  /** The pipe has told of the end of the connection. */
  ghost predicate Hangup(a: Reads, b: Reads, frame: bool) {
    a.broken < b.broken || (a.ended < b.ended && !frame)
  }

  /** What has gone out, what is buffered and the queue are together the bytes of all frames accepted. */
  ghost predicate Carried(h: seq<Byte>, u: seq<Byte>, q: seq<Frame>, fs: seq<Frame>) {
    AllFit(fs) && AllFit(q) && h + u + Encode(q) == Encode(fs)
  }

  lemma CarriedSent(h: seq<Byte>, u: seq<Byte>, n: nat, q: seq<Frame>, fs: seq<Frame>)
    requires Carried(h, u, q, fs) && n <= |u|
    ensures Carried(h + u[..n], u[n..], q, fs)
    ensures n == |u| ==> Carried(h + u[..n], [], q, fs)
  {
    assert h + u[..n] + u[n..] == h + u;
  }

  lemma CarriedBuffered(h: seq<Byte>, u: seq<Byte>, f: Frame, q: seq<Frame>, fs: seq<Frame>)
    requires Fits(f) && Carried(h, u, [f] + q, fs)
    ensures Carried(h, u + Encoded(f), q, fs)
  {
    assert forall i :: 0 <= i < |q| ==> q[i] == ([f] + q)[i + 1];
    EncodeCat([f], q);
    EncodeOne(f);
    assert h + u + (Encoded(f) + Encode(q)) == h + (u + Encoded(f)) + Encode(q);
  }

  lemma CatThree(a: seq<Byte>, b: seq<Byte>, c: seq<Byte>)
    ensures a + (b + c) == a + b + c
  {
  }

  lemma CarriedQueued(h: seq<Byte>, u: seq<Byte>, q: seq<Frame>, fs: seq<Frame>, f: Frame)
    requires Fits(f) && Carried(h, u, q, fs)
    ensures Carried(h, u, q + [f], fs + [f])
  {
    hide Encode;
    EncodeCat(q, [f]);
    EncodeCat(fs, [f]);
    CatThree(h + u, Encode(q), Encode([f]));
  }

  lemma CarriedPrefix(h: seq<Byte>, u: seq<Byte>, q: seq<Frame>, fs: seq<Frame>)
    requires Carried(h, u, q, fs)
    ensures AllFit(fs) && h <= Encode(fs)
  {
  }

  lemma CarriedAll(h: seq<Byte>, fs: seq<Frame>)
    requires Carried(h, [], [], fs)
    ensures h == Encode(fs)
  {
  }

  /** `memcpy` into an array. */
  method CopyIn(a: array<Byte>, ghost from: nat, pos: nat, data: seq<Byte>)
    requires from <= pos <= pos + |data| <= a.Length
    modifies a
    ensures a[from..pos + |data|] == old(a[from..pos]) + data
  {
    forall i | 0 <= i < |data| {
      a[pos + i] := data[i];
    }
  }

  /** `memmove` of a stretch to the head of its array. */
  method MoveToHead(a: array<Byte>, pos: nat, n: nat)
    requires pos + n <= a.Length
    modifies a
    ensures a[..n] == old(a[pos..pos + n])
  {
    forall i | 0 <= i < n {
      a[i] := a[pos + i];
    }
  }

  class ChunkedIOFd {
    const inp: Pipe
    const out: Pipe
    const readBuffer: array<Byte>
    const writeBuffer: array<Byte>
    var readLen: nat
    var readPos: nat
    var partial: Option<seq<Byte>>
    var eof: bool
    var writeLen: nat
    var writePos: nat
    var pending: seq<Frame>

    // all frames accepted for sending, and the chunks they come from
    ghost var framed: seq<Frame>
    ghost var written: seq<seq<Byte>>
    // all frames extracted, and the chunks returned
    ghost var got: seq<Frame>
    ghost var delivered: seq<seq<Byte>>

    ghost predicate Distinct() {
      readBuffer != writeBuffer && inp != out && readBuffer.Length == writeBuffer.Length == BUFFER_SIZE
    }

    constructor (i: Pipe, o: Pipe)
      requires i != o && i.History() == [] && o.History() == []
      ensures inp == i && out == o && fresh(readBuffer) && fresh(writeBuffer)
      ensures SendOk() && written == [] && framed == SplitAll(written)
      ensures delivered == [] && got == [] && Following([])
    {
      inp, out := i, o;
      readBuffer := new Byte[BUFFER_SIZE];
      writeBuffer := new Byte[BUFFER_SIZE];
      readLen, readPos, partial, eof := 0, 0, None, false;
      writeLen, writePos, pending := 0, 0, [];
      framed, written, got, delivered := [], [], [], [];
    }

    // ----- sending -----

    ghost predicate WriteShape()
      reads `writePos, `writeLen
    {
      Distinct() && writePos <= writeLen <= BUFFER_SIZE && (writePos == writeLen ==> writeLen == 0)
    }

    ghost predicate Balanced(queue: seq<Frame>)
      reads `writePos, `writeLen, `framed, writeBuffer, out`bytes, out`consumed
    {
      WriteShape() && Carried(out.History(), writeBuffer[writePos..writeLen], queue, framed)
    }

    ghost predicate SendOk()
      reads `writePos, `writeLen, `framed, `pending, writeBuffer, out`bytes, out`consumed
    {
      Balanced(pending)
    }

    /** `FlushWriteBuffer`: everything goes out unless the pipe refuses. */
    method FlushWriteBuffer(ghost queue: seq<Frame>) returns (ok: bool)
      requires Balanced(queue)
      modifies `writePos, `writeLen, `eof, out`bytes, out`writeTally
      ensures Balanced(queue) && Later(old(out.writeTally), out.writeTally)
      ensures out.writeTally.refused == old(out.writeTally.refused) ==> ok && writeLen == 0
      ensures ok <==> out.writeTally.failed == old(out.writeTally.failed)
      ensures if ok && old(writeLen) == 0 then out.writeTally == old(out.writeTally) && writeLen == 0
              else out.writeTally.failing == !ok && (!ok ==> writeLen > 0)
      ensures eof <==> old(eof) || out.writeTally.broken > old(out.writeTally.broken)
    {
      hide Carried;
      while writePos != writeLen
        invariant Balanced(queue) && eof == old(eof) && (old(writeLen) == 0 <==> writePos == writeLen)
        invariant out.writeTally == old(out.writeTally) || out.writeTally == old(out.writeTally).(failing := false)
        invariant old(writeLen) == 0 ==> out.writeTally == old(out.writeTally)
        decreases writeLen - writePos
      {
        var unsent := writeBuffer[writePos..writeLen];
        ghost var h := out.History();
        var r := out.Write(unsent);
        if r.WriteBlocked? {
          return true;
        }
        if r.WriteFailed? {
          eof := eof || r.epipe;
          return false;
        }
        CarriedSent(h, unsent, r.n, queue, framed);
        if r.n == writeLen - writePos {
          writePos, writeLen := 0, 0;
          return true;
        }
        writePos := writePos + r.n;
        assert writeBuffer[writePos..writeLen] == unsent[r.n..];
      }
      ok := true;
    }

    /** Copies a frame behind what is in the write buffer. */
    method CopyFrame(f: Frame)
      requires Fits(f) && WriteShape() && writeLen + HEADER + |f.data| <= BUFFER_SIZE
      modifies `writeLen, writeBuffer
      ensures WriteShape() && writeBuffer[writePos..writeLen] == old(writeBuffer[writePos..writeLen]) + Encoded(f)
    {
      ghost var unsent := writeBuffer[writePos..writeLen];
      var nlen := Htonl(WireLen(f));
      CopyIn(writeBuffer, writePos, writeLen, nlen);
      writeLen := writeLen + HEADER;
      assert writeBuffer[writePos..writeLen] == unsent + nlen;
      CopyIn(writeBuffer, writePos, writeLen, f.data);
      writeLen := writeLen + |f.data|;
      assert unsent + nlen + f.data == unsent + Encoded(f);
    }

    /** `PutIntoWriteBuffer`: an empty buffer has room for any frame. */
    method PutIntoWriteBuffer(f: Frame, ghost rest: seq<Frame>) returns (ok: bool)
      requires Fits(f) && Balanced([f] + rest)
      modifies `writePos, `writeLen, `eof, writeBuffer, out`bytes, out`writeTally
      ensures Balanced(if ok then rest else [f] + rest) && Later(old(out.writeTally), out.writeTally)
      ensures out.writeTally == old(out.writeTally) || (ok && (out.writeTally.failing ==> writeLen > 0))
      ensures eof <==> old(eof) || out.writeTally.broken > old(out.writeTally.broken)
      ensures out.writeTally.failing && old(writeLen) > 0 ==> writeLen > 0
      ensures ok <==> old(writeLen) + HEADER + |f.data| <= BUFFER_SIZE
    {
      hide Carried;
      if writeLen + |f.data| + HEADER > BUFFER_SIZE {
        return false;
      }
      CarriedBuffered(out.History(), writeBuffer[writePos..writeLen], f, rest, framed);
      CopyFrame(f);
      var late: bool :| true;
      if late {
        var _ := FlushWriteBuffer(rest);
      }
      ok := true;
    }

    /** `Flush`: everything goes out, the queue too, unless the pipe refuses. */
    method Flush() returns (ok: bool)
      requires SendOk()
      modifies `writePos, `writeLen, `eof, `pending, writeBuffer, out`bytes, out`writeTally
      ensures SendOk() && |pending| <= |old(pending)| && Later(old(out.writeTally), out.writeTally)
      ensures out.writeTally.refused == old(out.writeTally.refused) ==>
                ok && pending == [] && writeLen == 0 && AllFit(framed) && out.History() == Encode(framed)
      ensures ok <==> !Failing(old(out.writeTally), out.writeTally)
      ensures eof <==> old(eof) || out.writeTally.broken > old(out.writeTally.broken)
    {
      while pending != []
        invariant SendOk() && |pending| <= |old(pending)| && Later(old(out.writeTally), out.writeTally)
        invariant Failing(old(out.writeTally), out.writeTally) ==> writeLen > 0
        invariant eof <==> old(eof) || out.writeTally.broken > old(out.writeTally.broken)
        decreases |pending|
      {
        ok := FlushWriteBuffer(pending);
        if !ok {
          return false;
        }
        if writeLen > 0 {
          return true;
        }
        FillWriteBuffer();
      }
      ok := FlushWriteBuffer(pending);
      if writeLen == 0 {
        CarriedAll(out.History(), framed);
      }
    }

    /** Puts as many pending frames into the empty buffer as possible, at least one. */
    method FillWriteBuffer()
      requires SendOk() && writeLen == 0 && pending != []
      modifies `writePos, `writeLen, `eof, `pending, writeBuffer, out`bytes, out`writeTally
      ensures SendOk() && |pending| < |old(pending)| && Later(old(out.writeTally), out.writeTally)
      ensures out.writeTally == old(out.writeTally) || (out.writeTally.failing ==> writeLen > 0)
      ensures eof <==> old(eof) || out.writeTally.broken > old(out.writeTally.broken)
    {
      while pending != []
        invariant SendOk() && Later(old(out.writeTally), out.writeTally)
        invariant out.writeTally == old(out.writeTally) || (out.writeTally.failing ==> writeLen > 0)
        invariant eof <==> old(eof) || out.writeTally.broken > old(out.writeTally.broken)
        invariant |pending| < |old(pending)| || (pending == old(pending) && writeLen == 0)
        decreases |pending|
      {
        assert pending == [pending[0]] + pending[1..];
        var put := PutIntoWriteBuffer(pending[0], pending[1..]);
        if !put {
          break;
        }
        pending := pending[1..];
      }
    }

    /** `WriteChunk`: buffers or queues one frame, behind those queued before. */
    method WriteChunk(f: Frame) returns (ok: bool)
      requires SendOk() && Fits(f)
      modifies `writePos, `writeLen, `eof, `pending, `framed, writeBuffer, out`bytes, out`writeTally
      ensures SendOk() && framed == old(framed) + [f] && Later(old(out.writeTally), out.writeTally)
      ensures ok <==> (old(pending) == [] && old(writeLen) + HEADER + |f.data| <= BUFFER_SIZE)
                      || !Failing(old(out.writeTally), out.writeTally)
      ensures eof <==> old(eof) || out.writeTally.broken > old(out.writeTally.broken)
    {
      hide Carried;
      CarriedQueued(out.History(), writeBuffer[writePos..writeLen], pending, framed, f);
      framed := framed + [f];
      if pending == [] {
        assert pending + [f] == [f] + [];
        var put := PutIntoWriteBuffer(f, []);
        if put {
          return true;
        }
      }
      pending := pending + [f];
      ok := Flush();
    }

    /** `Write`: sends a chunk, in parts if it is oversized; only a failure can leave the last parts out. */
    method Write(chunk: seq<Byte>) returns (ok: bool)
      requires SendOk() && 0 < |chunk| < 0x1_0000_0000 && NonEmpty(written) && framed == SplitAll(written)
      modifies `writePos, `writeLen, `eof, `pending, `framed, `written, writeBuffer, out`bytes, out`writeTally
      ensures SendOk() && written == old(written) + [chunk] && NonEmpty(written)
      ensures old(framed) <= framed <= SplitAll(written) && (ok ==> framed == SplitAll(written))
      ensures Later(old(out.writeTally), out.writeTally) && (!ok ==> Failing(old(out.writeTally), out.writeTally))
      ensures eof <==> old(eof) || out.writeTally.broken > old(out.writeTally.broken)
    {
      hide SendOk, Remaining, SplitAll, NonEmpty;
      SplitLast(written, chunk);
      written := written + [chunk];
      if |chunk| <= MAX_DATA {
        RemainingStep(chunk, 0, |chunk|, framed, SplitAll(written));
        assert chunk[0..|chunk|] == chunk;
        ok := WriteChunk(Frame(chunk, false));
        return;
      }
      var p := 0;
      while p < |chunk|
        invariant 0 <= p <= |chunk| && SendOk() && written == old(written) + [chunk]
        invariant old(framed) <= framed && framed + Remaining(chunk, p) == SplitAll(written)
        invariant Later(old(out.writeTally), out.writeTally)
        invariant eof <==> old(eof) || out.writeTally.broken > old(out.writeTally.broken)
      {
        var sz := if |chunk| - p < MAX_DATA then |chunk| - p else MAX_DATA;
        RemainingStep(chunk, p, sz, framed, SplitAll(written));
        ok := WriteChunk(Frame(chunk[p..p + sz], p + sz != |chunk|));
        p := p + sz;
        if !ok {
          return false;
        }
      }
      RemainingNone(chunk, framed);
      ok := true;
    }

    // ----- receiving -----

    ghost predicate ReadShape()
      reads `readPos, `readLen
    {
      Distinct() && readPos <= readLen <= BUFFER_SIZE
    }

    /** Everything taken from the pipe is in the frames extracted or in the buffer, and the frames extracted are
        the first of those `fs` sent. */
    ghost predicate Received(fs: seq<Frame>)
      reads `readPos, `readLen, `got, readBuffer, inp`bytes, inp`consumed
    {
      ReadShape() && Arrived(inp.consumed, inp.History(), readBuffer[readPos..readLen], got, fs)
    }

    /** What `Read` has returned, and the part it holds, are what those frames make up. */
    ghost predicate Following(fs: seq<Frame>)
      reads `readPos, `readLen, `got, `delivered, `partial, readBuffer, inp`bytes, inp`consumed
    {
      Received(fs) && AddAll(START, got) == Assembly(delivered, partial)
    }

    /** `ChunkAvailable`: the length field of the frame at the front of the buffer, or 0 if it is not all there. */
    method ChunkAvailable(ghost fs: seq<Frame>) returns (n: int)
      requires Received(fs)
      ensures n != 0 <==> Available(readBuffer[readPos..readLen])
      ensures n != 0 ==> n == Ntohl(readBuffer[readPos..readLen][..HEADER])
      ensures n != 0 ==> 0 < n % FLAG_PARTIAL <= readLen - readPos - HEADER
    {
      var bytesLeft := readLen - readPos;
      if bytesLeft < HEADER {
        return 0;
      }
      assert readBuffer[readPos..readLen][..HEADER] == readBuffer[readPos..readPos + HEADER];
      var len := Ntohl(readBuffer[readPos..readPos + HEADER]);
      if bytesLeft - HEADER < len % FLAG_PARTIAL {
        return 0;
      }
      ArrivedNext(inp.consumed, inp.History(), readBuffer[readPos..readLen], got, fs);
      return len;
    }

    /** `ExtractChunk`: the next frame, if all of it has arrived. */
    method ExtractChunk(ghost fs: seq<Frame>) returns (f: Option<Frame>)
      requires Received(fs)
      modifies `readPos, `got
      ensures Received(fs)
      ensures f.None? ==> got == old(got) && readPos == old(readPos) && !Available(readBuffer[readPos..readLen])
      ensures f.Some? ==> got == old(got) + [f.value] && Available(old(readBuffer[readPos..readLen]))
    {
      hide Arrived;
      var len := ChunkAvailable(fs);
      var realLen := len % FLAG_PARTIAL;
      if realLen == 0 {
        return None;
      }
      ghost var unread := readBuffer[readPos..readLen];
      ArrivedNext(inp.consumed, inp.History(), unread, got, fs);
      Within(readBuffer, readPos, readLen, HEADER, HEADER + realLen);
      Within(readBuffer, readPos, readLen, HEADER + realLen, |unread|);
      readPos := readPos + HEADER;
      var data := readBuffer[readPos..readPos + realLen];
      readPos := readPos + realLen;
      f := Some(Frame(data, len >= FLAG_PARTIAL));
      got := got + [f.value];
    }

    /** Moves what is left in the read buffer to its head. */
    method Compact(ghost fs: seq<Frame>)
      requires Received(fs)
      modifies `readPos, `readLen, readBuffer
      ensures Received(fs) && readPos == 0
    {
      hide Arrived;
      ghost var unread := readBuffer[readPos..readLen];
      var bytesLeft := readLen - readPos;
      if bytesLeft > 0 {
        MoveToHead(readBuffer, readPos, bytesLeft);
      }
      readPos := 0;
      readLen := bytesLeft;
      assert readBuffer[readPos..readLen] == unread;
    }

    /** One `read` into the buffer. */
    method ReadSome(ghost fs: seq<Frame>) returns (r: ReadResult)
      requires Received(fs) && readPos == 0
      modifies `readLen, readBuffer, inp`bytes, inp`consumed, inp`readTally
      ensures Received(fs) && inp.History() == old(inp.History())
      ensures inp.readTally == AfterRead(old(inp.readTally), BUFFER_SIZE - old(readLen), r)
      ensures r.Got? ==> readLen == old(readLen) + |r.data|
      ensures !r.Got? ==> readLen == old(readLen)
    {
      hide Arrived;
      ghost var c, h, unread := inp.consumed, inp.History(), readBuffer[readPos..readLen];
      r := inp.Read(BUFFER_SIZE - readLen);
      if r.Got? {
        ArrivedMore(c, h, unread, got, fs, r.data);
        CopyIn(readBuffer, readPos, readLen, r.data);
        readLen := readLen + |r.data|;
        assert readBuffer[readPos..readLen] == unread + r.data;
      }
    }

    /** The loop of `ReadChunk`: fills the buffer as far as the pipe lets it, then looks for a frame. */
    method Fill(ghost fs: seq<Frame>) returns (ok: bool, f: Option<Frame>)
      requires Received(fs) && readPos == 0
      modifies `readPos, `readLen, `got, `eof, readBuffer, inp`bytes, inp`consumed, inp`readTally
      ensures Received(fs) && inp.History() == old(inp.History())
      ensures old(inp.readTally.refused) <= inp.readTally.refused
      ensures inp.readTally.refused == old(inp.readTally.refused) ==> f.Some?
      ensures Answers(old(inp.readTally), inp.readTally, ok, f.Some?)
      ensures eof <==> old(eof) || Hangup(old(inp.readTally), inp.readTally, f.Some?)
      ensures f.None? ==> got == old(got) && (ok ==> !Available(readBuffer[readPos..readLen]))
      ensures f.None? && inp.readTally.failed == old(inp.readTally.failed) ==> !Available(readBuffer[readPos..readLen])
      ensures f.Some? ==> got == old(got) + [f.value]
    {
      hide Arrived, Available;
      while true
        invariant Received(fs) && readPos == 0 && got == old(got) && inp.History() == old(inp.History())
        invariant inp.readTally == old(inp.readTally) && eof == old(eof)
        decreases BUFFER_SIZE - readLen
      {
        var len := BUFFER_SIZE - readLen;
        var r := ReadSome(fs);
        if r.ReadBlocked? {
          f := ExtractChunk(fs);
          return true, f;
        }
        if r.ReadFailed? {
          eof := eof || r.epipe;
          return false, None;
        }
        if r.data == [] && len != 0 {
          f := ExtractChunk(fs);
          if f.Some? {
            return true, f;
          }
          eof := true;
          return false, f;
        }
        if |r.data| == len {
          break;
        }
      }
      ArrivedFull(inp.consumed, inp.History(), readBuffer[readPos..readLen], got, fs);
      f := ExtractChunk(fs);
      ok := true;
    }

    ghost predicate Valid(fs: seq<Frame>)
      reads this, readBuffer, writeBuffer, inp, out
    {
      SendOk() && Following(fs)
    }

    /** `ReadChunk`: the next frame; none, with no failure, only when no whole frame is in the buffer. */
    method ReadChunk(ghost fs: seq<Frame>) returns (ok: bool, f: Option<Frame>)
      requires SendOk() && Received(fs)
      modifies `writePos, `writeLen, `pending, writeBuffer, out`bytes, out`writeTally, `readPos, `readLen, `got,
               `eof, readBuffer
      modifies inp`bytes, inp`consumed, inp`readTally
      ensures SendOk() && Received(fs) && inp.History() == old(inp.History())
      ensures old(inp.readTally.refused) <= inp.readTally.refused
      ensures inp.readTally.refused == old(inp.readTally.refused) ==> f.Some?
      ensures Answers(old(inp.readTally), inp.readTally, ok, f.Some?)
      ensures eof <==> old(eof) || out.writeTally.broken > old(out.writeTally.broken)
                       || Hangup(old(inp.readTally), inp.readTally, f.Some?)
      ensures Later(old(out.writeTally), out.writeTally)
      ensures f.None? ==> got == old(got)
      ensures f.None? && ok ==> !Available(readBuffer[readPos..readLen]) && readLen - readPos < BUFFER_SIZE
      ensures f.Some? ==> got == old(got) + [f.value]
    {
      hide Arrived, Carried, Available;
      var _ := Flush();
      f := ExtractChunk(fs);
      if f.Some? {
        return true, f;
      }
      Compact(fs);
      ok, f := Fill(fs);
      if f.None? && readLen - readPos == BUFFER_SIZE {
        ArrivedFull(inp.consumed, inp.History(), readBuffer[readPos..readLen], got, fs);
      }
    }

    /** `Read`: the next chunk, if it has arrived completely. */
    method Read(ghost fs: seq<Frame>) returns (ok: bool, chunk: Option<seq<Byte>>)
      requires Valid(fs)
      modifies `writePos, `writeLen, `pending, writeBuffer, out`bytes, out`writeTally
      modifies `readPos, `readLen, `got, `eof, `partial, `delivered, readBuffer, inp`bytes, inp`consumed,
               inp`readTally
      ensures old(inp.readTally.refused) <= inp.readTally.refused
      ensures inp.readTally.refused == old(inp.readTally.refused) ==> |got| == |old(got)| + 1
      ensures Answers(old(inp.readTally), inp.readTally, ok, got != old(got))
      ensures eof <==> old(eof) || out.writeTally.broken > old(out.writeTally.broken)
                       || Hangup(old(inp.readTally), inp.readTally, got != old(got))
      ensures Later(old(out.writeTally), out.writeTally) && (got == old(got) || |got| == |old(got)| + 1)
      ensures Valid(fs) && inp.History() == old(inp.History())
      ensures delivered == old(delivered) + if chunk.Some? then [chunk.value] else []
      ensures ok && got == old(got) ==> !Available(readBuffer[readPos..readLen])
    {
      hide Arrived, Balanced, Available, Add, AddAll, Joined;
      var _ := Flush();
      var f;
      ok, f := ReadChunk(fs);
      if f.None? {
        return ok, None;
      }
      AssemblyNext(old(got), f.value, delivered, partial);
      if !f.value.more {
        chunk := Some(Joined(partial, f.value.data));
        partial := None;
        delivered := delivered + [chunk.value];
      } else {
        partial := Some(Joined(partial, f.value.data));
        chunk := None;
      }
    }
  }

  lemma Within(a: array<Byte>, p: nat, q: nat, i: nat, j: nat)
    requires p <= q <= a.Length && i <= j <= q - p
    ensures a[p..q][i..j] == a[p + i..p + j] && (j == q - p ==> a[p..q][i..] == a[p + i..q])
  {
    assert a[p..q][..j] == a[p..p + j];
  }

  // ----- both ends -----

  /** Two ends of one connection. */
  ghost predicate Connected(a: ChunkedIOFd, b: ChunkedIOFd)
    reads a, b, a.readBuffer, a.writeBuffer, b.readBuffer, b.writeBuffer, a.inp, a.out
  {
    && a != b && a.inp == b.out && a.out == b.inp
    && a.readBuffer != b.readBuffer && a.readBuffer != b.writeBuffer && a.writeBuffer != b.readBuffer
       && a.writeBuffer != b.writeBuffer
    && a.Valid(b.framed) && b.Valid(a.framed)
    && NonEmpty(a.written) && a.framed <= SplitAll(a.written) && NonEmpty(b.written) && b.framed <= SplitAll(b.written)
  }

  /** The sender `a` has nothing left to send, the pipe is empty, and `b` has no whole frame left to read. */
  ghost predicate Drained(a: ChunkedIOFd, b: ChunkedIOFd)
    requires b.readPos <= b.readLen <= b.readBuffer.Length
    reads a, b, a.out, b.readBuffer
  {
    a.pending == [] && a.writeLen == 0 && a.out.bytes == [] && !Available(b.readBuffer[b.readPos..b.readLen])
  }

  /** In every state the chunks returned at one end are the first of those written at the other, byte for byte, and a
      part held is the beginning of the next one (so its length never wraps); they are all of them once nothing is
      left in between, provided no write has failed. */
  lemma InOrder(a: ChunkedIOFd, b: ChunkedIOFd)
    requires Connected(a, b)
    ensures b.delivered <= a.written
    ensures b.partial.Some? ==> |b.delivered| < |a.written| && b.partial.value <= a.written[|b.delivered|]
    ensures Drained(a, b) && a.framed == SplitAll(a.written) ==> b.delivered == a.written && b.partial == None
  {
    DeliveredPrefix(a.written, b.got);
    if Drained(a, b) {
      CarriedAll(a.out.History(), a.framed);
      AllTaken(a.out.consumed, a.out.History(), b.readBuffer[b.readPos..b.readLen], b.got, a.framed);
    }
  }

  lemma AllTaken(c: seq<Byte>, h: seq<Byte>, rest: seq<Byte>, got: seq<Frame>, fs: seq<Frame>)
    requires Arrived(c, h, rest, got, fs) && h == Encode(fs) && c == h && !Available(rest)
    ensures got == fs && rest == []
  {
    var coming := fs[|got|..];
    assert fs == got + coming;
    EncodeCat(got, coming);
    var e := Encode(got);
    assert rest == (e + rest)[|e|..] && Encode(coming) == (e + Encode(coming))[|e|..];
    FirstOf(coming, rest);
  }

  lemma AssemblyNext(got: seq<Frame>, f: Frame, done: seq<seq<Byte>>, part: Option<seq<Byte>>)
    requires AddAll(START, got) == Assembly(done, part)
    ensures var c := Joined(part, f.data);
            AddAll(START, got + [f]) == if f.more then Assembly(done, Some(c)) else Assembly(done + [c], None)
  {
    AddLast(START, got, f);
  }

  /** The frames of a chunk from byte `p` on. */
  ghost function Remaining(c: seq<Byte>, p: nat): seq<Frame> {
    if p < |c| then Split(c[p..]) else []
  }

  lemma SplitLast(cs: seq<seq<Byte>>, c: seq<Byte>)
    requires NonEmpty(cs) && c != []
    ensures NonEmpty(cs + [c]) && SplitAll(cs + [c]) == SplitAll(cs) + Remaining(c, 0)
  {
    assert (cs + [c])[..|cs|] == cs;
    assert c[0..] == c;
  }

  lemma RemainingStep(c: seq<Byte>, p: nat, sz: nat, framed: seq<Frame>, all: seq<Frame>)
    requires p < |c| && sz == (if |c| - p < MAX_DATA then |c| - p else MAX_DATA) && framed + Remaining(c, p) == all
    ensures var f := Frame(c[p..p + sz], p + sz != |c|);
            Fits(f) && framed + [f] + Remaining(c, p + sz) == all && framed + [f] <= all
    ensures p + sz == |c| ==> framed + [Frame(c[p..p + sz], false)] == all
  {
    hide Remaining;
    var f := Frame(c[p..p + sz], p + sz != |c|);
    RemainingNext(c, p, sz);
    assert framed + ([f] + Remaining(c, p + sz)) == framed + [f] + Remaining(c, p + sz);
    if p + sz == |c| {
      RemainingNone(c, framed + [f]);
    }
  }

  lemma RemainingNext(c: seq<Byte>, p: nat, sz: nat)
    requires p < |c| && sz == if |c| - p < MAX_DATA then |c| - p else MAX_DATA
    ensures Remaining(c, p) == [Frame(c[p..p + sz], p + sz != |c|)] + Remaining(c, p + sz)
  {
    assert c[p..][..sz] == c[p..p + sz];
    assert c[p..][sz..] == c[p + sz..];
    assert p + sz == |c| ==> c[p..p + sz] == c[p..];
  }

  lemma RemainingNone(c: seq<Byte>, framed: seq<Frame>)
    ensures framed + Remaining(c, |c|) == framed
  {
  }

  /** Of the frames `fs` sent, `got` have been taken in, and `rest` is what else has come out of the pipe. */
  ghost predicate Arrived(c: seq<Byte>, h: seq<Byte>, rest: seq<Byte>, got: seq<Frame>, fs: seq<Frame>) {
    && AllFit(fs) && got <= fs && (forall i :: 0 <= i < |got| ==> Fits(got[i]))
    && c <= h <= Encode(fs) && c == Encode(got) + rest
  }

  /** What is left over is the beginning of the frames still to come. */
  lemma ArrivedRest(c: seq<Byte>, h: seq<Byte>, rest: seq<Byte>, got: seq<Frame>, fs: seq<Frame>)
    requires Arrived(c, h, rest, got, fs)
    ensures AllFit(fs[|got|..]) && rest <= Encode(fs[|got|..])
  {
    assert fs == got + fs[|got|..];
    EncodeCat(got, fs[|got|..]);
    assert c <= Encode(fs);
    assert rest == c[|Encode(got)|..];
    assert Encode(fs)[|Encode(got)|..] == Encode(fs[|got|..]);
  }

  lemma ArrivedNext(c: seq<Byte>, h: seq<Byte>, rest: seq<Byte>, got: seq<Frame>, fs: seq<Frame>)
    requires Arrived(c, h, rest, got, fs) && Available(rest)
    ensures var f := First(rest);
            Fits(f) && Ntohl(rest[..HEADER]) == WireLen(f) && Arrived(c, h, rest[HEADER + |f.data|..], got + [f], fs)
  {
    ArrivedRest(c, h, rest, got, fs);
    var coming := fs[|got|..];
    FirstOf(coming, rest);
    var f := coming[0];
    HeaderOf(f, Encode(coming[1..]), rest);
    EncodeCat(got, [f]);
    EncodeOne(f);
    var n := |Encoded(f)|;
    assert rest[..n] == Encode(coming)[..n] == Encoded(f);
    assert Encode(got) + (Encoded(f) + rest[n..]) == Encode(got) + Encoded(f) + rest[n..];
    assert rest == Encoded(f) + rest[n..];
  }

  lemma ArrivedMore(c: seq<Byte>, h: seq<Byte>, rest: seq<Byte>, got: seq<Frame>, fs: seq<Frame>, d: seq<Byte>)
    requires Arrived(c, h, rest, got, fs) && c + d <= h
    ensures Arrived(c + d, h, rest + d, got, fs)
  {
    CatThree(Encode(got), rest, d);
  }

  lemma ArrivedFull(c: seq<Byte>, h: seq<Byte>, rest: seq<Byte>, got: seq<Frame>, fs: seq<Frame>)
    requires Arrived(c, h, rest, got, fs) && |rest| == BUFFER_SIZE
    ensures Available(rest)
  {
    ArrivedRest(c, h, rest, got, fs);
    FullShows(fs[|got|..], rest);
  }

  /** More may be sent meanwhile. */
  lemma ArrivedLater(c: seq<Byte>, h: seq<Byte>, rest: seq<Byte>, got: seq<Frame>, fs: seq<Frame>, h': seq<Byte>,
                     fs': seq<Frame>)
    requires Arrived(c, h, rest, got, fs) && c <= h' && fs <= fs' && AllFit(fs') && h' <= Encode(fs')
    ensures Arrived(c, h', rest, got, fs')
  {
  }

  /** What `a` sends, `b` goes on following. */
  lemma StillFollowing(a: ChunkedIOFd, b: ChunkedIOFd, h: seq<Byte>, fs: seq<Frame>)
    requires a.SendOk() && a.out == b.inp && fs <= a.framed && b.ReadShape()
    requires Arrived(b.inp.consumed, h, b.readBuffer[b.readPos..b.readLen], b.got, fs)
    requires AddAll(START, b.got) == Assembly(b.delivered, b.partial)
    ensures b.Following(a.framed)
  {
    CarriedPrefix(a.out.History(), a.writeBuffer[a.writePos..a.writeLen], a.pending, a.framed);
    ArrivedLater(b.inp.consumed, h, b.readBuffer[b.readPos..b.readLen], b.got, fs, a.out.History(), a.framed);
  }

  datatype Event = WriteChunk(chunk: seq<Byte>) | FlushBuffers | ReadChunk

  /** An event at the end `a`; `ok` while every write has gone through. */
  method Perform(a: ChunkedIOFd, b: ChunkedIOFd, e: Event) returns (ok: bool)
    requires Connected(a, b) && (e.WriteChunk? ==> 0 < |e.chunk| < 0x1_0000_0000 && a.framed == SplitAll(a.written))
    modifies a, a.readBuffer, a.writeBuffer, a.inp, a.out
    ensures Connected(a, b)
    ensures ok && old(a.framed) == SplitAll(old(a.written)) ==> a.framed == SplitAll(a.written)
    ensures a.written == old(a.written) + if e.WriteChunk? then [e.chunk] else []
    ensures unchanged(a.out`readTally) && unchanged(a.inp`writeTally) && Later(old(a.out.writeTally), a.out.writeTally)
    ensures !ok ==> e.WriteChunk? && Failing(old(a.out.writeTally), a.out.writeTally)
    ensures a.inp.readTally.refused >= old(a.inp.readTally.refused)
    ensures |old(a.got)| <= |a.got| <= |old(a.got)| + if e.ReadChunk? then 1 else 0
    ensures e.ReadChunk? && a.inp.readTally.refused == old(a.inp.readTally.refused) ==> |a.got| == |old(a.got)| + 1
  {
    hide Arrived, Carried, SplitAll, NonEmpty, Answers, Hangup, Available, AddAll;
    ghost var h, fs := a.out.History(), a.framed;
    ok := true;
    match e {
      case WriteChunk(c) => ok := a.Write(c);
      case FlushBuffers => var _ := a.Flush();
      case ReadChunk => var _, _ := a.Read(b.framed);
    }
    StillFollowing(a, b, h, fs);
  }

  /** An event at the first end or at the second. */
  datatype Turn = Turn(first: bool, event: Event)

  ghost function ChunksWritten(turns: seq<Turn>, first: bool): seq<seq<Byte>> {
    if turns == [] then []
    else
      var t := turns[|turns| - 1];
      ChunksWritten(turns[..|turns| - 1], first)
      + if t.first == first && t.event.WriteChunk? then [t.event.chunk] else []
  }

  /** How often one end reads. */
  ghost function ReadsDone(turns: seq<Turn>, first: bool): nat {
    if turns == [] then 0
    else
      var t := turns[|turns| - 1];
      ReadsDone(turns[..|turns| - 1], first) + if t.first == first && t.event.ReadChunk? then 1 else 0
  }

  /** Frames taken by an end that has read `n` times: one each time, unless its pipe refused a read. */
  ghost predicate Taken(before: nat, now: nat, n: nat, a: Reads, b: Reads) {
    before <= now <= before + n && a.refused <= b.refused && (a.refused == b.refused ==> now == before + n)
  }

  /** Any interleaving of writes, flushes and reads at both ends, up to a failing write: what is returned at
      either end is at every moment the beginning of what was written at the other. */
  method Run(a: ChunkedIOFd, b: ChunkedIOFd, turns: seq<Turn>) returns (ok: bool)
    requires Connected(a, b) && a.framed == SplitAll(a.written) && b.framed == SplitAll(b.written)
    requires forall i :: 0 <= i < |turns| && turns[i].event.WriteChunk? ==> 0 < |turns[i].event.chunk| < 0x1_0000_0000
    modifies a, a.readBuffer, a.writeBuffer, a.inp, a.out, b, b.readBuffer, b.writeBuffer
    ensures Connected(a, b) && b.delivered <= a.written && a.delivered <= b.written
    ensures ok ==> a.written == old(a.written) + ChunksWritten(turns, true)
    ensures ok ==> b.written == old(b.written) + ChunksWritten(turns, false)
    ensures ok && Drained(a, b) ==> b.delivered == a.written && b.partial == None
    ensures ok && Drained(b, a) ==> a.delivered == b.written && a.partial == None
    ensures ok ==> Taken(|old(a.got)|, |a.got|, ReadsDone(turns, true), old(a.inp.readTally), a.inp.readTally)
    ensures ok ==> Taken(|old(b.got)|, |b.got|, ReadsDone(turns, false), old(b.inp.readTally), b.inp.readTally)
    ensures !ok ==> Failing(old(a.out.writeTally), a.out.writeTally) || Failing(old(b.out.writeTally), b.out.writeTally)
  {
    hide ChunkedIOFd.Valid, SplitAll, NonEmpty, Drained, Available, AddAll;
    ok := true;
    for i := 0 to |turns|
      invariant Connected(a, b) && a.framed == SplitAll(a.written) && b.framed == SplitAll(b.written)
      invariant a.written == old(a.written) + ChunksWritten(turns[..i], true)
      invariant b.written == old(b.written) + ChunksWritten(turns[..i], false)
      invariant Taken(|old(a.got)|, |a.got|, ReadsDone(turns[..i], true), old(a.inp.readTally), a.inp.readTally)
      invariant Taken(|old(b.got)|, |b.got|, ReadsDone(turns[..i], false), old(b.inp.readTally), b.inp.readTally)
      invariant Later(old(a.out.writeTally), a.out.writeTally) && Later(old(b.out.writeTally), b.out.writeTally)
    {
      assert turns[..i + 1][..i] == turns[..i];
      if turns[i].first {
        ok := Perform(a, b, turns[i].event);
      } else {
        ok := Perform(b, a, turns[i].event);
      }
      if !ok {
        InOrder(a, b);
        InOrder(b, a);
        return;
      }
    }
    assert turns[..|turns|] == turns;
    InOrder(a, b);
    InOrder(b, a);
  }

  /** A new connection. */
  method Connect() returns (a: ChunkedIOFd, b: ChunkedIOFd)
    ensures Connected(a, b) && a.written == [] && b.written == [] && a.delivered == [] && b.delivered == []
    ensures a.framed == SplitAll(a.written) && b.framed == SplitAll(b.written)
  {
    var p := new Pipe();
    var q := new Pipe();
    a := new ChunkedIOFd(p, q);
    b := new ChunkedIOFd(q, p);
  }
}
