/** Sending a response of unknown length in chunks, and that the upload decoder reads the result back. */
module ChunkedResponse {
  import opened Common
  import CMemory
  import opened CText
  import opened ChunkedUpload

  // ---------------------------------------------------------------------------------------------
  // Chunk headers.

  /** The number as printed by %X. */
  function ToHex(n: nat): (s: string)
    ensures s != "" && AllHex(s) && HexValue(s) == n
  {
    if n < 16 then
      var s := [UpperHexDigit(n)];
      assert s[..0] == "";
      s
    else
      var high := ToHex(n / 16);
      var s := high + [UpperHexDigit(n % 16)];
      assert s[..|s| - 1] == high;
      s
  }

  lemma {:induction false} HexWidth(n: nat, width: nat)
    requires width > 0
    ensures n < Power16(width) <==> |ToHex(n)| <= width
  {
    if width == 1 {
      assert Power16(0) == 1 && Power16(1) == 16;
    } else if n >= 16 {
      HexWidth(n / 16, width - 1);
    } else {
      PowerPositive(width - 1);
    }
  }

  lemma SmallPowers()
    ensures Power16(5) == 0x10_0000 && Power16(6) == 0x100_0000
  {
    assert Power16(3) == 0x1000;
  }

  function Framed(data: string): Chunk { Chunk(ToHex(|data|), data) }

  lemma FramedSizeLine(data: string)
    requires 0 < |data| < 0x10_0000
    ensures SizeLine(Framed(data).header, |data|)
  {
    SmallPowers();
    HexWidth(|data|, 5);
    SizeInDigits(ToHex(|data|), |data|);
  }

  /** The decoder takes a chunk exactly when it is not empty and its length needs at most five digits. */
  lemma FramedReadable(data: string, tail: string)
    requires 0 < |data| < 0x100_0000
    ensures |data| < 0x10_0000 ==> SizeLine(Framed(data).header, |data|)
    ensures |data| >= 0x10_0000 ==> Decode(0, 0, Wire(Framed(data)) + tail).status == Malformed
  {
    var h := ToHex(|data|);
    SmallPowers();
    HexWidth(|data|, 5);
    HexWidth(|data|, 6);
    SizeInDigits(h, |data|);
    if |data| >= 0x10_0000 {
      var s := Wire(Framed(data)) + tail;
      assert |h| == 6 && forall i :: 0 <= i < 6 ==> s[i] == h[i] && IsHex(h[i]);
      assert |s| > 7;
    }
  }

  lemma {:induction false} BodyAppend(chunks: seq<Chunk>, c: Chunk)
    ensures Body(chunks + [c]) == Body(chunks) + Wire(c)
    ensures Content(chunks + [c]) == Content(chunks) + c.data
  {
    if chunks == [] {
      assert [] + [c] == [c] && [c][1..] == [];
    } else {
      BodyAppend(chunks[1..], c);
      assert (chunks + [c])[1..] == chunks[1..] + [c];
    }
  }

  // ---------------------------------------------------------------------------------------------
  // What has been sent and what is waiting in the write buffer, against the content so far.

  /** The bytes of the body so far: these chunks and perhaps the end mark, carrying this content. */
  ghost predicate Carries(body: string, chunks: seq<Chunk>, ended: bool, stream: string, position: nat, limit: nat) {
    && body == Body(chunks) + (if ended then "0\r\n" else "")
    && |Content(chunks)| == position
    && (limit <= MAX_CHUNK ==> Content(chunks) == stream)
    && (forall c <- chunks :: c == Framed(c.data) && 0 < |c.data| <= limit)
  }

  ghost function Ledger(wire: string, unsent: string, chunks: seq<Chunk>, ended: bool, stream: string, position: nat,
                        limit: nat): Answer
  {
    if forall body | Together(body, wire, unsent) :: Carries(body, chunks, ended, stream, position, limit)
    then Yes else No
  }

  predicate Together(body: string, wire: string, unsent: string) { body == wire + unsent }

  const MAX_CHUNK := 0xFF_FFFF

  lemma LedgerStart(limit: nat)
    ensures Ledger("", "", [], false, "", 0, limit) == Yes
  {
  }

  lemma CarriesChunk(body: string, chunks: seq<Chunk>, stream: string, position: nat, limit: nat, chunk: Chunk,
                     data: string)
    requires Carries(body, chunks, false, stream, position, limit)
    requires chunk == Framed(chunk.data) && 0 < |chunk.data| <= limit
    requires limit <= MAX_CHUNK ==> data == chunk.data
    ensures Carries(body + Wire(chunk), chunks + [chunk], false, stream + data, position + |chunk.data|, limit)
  {
    BodyAppend(chunks, chunk);
  }

  lemma LedgerChunk(wire: string, chunks: seq<Chunk>, stream: string, position: nat, limit: nat, data: string, ret: nat)
    requires Ledger(wire, "", chunks, false, stream, position, limit) == Yes
    requires 0 < |data| <= limit && ret == if |data| > MAX_CHUNK then MAX_CHUNK else |data|
    ensures var chunk := Framed(data[..ret]);
            Ledger(wire, Wire(chunk), chunks + [chunk], false, stream + data, position + ret, limit) == Yes
  {
    var part := data[..ret];
    if limit <= MAX_CHUNK { assert part == data; }
    LedgerPart(wire, chunks, stream, position, limit, part, data);
  }

  lemma LedgerPart(wire: string, chunks: seq<Chunk>, stream: string, position: nat, limit: nat, part: string,
                   data: string)
    requires Ledger(wire, "", chunks, false, stream, position, limit) == Yes && 0 < |part| <= limit
    requires limit <= MAX_CHUNK ==> data == part
    ensures Ledger(wire, Wire(Framed(part)), chunks + [Framed(part)], false, stream + data, position + |part|, limit)
      == Yes
  {
    assert Together(wire + "", wire, "");
    CarriesChunk(wire, chunks, stream, position, limit, Framed(part), data);
    assert forall body | Together(body, wire, Wire(Framed(part))) :: body == wire + Wire(Framed(part));
  }

  lemma LedgerEnd(wire: string, chunks: seq<Chunk>, stream: string, position: nat, limit: nat)
    requires Ledger(wire, "", chunks, false, stream, position, limit) == Yes
    ensures Ledger(wire, "0\r\n", chunks, true, stream, position, limit) == Yes
  {
    assert Together(wire + "", wire, "");
    assert wire + "" == wire && Body(chunks) + "" == Body(chunks);
  }

  /**
   A finished body, with chunks short enough for five digits: it is the chunks followed by exactly one
   "0" line, its content is what the reader produced, and the upload decoder gives that content back.
   */
  lemma LedgerDone(wire: string, chunks: seq<Chunk>, stream: string, position: nat, limit: nat, tail: string)
    requires Ledger(wire, "", chunks, true, stream, position, limit) == Yes && limit < 0x10_0000
    ensures wire == Body(chunks) + "0\r\n" && WellFormed(chunks)
    ensures Content(chunks) == stream && |stream| == position
    ensures Decode(0, 0, wire + tail) == Outcome(stream, 0, 0, tail, Finished)
  {
    assert Together(wire + "", wire, "") && wire + "" == wire;
    assert Carries(wire, chunks, true, stream, position, limit);
    forall c | c in chunks ensures c.data != "" && SizeLine(c.header, |c.data|) {
      FramedSizeLine(c.data);
    }
    DecodeFinished(chunks, wire, tail);
  }

  lemma DecodeFinished(chunks: seq<Chunk>, wire: string, tail: string)
    requires WellFormed(chunks) && wire == Body(chunks) + "0\r\n"
    ensures Decode(0, 0, wire + tail) == Outcome(Content(chunks), 0, 0, tail, Finished)
  {
    var last := "0";
    Regroup(Body(chunks), last, tail);
    DecodeBody(chunks, last, tail);
  }

  lemma Regroup(body: string, last: string, tail: string)
    requires last == "0"
    ensures body + "0\r\n" + tail == body + last + "\r\n" + tail
  {
    assert body + "0\r\n" == body + last + "\r\n";
  }

  // ---------------------------------------------------------------------------------------------
  // The sender.

  const HEADER_SPACE := 10

  datatype State = Unready | Ready | BodySent | Closed

  /** What the content reader answers: some bytes, none at the moment, the end, or an error. */
  datatype ReaderAnswer = Bytes(data: string) | NotYet | EndOfStream | EndWithError

  /** The first write buffer asked for is half the pool. */
  function LongestChunk(poolSize: nat): nat {
    if poolSize / 2 < HEADER_SPACE + 2 then 0 else poolSize / 2 - HEADER_SPACE - 2
  }

  class ChunkedSender {
    const poolSize: nat
    var state: State
    var writeBuffer: array?<char>
    var writeBufferSize: nat
    var sendOffset: nat
    var appendOffset: nat
    var position: nat
    var totalSize: nat
    /** Content that is in the response's own buffer already, and where it starts. */
    const window: string
    const windowStart: nat
    ghost var wire: string
    ghost var stream: string
    ghost var chunks: seq<Chunk>
    ghost var ended: bool

    constructor (poolSize: nat, window: string, windowStart: nat)
      requires windowStart + |window| < SIZE_UNKNOWN
      ensures this.poolSize == poolSize && Valid() && state == Unready && wire == "" == stream
    {
      this.poolSize, this.window, this.windowStart := poolSize, window, windowStart;
      state, writeBuffer, writeBufferSize, sendOffset, appendOffset := Unready, null, 0, 0, 0;
      position, totalSize := 0, SIZE_UNKNOWN;
      wire, stream, chunks, ended := "", "", [], false;
      LedgerStart(LongestChunk(poolSize));
    }

    ghost predicate BufferOk()
      reads this
    {
      && (writeBufferSize > 0 ==> writeBuffer != null && writeBuffer.Length == writeBufferSize)
      && (writeBufferSize > 0 ==> 128 <= writeBufferSize <= poolSize / 2)
      && sendOffset <= appendOffset <= writeBufferSize
    }

    ghost function Unsent(): string
      requires BufferOk()
      reads this, writeBuffer
    {
      if writeBufferSize == 0 then "" else writeBuffer[sendOffset..appendOffset]
    }

    ghost predicate Valid()
      reads this, writeBuffer
    {
      && BufferOk()
      && position < SIZE_UNKNOWN && windowStart + |window| < SIZE_UNKNOWN
      && Ledger(wire, Unsent(), chunks, ended, stream, position, LongestChunk(poolSize)) == Yes
      && (state != Closed ==> totalSize == if ended then position else SIZE_UNKNOWN)
      && (state == Unready ==> !ended && Unsent() == "")
      && (state == BodySent ==> ended && Unsent() == "")
    }

    /** A sent body is read back by the upload decoder, whatever follows it on the wire, for pools of up to 2 MiB. */
    lemma ReadBack(tail: string)
      requires Valid() && state == BodySent && poolSize <= 0x20_0000
      ensures Decode(0, 0, wire + tail) == Outcome(stream, 0, 0, tail, Finished) && |stream| == position
    {
      LedgerDone(wire, chunks, stream, position, LongestChunk(poolSize), tail);
    }

    /** Halves the request until the pool can satisfy it, with so many bytes free. */
    method AllocateWriteBuffer(free: nat) returns (ok: bool)
      requires writeBufferSize == 0 == sendOffset == appendOffset
      modifies this`writeBuffer, this`writeBufferSize
      ensures ok ==> fresh(writeBuffer) && 128 <= writeBufferSize <= poolSize / 2 && writeBufferSize <= free
      ensures ok ==> writeBufferSize == poolSize / 2 || 2 * writeBufferSize + 1 > free
      ensures !ok ==> poolSize < 256 || free < 255
      ensures ok ==> writeBuffer != null && writeBuffer.Length == writeBufferSize
      ensures !ok ==> writeBuffer == old(writeBuffer) && writeBufferSize == 0
    {
      var size := poolSize;
      var granted := false;
      while !granted
        invariant size <= poolSize && writeBufferSize == 0 && writeBuffer == old(writeBuffer)
        invariant granted ==> 128 <= size <= poolSize / 2 && size <= free
        invariant if granted then size == poolSize / 2 || 2 * size + 1 > free else size == poolSize || size > free
        decreases !granted, size
      {
        size := size / 2;
        if size < 128 { return false; }
        granted := size <= free;
      }
      writeBuffer, writeBufferSize := new char[size], size;
      ok := true;
    }

    /** The application's reader; its stream is shorter than 2^64 - 1 bytes. */
    method CallReader(max: nat) returns (a: ReaderAnswer)
      ensures a.Bytes? ==> 0 < |a.data| <= max && position + |a.data| < SIZE_UNKNOWN
    {
      a := *;
      if a.Bytes? && !(0 < |a.data| <= max && position + |a.data| < SIZE_UNKNOWN) { a := NotYet; }
    }

    /** The next content: from the response's buffer if it covers the position, else from the reader. */
    method NextContent() returns (a: ReaderAnswer)
      requires writeBufferSize >= 128 && windowStart + |window| < SIZE_UNKNOWN
      ensures a.Bytes? ==> 0 < |a.data| <= writeBufferSize - HEADER_SPACE - 2 && position + |a.data| < SIZE_UNKNOWN
      ensures windowStart <= position < windowStart + |window| ==>
        (a.Bytes? && a.data <= window[position - windowStart..])
    {
      var max := writeBufferSize - HEADER_SPACE - 2;
      if windowStart <= position < windowStart + |window| {
        var rest := window[position - windowStart..];
        return Bytes(if |rest| > max then rest[..max] else rest);
      }
      a := CallReader(max);
    }

    /** Lays out one chunk around the content at HEADER_SPACE. */
    static method WriteFrame(buf: array<char>, data: string, ret: nat) returns (from: nat, to: nat)
      requires 0 < ret <= |data| && ret <= MAX_CHUNK
      requires HEADER_SPACE + |data| + 2 <= buf.Length
      modifies buf
      ensures from <= to <= buf.Length && buf[from..to] == Wire(Framed(data[..ret]))
    {
      CMemory.Memcpy(buf, HEADER_SPACE, data);
      var header := ToHex(ret) + "\r\n";
      SmallPowers();
      HexWidth(ret, 6);
      from, to := HEADER_SPACE - |header|, HEADER_SPACE + ret + 2;
      ghost var s0 := buf[..];
      CMemory.Memcpy(buf, from, header);
      ghost var s1 := buf[..];
      CMemory.Memcpy(buf, HEADER_SPACE + ret, "\r\n");
      CMemory.Inside(s0, s1, HEADER_SPACE, buf.Length, HEADER_SPACE, HEADER_SPACE + ret);
      CMemory.Inside(s1, buf[..], 0, HEADER_SPACE + ret, from, HEADER_SPACE);
      CMemory.Inside(s1, buf[..], 0, HEADER_SPACE + ret, HEADER_SPACE, HEADER_SPACE + ret);
      CMemory.Glue(buf[..], from, HEADER_SPACE, HEADER_SPACE + ret, to);
      assert s0[HEADER_SPACE..HEADER_SPACE + ret] == s0[HEADER_SPACE..HEADER_SPACE + |data|][..ret] == data[..ret];
    }

    /** Sends the content as the next chunk; no more than 0xFFFFFF bytes of it. */
    method FrameContent(data: string)
      requires Valid() && state == Unready && writeBufferSize >= 128
      requires 0 < |data| <= writeBufferSize - HEADER_SPACE - 2 && position + |data| < SIZE_UNKNOWN
      modifies this, writeBuffer
      ensures Valid() && state == Ready && wire == old(wire) && stream == old(stream) + data
      ensures Unsent() != "" && ended == old(ended)
    {
      var ret := if |data| > MAX_CHUNK then MAX_CHUNK else |data|;
      LedgerChunk(wire, chunks, stream, position, LongestChunk(poolSize), data, ret);
      sendOffset, appendOffset := WriteFrame(writeBuffer, data, ret);
      position := position + ret;
      stream := stream + data;
      chunks := chunks + [Framed(data[..ret])];
      state := Ready;
    }

    method EndMark()
      requires Valid() && state == Unready && writeBufferSize >= 128
      modifies this`appendOffset, this`sendOffset, this`totalSize, this`ended, this`state, writeBuffer
      ensures Valid() && state == Ready && ended && Unsent() == "0\r\n" && totalSize == position
    {
      LedgerEnd(wire, chunks, stream, position, LongestChunk(poolSize));
      CMemory.Memcpy(writeBuffer, 0, "0\r\n\0");
      assert writeBuffer[0..3] == writeBuffer[0..4][..3] == "0\r\n";
      appendOffset, sendOffset := 3, 0;
      totalSize := position;
      ended, state := true, Ready;
    }

    /** The answer is None when there is no room for a write buffer. */
    method TryReadyChunkedBody(free: nat) returns (ok: bool, ghost answer: Option<ReaderAnswer>)
      requires Valid() && state == Unready
      modifies this, writeBuffer
      ensures Valid() && wire == old(wire)
      ensures answer.None? ==> poolSize < 256 || free < 255
      ensures answer == Some(EndOfStream) || answer == Some(EndWithError) ==> totalSize == position
      ensures ok <==> answer.Some? && (answer.value.Bytes? || answer.value.EndOfStream?)
      ensures ok ==> state == Ready && ended == answer.value.EndOfStream? && Unsent() != ""
      ensures !ok ==> state == if answer == Some(NotYet) then Unready else Closed
      ensures stream == old(stream) + if ok && answer.value.Bytes? then answer.value.data else ""
      ensures answer.Some? && windowStart <= old(position) < windowStart + |window| ==>
        ok && answer.value.Bytes? && answer.value.data <= window[old(position) - windowStart..]
    {
      answer := None;
      if writeBufferSize == 0 {
        ok := AllocateWriteBuffer(free);
        if !ok {
          state := Closed;
          return;
        }
      }
      var a := NextContent();
      answer := Some(a);
      match a {
        case EndWithError =>
          totalSize := position;
          state := Closed;
          ok := false;
        case EndOfStream =>
          EndMark();
          ok := true;
        case NotYet =>
          ok := false;
        case Bytes(data) =>
          FrameContent(data);
          ok := true;
      }
    }

    /** The socket takes any number of the waiting bytes, or fails for now or for good. */
    method DoWrite() returns (ret: int)
      requires Valid() && state == Ready
      modifies this`wire, this`sendOffset, this`state
      ensures Valid() && (state == Ready || state == Closed)
      ensures ret >= 0 ==> state == Ready && ret <= |old(Unsent())| && wire == old(wire) + old(Unsent())[..ret]
      ensures Unsent() == old(Unsent())[if ret < 0 then 0 else ret..]
      ensures ret < 0 ==> wire == old(wire)
    {
      ret := *;
      if ret > appendOffset - sendOffset { ret := 0; }
      if ret < 0 {
        var again: bool := *;
        if !again { state := Closed; }
        return;
      }
      ghost var unsent := Unsent();
      wire := wire + unsent[..ret];
      sendOffset := sendOffset + ret;
      assert Unsent() == unsent[ret..];
    }

    /** A chunk that is all sent makes room for the next, until the end mark is sent. */
    method HandleWrite() returns (ghost ret: int)
      requires Valid() && state == Ready && Unsent() != ""
      modifies this
      ensures Valid() && ended == old(ended) && stream == old(stream)
      ensures ret < 0 ==>
        (wire == old(wire) && (state == Ready || state == Closed) && (state == Ready ==> Unsent() == old(Unsent())))
      ensures ret >= 0 ==> ret <= |old(Unsent())| && wire == old(wire) + old(Unsent())[..ret]
      ensures ret >= 0 ==> state == if ret < |old(Unsent())| then Ready else if ended then BodySent else Unready
      ensures state == BodySent || state == Unready ==> writeBufferSize == 0
    {
      ret := DoWrite();
      ghost var rest := Unsent();
      if state == Ready && sendOffset == appendOffset {
        sendOffset, appendOffset := 0, 0;
        state := if totalSize == position then BodySent else Unready;
        writeBuffer, writeBufferSize := null, 0;
      }
    }
  }
}
