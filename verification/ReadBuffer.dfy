/** The read buffer inside the connection's pool while a request's head is received line by line. */
module ReadBuffer {
  import opened Common
  import CMemory
  import opened CText
  import opened MemoryPool

  // ---------------------------------------------------------------------------------------------
  // Cutting a byte stream into lines.

  /** A complete line of len characters that takes used characters with its line feed, or none yet. */
  datatype Cut = NoLine | Line(len: nat, used: nat)

  /** The first line feed character, or the last character. */
  function Scan(s: string, i: nat): (n: nat)
    requires i < |s|
    ensures i <= n < |s|
    ensures n < |s| - 1 ==> IsNewline(s[n])
    decreases |s| - i
  {
    if i < |s| - 1 && !IsNewline(s[i]) then Scan(s, i + 1) else i
  }

  function NextLine(s: string): (c: Cut)
    ensures c.Line? ==> c.len < c.used <= |s|
  {
    if s == "" then NoLine
    else
      var pos := Scan(s, 0);
      if pos == |s| - 1 && s[pos] != '\n' then NoLine
      else if s[pos] == '\r' && s[pos + 1] == '\n' then Line(pos, pos + 2)
      else Line(pos, pos + 1)
  }

  datatype Cutting = Cutting(lines: seq<string>, rest: string) {
    function After(line: string): Cutting { Cutting([line] + lines, rest) }
  }

  function Lines(s: string): Cutting
    decreases |s|
  {
    match NextLine(s)
    case NoLine => Cutting([], s)
    case Line(len, used) => Lines(s[used..]).After(s[..len])
  }

  /** Going on with lines cut earlier when more has arrived. */
  function Resumed(c: Cutting, more: string): Cutting {
    var next := Lines(c.rest + more);
    Cutting(c.lines + next.lines, next.rest)
  }

  lemma {:induction false} ScanStable(a: string, b: string, i: nat)
    requires i < |a|
    requires Scan(a, i) < |a| - 1 || a[|a| - 1] == '\n'
    ensures Scan(a + b, i) == Scan(a, i)
    decreases |a| - i
  {
    if i < |a| - 1 && !IsNewline(a[i]) {
      ScanStable(a, b, i + 1);
    }
  }

  /** A line once complete is not changed by what follows. */
  lemma NextLineStable(a: string, b: string)
    requires NextLine(a).Line?
    ensures NextLine(a + b) == NextLine(a)
  {
    ScanStable(a, b, 0);
  }

  lemma ResumedAfter(line: string, c: Cutting, more: string)
    ensures Resumed(c.After(line), more) == Resumed(c, more).After(line)
  {
    assert [line] + c.lines + Lines(c.rest + more).lines == [line] + (c.lines + Lines(c.rest + more).lines);
  }

  /** The lines of a stream do not depend on where it was cut into arrivals. */
  lemma {:induction false} LinesOfArrivals(a: string, b: string)
    ensures Lines(a + b) == Resumed(Lines(a), b)
    decreases |a|
  {
    if NextLine(a).Line? {
      LinesOfFirst(a, b);
      LinesOfArrivals(a[NextLine(a).used..], b);
      ResumedAfter(a[..NextLine(a).len], Lines(a[NextLine(a).used..]), b);
    } else {
      assert [] + Lines(a + b).lines == Lines(a + b).lines;
    }
  }

  lemma LinesOfFirst(a: string, b: string)
    requires NextLine(a).Line?
    ensures Lines(a + b) == Lines(a[NextLine(a).used..] + b).After(a[..NextLine(a).len])
  {
    var used, len := NextLine(a).used, NextLine(a).len;
    NextLineStable(a, b);
    assert (a + b)[..len] == a[..len] && (a + b)[used..] == a[used..] + b;
  }

  // ---------------------------------------------------------------------------------------------
  // What a line is.

  predicate Breakless(s: string) { '\r' !in s && '\n' !in s }

  lemma {:induction false} ScanOver(line: string, s: string, i: nat)
    requires Breakless(line) && i <= |line| && s != "" && (IsNewline(s[0]) || |s| == 1)
    ensures Scan(line + s, i) == |line|
    decreases |line| - i
  {
    if i < |line| {
      assert (line + s)[i] == line[i] && line[i] in line;
      ScanOver(line, s, i + 1);
    } else {
      assert (line + s)[i] == s[0];
    }
  }

  /** A line ends with a line feed, */
  lemma EndsWithLf(line: string, s: string)
    requires Breakless(line)
    ensures Lines(line + "\n" + s) == Lines(s).After(line)
  {
    assert line + "\n" + s == line + ("\n" + s);
    ScanOver(line, "\n" + s, 0);
    BrokenAt(line, "\n", s);
  }

  /** with a carriage return and a line feed, */
  lemma EndsWithCrLf(line: string, s: string)
    requires Breakless(line)
    ensures Lines(line + "\r\n" + s) == Lines(s).After(line)
  {
    assert line + "\r\n" + s == line + ("\r\n" + s);
    ScanOver(line, "\r\n" + s, 0);
    BrokenAt(line, "\r\n", s);
  }

  /** with a carriage return that something else follows, */
  lemma EndsWithCr(line: string, s: string)
    requires Breakless(line) && s != "" && s[0] != '\n'
    ensures Lines(line + "\r" + s) == Lines(s).After(line)
  {
    assert line + "\r" + s == line + ("\r" + s);
    ScanOver(line, "\r" + s, 0);
    BrokenAt(line, "\r", s);
  }

  /** and not at all before one of these is there. */
  lemma NotEnded(line: string)
    requires Breakless(line)
    ensures Lines(line) == Cutting([], line) && Lines(line + "\r") == Cutting([], line + "\r")
  {
    ScanOver(line, "\r", 0);
    if line != "" {
      var n := |line| - 1;
      assert Breakless(line[..n]) && line == line[..n] + [line[n]] && line[n] in line;
      ScanOver(line[..n], [line[n]], 0);
    }
  }

  lemma BrokenAt(line: string, end: string, s: string)
    requires NextLine(line + end + s) == Line(|line|, |line| + |end|)
    ensures Lines(line + end + s) == Lines(s).After(line)
  {
    var all := line + end + s;
    assert all[..|line|] == line && all[|line| + |end|..] == s;
  }

  /** A line as it is sent, with either line break. */
  datatype Sent = Sent(text: string, end: string)

  predicate Sendable(l: Sent) { Breakless(l.text) && (l.end == "\n" || l.end == "\r\n") }

  function Stream(head: seq<Sent>): string {
    if head == [] then "" else head[0].text + head[0].end + Stream(head[1..])
  }

  function Texts(head: seq<Sent>): (r: seq<string>)
    ensures |r| == |head| && forall i :: 0 <= i < |head| ==> r[i] == head[i].text
  {
    if head == [] then [] else [head[0].text] + Texts(head[1..])
  }

  /** Lines that are sent, with either line break, are cut back into exactly these lines. */
  lemma {:induction false} SentLines(head: seq<Sent>, tail: string)
    requires forall i :: 0 <= i < |head| ==> Sendable(head[i])
    ensures Lines(Stream(head) + tail) == Cutting(Texts(head) + Lines(tail).lines, Lines(tail).rest)
  {
    if head == [] {
      assert Stream(head) + tail == tail && Texts(head) + Lines(tail).lines == Lines(tail).lines;
    } else {
      var l, more := head[0], Stream(head[1..]);
      assert Sendable(l);
      SentLines(head[1..], tail);
      OneSent(l, more, tail);
      Together([l.text], Texts(head[1..]), Lines(tail).lines);
    }
  }

  lemma OneSent(l: Sent, more: string, tail: string)
    requires Sendable(l)
    ensures Lines(l.text + l.end + more + tail) == Lines(more + tail).After(l.text)
  {
    Together(l.text + l.end, more, tail);
    if l.end == "\n" { EndsWithLf(l.text, more + tail); } else { EndsWithCrLf(l.text, more + tail); }
  }

  lemma Together<T>(a: seq<T>, b: seq<T>, c: seq<T>)
    ensures a + b + c == a + (b + c)
  {
  }

  // ---------------------------------------------------------------------------------------------
  // The buffer.

  const MHD_BUF_INC_SIZE := 1024

  ghost predicate CutsTo(s: string, c: Cutting) { c == Lines(s) }

  /** The lines handed out and the lines in the buffer are the lines of what was received. */
  ghost function Faithful(received: string, handedOut: seq<string>, pending: string): Answer {
    if forall c, d :: CutsTo(received, c) && CutsTo(pending, d) ==> c == Cutting(handedOut + d.lines, d.rest)
    then Yes else No
  }

  lemma FaithfulStart()
    ensures Faithful("", [], "") == Yes
  {
  }

  lemma ResumedPrefix(texts: seq<string>, c: Cutting, more: string)
    ensures Resumed(Cutting(texts + c.lines, c.rest), more)
         == Cutting(texts + Resumed(c, more).lines, Resumed(c, more).rest)
  {
    assert texts + c.lines + Lines(c.rest + more).lines == texts + (c.lines + Lines(c.rest + more).lines);
  }

  lemma CutsOfArrivals(a: string, b: string, c: Cutting)
    requires CutsTo(a, c)
    ensures CutsTo(a + b, Resumed(c, b))
  {
    LinesOfArrivals(a, b);
  }

  lemma FaithfulArrival(received: string, handedOut: seq<string>, pending: string, data: string)
    requires Faithful(received, handedOut, pending) == Yes
    ensures Faithful(received + data, handedOut, pending + data) == Yes
  {
    var c, d := Lines(received), Lines(pending);
    assert CutsTo(received, c) && CutsTo(pending, d);
    CutsOfArrivals(received, data, c);
    CutsOfArrivals(pending, data, d);
    ResumedPrefix(handedOut, d, data);
    CutsOnce(received + data, Resumed(c, data));
    CutsOnce(pending + data, Resumed(d, data));
  }

  lemma CutsOnce(s: string, c: Cutting)
    requires CutsTo(s, c)
    ensures forall d :: CutsTo(s, d) ==> d == c
  {
  }

  lemma FaithfulLine(received: string, handedOut: seq<string>, pending: string)
    requires Faithful(received, handedOut, pending) == Yes && NextLine(pending).Line?
    ensures Faithful(received, handedOut + [pending[..NextLine(pending).len]], pending[NextLine(pending).used..]) == Yes
  {
    assert CutsTo(received, Lines(received)) && CutsTo(pending, Lines(pending));
    var line, rest := pending[..NextLine(pending).len], Lines(pending[NextLine(pending).used..]);
    assert handedOut + ([line] + rest.lines) == handedOut + [line] + rest.lines;
  }

  /** When no complete line is left, exactly the lines of the stream have been handed out, in order. */
  lemma AllHandedOut(received: string, handedOut: seq<string>, pending: string)
    requires Faithful(received, handedOut, pending) == Yes && NextLine(pending) == NoLine
    ensures Lines(received) == Cutting(handedOut, pending)
  {
    assert CutsTo(received, Lines(received)) && CutsTo(pending, Lines(pending));
    assert handedOut + [] == handedOut;
  }

  lemma HeadSoFar(head: seq<Sent>, tail: string, received: string, handedOut: seq<string>, pending: string)
    requires (forall i :: 0 <= i < |head| ==> Sendable(head[i])) && received <= Stream(head) + tail
    requires Faithful(received, handedOut, pending) == Yes && NextLine(pending) == NoLine
    ensures handedOut <= Texts(head) + Lines(tail).lines
    ensures received == Stream(head) + tail
        ==> handedOut == Texts(head) + Lines(tail).lines && pending == Lines(tail).rest
  {
    var all := Stream(head) + tail;
    AllHandedOut(received, handedOut, pending);
    SentLines(head, tail);
    LinesOfArrivals(received, all[|received|..]);
    assert received + all[|received|..] == all;
  }

  datatype LineResult = Text(address: nat) | NotYet | TooBig

  class Receiver {
    const pool: Pool
    const poolIncrement: nat
    var readBuffer: Option<nat>
    var readBufferSize: nat
    var readBufferOffset: nat
    /** Which block of the pool the read buffer is. */
    ghost var slot: nat
    ghost var received: string
    ghost var pending: string
    ghost var handedOut: seq<string>

    constructor (pool: Pool, poolIncrement: nat)
      requires pool.Valid() && pool.live == []
      ensures this.pool == pool && this.poolIncrement == poolIncrement && Valid() && pending == "" == received
      ensures handedOut == []
    {
      this.pool, this.poolIncrement := pool, poolIncrement;
      readBuffer, readBufferSize, readBufferOffset := None, 0, 0;
      slot, received, pending, handedOut := 0, "", "", [];
      new;
      FaithfulStart();
    }

    ghost predicate Placed()
      reads this, pool
    {
      && pool.Valid()
      && readBufferOffset <= readBufferSize
      && (readBuffer.None? ==> readBufferSize == 0 && slot == |pool.live|)
      && (readBuffer.Some? ==> slot < |pool.live| && pool.live[slot] == Block(readBuffer.value, readBufferSize)
                               && readBuffer.value + readBufferSize <= pool.pos)
    }

    /** The received bytes that are still in the buffer. */
    ghost predicate InBuffer()
      requires Placed()
      reads this, pool, pool.memory
    {
      |pending| == readBufferOffset && (readBuffer.Some? ==> pool.Stored(readBuffer.value, pending))
    }

    ghost predicate Valid()
      reads this, pool, pool.memory
    {
      Placed() && InBuffer() && Faithful(received, handedOut, pending) == Yes
    }

    /** Half the pool at first, then a fixed number of bytes more. */
    function NextSize(): nat
      reads this`readBufferSize
    {
      if readBufferSize == 0 then pool.size / 2 else readBufferSize + MHD_BUF_INC_SIZE
    }

    ghost predicate CanGrow()
      reads this`readBuffer, this`readBufferSize, pool
    {
      pool.Resizable(readBuffer, readBufferSize, NextSize())
    }

    /** There is no room in the buffer and none in the pool. */
    ghost predicate Stuck()
      reads this`readBuffer, this`readBufferSize, this`readBufferOffset, pool
    {
      readBufferOffset == readBufferSize && (poolIncrement > 0 && pool.size >= 2 ==> !CanGrow())
    }

    method TryGrowReadBuffer() returns (ok: bool)
      requires Valid()
      modifies this, pool, pool.memory
      ensures Valid() && pending == old(pending) && received == old(received) && handedOut == old(handedOut)
      ensures ok == old(CanGrow()) && (ok ==> readBufferSize == old(NextSize()))
      ensures !ok ==> readBufferSize == old(readBufferSize) && readBuffer == old(readBuffer) && !CanGrow()
      ensures ok ==> pool.OthersKept(slot)
      ensures slot == old(slot) && readBufferOffset == old(readBufferOffset)
    {
      var newSize := NextSize();
      var buf := pool.Reallocate(readBuffer, readBufferSize, newSize, slot, pending);
      if buf.None? { return false; }
      readBuffer, readBufferSize := buf, newSize;
      ok := true;
    }

    /** The socket fills some of the free space of the buffer. */
    lemma Appended(before: seq<char>, after: seq<char>, from: nat, at: nat, bytes: string)
      requires from <= at && at + |bytes| <= |after| == |before| && after[..at] == before[..at]
      requires after[at..at + |bytes|] == bytes
      ensures after[from..at + |bytes|] == before[from..at] + bytes
    {
      CMemory.Inside(after, before, 0, at, from, at);
      CMemory.Glue(after, from, at, at + |bytes|, at + |bytes|);
    }

    method DoRead(bytes: string)
      requires Valid() && readBuffer.Some? && |bytes| <= readBufferSize - readBufferOffset
      modifies this, pool.memory
      ensures Valid() && pending == old(pending) + bytes && received == old(received) + bytes
      ensures handedOut == old(handedOut) && readBuffer == old(readBuffer) && readBufferSize == old(readBufferSize)
      ensures slot == old(slot) && pool.OthersKept(slot)
    {
      var at := readBuffer.value + readBufferOffset;
      pool.Write(at, bytes, slot);
      Appended(old(pool.memory[..]), pool.memory[..], readBuffer.value, at, bytes);
      readBufferOffset := readBufferOffset + |bytes|;
      FaithfulArrival(received, handedOut, pending, bytes);
      received, pending := received + bytes, pending + bytes;
    }

    /** The socket is readable: make room if there is little, then take what fits of what it gives. */
    method HandleRead(available: string) returns (n: nat)
      requires Valid()
      modifies this, pool, pool.memory
      ensures Valid() && handedOut == old(handedOut) && n <= |available|
      ensures pending == old(pending) + available[..n] && received == old(received) + available[..n]
      ensures n == |available| || readBufferOffset == readBufferSize
      ensures readBufferSize ==
        if old(readBufferOffset + poolIncrement > readBufferSize && CanGrow())
        then old(NextSize()) else old(readBufferSize)
      ensures n == 0 < |available| ==> Stuck() || 0 < readBufferOffset
    {
      n := 0;
      if readBufferOffset + poolIncrement > readBufferSize {
        var _ := TryGrowReadBuffer();
      }
      if readBufferSize > readBufferOffset {
        n := if |available| > readBufferSize - readBufferOffset then readBufferSize - readBufferOffset else |available|;
        DoRead(available[..n]);
      }
    }

    /** Position of the line feed, or of the last character. */
    method ScanLine() returns (n: nat)
      requires Valid() && readBuffer.Some? && readBufferOffset > 0
      ensures n < readBufferOffset && n == Scan(pending, 0)
    {
      n := 0;
      while n < readBufferOffset - 1 && !IsNewline(pool.memory[readBuffer.value + n])
        invariant n < readBufferOffset && Scan(pending, n) == Scan(pending, 0)
      {
        assert pool.memory[readBuffer.value + n] == pending[n];
        n := n + 1;
      }
      if n < readBufferOffset - 1 { assert pool.memory[readBuffer.value + n] == pending[n]; }
    }

    /**
     A complete line is zero-terminated where it lies and cut off the read buffer, which then starts
     behind it.  TooBig: the buffer is full and cannot grow, so the request is answered with an error.
     */
    method GetNextHeaderLine() returns (r: LineResult)
      requires Valid()
      modifies this, pool, pool.memory
      ensures Valid() && received == old(received)
      ensures r.Text? <==> old(NextLine(pending)).Line?
      ensures r.Text? ==> (
          var text := old(pending)[..old(NextLine(pending)).len];
          && old(readBuffer) == Some(r.address) && pool.Stored(r.address, text + "\0")
          && readBuffer == Some(r.address + old(NextLine(pending)).used)
          && handedOut == old(handedOut) + [text] && pending == old(pending)[old(NextLine(pending)).used..]
          && readBufferSize == old(readBufferSize) - old(NextLine(pending)).used)
      ensures !r.Text? ==> pending == old(pending) && handedOut == old(handedOut)
      ensures r.TooBig? <==> old(!NextLine(pending).Line? && 0 < readBufferOffset == readBufferSize && !CanGrow())
      ensures r.NotYet? ==>
        readBufferSize == if old(0 < readBufferOffset == readBufferSize) then old(NextSize()) else old(readBufferSize)
      ensures r.TooBig? || (r.NotYet? && old(readBufferOffset == 0 && Stuck())) ==> Stuck()
    {
      if readBufferOffset == 0 { return NotYet; }
      var rbuf := readBuffer.value;
      var pos := ScanLine();
      assert pool.memory[rbuf + pos] == pending[pos];
      if pos == readBufferOffset - 1 && pool.memory[rbuf + pos] != '\n' {
        if readBufferOffset == readBufferSize {
          var grown := TryGrowReadBuffer();
          if !grown { return TooBig; }
        }
        return NotYet;
      }
      var used := pos + 1;
      if pool.memory[rbuf + pos] == '\r' {
        assert pool.memory[rbuf + pos + 1] == pending[pos + 1];
        if pool.memory[rbuf + pos + 1] == '\n' { used := pos + 2; }
      }
      assert NextLine(pending) == Line(pos, used);
      CutOff(rbuf, pos, used);
      return Text(rbuf);
    }

    /** One line after the other, until none is complete. */
    method TakeLines() returns (r: LineResult)
      requires Valid()
      modifies this, pool, pool.memory
      ensures Valid() && received == old(received)
      ensures !r.Text? && NextLine(pending) == NoLine && (r.TooBig? ==> Stuck())
      ensures old(NextLine(pending) == NoLine && 0 < readBufferOffset == readBufferSize) && r.NotYet? ==>
        readBufferOffset < readBufferSize
      ensures old(NextLine(pending) == NoLine && readBufferOffset == 0 && Stuck()) ==> Stuck()
    {
      r := GetNextHeaderLine();
      while r.Text?
        invariant Valid() && received == old(received) && (!r.Text? ==> NextLine(pending) == NoLine)
        invariant r.TooBig? ==> Stuck()
        invariant old(NextLine(pending) == NoLine && 0 < readBufferOffset == readBufferSize) && r.NotYet? ==>
          readBufferOffset < readBufferSize
        invariant old(NextLine(pending) == NoLine && readBufferOffset == 0 && Stuck()) ==> Stuck()
        invariant old(NextLine(pending) == NoLine) ==> !r.Text?
        decreases |pending|, r.Text?
      {
        r := GetNextHeaderLine();
      }
    }

    /**
     * The head of a request arrives in any segments. However much of it is read before the pool has no room for the
     * next line, the lines handed out are those that were sent; read to the end, all of them.
     */
    method ReceiveHead(segments: seq<string>, ghost head: seq<Sent>, ghost tail: string) returns (whole: bool)
      requires Valid() && received == "" == pending && handedOut == []
      requires (forall i :: 0 <= i < |head| ==> Sendable(head[i])) && Joined(segments) == Stream(head) + tail
      modifies this, pool, pool.memory
      ensures Valid() && received <= Joined(segments) && (if whole then received == Joined(segments) else Stuck())
      ensures handedOut <= Texts(head) + Lines(tail).lines
      ensures whole ==> handedOut == Texts(head) + Lines(tail).lines && pending == Lines(tail).rest
    {
      var i := 0;
      whole := true;
      while i < |segments| && whole
        invariant i <= |segments| && Valid() && NextLine(pending) == NoLine
        invariant if whole then received == Joined(segments[..i]) else received <= Joined(segments) && Stuck()
      {
        assert segments[..i + 1][..i] == segments[..i];
        whole := ReceiveSegment(segments[i]);
        i := i + 1;
        JoinedPrefix(segments, i);
        assert Joined(segments[..i]) == Joined(segments[..i - 1]) + segments[i - 1];
      }
      assert segments[..|segments|] == segments;
      HeadSoFar(head, tail, received, handedOut, pending);
    }

    method ReceiveSegment(segment: string) returns (whole: bool)
      requires Valid() && NextLine(pending) == NoLine
      modifies this, pool, pool.memory
      ensures Valid() && NextLine(pending) == NoLine && (!whole ==> Stuck())
      ensures exists k :: 0 <= k <= |segment| && received == old(received) + segment[..k] && (whole ==> k == |segment|)
    {
      var k := 0;
      whole := true;
      assert received == received + segment[..k];
      while k < |segment| && whole
        invariant Valid() && NextLine(pending) == NoLine && (!whole ==> Stuck())
        invariant k <= |segment| && received == old(received) + segment[..k]
        decreases |segment| - k, whole, if readBufferOffset < readBufferSize then 0 else 1
      {
        var n;
        n, whole := ReadSome(segment[k..]);
        FurtherRead(old(received), segment, k, n);
        k := k + n;
      }
    }

    static lemma FurtherRead(before: string, segment: string, k: nat, n: nat)
      requires k + n <= |segment|
      ensures before + segment[..k] + segment[k..][..n] == before + segment[..k + n]
    {
      assert segment[..k] + segment[k..][..n] == segment[..k + n];
      Together(before, segment[..k], segment[k..][..n]);
    }

    /** The socket is read once, and the lines that are complete are taken. */
    method ReadSome(available: string) returns (n: nat, going: bool)
      requires Valid() && NextLine(pending) == NoLine && available != ""
      modifies this, pool, pool.memory
      ensures Valid() && NextLine(pending) == NoLine && (!going ==> Stuck())
      ensures n <= |available| && received == old(received) + available[..n]
      ensures going && n == 0 ==> old(readBufferOffset == readBufferSize) && readBufferOffset < readBufferSize
    {
      n := HandleRead(available);
      assert n == 0 ==> pending == old(pending);
      var r := TakeLines();
      going := !r.TooBig? && (n > 0 || readBufferOffset < readBufferSize);
    }

    /** Zero bytes over the line feed. */
    method Terminate(rbuf: nat, len: nat, used: nat)
      requires Placed() && InBuffer() && readBuffer == Some(rbuf) && len < used <= |pending| && used <= len + 2
      modifies pool.memory
      ensures pool.Stored(rbuf, pending[..len] + "\0") && pool.Stored(rbuf + used, pending[used..])
      ensures pool.OthersKept(slot)
    {
      ghost var before := pool.memory[..];
      PutZeros(rbuf, len, used);
      Terminated(before, pool.memory[..], rbuf, readBufferOffset, len, used);
    }

    method PutZeros(rbuf: nat, len: nat, used: nat)
      requires Placed() && readBuffer == Some(rbuf) && len < used <= readBufferOffset && used <= len + 2
      modifies pool.memory
      ensures pool.OthersKept(slot) && rbuf + used <= pool.memory.Length && pool.memory[rbuf + len] == '\0'
      ensures pool.memory[..rbuf + len] == old(pool.memory[..rbuf + len])
      ensures pool.memory[rbuf + used..] == old(pool.memory[rbuf + used..])
    {
      var zeros := if used == len + 1 then "\0" else "\0\0";
      pool.Write(rbuf + len, zeros, slot);
      assert pool.memory[rbuf + len] == pool.memory[rbuf + len..rbuf + len + |zeros|][0];
    }

    static lemma Terminated(before: string, after: string, a: nat, n: nat, len: nat, used: nat)
      requires |before| == |after| && len < used <= n && a + n <= |before|
      requires before[..a + len] == after[..a + len] && before[a + used..] == after[a + used..]
      requires after[a + len] == '\0'
      ensures after[a..a + len + 1] == before[a..a + n][..len] + "\0"
      ensures after[a + used..a + n] == before[a..a + n][used..]
    {
      CMemory.Inside(after, before, 0, a + len, a, a + len);
      CMemory.Inside(after, before, a + used, |before|, a + used, a + n);
      assert before[a..a + n][..len] == before[a..a + len] && before[a..a + n][used..] == before[a + used..a + n];
      assert after[a..a + len + 1] == after[a..a + len] + [after[a + len]];
    }

    /** The line is cut off: the buffer starts behind it. */
    method CutOff(rbuf: nat, len: nat, used: nat)
      requires Valid() && readBuffer == Some(rbuf) && NextLine(pending) == Line(len, used)
      modifies this, pool`live, pool.memory
      ensures Valid() && received == old(received)
      ensures pool.Stored(rbuf, old(pending)[..len] + "\0")
      ensures readBuffer == Some(rbuf + used) && readBufferSize == old(readBufferSize) - used
      ensures handedOut == old(handedOut) + [old(pending)[..len]] && pending == old(pending)[used..]
    {
      Terminate(rbuf, len, used);
      FaithfulLine(received, handedOut, pending);
      handedOut := handedOut + [pending[..len]];
      pending := pending[used..];
      readBuffer := Some(rbuf + used);
      readBufferSize := readBufferSize - used;
      readBufferOffset := readBufferOffset - used;
      pool.Split(slot, used);
    }
  }
}
