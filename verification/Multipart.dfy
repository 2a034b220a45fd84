/** Form data of type multipart/form-data, parsed as its segments arrive. */
module Multipart {
  import opened Common
  import CMemory
  import opened CText
  import opened MultipartText

  // ---------------------------------------------------------------------------------------------
  // The search in the buffer.

  /** The end of what is surely part of the value, and whether the delimiter is there. */
  method ScanValue(b: array<char>, n: nat, boundary: string) returns (newline: nat, found: bool)
    requires n <= b.Length && |boundary| >= 1
    ensures newline <= n && NoneBefore(b[..n], newline, boundary)
    ensures found ==> DelimiterAt(b[..n], newline, boundary)
    ensures !found ==> newline + |boundary| + 4 > n
  {
    newline, found := 0, false;
    while true
      invariant newline <= n && NoneBefore(b[..n], newline, boundary) && !found
      decreases n - newline
    {
      newline := FindBreak(b, n, newline, boundary);
      if newline + |boundary| + 4 > n { return; }
      Within(b[..], n, newline, newline + 4);
      Within(b[..], n, newline + 4, newline + 4 + |boundary|);
      if b[newline + 4..newline + 4 + |boundary|] == boundary {
        CMemory.Glue(b[..n], newline, newline, newline + 4, newline + 4 + |boundary|);
        found := true;
        return;
      }
      OtherBoundary(b[..n], newline, boundary);
      newline := newline + 4;
    }
  }

  lemma Within(s: string, n: nat, i: nat, j: nat)
    requires i <= j <= n <= |s|
    ensures s[..n][i..j] == s[i..j]
  {
  }

  /** Behind the break is something else, and no delimiter starts inside the break. */
  lemma OtherBoundary(s: string, p: nat, boundary: string)
    requires p + |boundary| + 4 <= |s| && NoneBefore(s, p, boundary)
    requires s[p..p + 4] == "\r\n--" && s[p + 4..p + 4 + |boundary|] != boundary && |boundary| >= 1
    ensures NoneBefore(s, p + 4, boundary)
  {
    var k: nat :| k < |boundary| && s[p + 4..p + 4 + |boundary|][k] != boundary[k];
    assert s[p + (4 + k)] != Delimiter(boundary)[4 + k];
    forall q: nat | p < q < p + 4 ensures Excluded(s, q, boundary) {
      assert s[q] == s[p..p + 4][q - p];
      assert s[q + 0] != Delimiter(boundary)[0];
    }
  }

  /** The next line break with two dashes, unless the last four bytes come first. */
  method FindBreak(b: array<char>, n: nat, from: nat, boundary: string) returns (newline: nat)
    requires from <= n <= b.Length && |boundary| >= 1
    requires NoneBefore(b[..n], from, boundary)
    ensures from <= newline <= n && NoneBefore(b[..n], newline, boundary)
    ensures newline + |boundary| + 4 <= n ==> b[newline..newline + 4] == "\r\n--"
  {
    newline := from;
    while newline + 4 < n
      invariant from <= newline <= n && NoneBefore(b[..n], newline, boundary)
      decreases n - newline
    {
      var r := Memchr(b, newline, n - 4, '\r');
      SkipTo(b[..n], newline, r, boundary);
      newline := r;
      if r == n - 4 { break; }
      if b[r..r + 4] == "\r\n--" { break; }
      NotHere(b[..n], r, boundary);
      newline := newline + 1;
    }
  }

  /** The first place of a character, or the end of the range. */
  method Memchr(b: array<char>, from: nat, to: nat, c: char) returns (r: nat)
    requires from <= to <= b.Length
    ensures from <= r <= to && (r < to ==> b[r] == c)
    ensures forall i :: from <= i < r ==> b[i] != c
  {
    r := from;
    while r < to && b[r] != c
      invariant from <= r <= to && forall i :: from <= i < r ==> b[i] != c
    {
      r := r + 1;
    }
  }

  lemma SkipTo(s: string, from: nat, to: nat, boundary: string)
    requires from <= to <= |s| && NoneBefore(s, from, boundary) && forall i :: from <= i < to ==> s[i] != '\r'
    ensures NoneBefore(s, to, boundary)
  {
    forall p: nat | p < to ensures Excluded(s, p, boundary) {
      if p >= from { assert s[p + 0] != Delimiter(boundary)[0]; }
    }
  }

  lemma NotHere(s: string, p: nat, boundary: string)
    requires p + 4 <= |s| && NoneBefore(s, p, boundary) && s[p..p + 4] != "\r\n--"
    ensures NoneBefore(s, p + 1, boundary)
  {
    var k: nat :| k < 4 && s[p..p + 4][k] != "\r\n--"[k];
    assert s[p + k] != Delimiter(boundary)[k];
  }

  // ---------------------------------------------------------------------------------------------
  // The headers of a part.

  /** The rest of the line behind the prefix, unless the field is known already. */
  method TryMatchHeader(prefix: string, line: string, suffix: Option<string>) returns (r: Option<string>)
    ensures r == Keep(suffix, AfterPrefix(prefix, line))
  {
    if suffix.Some? { return suffix; }
    var i := 0;
    while i < |line|
      invariant 0 <= i <= |line| && AfterPrefix(prefix, line) == AfterPrefix(prefix, line[i..])
    {
      if CaselessPrefix(prefix, line[i..]) { return Some(line[i..][|prefix|..]); }
      assert line[i..][1..] == line[i + 1..];
      i := i + 1;
    }
    r := None;
  }

  /** The value in key="value", unless the field is known already. */
  method TryGetValue(buf: string, key: string, destination: Option<string>) returns (r: Option<string>)
    requires key != ""
    ensures r == Keep(destination, QuotedValue(buf, key, 0))
  {
    if destination.Some? { return destination; }
    var bpos := 0;
    while true
      invariant 0 <= bpos <= |buf| && QuotedValue(buf, key, 0) == QuotedValue(buf, key, bpos)
      decreases |buf| - bpos
    {
      var spos := bpos + Find(buf[bpos..], key);
      if spos == |buf| { return None; }
      if KeyAt(buf, key, spos) { return QuotedAt(buf, spos + |key| + 1); }
      bpos := spos + 1;
    }
  }

  // ---------------------------------------------------------------------------------------------
  // What the application gets.

  /** One call of the application's iterator. */
  datatype Call = Call(off: nat, data: string)

  function Text(calls: seq<Call>): string {
    if calls == [] then "" else Text(calls[..|calls| - 1]) + calls[|calls| - 1].data
  }

  /** Each offset is the number of bytes of the calls before. */
  ghost predicate Contiguous(calls: seq<Call>) {
    forall i :: 0 <= i < |calls| ==> calls[i].off == |Text(calls[..i])|
  }

  lemma OneMore(calls: seq<Call>, data: string)
    requires Contiguous(calls)
    ensures var more := calls + [Call(|Text(calls)|, data)]; Contiguous(more) && Text(more) == Text(calls) + data
  {
    var more := calls + [Call(|Text(calls)|, data)];
    assert more[..|calls|] == calls;
    forall i | 0 <= i < |more| ensures more[i].off == |Text(more[..i])| {
      assert more[..i] == calls[..i];
    }
  }

  /** A part: its headers and the calls that handed over its value. */
  datatype Part = Part(fields: Fields, calls: seq<Call>)

  function Delivered(parts: seq<Part>): seq<Entry> {
    if parts == [] then []
    else
      var last := parts[|parts| - 1];
      Delivered(parts[..|parts| - 1]) + [Entry(last.fields, Text(last.calls))]
  }

  /** At least one call for each part, and offsets that add up. */
  ghost predicate Proper(parts: seq<Part>) {
    forall i :: 0 <= i < |parts| ==> parts[i].calls != [] && Contiguous(parts[i].calls)
  }

  lemma OnePart(parts: seq<Part>, p: Part)
    requires Proper(parts) && p.calls != [] && Contiguous(p.calls)
    ensures Proper(parts + [p]) && Delivered(parts + [p]) == Delivered(parts) + [Entry(p.fields, Text(p.calls))]
  {
    assert (parts + [p])[..|parts|] == parts;
  }

  // ---------------------------------------------------------------------------------------------
  // The post processor.

  /** How a turn of the loop goes on. */
  datatype Turn = Onward | Again | Pause | Fail

  class PostProcessor {
    const boundary: string
    const bufferSize: nat
    ghost const format: Format
    const buf: array<char>
    var bufferPos: nat
    var ioff: nat
    var state: State
    var dashState: State
    var skip: Skip
    var mustCall: bool
    var valueOffset: nat
    var fields: Fields
    /** What the application has: the calls for the running value, and the parts before it. */
    var calls: seq<Call>
    var parts: seq<Part>
    /** The bytes received, those of them still to be read, and the text of the running value. */
    ghost var stream: string
    ghost var held: string
    ghost var text: string

    /** The size asked for must allow for the boundary; four bytes are added to it. */
    constructor (boundary: string, size: nat)
      requires |boundary| >= 1 && |boundary| * 2 + 2 <= size
      ensures Valid() && ioff == 0 && stream == "" && parts == [] && fresh(buf) && format == FormData(boundary, size)
      ensures Next(format, At(), held) == Wait
    {
      this.boundary, bufferSize, format := boundary, size + 4, FormData(boundary, size);
      buf := new char[size + 5](_ => '\0');
      bufferPos, ioff, state, dashState, skip, mustCall, valueOffset := 0, 0, Init, Done, Inactive, false, 0;
      fields, calls, parts, stream, held, text := NO_FIELDS, [], [], "", "", "";
      new;
      TrackStart(format);
      NextOfNothing(format, START);
    }

    /** Header lines mean what they mean in form data; looked at only where one is read. */
    ghost predicate Understood()
      reads this
    {
      && format.boundary == boundary && format.room == bufferSize
      && forall at {:trigger Look(at)} :: Look(at) ==> format.take == TakeHeader && format.kind == KindOf
    }

    /** The buffer holds what is still to be read. */
    ghost predicate Buffered()
      reads this`bufferPos, this`ioff, this`held, buf
    {
      && |boundary| >= 1 && |boundary| * 2 + 6 <= bufferSize && buf.Length == bufferSize + 1
      && ioff <= bufferPos <= bufferSize && buf[ioff..bufferPos] == held
    }

    /** The running value has been handed over in calls with offsets that add up. */
    ghost predicate Running()
      reads this`skip, this`calls, this`valueOffset, this`mustCall, this`text
    {
      && skip == Inactive && Contiguous(calls) && text == Text(calls) && valueOffset == |text|
      && (mustCall <==> calls == [])
    }

    ghost function At(): Mode
      reads this`state, this`skip, this`fields, this`text
    {
      Mode(state, skip, fields, text)
    }

    ghost predicate Tracked()
      reads this`state, this`skip, this`fields, this`text, this`parts, this`stream, this`held
    {
      Proper(parts) && Track(format, stream, Delivered(parts), At(), held) == Yes
    }

    ghost predicate Valid()
      reads this, buf
    {
      && Understood() && Buffered() && Tracked() && dashState == Done
      && (if state == ProcessValueToBoundary then Running() else text == "")
      && (state == PerformCheckMultipart ==> mustCall) && state != NestedInit && state != Error
    }

    /** The body is rejected, or a part is made of parts, whatever follows. */
    ghost predicate Failed()
      reads this`state, this`parts, this`stream
    {
      && (state == Error || state == NestedInit) && Proper(parts)
      && Stopped(format, stream, Outcome(Delivered(parts), if state == NestedInit then Nested else Rejected)) == Yes
    }

    /** As much input as fits goes to the buffer. */
    method Fill(data: string, poff: nat) returns (next: nat)
      requires Valid() && ioff == 0 && poff <= |data|
      modifies this`bufferPos, this`stream, this`held, buf
      ensures Valid() && poff <= next <= |data| && stream == old(stream) + data[poff..next]
      ensures bufferPos == old(bufferPos) + next - poff
      ensures next < |data| ==> bufferPos == bufferSize
    {
      var max := bufferSize - bufferPos;
      if max > |data| - poff { max := |data| - poff; }
      next := poff + max;
      TrackArrival(format, stream, Delivered(parts), At(), held, data[poff..next]);
      CopyIn(data[poff..next]);
    }

    method CopyIn(bytes: string)
      requires Buffered() && ioff == 0 && bufferPos + |bytes| <= bufferSize
      modifies this`bufferPos, this`stream, this`held, buf
      ensures Buffered() && stream == old(stream) + bytes && held == old(held) + bytes
      ensures bufferPos == old(bufferPos) + |bytes|
    {
      CMemory.Memcpy(buf, bufferPos, bytes);
      assert buf[..bufferPos + |bytes|] == buf[..bufferPos] + buf[bufferPos..bufferPos + |bytes|];
      bufferPos := bufferPos + |bytes|;
      stream, held := stream + bytes, held + bytes;
    }

    /** What has been dealt with leaves the buffer. */
    method Shift()
      requires Valid()
      modifies this`bufferPos, this`ioff, buf
      ensures Valid() && ioff == 0 && bufferPos == old(bufferPos) - old(ioff)
    {
      if ioff > 0 {
        CMemory.MoveToFront(buf, ioff, bufferPos - ioff);
        bufferPos, ioff := bufferPos - ioff, 0;
        assert buf[0..bufferPos] == held;
      }
    }

    /** Bytes are dealt with; what this means for the state is settled already. */
    method Advance(n: nat, ghost next: Mode)
      requires Buffered() && n <= |held| && Proper(parts)
      requires Track(format, stream, Delivered(parts), next, held[n..]) == Yes
      modifies this`ioff, this`held
      ensures Buffered() && ioff == old(ioff) + n && held == old(held)[n..]
      ensures Track(format, stream, Delivered(parts), next, held) == Yes
    {
      assert buf[ioff + n..bufferPos] == buf[ioff..bufferPos][n..];
      ioff := ioff + n;
      held := held[n..];
    }

    /** The state machine for line breaks and dashes; with Onward the main one has its turn. */
    method SkipBreaks() returns (turn: Turn)
      requires Valid() && ioff == 0 && bufferPos > 0
      modifies this`ioff, this`skip, this`state, this`held
      ensures turn == Again || turn == Onward || turn == Fail
      ensures turn == Again ==> Valid() && ioff > 0
      ensures turn == Onward ==> skip == Inactive && unchanged(this)
      ensures turn == Fail ==> Failed()
    {
      if skip == Inactive { return Onward; }
      assert held[0] == buf[0];
      NextOfSkip(format, At(), held);
      turn := Again;
      if skip == OptN && buf[0] == '\n' {
        Take(Inactive);
      } else if (skip == OptN || skip == Dash) && buf[0] == '-' {
        Take(Dash2);
      } else if skip == Dash2 {
        if buf[0] == '-' { TakeLastDash(); } else { turn := Reject(); }
      } else if buf[0] == '\r' {
        if bufferPos > 1 && buf[1] == '\n' { TakeBreak(); } else { Take(OptN); }
      } else if buf[0] == '\n' {
        Take(Inactive);
      } else {
        turn := Reject();
        skip := Inactive;
      }
    }

    method Reject() returns (turn: Turn)
      requires Tracked() && Next(format, At(), held) == Stop(Rejected)
      modifies this`state
      ensures turn == Fail && Failed()
    {
      TrackStop(format, stream, Delivered(parts), At(), held, Rejected);
      turn, state := Fail, Error;
    }

    method Take(next: Skip)
      requires Valid() && ioff == 0 && skip != Inactive && held != ""
      requires Next(format, At(), held) == Go(At().(skip := next), 1, None)
      modifies this`ioff, this`skip, this`held
      ensures Valid() && ioff == 1
    {
      TrackGo(format, stream, Delivered(parts), At(), held, At().(skip := next), 1);
      Advance(1, At().(skip := next));
      skip := next;
    }

    method TakeBreak()
      requires Valid() && ioff == 0 && skip != Inactive && |held| > 1 && held[0] == '\r' && held[1] == '\n'
      requires skip != Dash2
      modifies this`ioff, this`skip, this`held
      ensures Valid() && ioff == 2
    {
      ghost var mid, next := At().(skip := OptN), At().(skip := Inactive);
      NextOfSkip(format, At(), held);
      TrackGo(format, stream, Delivered(parts), At(), held, mid, 1);
      NextOfSkip(format, mid, held[1..]);
      TrackGo(format, stream, Delivered(parts), mid, held[1..], next, 1);
      assert held[1..][1..] == held[2..];
      Advance(2, next);
      skip := Inactive;
    }

    method TakeLastDash()
      requires Valid() && ioff == 0 && skip == Dash2 && held != "" && held[0] == '-'
      modifies this`ioff, this`skip, this`state, this`held
      ensures Valid() && ioff == 1
    {
      NextOfSkip(format, At(), held);
      TrackGo(format, stream, Delivered(parts), At(), held, At().(skip := Full, state := Done), 1);
      Advance(1, At().(skip := Full, state := Done));
      skip, state := Full, dashState;
    }

    /** Before the first boundary everything is skipped; the headers of a part follow it. */
    method FindBoundary() returns (waits: bool)
      requires Valid() && ioff == 0 && bufferPos > 0 && state == Init && skip == Inactive
      modifies this`ioff, this`skip, this`state, this`dashState, this`held
      ensures Valid()
      ensures if waits then unchanged(this) && Next(format, At(), held) == Wait && bufferPos < bufferSize else ioff > 0
    {
      NextOfInit(format, At(), held);
      waits := bufferPos < 2 + |boundary|;
      if waits {
        // Out of memory here: the size asked for rules it out.
        if bufferPos == bufferSize { assert false; }
        return;
      }
      assert held == buf[..][..bufferPos];
      Within(buf[..], bufferPos, 0, 2);
      Within(buf[..], bufferPos, 2, 2 + |boundary|);
      if buf[..2] == "--" && buf[2..2 + |boundary|] == boundary {
        TakeBoundary(At().(skip := Dash, state := ProcessEntryHeaders));
      } else {
        SkipGarbage();
      }
    }

    method TakeBoundary(ghost next: Mode)
      requires Valid() && ioff == 0 && state == Init && skip == Inactive && 2 + |boundary| <= |held|
      requires next == At().(skip := Dash, state := ProcessEntryHeaders)
      requires Next(format, At(), held) == Go(next, 2 + |boundary|, None)
      modifies this`ioff, this`skip, this`state, this`dashState, this`held
      ensures Valid() && ioff == 2 + |boundary| && state == ProcessEntryHeaders && skip == Dash
    {
      TrackGo(format, stream, Delivered(parts), At(), held, next, 2 + |boundary|);
      Advance(2 + |boundary|, next);
      skip, state, dashState := Dash, ProcessEntryHeaders, Done;
    }

    /** Up to the next dash, but at least one byte. */
    method SkipGarbage()
      requires Valid() && ioff == 0 && bufferPos > 0 && state == Init && skip == Inactive
      requires Next(format, At(), held) == Go(At(), 1, None)
      modifies this`ioff, this`held
      ensures Valid() && ioff > 0
    {
      var dash := Memchr(buf, 0, bufferPos, '-');
      assert held == buf[..bufferPos];
      if dash == 0 {
        TrackGo(format, stream, Delivered(parts), At(), held, At(), 1);
      } else {
        TrackSkip(format, stream, Delivered(parts), At(), held, dash);
      }
      Advance(if dash == 0 then 1 else dash, At());
    }

    /** One line of the headers of a part; an empty one ends them. */
    method ProcessHeaders() returns (turn: Turn)
      requires Valid() && ioff == 0 && bufferPos > 0 && state == ProcessEntryHeaders && mustCall && skip == Inactive
      modifies this`ioff, this`skip, this`state, this`fields, this`held, buf
      ensures turn == Onward || turn == Pause || turn == Fail
      ensures turn == Onward ==> Valid() && (ioff > 0 || state == PerformCheckMultipart)
      ensures turn == Pause ==> Valid() && unchanged(this) && Next(format, At(), held) == Wait && bufferPos < bufferSize
      ensures turn == Fail ==> Failed()
    {
      var newline := FindLineEnd();
      NextOfHeaders(format, At(), held, newline);
      if newline == bufferSize {
        turn := Reject();
        return;
      }
      if newline == bufferPos { return Pause; }
      turn := Onward;
      if newline == 0 {
        TrackGo(format, stream, Delivered(parts), At(), held, At().(skip := Full, state := PerformCheckMultipart), 0);
        assert held[0..] == held;
        skip, state := Full, PerformCheckMultipart;
        return;
      }
      assert buf[newline] == held[newline] && buf[..newline] == held[..newline];
      TakeHeaderLine(newline, Next(format, At(), held).mode);
    }

    method FindLineEnd() returns (newline: nat)
      requires Buffered() && ioff == 0
      ensures newline <= bufferPos && (newline < bufferPos ==> IsNewline(held[newline]))
      ensures forall i :: 0 <= i < newline ==> !IsNewline(held[i])
    {
      newline := 0;
      while newline < bufferPos && buf[newline] != '\r' && buf[newline] != '\n'
        invariant newline <= bufferPos && forall i :: 0 <= i < newline ==> !IsNewline(buf[i])
      {
        newline := newline + 1;
      }
      assert held == buf[..bufferPos];
    }

    method TakeHeaderLine(newline: nat, ghost next: Mode)
      requires Valid() && ioff == 0 && state == ProcessEntryHeaders && skip == Inactive && 0 < newline < |held|
      requires next == At().(skip := if buf[newline] == '\r' then OptN else Inactive,
                             fields := format.take(fields, CStr(buf[..newline])))
      requires Next(format, At(), held) == Go(next, newline + 1, None)
      modifies this`ioff, this`skip, this`fields, this`held, buf
      ensures Valid() && ioff == newline + 1
    {
      TrackGo(format, stream, Delivered(parts), At(), held, next, newline + 1);
      if buf[newline] == '\r' { skip := OptN; }
      ReadHeader(CStr(buf[..newline]));
      assert At() == next;
      Advance(newline + 1, next);
      Terminate(newline);
    }

    /** A zero over the line break. */
    method Terminate(at: nat)
      requires Buffered() && at < ioff
      modifies buf
      ensures Buffered() && buf[at] == '\0'
    {
      buf[at] := '\0';
      assert buf[ioff..bufferPos] == old(buf[ioff..bufferPos]);
    }

    method ReadHeader(line: string)
      requires Understood()
      modifies this`fields
      ensures fields == format.take(old(fields), line)
    {
      assert Look(0);
      var name, filename, contentType, encoding := fields.name, fields.filename, fields.contentType, fields.encoding;
      if CaselessPrefix("Content-disposition: ", line) {
        var rest := line[|"Content-disposition: "|..];
        name := TryGetValue(rest, "name", name);
        filename := TryGetValue(rest, "filename", filename);
      } else {
        contentType := TryMatchHeader("Content-type: ", line, contentType);
        encoding := TryMatchHeader("Content-Transfer-Encoding: ", line, encoding);
      }
      fields := Fields(name, filename, contentType, encoding);
    }

    /** The value of the part starts here, unless the part is itself made of parts. */
    method CheckMultipart() returns (turn: Turn)
      requires Valid() && ioff == 0 && bufferPos > 0 && state == PerformCheckMultipart && skip == Inactive
      modifies this`state, this`valueOffset, this`calls, this`text
      ensures turn == Onward || turn == Fail
      ensures turn == Onward ==> Valid() && state == ProcessValueToBoundary
      ensures turn == Fail ==> Failed()
    {
      var kind := KindOf(fields);
      assert format.kind(fields) == kind by { assert Look(0); }
      NextOfCheck(format, At(), held);
      if kind == Plain {
        StartValue();
        return Onward;
      }
      TrackStop(format, stream, Delivered(parts), At(), held, if kind == Mixed then Nested else Rejected);
      state := if kind == Mixed then NestedInit else Error;
      turn := Fail;
    }

    method StartValue()
      requires Valid() && ioff == 0 && bufferPos > 0 && state == PerformCheckMultipart && skip == Inactive
      requires format.kind(fields) == Plain
      modifies this`state, this`valueOffset, this`calls, this`text
      ensures Valid() && state == ProcessValueToBoundary
    {
      ghost var next := At().(state := ProcessValueToBoundary, text := "");
      NextOfCheck(format, At(), held);
      TrackGo(format, stream, Delivered(parts), At(), held, next, 0);
      assert held[0..] == held;
      state := ProcessValueToBoundary;
      valueOffset, calls, text := 0, [], "";
      assert At() == next;
    }

    /** The application keeps what it is given. */
    method Iterate(data: string)
      requires Contiguous(calls) && valueOffset == |Text(calls)|
      modifies this`calls
      ensures calls == old(calls) + [Call(valueOffset, data)] && Contiguous(calls)
      ensures Text(calls) == old(Text(calls)) + data
    {
      OneMore(calls, data);
      calls := calls + [Call(valueOffset, data)];
    }

    /** A call, except for nothing when there was one already. */
    method HandOver(data: string)
      requires Running()
      modifies this`mustCall, this`valueOffset, this`calls, this`text
      ensures Running() && calls != [] && text == old(text) + data
      ensures |calls| == |old(calls)| + if old(mustCall) || data != "" then 1 else 0
    {
      if mustCall || |data| != 0 { Iterate(data); }
      text := text + data;
      mustCall := false;
      valueOffset := valueOffset + |data|;
    }

    /** The bytes before the delimiter, or those that can not belong to one. There is always room to go on. */
    method ProcessValue() returns (waits: bool)
      requires Valid() && ioff == 0 && bufferPos > 0 && state == ProcessValueToBoundary
      modifies this`ioff, this`skip, this`state, this`dashState, this`mustCall, this`valueOffset, this`calls, this`parts
      modifies this`held, this`text, buf
      ensures Valid() && waits == (ioff == 0)
      ensures waits ==>
        (Next(format, At(), held) == Wait && state == ProcessValueToBoundary && bufferPos < |boundary| + 4)
    {
      var newline, found := ScanValue(buf, bufferPos, boundary);
      // Out of memory here: the size asked for rules it out.
      if !found && newline == 0 && bufferPos == bufferSize { assert false; }
      assert held == buf[..bufferPos];
      if found { DelimiterLater(held, newline, boundary); }
      Deliver(newline);
      if found {
        NextAtDelimiter(format, At(), held);
        EndValue(newline, At().(skip := Dash, state := PerformCleanup, text := ""));
      } else if newline == 0 {
        NextWithoutDelimiter(format, At(), held);
      }
      waits := ioff == 0;
    }

    /** So many bytes of the buffer are part of the value. */
    method Deliver(newline: nat)
      requires Valid() && ioff == 0 && state == ProcessValueToBoundary && newline <= |held|
      requires NoneBefore(held, newline, boundary)
      modifies this`ioff, this`mustCall, this`valueOffset, this`calls, this`held, this`text
      ensures Valid() && ioff == newline && calls != [] && held == old(held)[newline..]
    {
      ghost var next := At().(text := text + held[..newline]);
      TrackValue(format, stream, Delivered(parts), At(), held, newline);
      assert buf[..newline] == held[..newline];
      HandOver(buf[..newline]);
      Advance(newline, next);
    }

    /** The delimiter is here: the value is complete. */
    method EndValue(newline: nat, ghost next: Mode)
      requires Valid() && state == ProcessValueToBoundary && calls != [] && ioff == newline && |boundary| + 4 <= |held|
      requires next == At().(skip := Dash, state := PerformCleanup, text := "")
      requires Next(format, At(), held) == Go(next, |boundary| + 4, Some(Entry(fields, text)))
      modifies this`ioff, this`skip, this`state, this`dashState, this`parts, this`held, this`text, buf
      ensures Valid() && ioff > 0
    {
      TrackPart(format, stream, Delivered(parts), At(), held, next, |boundary| + 4, Entry(fields, text));
      CompletePart();
      DropDelimiter(newline, next);
      skip, state, dashState, text := Dash, PerformCleanup, Done, "";
    }

    method CompletePart()
      requires Proper(parts) && Running() && calls != []
      modifies this`parts
      ensures Proper(parts) && Delivered(parts) == Delivered(old(parts)) + [Entry(fields, text)]
    {
      OnePart(parts, Part(fields, calls));
      parts := parts + [Part(fields, calls)];
    }

    method DropDelimiter(newline: nat, ghost next: Mode)
      requires Buffered() && Proper(parts) && newline == ioff && |boundary| + 4 <= |held|
      requires Track(format, stream, Delivered(parts), next, held[|boundary| + 4..]) == Yes
      modifies this`ioff, this`held, buf
      ensures Buffered() && ioff == old(ioff) + |boundary| + 4
      ensures Track(format, stream, Delivered(parts), next, held) == Yes
    {
      Advance(|boundary| + 4, next);
      Terminate(newline);
    }

    // -------------------------------------------------------------------------------------------
    // The loop.

    /** The main state machine. Where it takes no byte it comes nearer to the value, or waits with room for more. */
    method MainStep() returns (turn: Turn, changed: bool)
      requires Valid() && ioff == 0 && bufferPos > 0 && skip == Inactive
      modifies this`ioff, this`skip, this`state, this`dashState, this`mustCall, this`valueOffset, this`fields
      modifies this`calls, this`parts, this`held, this`text, buf
      ensures turn == Onward || turn == Pause || turn == Fail
      ensures turn == Onward ==> Valid() && (ioff > 0 || (changed && Rank(state) < old(Rank(state))) || !changed)
      ensures turn == Pause || (turn == Onward && !changed && ioff == 0) ==>
        Valid() && ioff == 0 && Next(format, At(), held) == Wait && bufferPos < bufferSize && state == old(state)
        && (state == ProcessValueToBoundary ==> bufferPos < |boundary| + 4)
      ensures turn == Fail ==> Failed()
    {
      turn, changed := Onward, false;
      if state == Init {
        var _ := FindBoundary();
      } else if state == ProcessEntryHeaders {
        mustCall := true;
        turn := ProcessHeaders();
        changed := turn == Onward;
      } else if state == PerformCheckMultipart {
        turn := CheckMultipart();
        changed := true;
      } else if state == ProcessValueToBoundary {
        var _ := ProcessValue();
      } else if state == PerformCleanup {
        Cleanup();
        changed := true;
      } else {
        NextOfDone(format, At(), held);
        turn := Reject();
      }
    }

    /** The headers of the part are forgotten. */
    method Cleanup()
      requires Valid() && ioff == 0 && bufferPos > 0 && skip == Inactive && state == PerformCleanup
      modifies this`state, this`fields
      ensures Valid() && state == ProcessEntryHeaders
    {
      ghost var next := At().(state := ProcessEntryHeaders, fields := NO_FIELDS);
      NextOfCleanup(format, At(), held);
      TrackGo(format, stream, Delivered(parts), At(), held, next, 0);
      assert held[0..] == held;
      fields := NO_FIELDS;
      state := ProcessEntryHeaders;
    }

    /** One turn of both machines on a buffer that is not empty. */
    method Turnover() returns (turn: Turn, changed: bool)
      requires Valid() && ioff == 0 && bufferPos > 0
      modifies this, buf
      ensures turn == Onward || turn == Pause || turn == Fail
      ensures stream == old(stream) && (turn == Fail ==> Failed())
      ensures turn != Fail ==> Valid() && ioff == 0 && bufferPos <= old(bufferPos)
      ensures turn == Onward && changed ==> bufferPos < old(bufferPos) || Rank(state) < old(Rank(state))
      ensures turn == Pause || (turn == Onward && !changed) ==>
        bufferPos < bufferSize && bufferPos == old(bufferPos) && Next(format, At(), held) == Wait && state == old(state)
        && (state == ProcessValueToBoundary ==> bufferPos < |boundary| + 4)
    {
      changed := false;
      turn := SkipBreaks();
      if turn == Onward { turn, changed := MainStep(); }
      if turn == Fail { return; }
      if turn == Again { turn := Onward; }
      if ioff > 0 { changed := true; }
      Shift();
    }

    /** One segment: the loop ends, and nothing but the body itself makes it fail. */
    method Process(data: string) returns (ok: bool)
      requires Valid() && ioff == 0
      modifies this, buf
      ensures ok ==> Valid() && ioff == 0 && stream == old(stream) + data && Next(format, At(), held) == Wait
      ensures ok && state == ProcessValueToBoundary ==> bufferPos < |boundary| + 4
      ensures !ok ==> Failed() && old(stream) <= stream <= old(stream) + data
    {
      var poff, changed := 0, true;
      ghost var before := stream;
      assert before + data[..0] == before;
      while poff < |data| || (bufferPos > 0 && changed)
        invariant Valid() && ioff == 0 && poff <= |data| && stream == before + data[..poff]
        invariant !changed ==> bufferPos < bufferSize && Next(format, At(), held) == Wait
        invariant !changed && state == ProcessValueToBoundary ==> bufferPos < |boundary| + 4
        decreases bufferPos + (|data| - poff), Rank(state), |data| - poff, changed
      {
        var next := Fill(data, poff);
        assert before + data[..poff] + data[poff..next] == before + data[..next];
        // The buffer is never full of what cannot be dealt with.
        if next == poff && !changed && poff < |data| { assert false; }
        poff := next;
        var turn;
        turn, changed := Turnover();
        if turn == Fail { return false; }
        if turn == Pause { break; }
      }
      if bufferPos == 0 {
        assert held == "";
        NextOfNothing(format, At());
      }
      // All of the segment is in the buffer.
      if poff < |data| { assert false; }
      assert data[..poff] == data;
      ok := true;
    }
  }

  // ---------------------------------------------------------------------------------------------
  // Whole bodies.

  /**
   * However a body is cut into segments, the parts and the end of the parse are those of the whole body, and every
   * part was handed over in at least one call, with offsets that add up.
   */
  method ParseBody(boundary: string, size: nat, segments: seq<string>) returns (status: Status, parts: seq<Part>)
    requires |boundary| >= 1 && |boundary| * 2 + 2 <= size
    ensures Read(FormData(boundary, size), START, Joined(segments)) == Outcome(Delivered(parts), status)
    ensures Proper(parts)
  {
    var pp := new PostProcessor(boundary, size);
    var i := 0;
    while i < |segments|
      invariant 0 <= i <= |segments| && fresh(pp) && fresh(pp.buf) && pp.format == FormData(boundary, size)
      invariant pp.Valid() && pp.ioff == 0 && pp.stream == Joined(segments[..i])
      invariant Next(pp.format, pp.At(), pp.held) == Wait
    {
      assert segments[..i + 1][..i] == segments[..i];
      if segments[i] != "" {
        var ok := pp.Process(segments[i]);
        if !ok {
          status := if pp.state == NestedInit then Nested else Rejected;
          FailsAlike(pp.format, segments, i, pp.stream, Outcome(Delivered(pp.parts), status));
          return status, pp.parts;
        }
      }
      i := i + 1;
    }
    assert segments[..i] == segments;
    TrackEnds(pp.format, pp.stream, Delivered(pp.parts), pp.At(), pp.held);
    status, parts := Waiting(pp.state, pp.skip), pp.parts;
  }

  /** What follows a failure does not matter. */
  lemma FailsAlike(fm: Format, segments: seq<string>, i: nat, stream: string, o: Outcome)
    requires i < |segments| && stream <= Joined(segments[..i]) + segments[i] && Stopped(fm, stream, o) == Yes
    ensures Read(fm, START, Joined(segments)) == o
  {
    assert segments[..i + 1][..i] == segments[..i];
    JoinedPrefix(segments, i + 1);
    var more := Joined(segments)[|stream|..];
    assert stream + more == Joined(segments);
    StoppedIs(fm, stream, o, more);
  }
}
