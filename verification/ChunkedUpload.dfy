/**
 The incremental decoding of an upload: what process_request_body makes of the bytes in the read
 buffer, and why it does not matter how those bytes arrived.
 */
module ChunkedUpload {
  import opened Common
  import opened CText

  // ---------------------------------------------------------------------------------------------
  // A whole-input reading of a chunked body.

  datatype Status = Reading | Finished | Malformed

  /** Data handed out, position in the current chunk, bytes held back, and how the reading ended. */
  datatype Outcome = Outcome(data: string, size: nat, offset: nat, rest: string, status: Status)

  function Prepend(data: string, o: Outcome): Outcome { o.(data := data + o.data) }

  /** Length of the line feed that ends a chunk: one or two characters, 0 if there is none. */
  function NewlineLength(s: string): (n: nat)
    requires |s| >= 2
    ensures n <= 2
  {
    if !IsNewline(s[0]) then 0 else if IsNewline(s[1]) then 2 else 1
  }

  /** Position of the first line feed character, looking at no more than six characters. */
  function HeaderLength(s: string, i: nat): (n: nat)
    requires i <= |s| && i <= 6
    ensures i <= n <= |s| && n <= 6
    ensures n < |s| && n < 6 ==> IsNewline(s[n])
    decreases 6 - i
  {
    if i == |s| || i == 6 || IsNewline(s[i]) then i else HeaderLength(s, i + 1)
  }

  /** Whether a chunk header of i characters cannot be processed yet. */
  predicate NeedMore(s: string, i: nat) {
    i + 1 >= |s| && !(i == 1 && |s| == 2 && s[0] == '0')
  }

  function AfterHeader(s: string, i: nat): (n: nat)
    requires i < |s|
    ensures i < n <= |s|
  {
    if i + 1 < |s| && IsNewline(s[i + 1]) then i + 2 else i + 1
  }

  function Decode(size: nat, offset: nat, s: string): Outcome
    decreases |s|
  {
    if offset == size && offset != 0 && |s| >= 2 then
      var i := NewlineLength(s);
      if i == 0 then Outcome("", size, offset, s, Malformed) else Decode(0, 0, s[i..])
    else if offset < size then
      if s == "" then Outcome("", size, offset, s, Reading)
      else
        var n := if size - offset > |s| then |s| else size - offset;
        Prepend(s[..n], Decode(size, offset + n, s[n..]))
    else
      var i := HeaderLength(s, 0);
      if NeedMore(s, i) then Outcome("", size, offset, s, Reading)
      else
        var number := StrToUl16(CStr(s[..i]));
        if i >= 6 || !number.complete then Outcome("", size, offset, s, Malformed)
        else if number.value == 0 then Outcome("", 0, 0, s[AfterHeader(s, i)..], Finished)
        else Decode(number.value, 0, s[AfterHeader(s, i)..])
  }

  // ---------------------------------------------------------------------------------------------
  // Stopping and resuming.

  /**
   Equal, except that a finished reading may leave the second half of its last line feed to come:
   this happens when the last chunk's header is seen as "0" and one line feed character, no more.
   */
  predicate SameReading(early: Outcome, late: Outcome) {
    || early == late
    || (&& early.status == Finished == late.status && early.data == late.data
        && early.size == late.size && early.offset == late.offset
        && early.rest != "" && IsNewline(early.rest[0]) && early.rest[1..] == late.rest)
  }

  function ResumeWith(o: Outcome, more: string): Outcome {
    match o.status
    case Reading => Prepend(o.data, Decode(o.size, o.offset, o.rest + more))
    case Finished => o.(rest := o.rest + more)
    case Malformed => o.(rest := o.rest + more)
  }

  lemma HeaderLengthStable(a: string, b: string, i: nat)
    requires i <= |a| && i <= 6
    requires HeaderLength(a, i) < |a|
    ensures HeaderLength(a + b, i) == HeaderLength(a, i)
    decreases 6 - i
  {
    if i < 6 && !IsNewline(a[i]) { HeaderLengthStable(a, b, i + 1); }
  }

  lemma LoneZero(header: string)
    requires |header| == 1 && header[0] == '0'
    ensures StrToUl16(CStr(header)) == Number(0, true)
  {
    HexText(header);
    assert header[..0] == "";
  }

  lemma PrependResume(data: string, o: Outcome, more: string, all: Outcome)
    requires SameReading(ResumeWith(o, more), all)
    ensures SameReading(ResumeWith(Prepend(data, o), more), Prepend(data, all))
  {
    if o.status == Reading {
      PrependTwice(data, o.data, Decode(o.size, o.offset, o.rest + more));
    }
  }

  lemma PrependTwice(a: string, b: string, o: Outcome)
    ensures Prepend(a, Prepend(b, o)) == Prepend(a + b, o)
  {
    assert a + (b + o.data) == a + b + o.data;
  }

  /** Data that does not fill the chunk can be handed out before the rest arrives. */
  lemma SplitData(size: nat, offset: nat, a: string, b: string)
    requires offset + |a| < size
    ensures Decode(size, offset, a + b) == Prepend(a, Decode(size, offset + |a|, b))
  {
    if a != "" && b != "" {
      var n := if size - offset - |a| > |b| then |b| else size - offset - |a|;
      assert (a + b)[..|a| + n] == a + b[..n] && (a + b)[|a| + n..] == b[n..];
      PrependTwice(a, b[..n], Decode(size, offset + |a| + n, b[n..]));
    } else if a == "" {
      assert a + b == b;
      assert a + Decode(size, offset, b).data == Decode(size, offset, b).data;
    } else {
      assert a + b == a && a[..|a|] == a && a[|a|..] == "";
    }
  }

  // One step of the reading on the bytes s that are there already, whatever else follows them.

  lemma StepNewline(size: nat, s: string, more: string)
    requires size != 0 && |s| >= 2 && NewlineLength(s) != 0
    ensures Decode(size, size, s + more) == Decode(0, 0, s[NewlineLength(s)..] + more)
  {
    var i := NewlineLength(s);
    assert (s + more)[i..] == s[i..] + more;
  }

  lemma {:induction false} StepData(size: nat, offset: nat, s: string, used: nat, more: string)
    requires offset < size && used <= |s| && offset + used <= size
    ensures Decode(size, offset, s + more) == Prepend(s[..used], Decode(size, offset + used, s[used..] + more))
  {
    var a, b := s[..used], s[used..] + more;
    assert s + more == a + b;
    if offset + used < size { SplitData(size, offset, a, b); } else { FillChunk(size, offset, a, b); }
  }

  lemma FillChunk(size: nat, offset: nat, a: string, b: string)
    requires offset < size == offset + |a|
    ensures Decode(size, offset, a + b) == Prepend(a, Decode(size, size, b))
  {
    assert (a + b)[..|a|] == a && (a + b)[|a|..] == b;
  }

  predicate AtHeader(size: nat, offset: nat, s: string) {
    offset >= size && !(offset == size && offset != 0 && |s| >= 2)
  }

  function ChunkSize(s: string): Number {
    StrToUl16(CStr(s[..HeaderLength(s, 0)]))
  }

  predicate GoodHeader(s: string) {
    !NeedMore(s, HeaderLength(s, 0)) && HeaderLength(s, 0) < 6 && ChunkSize(s).complete
  }

  lemma HeaderKept(size: nat, offset: nat, s: string, more: string)
    requires AtHeader(size, offset, s) && GoodHeader(s)
    ensures AtHeader(size, offset, s + more) && GoodHeader(s + more) && ChunkSize(s + more) == ChunkSize(s)
    ensures HeaderLength(s + more, 0) == HeaderLength(s, 0)
  {
    var i := HeaderLength(s, 0);
    HeaderLengthStable(s, more, 0);
    assert (s + more)[..i] == s[..i];
    if i + 1 == |s| { LoneZero(s[..i]); }
  }

  lemma StepHeader(size: nat, offset: nat, s: string, more: string)
    requires AtHeader(size, offset, s) && GoodHeader(s)
    ensures var rest := s[AfterHeader(s, HeaderLength(s, 0))..] + more;
            if ChunkSize(s).value == 0
            then SameReading(Outcome("", 0, 0, rest, Finished), Decode(size, offset, s + more))
            else Decode(size, offset, s + more) == Decode(ChunkSize(s).value, 0, rest)
  {
    HeaderKept(size, offset, s, more);
    BehindHeader(s, HeaderLength(s, 0), more);
    if ChunkSize(s).value == 0 {
    } else if HeaderLength(s, 0) + 1 == |s| {
      LoneZero(s[..1]);
    }
  }

  /** Bytes to come can only add the second character of the line feed. */
  lemma BehindHeader(s: string, i: nat, more: string)
    requires i < |s|
    ensures var rest := s[AfterHeader(s, i)..] + more;
            || (s + more)[AfterHeader(s + more, i)..] == rest
            || (i + 1 == |s| && rest != "" && IsNewline(rest[0]) && (s + more)[AfterHeader(s + more, i)..] == rest[1..])
    ensures i + 1 < |s| ==> (s + more)[AfterHeader(s + more, i)..] == s[AfterHeader(s, i)..] + more
  {
    var j := AfterHeader(s, i);
    assert (s + more)[j..] == s[j..] + more;
    if i + 1 == |s| && more != "" && IsNewline(more[0]) {
      assert (s + more)[j + 1..] == more[1..];
      assert s[j..] + more == more;
    }
  }

  lemma StepMalformed(size: nat, offset: nat, s: string, more: string)
    requires if AtHeader(size, offset, s) then !NeedMore(s, HeaderLength(s, 0)) && !GoodHeader(s)
             else offset == size && |s| >= 2 && NewlineLength(s) == 0
    ensures Decode(size, offset, s + more) == Outcome("", size, offset, s + more, Malformed)
  {
    if AtHeader(size, offset, s) {
      var i := HeaderLength(s, 0);
      HeaderLengthStable(s, more, 0);
      assert (s + more)[..i] == s[..i];
      if i + 1 == |s| { LoneZero(s[..i]); }
    }
  }

  lemma ResumeData(size: nat, offset: nat, a: string, n: nat, b: string)
    requires offset < size && a != "" && n == if size - offset > |a| then |a| else size - offset
    requires SameReading(ResumeWith(Decode(size, offset + n, a[n..]), b), Decode(size, offset + n, a[n..] + b))
    ensures SameReading(ResumeWith(Decode(size, offset, a), b), Decode(size, offset, a + b))
  {
    PrependResume(a[..n], Decode(size, offset + n, a[n..]), b, Decode(size, offset + n, a[n..] + b));
    StepData(size, offset, a, n, b);
  }

  /** Reading a prefix first and the rest later is reading everything at once, for every byte stream. */
  lemma {:induction false} Resume(size: nat, offset: nat, a: string, b: string)
    ensures SameReading(ResumeWith(Decode(size, offset, a), b), Decode(size, offset, a + b))
    decreases |a|
  {
    if offset < size {
      if a != "" {
        var n := if size - offset > |a| then |a| else size - offset;
        Resume(size, offset + n, a[n..], b);
        ResumeData(size, offset, a, n, b);
      } else {
        assert a + b == b;
      }
    } else if !AtHeader(size, offset, a) {
      if NewlineLength(a) != 0 {
        StepNewline(size, a, b);
        Resume(0, 0, a[NewlineLength(a)..], b);
      }
    } else if GoodHeader(a) {
      StepHeader(size, offset, a, b);
      if ChunkSize(a).value != 0 {
        Resume(ChunkSize(a).value, 0, a[AfterHeader(a, HeaderLength(a, 0))..], b);
      }
    } else if !NeedMore(a, HeaderLength(a, 0)) {
      StepMalformed(size, offset, a, b);
    }
  }

  // When the arrival of the bytes shows.

  /** The bytes end in the header of the last chunk, cut after the first of its line feed characters. */
  predicate CutInLast(o: Outcome, s: string) {
    o.status == Finished && o.rest == "" && |s| >= 2 && s[|s| - 2] == '0'
  }

  lemma LastButOne(s: string, n: nat)
    requires n + 2 <= |s|
    ensures s[n..][|s[n..]| - 2] == s[|s| - 2]
  {
  }

  lemma ExactData(size: nat, offset: nat, a: string, n: nat, b: string)
    requires offset < size && a != "" && n == if size - offset > |a| then |a| else size - offset
    ensures ResumeWith(Decode(size, offset, a), b) == Decode(size, offset, a + b)
      <==> ResumeWith(Decode(size, offset + n, a[n..]), b) == Decode(size, offset + n, a[n..] + b)
  {
    StepData(size, offset, a, n, b);
    SamePrepended(a[..n], Decode(size, offset + n, a[n..]), b, Decode(size, offset + n, a[n..] + b));
  }

  lemma SamePrepended(data: string, o: Outcome, more: string, all: Outcome)
    ensures ResumeWith(Prepend(data, o), more) == Prepend(data, all) <==> ResumeWith(o, more) == all
  {
    var r := ResumeWith(o, more);
    if o.status == Reading { PrependTwice(data, o.data, Decode(o.size, o.offset, o.rest + more)); }
    assert ResumeWith(Prepend(data, o), more) == Prepend(data, r);
    assert data + r.data == data + all.data ==> r.data == all.data by {
      assert (data + r.data)[|data|..] == r.data && (data + all.data)[|data|..] == all.data;
    }
    assert r.(data := all.data) == all ==> r.data == all.data ==> r == all;
  }

  lemma ExactLast(size: nat, offset: nat, a: string, b: string)
    requires AtHeader(size, offset, a) && GoodHeader(a) && ChunkSize(a).value == 0
    ensures var o := Decode(size, offset, a);
      ResumeWith(o, b) == Decode(size, offset, a + b) <==> !(CutInLast(o, a) && b != "" && IsNewline(b[0]))
  {
    HeaderKept(size, offset, a, b);
    LastRests(a, b, HeaderLength(a, 0));
  }

  /** What is left behind the header of the last chunk. */
  lemma LastRests(a: string, b: string, i: nat)
    requires i < |a| && IsNewline(a[i]) && i <= 6 && !NeedMore(a, i)
    ensures a[AfterHeader(a, i)..] + b == (a + b)[AfterHeader(a + b, i)..]
      <==> !(a[AfterHeader(a, i)..] == "" && |a| >= 2 && a[|a| - 2] == '0' && b != "" && IsNewline(b[0]))
  {
    var j := AfterHeader(a, i);
    assert (a + b)[j..] == a[j..] + b;
    if i + 1 < |a| {
      assert AfterHeader(a + b, i) == j && (j == |a| ==> |a| - 2 == i);
    } else if b != "" && IsNewline(b[0]) {
      assert AfterHeader(a + b, i) == j + 1;
      assert |(a + b)[j + 1..]| < |a[j..] + b|;
    } else {
      assert AfterHeader(a + b, i) == j;
    }
  }

  /** For every byte stream and every cut: it shows exactly if it parts the two characters behind the last "0". */
  lemma {:induction false} ResumeExactly(size: nat, offset: nat, a: string, b: string)
    ensures ResumeWith(Decode(size, offset, a), b) == Decode(size, offset, a + b)
      <==> !(CutInLast(Decode(size, offset, a), a) && b != "" && IsNewline(b[0]))
    decreases |a|, 1
  {
    if offset < size && a != "" {
      var n := if size - offset > |a| then |a| else size - offset;
      ResumeExactly(size, offset + n, a[n..], b);
      ExactInChunk(size, offset, a, n, b);
    } else if offset < size {
      assert a + b == b;
    } else if !AtHeader(size, offset, a) {
      ExactBehindChunk(size, a, b);
    } else if GoodHeader(a) {
      ExactHeader(size, offset, a, b);
    } else if NeedMore(a, HeaderLength(a, 0)) {
    } else {
      StepMalformed(size, offset, a, b);
    }
  }

  lemma ExactInChunk(size: nat, offset: nat, a: string, n: nat, b: string)
    requires offset < size && a != "" && n == if size - offset > |a| then |a| else size - offset
    requires ResumeWith(Decode(size, offset + n, a[n..]), b) == Decode(size, offset + n, a[n..] + b)
      <==> !(CutInLast(Decode(size, offset + n, a[n..]), a[n..]) && b != "" && IsNewline(b[0]))
    ensures ResumeWith(Decode(size, offset, a), b) == Decode(size, offset, a + b)
      <==> !(CutInLast(Decode(size, offset, a), a) && b != "" && IsNewline(b[0]))
  {
    ExactData(size, offset, a, n, b);
  }

  lemma {:induction false} ExactBehindChunk(size: nat, a: string, b: string)
    requires size != 0 && |a| >= 2
    ensures ResumeWith(Decode(size, size, a), b) == Decode(size, size, a + b)
      <==> !(CutInLast(Decode(size, size, a), a) && b != "" && IsNewline(b[0]))
    decreases |a|, 0
  {
    var n := NewlineLength(a);
    if n != 0 {
      StepNewline(size, a, b);
      ResumeExactly(0, 0, a[n..], b);
    } else {
      StepMalformed(size, size, a, b);
    }
  }

  lemma {:induction false} ExactHeader(size: nat, offset: nat, a: string, b: string)
    requires AtHeader(size, offset, a) && GoodHeader(a)
    ensures ResumeWith(Decode(size, offset, a), b) == Decode(size, offset, a + b)
      <==> !(CutInLast(Decode(size, offset, a), a) && b != "" && IsNewline(b[0]))
    decreases |a|, 0
  {
    var value, n := ChunkSize(a).value, AfterHeader(a, HeaderLength(a, 0));
    if value == 0 {
      ExactLast(size, offset, a, b);
    } else {
      StepHeader(size, offset, a, b);
      ResumeExactly(value, 0, a[n..], b);
    }
  }

  /** Such a cut: the line feed that belongs to the header is left over. */
  lemma LoneZeroSplit()
    ensures ResumeWith(Decode(0, 0, "0\r"), "\n") == Outcome("", 0, 0, "\n", Finished)
    ensures Decode(0, 0, "0\r" + "\n") == Outcome("", 0, 0, "", Finished)
  {
    LoneZero("0");
    assert "0\r"[..1] == "0" && ("0\r" + "\n")[..1] == "0";
    assert HeaderLength("0\r", 1) == 1 && HeaderLength("0\r" + "\n", 1) == 1;
  }

  // ---------------------------------------------------------------------------------------------
  // Well-formed bodies (section 4.1 of RFC 7230), with chunk sizes of one to five digits.

  datatype Chunk = Chunk(header: string, data: string)

  predicate SizeLine(h: string, value: nat) {
    1 <= |h| <= 5 && Spells(h, value)
  }

  lemma SizeInDigits(h: string, value: nat)
    ensures SizeLine(h, value) <==> 1 <= |h| <= 5 && AllHex(h) && HexValue(h) == value
  {
    SpellsValue(h, value);
  }

  predicate WellFormed(chunks: seq<Chunk>) {
    forall c :: c in chunks ==> c.data != "" && SizeLine(c.header, |c.data|)
  }

  function Wire(c: Chunk): string { c.header + "\r\n" + c.data + "\r\n" }

  function Body(chunks: seq<Chunk>): string {
    if chunks == [] then "" else Wire(chunks[0]) + Body(chunks[1..])
  }

  function Content(chunks: seq<Chunk>): string {
    if chunks == [] then "" else chunks[0].data + Content(chunks[1..])
  }

  lemma {:induction false} HexBound(h: string, n: nat)
    requires AllHex(h) && |h| <= n
    ensures HexValue(h) < Power16(n)
  {
    if h != "" { HexBound(h[..|h| - 1], n - 1); } else { PowerPositive(n); }
  }

  function Power16(n: nat): nat { if n == 0 then 1 else 16 * Power16(n - 1) }

  lemma {:induction false} PowerPositive(n: nat)
    ensures Power16(n) >= 1
  {
    if n > 0 { PowerPositive(n - 1); }
  }

  lemma {:induction false} HeaderLengthHex(h: string, tail: string, i: nat)
    requires AllHex(h) && i <= |h| <= 5
    ensures HeaderLength(h + "\r\n" + tail, i) == |h|
    decreases |h| - i
  {
    var s := h + "\r\n" + tail;
    if i < |h| {
      assert s[i] == h[i] && IsHex(h[i]);
      HeaderLengthHex(h, tail, i + 1);
    } else {
      assert s[i] == '\r';
    }
  }

  /** One chunk header is read as the size it denotes. */
  lemma DecodeHeader(h: string, value: nat, tail: string)
    requires SizeLine(h, value)
    ensures Decode(0, 0, h + "\r\n" + tail)
         == if value == 0 then Outcome("", 0, 0, tail, Finished) else Decode(value, 0, tail)
  {
    var s := h + "\r\n" + tail;
    SizeInDigits(h, value);
    HeaderLengthHex(h, tail, 0);
    HexBound(h, 5);
    HexText(h);
    assert s[..|h|] == h && s[|h|] == '\r' && s[|h| + 1] == '\n' && s[|h| + 2..] == tail;
    assert !NeedMore(s, |h|) && AfterHeader(s, |h|) == |h| + 2;
  }

  /** A line feed is two characters of either kind, or one that none follows. */
  predicate IsBreak(end: string, s: string) {
    if |end| == 1 then IsNewline(end[0]) && s != "" && !IsNewline(s[0])
    else |end| == 2 && IsNewline(end[0]) && IsNewline(end[1])
  }

  /** Behind a header and behind a chunk any of them will do, */
  lemma AnyBreakRead(h: string, value: nat, end: string, s: string)
    requires SizeLine(h, value) && IsBreak(end, s)
    ensures Decode(0, 0, h + end + s) == if value == 0 then Outcome("", 0, 0, s, Finished) else Decode(value, 0, s)
    ensures value > 0 ==> Decode(value, value, end + s) == Decode(0, 0, s)
  {
    var all, n := h + end + s, |h|;
    SizeInDigits(h, value);
    HeaderEnds(h, end + s, 0);
    HexBound(h, 5);
    HexText(h);
    PlacesOf(h, end, s);
    assert !NeedMore(all, n) && AfterHeader(all, n) == n + |end|;
  }

  lemma PlacesOf(h: string, end: string, s: string)
    ensures var all, n := h + end + s, |h|;
      all == h + (end + s) && all[..n] == h && all[n..] == end + s && all[n + |end|..] == s && (end + s)[|end|..] == s
  {
  }

  /** and something else behind a chunk will not. */
  lemma NoBreakRead(size: nat, s: string)
    requires size > 0 && |s| >= 2
    ensures Decode(size, size, s).status == Malformed && Decode(size, size, s).rest == s <==> !IsNewline(s[0])
  {
    if IsNewline(s[0]) { ShorterRest(0, 0, s[NewlineLength(s)..]); }
  }

  /** What is left is an end of what was there. */
  lemma {:induction false} ShorterRest(size: nat, offset: nat, s: string)
    ensures |Decode(size, offset, s).rest| <= |s|
    decreases |s|
  {
    if offset == size && offset != 0 && |s| >= 2 {
      if NewlineLength(s) != 0 { ShorterRest(0, 0, s[NewlineLength(s)..]); }
    } else if offset < size && s != "" {
      var n := if size - offset > |s| then |s| else size - offset;
      ShorterRest(size, offset + n, s[n..]);
    } else if AtHeader(size, offset, s) && GoodHeader(s) && ChunkSize(s).value != 0 {
      ShorterRest(ChunkSize(s).value, 0, s[AfterHeader(s, HeaderLength(s, 0))..]);
    }
  }

  lemma {:induction false} HeaderEnds(h: string, s: string, i: nat)
    requires AllHex(h) && i <= |h| <= 5 && s != "" && IsNewline(s[0])
    ensures HeaderLength(h + s, i) == |h|
    decreases |h| - i
  {
    if i < |h| {
      assert (h + s)[i] == h[i] && IsHex(h[i]);
      HeaderEnds(h, s, i + 1);
    } else {
      assert (h + s)[i] == s[0];
    }
  }

  lemma DecodeChunk(c: Chunk, tail: string)
    requires c.data != "" && SizeLine(c.header, |c.data|)
    ensures Decode(0, 0, Wire(c) + tail) == Prepend(c.data, Decode(0, 0, tail))
  {
    var n := |c.data|;
    var after := "\r\n" + tail;
    assert Wire(c) + tail == c.header + "\r\n" + (c.data + after);
    DecodeHeader(c.header, n, c.data + after);
    assert (c.data + after)[..n] == c.data && (c.data + after)[n..] == after;
    assert after[0] == '\r' && after[1] == '\n' && after[2..] == tail;
  }

  /** The data of whole chunks comes out, in order, whatever follows them. */
  lemma {:induction false} DecodeChunks(chunks: seq<Chunk>, s: string)
    requires WellFormed(chunks)
    ensures Decode(0, 0, Body(chunks) + s) == Prepend(Content(chunks), Decode(0, 0, s))
  {
    if chunks == [] {
      assert Body(chunks) + s == s;
    } else {
      assert Body(chunks) + s == Wire(chunks[0]) + (Body(chunks[1..]) + s);
      assert chunks[0] in chunks && forall c :: c in chunks[1..] ==> c in chunks;
      DecodeChunk(chunks[0], Body(chunks[1..]) + s);
      DecodeChunks(chunks[1..], s);
      PrependTwice(chunks[0].data, Content(chunks[1..]), Decode(0, 0, s));
    }
  }

  /** All chunk data comes out; what follows the last header stays. */
  lemma DecodeBody(chunks: seq<Chunk>, last: string, tail: string)
    requires WellFormed(chunks) && SizeLine(last, 0)
    ensures Decode(0, 0, Body(chunks) + last + "\r\n" + tail) == Outcome(Content(chunks), 0, 0, tail, Finished)
  {
    assert Body(chunks) + last + "\r\n" + tail == Body(chunks) + (last + "\r\n" + tail);
    DecodeHeader(last, 0, tail);
    DecodeChunks(chunks, last + "\r\n" + tail);
    assert Content(chunks) + "" == Content(chunks);
  }

  // ---------------------------------------------------------------------------------------------
  // How far a decoder has come with a stream: what its state and the bytes it holds lead to, for
  // every continuation, is what the whole stream leads to.

  datatype Position = Position(size: nat, offset: nat, finished: bool)

  /** What the bytes decode to, without saying how: only DecodedIs does. */
  ghost function Decoded(size: nat, offset: nat, s: string): Outcome {
    assert Decodes(size, offset, s, Decode(size, offset, s));
    var o :| Decodes(size, offset, s, o);
    o
  }

  ghost predicate Decodes(size: nat, offset: nat, s: string, o: Outcome) {
    forall k {:trigger Look(k)} :: Look(k) ==> o == Decode(size, offset, s)
  }

  lemma DecodedIs(size: nat, offset: nat, s: string)
    ensures Decoded(size, offset, s) == Decode(size, offset, s)
  {
    assert Look(0);
  }

  ghost predicate LeadsTo(received: string, delivered: string, at: Position, held: string, more: string) {
    if at.finished then
      SameReading(Outcome(delivered, 0, 0, held + more, Finished), Decoded(0, 0, received + more))
    else
      Decoded(0, 0, received + more) == Prepend(delivered, Decoded(at.size, at.offset, held + more))
  }

  /** Answers that proofs carry around as one fact, without looking inside. */

  ghost function Track(received: string, delivered: string, at: Position, held: string): Answer {
    if forall more :: LeadsTo(received, delivered, at, held, more) then Yes else No
  }

  ghost predicate Yields(at: Position, held: string, o: Outcome) {
    !at.finished && o == Decoded(at.size, at.offset, held)
  }

  /** Nothing can be done with the held bytes before more arrive. */
  ghost function Quiescent(at: Position, held: string): Answer {
    if forall o :: Yields(at, held, o) ==> o.data == "" && o.status == Reading then Yes else No
  }

  /** The stream is malformed, and everything before the flaw has been handed out. */
  ghost function Rejected(received: string, delivered: string): Answer {
    if forall o :: Yields(Position(0, 0, false), received, o) ==> o.status == Malformed && o.data == delivered then Yes
    else No
  }

  lemma TracksFromStart()
    ensures Track("", "", Position(0, 0, false), "") == Yes
  {
    forall more ensures LeadsTo("", "", Position(0, 0, false), "", more) {
      assert "" + Decoded(0, 0, "" + more).data == Decoded(0, 0, "" + more).data;
    }
  }

  lemma TracksArrival(received: string, delivered: string, at: Position, held: string, data: string)
    requires Track(received, delivered, at, held) == Yes
    ensures Track(received + data, delivered, at, held + data) == Yes
  {
    forall more ensures LeadsTo(received + data, delivered, at, held + data, more) {
      assert received + data + more == received + (data + more);
      assert held + data + more == held + (data + more);
      assert LeadsTo(received, delivered, at, held, data + more);
    }
  }

  lemma TracksNewline(received: string, delivered: string, size: nat, held: string)
    requires Track(received, delivered, Position(size, size, false), held) == Yes
    requires size != 0 && |held| >= 2 && NewlineLength(held) != 0
    ensures Track(received, delivered, Position(0, 0, false), held[NewlineLength(held)..]) == Yes
  {
    forall more
      ensures LeadsTo(received, delivered, Position(0, 0, false), held[NewlineLength(held)..], more)
    {
      assert LeadsTo(received, delivered, Position(size, size, false), held, more);
      StepNewline(size, held, more);
      DecodedIs(size, size, held + more);
      DecodedIs(0, 0, held[NewlineLength(held)..] + more);
    }
  }

  lemma TracksData(received: string, delivered: string, at: Position, held: string, used: nat)
    requires Track(received, delivered, at, held) == Yes
    requires !at.finished && at.offset < at.size && used <= |held| && at.offset + used <= at.size
    ensures Track(received, delivered + held[..used], at.(offset := at.offset + used), held[used..]) == Yes
  {
    var to := at.(offset := at.offset + used);
    forall more ensures LeadsTo(received, delivered + held[..used], to, held[used..], more) {
      assert LeadsTo(received, delivered, at, held, more);
      LeadsPastData(delivered, at.size, at.offset, held, used, more, Decoded(0, 0, received + more));
    }
  }

  lemma LeadsPastData(delivered: string, size: nat, offset: nat, held: string, used: nat, more: string, all: Outcome)
    requires all == Prepend(delivered, Decoded(size, offset, held + more))
    requires offset < size && used <= |held| && offset + used <= size
    ensures all == Prepend(delivered + held[..used], Decoded(size, offset + used, held[used..] + more))
  {
    DecodedIs(size, offset, held + more);
    DecodedIs(size, offset + used, held[used..] + more);
    StepData(size, offset, held, used, more);
    PrependTwice(delivered, held[..used], Decoded(size, offset + used, held[used..] + more));
  }

  lemma TracksHeader(received: string, delivered: string, at: Position, held: string)
    requires Track(received, delivered, at, held) == Yes
    requires !at.finished && AtHeader(at.size, at.offset, held) && GoodHeader(held)
    ensures Track(received, delivered, Position(ChunkSize(held).value, 0, ChunkSize(held).value == 0),
                   held[AfterHeader(held, HeaderLength(held, 0))..]) == Yes
  {
    var to := Position(ChunkSize(held).value, 0, ChunkSize(held).value == 0);
    var rest := held[AfterHeader(held, HeaderLength(held, 0))..];
    forall more ensures LeadsTo(received, delivered, to, rest, more) {
      assert LeadsTo(received, delivered, at, held, more);
      LeadsPastHeader(delivered, at, held, more, Decoded(0, 0, received + more));
    }
  }

  lemma LeadsPastHeader(delivered: string, at: Position, held: string, more: string, all: Outcome)
    requires AtHeader(at.size, at.offset, held) && GoodHeader(held)
    requires all == Prepend(delivered, Decoded(at.size, at.offset, held + more))
    ensures var size := ChunkSize(held).value;
            var rest := held[AfterHeader(held, HeaderLength(held, 0))..] + more;
            if size == 0 then SameReading(Outcome(delivered, 0, 0, rest, Finished), all)
            else all == Prepend(delivered, Decoded(size, 0, rest))
  {
    DecodedIs(at.size, at.offset, held + more);
    DecodedIs(ChunkSize(held).value, 0, held[AfterHeader(held, HeaderLength(held, 0))..] + more);
    StepHeader(at.size, at.offset, held, more);
  }

  lemma TracksMalformed(received: string, delivered: string, at: Position, held: string)
    requires Track(received, delivered, at, held) == Yes && !at.finished
    requires if AtHeader(at.size, at.offset, held) then !NeedMore(held, HeaderLength(held, 0)) && !GoodHeader(held)
             else at.offset == at.size && |held| >= 2 && NewlineLength(held) == 0
    ensures Rejected(received, delivered) == Yes
  {
    assert LeadsTo(received, delivered, at, held, "");
    StepMalformed(at.size, at.offset, held, "");
    DecodedIs(at.size, at.offset, held + "");
    assert received + "" == received;
    var flaw := Outcome("", at.size, at.offset, held + "", Malformed);
    forall o | Yields(Position(0, 0, false), received, o) ensures o.status == Malformed && o.data == delivered {
      assert o == Prepend(delivered, flaw);
    }
  }

  /** The stream is read to its end, and this is what came out and what was left. */
  ghost function Finishes(received: string, delivered: string, held: string): Answer {
    if forall o :: Yields(Position(0, 0, false), received, o) ==> o == Outcome(delivered, 0, 0, held, Finished) then Yes
    else No
  }

  lemma TracksLast(received: string, delivered: string, at: Position, held: string)
    requires Track(received, delivered, at, held) == Yes
    requires !at.finished && AtHeader(at.size, at.offset, held) && GoodHeader(held) && ChunkSize(held).value == 0
    ensures Finishes(received, delivered, held[AfterHeader(held, HeaderLength(held, 0))..]) == Yes
  {
    assert LeadsTo(received, delivered, at, held, "");
    assert received + "" == received && held + "" == held;
    DecodedIs(at.size, at.offset, held);
    assert delivered + "" == delivered;
  }

  lemma FinishesAs(received: string, delivered: string, held: string)
    requires Finishes(received, delivered, held) == Yes
    ensures Decode(0, 0, received) == Outcome(delivered, 0, 0, held, Finished)
  {
    DecodedIs(0, 0, received);
    assert Yields(Position(0, 0, false), received, Decoded(0, 0, received));
  }

  lemma NothingHeld(at: Position, held: string)
    ensures held == "" ==> Quiescent(at, held) == Yes
  {
    DecodedIs(at.size, at.offset, held);
  }

  lemma WaitingForHeader(size: nat, offset: nat, held: string)
    requires AtHeader(size, offset, held) && NeedMore(held, HeaderLength(held, 0))
    ensures Quiescent(Position(size, offset, false), held) == Yes
  {
    DecodedIs(size, offset, held);
  }

  /** A decoder that can do no more has handed out what the whole stream contains so far. */
  lemma QuiescentDelivered(received: string, delivered: string, at: Position, held: string)
    requires Track(received, delivered, at, held) == Yes && Quiescent(at, held) == Yes
    ensures delivered == Decode(0, 0, received).data
    ensures Decode(0, 0, received).status == if at.finished then Finished else Reading
    ensures at.finished ==> SameReading(Outcome(delivered, 0, 0, held, Finished), Decode(0, 0, received))
  {
    assert LeadsTo(received, delivered, at, held, "");
    assert received + "" == received && held + "" == held;
    assert at.finished || Yields(at, held, Decoded(at.size, at.offset, held));
    DecodedIs(0, 0, received);
  }

  // ---------------------------------------------------------------------------------------------
  // The loop over the read buffer.

  /** A call of the application with n bytes, when room bytes were left in the chunk or body. */
  datatype Call = Call(n: nat, room: nat)

  datatype Step = Offer | Header | Last | Wait | Bad

  class Upload {
    /** Does the application consume everything it is offered? */
    const greedy: bool
    const chunked: bool
    /** The announced length of a body that is not chunked, SIZE_UNKNOWN if none was announced. */
    const contentLength: nat
    /** The read_buffer_offset bytes at the front of the read buffer. */
    var buffer: string
    var remaining: nat
    var chunkSize: nat
    var chunkOffset: nat
    var closed: bool
    ghost var refused: bool
    /** The loop was entered with nothing left to come and still handed out bytes. */
    ghost var overdrawn: bool
    ghost var received: string
    ghost var delivered: string
    ghost var calls: seq<Call>

    constructor (greedy: bool, chunked: bool, length: nat)
      requires length <= SIZE_UNKNOWN && (chunked ==> length == SIZE_UNKNOWN)
      ensures this.greedy == greedy && this.chunked == chunked && contentLength == length == remaining
      ensures Valid() && (greedy ==> Fresh()) && !closed && !overdrawn && buffer == "" == received == delivered
    {
      this.greedy, this.chunked, contentLength, remaining := greedy, chunked, length, length;
      buffer, chunkSize, chunkOffset, closed := "", 0, 0, false;
      refused, overdrawn, received, delivered, calls := false, false, "", "", [];
      new;
      TracksFromStart();
    }

    ghost function At(): Position
      reads this
    {
      Position(chunkSize, chunkOffset, remaining != SIZE_UNKNOWN)
    }

    ghost predicate Valid()
      reads this
    {
      && (forall c <- calls :: 0 < c.n <= c.room)
      && (chunked && !closed ==> Track(received, delivered, At(), buffer) == Yes)
      && (chunked && closed && !refused ==>
            Rejected(received, delivered) == Yes)
      && (chunked ==> contentLength == SIZE_UNKNOWN)
      && (!chunked && !closed ==> received == delivered + buffer && Counted())
    }

    /** Bytes handed out and bytes still to come add up to the announced length. */
    ghost predicate Counted()
      reads this
    {
      && remaining <= SIZE_UNKNOWN && contentLength <= SIZE_UNKNOWN
      && (contentLength == SIZE_UNKNOWN ==> remaining == SIZE_UNKNOWN)
      && (contentLength != SIZE_UNKNOWN && !overdrawn ==> |delivered| + remaining == contentLength)
      && (contentLength != SIZE_UNKNOWN ==> (overdrawn <==> |delivered| > contentLength))
    }

    /** The socket hands over some bytes. */
    method Receive(data: string)
      requires Valid() && !closed
      modifies this
      ensures Valid() && !closed && refused == old(refused)
      ensures received == old(received) + data && buffer == old(buffer) + data
      ensures At() == old(At()) && remaining == old(remaining)
      ensures delivered == old(delivered) && calls == old(calls) && overdrawn == old(overdrawn)
    {
      if chunked { TracksArrival(received, delivered, At(), buffer, data); }
      buffer := buffer + data;
      received := received + data;
    }

    /** The application takes some of the bytes it is offered, or refuses to go on. */
    method CallHandler(data: string, ghost room: nat) returns (ok: bool, left: nat)
      requires 0 < |data| <= room
      modifies this`delivered, this`calls, this`refused, this`closed
      ensures left <= |data| && (greedy ==> left == 0)
      ensures delivered == old(delivered) + data[..|data| - left]
      ensures calls == old(calls) + [Call(|data|, room)]
      ensures if ok then refused == old(refused) && closed == old(closed) else refused && closed
    {
      ok := *;
      left :| left <= |data| && (greedy ==> left == 0);
      delivered := delivered + data[..|data| - left];
      calls := calls + [Call(|data|, room)];
      if !ok { refused, closed := true, true; }
    }

    /** Reads the size of the next chunk, when its header is there. */
    method ReadBoundary(head: string) returns (step: Step, after: string)
      requires Track(received, delivered, Position(chunkSize, chunkOffset, false), head) == Yes
      requires AtHeader(chunkSize, chunkOffset, head)
      modifies this`chunkSize, this`chunkOffset
      ensures step == Wait || step == Bad || step == Header || step == Last
      ensures step != Bad ==> Track(received, delivered, Position(chunkSize, chunkOffset, step == Last), after) == Yes
      ensures step == Header || step == Last ==> |after| < |head|
      ensures step == Last ==> Finishes(received, delivered, after) == Yes
      ensures step == Wait ==> after == head && Quiescent(Position(chunkSize, chunkOffset, false), after) == Yes
      ensures step == Bad ==> Rejected(received, delivered) == Yes
    {
      after := head;
      var i := 0;
      while i < |head| && i < 6 && !IsNewline(head[i])
        invariant i <= |head| && i <= 6
        invariant HeaderLength(head, i) == HeaderLength(head, 0)
      {
        i := i + 1;
      }
      assert i == HeaderLength(head, 0);
      if i + 1 >= |head| && !(i == 1 && |head| == 2 && head[0] == '0') {
        WaitingForHeader(chunkSize, chunkOffset, head);
        return Wait, after;
      }
      var number := StrToUl16(CStr(head[..i]));
      if i >= 6 || !number.complete {
        TracksMalformed(received, delivered, Position(chunkSize, chunkOffset, false), head);
        return Bad, after;
      }
      TracksHeader(received, delivered, Position(chunkSize, chunkOffset, false), head);
      if number.value == 0 { TracksLast(received, delivered, Position(chunkSize, chunkOffset, false), head); }
      i := i + 1;
      if i < |head| && IsNewline(head[i]) { i := i + 1; }
      after := head[i..];
      chunkSize, chunkOffset := number.value, 0;
      step := if chunkSize == 0 then Last else Header;
    }

    /** Works out what comes next in a chunked body: chunk data, a header, or nothing yet. */
    method ChunkStep(head: string) returns (step: Step, after: string)
      requires head != "" && Track(received, delivered, Position(chunkSize, chunkOffset, false), head) == Yes
      modifies this`chunkSize, this`chunkOffset
      ensures step != Bad ==> Track(received, delivered, Position(chunkSize, chunkOffset, step == Last), after) == Yes
      ensures step == Offer ==> chunkOffset < chunkSize && after == head
      ensures step == Header || step == Last ==> |after| < |head|
      ensures step == Last ==> Finishes(received, delivered, after) == Yes
      ensures step == Wait ==> Quiescent(Position(chunkSize, chunkOffset, false), after) == Yes
      ensures step == Bad ==> Rejected(received, delivered) == Yes
    {
      after := head;
      if chunkOffset == chunkSize && chunkOffset != 0 && |after| >= 2 {
        var i := 0;
        if IsNewline(after[i]) { i := i + 1; }
        if IsNewline(after[i]) { i := i + 1; }
        if i == 0 {
          TracksMalformed(received, delivered, Position(chunkSize, chunkOffset, false), after);
          return Bad, after;
        }
        TracksNewline(received, delivered, chunkSize, after);
        after := after[i..];
        chunkOffset, chunkSize := 0, 0;
      }
      if chunkOffset < chunkSize { return Offer, after; }
      step, after := ReadBoundary(after);
    }

    /** Offers the first bytes of the buffer to the application. */
    method Deliver(head: string, processed: nat, ghost room: nat) returns (ok: bool, used: nat)
      requires 0 < processed <= |head| && processed <= room == chunkSize - chunkOffset
      requires forall c <- calls :: 0 < c.n <= c.room
      requires remaining == SIZE_UNKNOWN && Track(received, delivered, At(), head) == Yes
      modifies this`delivered, this`calls, this`refused, this`closed, this`chunkOffset
      ensures used <= processed && (greedy ==> used == processed)
      ensures forall c <- calls :: 0 < c.n <= c.room
      ensures if ok then refused == old(refused) && closed == old(closed) else refused && closed
      ensures ok ==> Track(received, delivered, At(), head[used..]) == Yes
    {
      var left;
      ok, left := CallHandler(head[..processed], room);
      used := processed - left;
      assert head[..processed][..used] == head[..used];
      if ok {
        TracksData(received, old(delivered), At(), head, used);
        chunkOffset := chunkOffset + used;
      }
    }

    /** Subtraction of 64-bit unsigned numbers. */
    static function Subtract(a: nat, b: nat): (r: nat)
      requires a <= SIZE_UNKNOWN
      ensures r <= SIZE_UNKNOWN && (b <= a ==> r == a - b)
    {
      (a - b) % ULONG_MODULUS
    }

    /** A body that is not chunked: offer what is there, but not more than is to come. */
    method DeliverPlain(head: string) returns (ok: bool, after: string)
      requires !chunked && head != "" && received == delivered + head && Counted()
      requires forall c <- calls :: 0 < c.n <= c.room
      modifies this`delivered, this`calls, this`refused, this`closed, this`overdrawn, this`remaining
      ensures forall c <- calls :: 0 < c.n <= c.room
      ensures if ok then refused == old(refused) && closed == old(closed) else refused && closed
      ensures received == delivered + after && (ok ==> Counted())
      ensures greedy && ok ==> delivered == old(delivered) + head[..Offered(old(remaining), |head|)]
      ensures overdrawn <==> old(overdrawn) || (old(remaining) == 0 && delivered != old(delivered))
    {
      var processed := Offered(remaining, |head|);
      var left;
      ok, left := CallHandler(head[..processed], processed);
      var used := processed - left;
      after := head[used..];
      Subtracted(ok, used);
    }

    /** What was used is subtracted from what remains; with nothing remaining this wraps around. */
    method Subtracted(ok: bool, used: nat)
      requires remaining <= SIZE_UNKNOWN
      modifies this`overdrawn, this`remaining
      ensures remaining <= SIZE_UNKNOWN && (old(remaining) == SIZE_UNKNOWN ==> remaining == SIZE_UNKNOWN)
      ensures overdrawn <==> old(overdrawn) || (old(remaining) == 0 && used > 0)
      ensures ok && old(remaining) != SIZE_UNKNOWN && used <= old(remaining) ==> remaining == old(remaining) - used
    {
      if remaining == 0 && used > 0 { overdrawn := true; }
      if ok && remaining != SIZE_UNKNOWN {
        remaining := Subtract(remaining, used);
      }
    }

    method ProcessRequestBody()
      requires Valid() && !closed && buffer != ""
      requires chunked ==> remaining == SIZE_UNKNOWN
      modifies this
      ensures Valid() && received == old(received) && (if closed then refused || chunked else refused == old(refused))
      ensures chunked && greedy && !closed ==> Quiescent(At(), buffer) == Yes
      ensures chunked ==> remaining == SIZE_UNKNOWN || remaining == 0
      ensures chunked && !closed && remaining == 0 ==> Finishes(received, delivered, buffer) == Yes
      ensures !chunked && greedy && !closed
          ==> delivered == old(delivered) + old(buffer)[..Offered(old(remaining), |old(buffer)|)]
      ensures overdrawn <==> old(overdrawn) || (!chunked && old(remaining) == 0 && delivered != old(delivered))
    {
      var head := buffer;
      var instantRetry := true;
      while instantRetry
        invariant !closed && refused == old(refused) && received == old(received)
        invariant forall c <- calls :: 0 < c.n <= c.room
        invariant chunked ==> Track(received, delivered, At(), head) == Yes
        invariant chunked ==> remaining == SIZE_UNKNOWN && overdrawn == old(overdrawn)
        invariant instantRetry ==> head != ""
        invariant chunked && !instantRetry && greedy ==> Quiescent(At(), head) == Yes
        invariant !chunked ==> instantRetry && unchanged(this) && head == buffer
        decreases instantRetry, |head|
      {
        instantRetry := false;
        if !chunked {
          var ok, after := DeliverPlain(head);
          if !ok { return; }
          head := after;
          break;
        }
        var step, after := ChunkStep(head);
        if step == Bad {
          closed := true;
          return;
        }
        head := after;
        if step == Wait { break; }
        if step == Last {
          remaining := 0;
          break;
        }
        if step == Header {
          instantRetry := head != "";
          NothingHeld(At(), head);
          continue;
        }
        var room := chunkSize - chunkOffset;
        var processed := if room > |head| then |head| else room;
        var ok, used := Deliver(head, processed, room);
        if !ok { return; }
        instantRetry := used == processed < |head|;
        head := head[used..];
        NothingHeld(At(), head);
      }
      buffer := head;
    }

    /** Nothing has arrived yet, and the application takes all it is offered. */
    ghost predicate Fresh()
      reads this
    {
      && Valid() && greedy && !closed && !refused && !overdrawn && remaining == contentLength
      && received == "" && delivered == "" && buffer == "" && At() == Position(0, 0, remaining != SIZE_UNKNOWN)
    }

    /** All that can be handed out is handed out. */
    ghost predicate Settled()
      reads this
    {
      && Valid() && !closed
      && (chunked ==> Quiescent(At(), buffer) == Yes && (remaining == SIZE_UNKNOWN || remaining == 0))
      && (!chunked && !overdrawn ==> buffer == "" || remaining == 0)
    }

    /** What a body in chunks comes to: the decoding of all that arrived, read no further once it is over. */
    ghost predicate ChunksArrived(segments: seq<string>)
      reads this
    {
      var o := Decode(0, 0, Joined(segments));
      && delivered == o.data && (closed <==> o.status == Malformed)
      && (o.status == Finished <==> !closed && remaining == 0)
      && (o.status == Finished ==> exists k :: LeftAt(segments, k, buffer))
    }

    /** What any other body comes to: all that was announced and has arrived, and the rest is left. */
    ghost predicate BytesArrived(all: string)
      reads this
    {
      && !closed
      && all == delivered + buffer
      && |delivered| == if contentLength < |all| && contentLength != SIZE_UNKNOWN then contentLength else |all|
    }

    /**
     * However a body arrives, and unless the application refuses it: the whole of it is handed out and nothing else,
     * except when no bytes were announced, the client was told to continue (waited), and bytes are there already.
     */
    method Run(segments: seq<string>, waited: bool)
      requires Fresh()
      modifies this
      ensures !refused && chunked ==> ChunksArrived(segments)
      ensures !refused && !chunked ==>
        (overdrawn <==> contentLength == 0 && waited && segments != [] && segments[0] != "")
      ensures !refused && !chunked && !overdrawn ==> BytesArrived(Joined(segments))
      ensures !refused && !chunked && overdrawn ==> |delivered| > contentLength
    {
      var done := remaining == 0 && !waited;
      var i := 0;
      ghost var k: nat, held: string, later: string := 0, "", "";
      NothingHeld(At(), buffer);
      while i < |segments|
        invariant i <= |segments| && Settled() && greedy && !refused && received == Joined(segments[..i])
        invariant i > 0 || !waited ==> (done <==> remaining == 0)
        invariant i == 0 && waited ==> !done && !overdrawn && remaining == contentLength && delivered == buffer == ""
        invariant chunked ==> (done <==> remaining == 0)
        invariant chunked ==> AllReading(segments, if done then k else i) == Yes
        invariant chunked && done ==> k <= i && Joined(segments[..i]) == Joined(segments[..k]) + later
        invariant chunked && done ==> buffer == held + later
        invariant chunked && done ==> Finishes(Joined(segments[..k]), delivered, held) == Yes
        invariant !chunked ==> (overdrawn <==> i > 0 && contentLength == 0 && waited && segments[0] != "")
      {
        assert segments[..i + 1][..i] == segments[..i];
        if chunked && !done { ReadingOn(segments, i, delivered, At(), buffer); }
        var more := Arrive(segments[i], done);
        if !more {
          if !refused { RejectedAll(segments, i, received, delivered); }
          return;
        }
        if done {
          later := later + segments[i];
        } else {
          k, held, later := i + 1, buffer, "";
        }
        done := done || remaining == 0;
        i := i + 1;
      }
      assert segments[..i] == segments;
      if chunked { QuiescentDelivered(received, delivered, At(), buffer); }
      if chunked && done { LeftBehind(segments, k, delivered, held, later); }
    }

    /** One arrival, and a turn of the idle loop if the body is not over. */
    method Arrive(data: string, done: bool) returns (open: bool)
      requires Settled() && greedy && !refused && (done ==> remaining == 0)
      requires chunked && !done ==> remaining == SIZE_UNKNOWN
      modifies this
      ensures open ==> Settled() && !refused
      ensures received == old(received) + data
      ensures !open ==> refused || (chunked && Rejected(received, delivered) == Yes && closed)
      ensures open && done ==> remaining == old(remaining) && overdrawn == old(overdrawn)
      ensures open && done ==> delivered == old(delivered) && buffer == old(buffer) + data
      ensures open && chunked && !done && remaining == 0 ==> Finishes(received, delivered, buffer) == Yes
      ensures open && !chunked ==>
        (overdrawn <==> old(overdrawn) || (!done && old(remaining) == 0 && old(buffer) + data != ""))
      ensures chunked ==> overdrawn == old(overdrawn)
    {
      Receive(data);
      if !done && buffer != "" { ProcessRequestBody(); }
      open := !closed;
      if open && chunked && buffer == "" { NothingHeld(At(), buffer); }
    }
  }

  /** No body is over before the first n arrivals are there. */
  ghost function AllReading(segments: seq<string>, n: nat): Answer {
    if forall j :: 0 <= j < n <= |segments| ==> Decode(0, 0, Joined(segments[..j])).status == Reading then Yes else No
  }

  lemma ReadingOn(segments: seq<string>, i: nat, delivered: string, at: Position, held: string)
    requires i < |segments| && AllReading(segments, i) == Yes && !at.finished
    requires Track(Joined(segments[..i]), delivered, at, held) == Yes && Quiescent(at, held) == Yes
    ensures AllReading(segments, i + 1) == Yes
  {
    QuiescentDelivered(Joined(segments[..i]), delivered, at, held);
  }

  /** The body is over with arrival k: left is what that one held back, and all that comes later. */
  ghost predicate LeftAt(segments: seq<string>, k: nat, left: string) {
    && k <= |segments| && AllReading(segments, k) == Yes
    && var all, first := Joined(segments), Joined(segments[..k]);
    && Decode(0, 0, first).status == Finished
    && |first| <= |all| && left == Decode(0, 0, first).rest + all[|first|..]
  }

  lemma LeftBehind(segments: seq<string>, k: nat, delivered: string, held: string, later: string)
    requires k <= |segments| && AllReading(segments, k) == Yes
    requires Joined(segments) == Joined(segments[..k]) + later
    requires Finishes(Joined(segments[..k]), delivered, held) == Yes
    ensures LeftAt(segments, k, held + later)
  {
    FinishesAs(Joined(segments[..k]), delivered, held);
  }

  /** A stream that is malformed stays so, and nothing behind the flaw is handed out. */
  lemma RejectedAll(segments: seq<string>, i: nat, received: string, delivered: string)
    requires i < |segments| && received == Joined(segments[..i + 1]) && Rejected(received, delivered) == Yes
    ensures Decode(0, 0, Joined(segments)).status == Malformed && Decode(0, 0, Joined(segments)).data == delivered
  {
    var more := WhatFollows(segments, i + 1);
    RejectedLater(received, delivered, more);
  }

  lemma WhatFollows(segments: seq<string>, n: nat) returns (more: string)
    requires n <= |segments|
    ensures Joined(segments) == Joined(segments[..n]) + more
  {
    JoinedPrefix(segments, n);
    more := Joined(segments)[|Joined(segments[..n])|..];
  }

  lemma RejectedLater(received: string, delivered: string, more: string)
    requires Rejected(received, delivered) == Yes
    ensures Decode(0, 0, received + more).status == Malformed && Decode(0, 0, received + more).data == delivered
  {
    DecodedIs(0, 0, received);
    assert Yields(Position(0, 0, false), received, Decoded(0, 0, received));
    Resume(0, 0, received, more);
  }

  /** An arrival ends with the first n bytes. */
  ghost predicate CutAt(segments: seq<string>, n: nat) {
    exists j :: 0 <= j <= |segments| && |Joined(segments[..j])| == n
  }

  /** A last header without its line feed, or with the first half of it. */
  lemma HalfLast(last: string)
    requires SizeLine(last, 0)
    ensures Decode(0, 0, last).status == Reading
    ensures Decode(0, 0, last + "\r") == Outcome("", 0, 0, "", Finished) <==> last == "0"
    ensures last != "0" ==> Decode(0, 0, last + "\r").status == Reading
  {
    SizeInDigits(last, 0);
  }

  /** The body is over with the first character of its last line feed, if that is where an arrival ends. */
  lemma OverAtHalf(chunks: seq<Chunk>, first: string, half: string)
    requires WellFormed(chunks) && first <= half == Body(chunks) + "0\r"
    requires Decode(0, 0, first).status == Finished
    ensures first == half && Decode(0, 0, first).rest == ""
  {
    HalfIsEnough(chunks);
    if first != half {
      var more := half[|first|..];
      assert first + more == half;
      LeftOver(first, more, half);
      AllButOne(Body(chunks), first, more);
      NotYet(chunks);
      assert false;
    }
  }

  lemma HalfIsEnough(chunks: seq<Chunk>)
    requires WellFormed(chunks)
    ensures Decode(0, 0, Body(chunks) + "0\r").status == Finished && Decode(0, 0, Body(chunks) + "0\r").rest == ""
  {
    assert SizeLine("0", 0);
    HalfLast("0");
    assert "0" + "\r" == "0\r";
    DecodeChunks(chunks, "0\r");
  }

  lemma NotYet(chunks: seq<Chunk>)
    requires WellFormed(chunks)
    ensures Decode(0, 0, Body(chunks) + "0").status == Reading
  {
    assert SizeLine("0", 0);
    HalfLast("0");
    DecodeChunks(chunks, "0");
  }

  lemma AllButOne(body: string, first: string, more: string)
    requires first + more == body + "0\r" && |more| == 1
    ensures first == body + "0"
  {
    assert (first + more)[..|first|] == first && (body + "0\r")[..|first|] == body + "0";
  }

  /** What is left when the body was over with its first bytes: what the whole leaves, or one character more. */
  lemma LeftOver(first: string, rest: string, all: string)
    requires Decode(0, 0, first).status == Finished && first + rest == all
    ensures Decode(0, 0, first).rest + rest == Decode(0, 0, all).rest
         || (rest != "" && rest[1..] == Decode(0, 0, all).rest && Decode(0, 0, first).rest + rest == rest)
  {
    Resume(0, 0, first, rest);
    ResumeExactly(0, 0, first, rest);
    assert "" + rest == rest;
  }

  lemma HalfRead(chunks: seq<Chunk>, last: string, half: string)
    requires WellFormed(chunks) && SizeLine(last, 0) && half == last + "\r"
    ensures Decode(0, 0, Body(chunks) + half).status == Finished ==> last == "0"
  {
    DecodeChunks(chunks, half);
    HalfLast(last);
  }

  /** A line feed character is left over only from a last header "0" that was cut in its line feed. */
  lemma OverEarly(chunks: seq<Chunk>, last: string, tail: string, first: string, rest: string)
    requires WellFormed(chunks) && SizeLine(last, 0) && first + rest == Body(chunks) + last + "\r\n" + tail
    requires Decode(0, 0, first).status == Finished && Decode(0, 0, first).rest + rest != tail
    ensures last == "0" && first == Body(chunks) + "0\r" && Decode(0, 0, first).rest + rest == "\n" + tail
  {
    DecodeBody(chunks, last, tail);
    LeftOver(first, rest, Body(chunks) + last + "\r\n" + tail);
    CutFirst(Body(chunks), last, tail, first, rest);
    HalfRead(chunks, last, last + "\r");
  }

  lemma CutFirst(body: string, last: string, tail: string, first: string, rest: string)
    requires first + rest == body + last + "\r\n" + tail && rest != "" && rest[1..] == tail
    ensures first == body + (last + "\r") && rest == "\n" + tail && (last == "0" ==> first == body + "0\r")
  {
    var all := body + last + "\r\n" + tail;
    assert |first| == |body| + |last| + 1;
    assert (first + rest)[..|first|] == first && (first + rest)[|first|..] == rest;
    assert all[..|first|] == body + (last + "\r");
    assert all[|first|..] == "\n" + tail;
  }

  /** What is left of a well-formed body. */
  lemma {:induction false} LeftExactly(segments: seq<string>, k: nat, left: string, chunks: seq<Chunk>, last: string,
                                       tail: string)
    requires WellFormed(chunks) && SizeLine(last, 0) && Joined(segments) == Body(chunks) + last + "\r\n" + tail
    requires LeftAt(segments, k, left)
    ensures left == if last == "0" && CutAt(segments, |Body(chunks)| + 2) then "\n" + tail else tail
  {
    var all, first := Joined(segments), Joined(segments[..k]);
    JoinedPrefix(segments, k);
    assert first + all[|first|..] == all;
    if last == "0" && CutAt(segments, |Body(chunks)| + 2) {
      var j :| 0 <= j <= |segments| && |Joined(segments[..j])| == |Body(chunks)| + 2;
      HalfArrives(segments, k, j, chunks, tail);
      HalfLeaves(Body(chunks), tail, first, all[|first|..]);
    } else if left != tail {
      OverEarly(chunks, last, tail, first, all[|first|..]);
    }
  }

  lemma HalfLeaves(body: string, tail: string, first: string, rest: string)
    requires first == body + "0\r" && first + rest == body + "0" + "\r\n" + tail
    ensures rest == "\n" + tail && "" + rest == rest
  {
    assert (first + rest)[|first|..] == rest && (body + "0" + "\r\n" + tail)[|first|..] == "\n" + tail;
  }

  lemma HalfArrives(segments: seq<string>, k: nat, j: nat, chunks: seq<Chunk>, tail: string)
    requires WellFormed(chunks) && Joined(segments) == Body(chunks) + "0" + "\r\n" + tail
    requires j <= |segments| && |Joined(segments[..j])| == |Body(chunks)| + 2
    requires k <= |segments| && AllReading(segments, k) == Yes && Decode(0, 0, Joined(segments[..k])).status == Finished
    ensures Joined(segments[..k]) == Body(chunks) + "0\r" && Decode(0, 0, Joined(segments[..k])).rest == ""
  {
    var half := Joined(segments[..j]);
    JoinedPrefix(segments, j);
    assert half == Body(chunks) + "0\r";
    HalfIsEnough(chunks);
    assert k <= j;
    JoinedPrefix(segments[..j], k);
    assert segments[..j][..k] == segments[..k];
    OverAtHalf(chunks, Joined(segments[..k]), half);
  }

  /**
   So a well-formed body in chunks is taken whole, whatever its arrivals, and what follows it is left; in front of it
   stays a line feed character exactly if the last header is "0" and an arrival ends inside its line feed.
   */
  method ReceiveChunks(segments: seq<string>, ghost chunks: seq<Chunk>, ghost last: string, ghost tail: string)
    returns (u: Upload)
    requires WellFormed(chunks) && SizeLine(last, 0) && Joined(segments) == Body(chunks) + last + "\r\n" + tail
    ensures u.refused || (!u.closed && u.remaining == 0 && u.delivered == Content(chunks))
    ensures u.refused
         || u.buffer == if last == "0" && CutAt(segments, |Body(chunks)| + 2) then "\n" + tail else tail
  {
    u := new Upload(true, true, SIZE_UNKNOWN);
    u.Run(segments, false);
    DecodeBody(chunks, last, tail);
    if !u.refused {
      ghost var k :| LeftAt(segments, k, u.buffer);
      LeftExactly(segments, k, u.buffer, chunks, last, tail);
    }
  }
}
