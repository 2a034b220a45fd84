/** What the application makes of the parts: the parameters of the request. */
module MultipartForm {
  import opened Common
  import opened CText
  import opened MultipartText
  import opened Multipart

  // ---------------------------------------------------------------------------------------------
  // The iterator.

  function Spaceless(s: string): string {
    if s == "" then "" else (if IsSpace(s[0]) then "" else [s[0]]) + Spaceless(s[1..])
  }

  function BeforeSemicolon(s: string): string {
    if s == "" || s[0] == ';' then "" else [s[0]] + BeforeSemicolon(s[1..])
  }

  /** White space and letter case aside, the value is the pattern, up to a semicolon or the end. */
  predicate Means(s: string, pattern: string) { SameLetters(BeforeSemicolon(Spaceless(s)), pattern) }

  /** The comparison, character by character. */
  method HttpValueCompare(s: string, pattern: string) returns (same: bool)
    requires ';' !in pattern
    ensures same == Means(s, pattern)
  {
    var i, j := 0, 0;
    while j < |pattern|
      invariant i <= |s| && j <= |pattern| && Means(s, pattern) == Means(s[i..], pattern[j..])
    {
      i := PassSpaces(s, i);
      MeansChar(s[i..], pattern[j..]);
      if i == |s| { return false; }
      LowerIsSame(s[i], pattern[j]);
      if Lower(s[i]) != Lower(pattern[j]) { return false; }
      assert s[i..][1..] == s[i + 1..] && pattern[j..][1..] == pattern[j + 1..];
      i, j := i + 1, j + 1;
    }
    i := PassSpaces(s, i);
    same := i == |s| || s[i] == ';';
  }

  method PassSpaces(s: string, from: nat) returns (i: nat)
    requires from <= |s|
    ensures from <= i <= |s| && (i < |s| ==> !IsSpace(s[i]))
    ensures Spaceless(s[i..]) == Spaceless(s[from..])
  {
    i := from;
    while i < |s| && IsSpace(s[i])
      invariant from <= i <= |s| && Spaceless(s[i..]) == Spaceless(s[from..])
    {
      assert s[i..][1..] == s[i + 1..];
      i := i + 1;
    }
  }

  lemma MeansChar(s: string, pattern: string)
    requires (s == "" || !IsSpace(s[0])) && pattern != "" && pattern[0] != ';'
    ensures Means(s, pattern) <==> s != "" && SameLetter(s[0], pattern[0]) && Means(s[1..], pattern[1..])
  {
    if s != "" {
      var c, rest := s[0], Spaceless(s[1..]);
      assert Spaceless(s) == [c] + rest && (Spaceless(s))[1..] == rest;
      if c == ';' {
        LowerIsSame(c, pattern[0]);
      } else {
        var all, tail := BeforeSemicolon(Spaceless(s)), BeforeSemicolon(rest);
        assert all == [c] + tail;
        assert forall i :: 0 < i < |all| ==> all[i] == tail[i - 1];
        if SameLetters(all, pattern) {
          forall i | 0 <= i < |tail| ensures SameLetter(tail[i], pattern[1..][i]) {
            assert SameLetter(all[i + 1], pattern[i + 1]);
          }
        }
        if SameLetter(c, pattern[0]) && SameLetters(tail, pattern[1..]) {
          forall i | 0 <= i < |all| ensures SameLetter(all[i], pattern[i]) {
            if i > 0 { assert SameLetter(tail[i - 1], pattern[1..][i - 1]); }
          }
        }
      }
    }
  }

  /** The encodings that change no byte. */
  predicate Transparent(encoding: string) {
    Means(encoding, "binary") || Means(encoding, "7bit") || Means(encoding, "8bit")
  }

  predicate Supported(f: Fields) { f.encoding.None? || Transparent(f.encoding.value) }

  method IsSupported(f: Fields) returns (ok: bool)
    ensures ok == Supported(f)
  {
    if f.encoding.None? { return true; }
    ok := HttpValueCompare(f.encoding.value, "binary");
    if !ok { ok := HttpValueCompare(f.encoding.value, "7bit"); }
    if !ok { ok := HttpValueCompare(f.encoding.value, "8bit"); }
  }

  /** What the calls of the iterator change in the request. */
  datatype Collected = Collected(params: map<string, string>, unsupported: bool)

  const NOTHING := Collected(map[], false)

  /** A call at offset 0 starts the parameter anew, a later one goes on with it. */
  function AfterCall(c: Collected, f: Fields, call: Call): Collected {
    if f.name.None? || c.unsupported then c
    else if !Supported(f) then c.(unsupported := true)
    else
      var key := f.name.value;
      var value := if call.off == 0 || key !in c.params then "" else c.params[key];
      c.(params := c.params[key := value + call.data])
  }

  class Request {
    var params: map<string, string>
    var unsupported: bool

    function State(): Collected
      reads this
    {
      Collected(params, unsupported)
    }

    constructor ()
      ensures State() == NOTHING
    {
      params, unsupported := map[], false;
    }

    method PostIterator(f: Fields, call: Call)
      modifies this
      ensures State() == AfterCall(old(State()), f, call)
    {
      if f.name.Some? && !unsupported {
        var supported := IsSupported(f);
        if !supported {
          unsupported := true;
        } else {
          var value := if f.name.value in params then params[f.name.value] else "";
          if call.off == 0 { value := ""; }
          assert value + "" == value;
          if call.data != "" { value := value + call.data; }
          params := params[f.name.value := value];
        }
      }
    }
  }

  function AfterCalls(c: Collected, f: Fields, calls: seq<Call>): Collected {
    if calls == [] then c else AfterCall(AfterCalls(c, f, calls[..|calls| - 1]), f, calls[|calls| - 1])
  }

  function AfterParts(c: Collected, parts: seq<Part>): Collected {
    if parts == [] then c
    else
      var last := parts[|parts| - 1];
      AfterCalls(AfterParts(c, parts[..|parts| - 1]), last.fields, last.calls)
  }

  // ---------------------------------------------------------------------------------------------
  // The parameters are the values of the parts.

  /** The whole value of a part at once. */
  function AfterEntry(c: Collected, e: Entry): Collected {
    if e.fields.name.None? || c.unsupported then c
    else if !Supported(e.fields) then c.(unsupported := true)
    else c.(params := c.params[e.fields.name.value := e.value])
  }

  function AfterEntries(c: Collected, entries: seq<Entry>): Collected {
    if entries == [] then c else AfterEntry(AfterEntries(c, entries[..|entries| - 1]), entries[|entries| - 1])
  }

  /** However a value is handed over, the parameter is the whole value, whatever an earlier part of that name left. */
  lemma {:induction false} CallsMakeEntry(c: Collected, f: Fields, calls: seq<Call>)
    requires calls != [] && Contiguous(calls)
    ensures AfterCalls(c, f, calls) == AfterEntry(c, Entry(f, Text(calls)))
  {
    var n := |calls| - 1;
    assert forall i :: 0 <= i < n ==> calls[..n][..i] == calls[..i];
    if n == 0 {
      assert calls[..0] == [] && calls[0].off == 0;
    } else {
      CallsMakeEntry(c, f, calls[..n]);
      OneCallMore(c, f, Text(calls[..n]), calls[n]);
    }
  }

  lemma OneCallMore(c: Collected, f: Fields, text: string, call: Call)
    requires call.off == |text|
    ensures AfterCall(AfterEntry(c, Entry(f, text)), f, call) == AfterEntry(c, Entry(f, text + call.data))
  {
    if f.name.Some? && !c.unsupported && Supported(f) {
      var key := f.name.value;
      assert text == "" ==> "" + call.data == text + call.data;
      assert c.params[key := text][key := text + call.data] == c.params[key := text + call.data];
    }
  }

  /** So the request is the same for every delivery of its parts. */
  lemma {:induction false} PartsMakeEntries(c: Collected, parts: seq<Part>)
    requires Proper(parts)
    ensures AfterParts(c, parts) == AfterEntries(c, Delivered(parts))
  {
    if parts != [] {
      var n := |parts| - 1;
      var e := Entry(parts[n].fields, Text(parts[n].calls));
      PartsMakeEntries(c, parts[..n]);
      CallsMakeEntry(AfterParts(c, parts[..n]), parts[n].fields, parts[n].calls);
      assert (Delivered(parts[..n]) + [e])[..|Delivered(parts[..n])|] == Delivered(parts[..n]);
    }
  }

  predicate Plainly(e: Entry) { e.fields.name.Some? && Supported(e.fields) }

  /** The value of the last part with this name. */
  function LastValue(entries: seq<Entry>, name: string): Option<string> {
    if entries == [] then None
    else
      var last := entries[|entries| - 1];
      if last.fields.name == Some(name) then Some(last.value) else LastValue(entries[..|entries| - 1], name)
  }

  /** Each name has the value of the last part with that name, and there are no other names. */
  lemma {:induction false} LastWins(entries: seq<Entry>, name: string)
    requires forall e <- entries :: Plainly(e)
    ensures !AfterEntries(NOTHING, entries).unsupported
    ensures var params := AfterEntries(NOTHING, entries).params;
      LastValue(entries, name) == if name in params then Some(params[name]) else None
  {
    if entries != [] {
      LastWins(entries[..|entries| - 1], name);
      assert Plainly(entries[|entries| - 1]);
    }
  }

  /**
   * A form as a client writes it, cut into segments anywhere, with anything before it: the request has the values of
   * the parts. The parts and the status are what the parser gave for the segments.
   */
  lemma FormArrives(boundary: string, size: nat, preamble: string, texts: seq<PartText>, tail: string,
                    parts: seq<Part>, status: Status)
    requires |boundary| >= 1 && WellFormed(FormData(boundary, size), texts) && (tail == "" || "\r\n" <= tail)
    requires Find(preamble + "--" + boundary, "--" + boundary) == |preamble|
    requires Read(FormData(boundary, size), START, preamble + Body(boundary, texts) + tail)
      == Outcome(Delivered(parts), status)
    requires Proper(parts)
    ensures AfterParts(NOTHING, parts) == AfterEntries(NOTHING, Entries(FormData(boundary, size), texts))
    ensures status == EndStatus(tail)
  {
    BodyReads(FormData(boundary, size), preamble, texts, tail);
    PartsMakeEntries(NOTHING, parts);
  }

  /** The iterator's calls for all parts of a body. */
  method Deliver(r: Request, parts: seq<Part>)
    modifies r
    ensures r.State() == AfterParts(old(r.State()), parts)
  {
    ghost var start := r.State();
    for i := 0 to |parts|
      invariant r.State() == AfterParts(start, parts[..i])
    {
      DeliverPart(r, parts[i]);
      assert parts[..i + 1][..i] == parts[..i];
    }
    assert parts[..|parts|] == parts;
  }

  method DeliverPart(r: Request, part: Part)
    modifies r
    ensures r.State() == AfterCalls(old(r.State()), part.fields, part.calls)
  {
    ghost var start := r.State();
    for i := 0 to |part.calls|
      invariant r.State() == AfterCalls(start, part.fields, part.calls[..i])
    {
      r.PostIterator(part.fields, part.calls[i]);
      assert part.calls[..i + 1][..i] == part.calls[..i];
    }
    assert part.calls[..|part.calls|] == part.calls;
  }

  /** However a written form is cut into segments, the request gets the values of its parts. */
  method ReceiveForm(boundary: string, size: nat, segments: seq<string>, ghost preamble: string,
                     ghost texts: seq<PartText>, ghost tail: string)
    returns (r: Request, status: Status)
    requires |boundary| >= 1 && |boundary| * 2 + 2 <= size
    requires WellFormed(FormData(boundary, size), texts) && (tail == "" || "\r\n" <= tail)
    requires Find(preamble + "--" + boundary, "--" + boundary) == |preamble|
    requires Joined(segments) == preamble + Body(boundary, texts) + tail
    ensures r.State() == AfterEntries(NOTHING, Entries(FormData(boundary, size), texts)) && status == EndStatus(tail)
  {
    var parts;
    status, parts := ParseBody(boundary, size, segments);
    r := new Request();
    Deliver(r, parts);
    FormArrives(boundary, size, preamble, texts, tail, parts, status);
  }
}
