/** Form data of type multipart/form-data (section 5.1.1 of RFC 2046), read as a whole. */
module MultipartText {
  import opened Common
  import opened CText

  // ---------------------------------------------------------------------------------------------
  // Searching.

  /** The first place where d occurs, as strstr finds it; the length of s if there is none. */
  function Find(s: string, d: string): (p: nat)
    requires d != ""
    ensures p <= |s|
  {
    if s == "" || d <= s then 0 else 1 + Find(s[1..], d)
  }

  /** It starts there, and nowhere before. */
  lemma {:induction false} FindFirst(s: string, d: string)
    requires d != ""
    ensures Find(s, d) < |s| ==> d <= s[Find(s, d)..]
    ensures forall q :: 0 <= q < Find(s, d) ==> !(d <= s[q..])
  {
    if s == "" || d <= s {
      assert s[0..] == s;
    } else {
      FindFirst(s[1..], d);
      var f := Find(s[1..], d);
      Behind(s, f);
      forall q | 0 <= q < 1 + f ensures !(d <= s[q..]) {
        if q == 0 { assert s[0..] == s; } else { Behind(s, q - 1); }
      }
    }
  }

  lemma Behind(s: string, q: nat)
    requires s != "" && q <= |s| - 1
    ensures s[q + 1..] == s[1..][q..]
  {
  }

  lemma FindIs(s: string, d: string, p: nat)
    requires d != "" && p <= |s| && (p < |s| ==> d <= s[p..])
    requires forall q :: 0 <= q < p ==> !(d <= s[q..])
    ensures Find(s, d) == p
  {
    FindFirst(s, d);
    var f := Find(s, d);
    assert f < |s| ==> d <= s[f..];
  }

  /** Bytes at which d does not start can be dropped first. */
  lemma FindLater(s: string, d: string, n: nat)
    requires d != "" && n <= |s| && forall q :: 0 <= q < n ==> !(d <= s[q..])
    ensures Find(s, d) == n + Find(s[n..], d)
  {
    FindFirst(s[n..], d);
    var f := Find(s[n..], d);
    forall q | 0 <= q < n + f ensures !(d <= s[q..]) {
      if q >= n { assert s[q..] == s[n..][q - n..]; }
    }
    assert s[n + f..] == s[n..][f..];
    FindIs(s, d, n + f);
  }

  /** What is found does not change when more follows. */
  lemma FindStable(s: string, d: string, more: string)
    requires d != "" && Find(s, d) < |s|
    ensures Find(s + more, d) == Find(s, d)
  {
    FindFirst(s, d);
    var p := Find(s, d);
    assert (s + more)[p..] == s[p..] + more;
    forall q | 0 <= q < p ensures !(d <= (s + more)[q..]) {
      assert (s + more)[q..] == s[q..] + more;
      PrefixOfFirst(s[q..], more, d);
    }
    FindIs(s + more, d, p);
  }

  lemma PrefixOfFirst(a: string, b: string, d: string)
    requires |d| <= |a|
    ensures d <= a + b <==> d <= a
  {
    assert (a + b)[..|d|] == a[..|d|];
  }

  /** The first line break character, or the length. */
  function LineLength(s: string): (n: nat)
    ensures n <= |s| && (n < |s| ==> IsNewline(s[n]))
    ensures forall i :: 0 <= i < n ==> !IsNewline(s[i])
  {
    if s == "" || IsNewline(s[0]) then 0 else 1 + LineLength(s[1..])
  }

  lemma LineLengthIs(s: string, n: nat)
    requires n <= |s| && (n < |s| ==> IsNewline(s[n])) && forall i :: 0 <= i < n ==> !IsNewline(s[i])
    ensures LineLength(s) == n
  {
  }

  // ---------------------------------------------------------------------------------------------
  // The headers of a part.

  datatype Fields = Fields(name: Option<string>, filename: Option<string>, contentType: Option<string>,
                           encoding: Option<string>)

  const NO_FIELDS := Fields(None, None, None, None)

  function Lower(c: char): char {
    if 'A' <= c <= 'Z' then (c as int + 32) as char else c
  }

  const SMALL := "abcdefghijklmnopqrstuvwxyz"
  const LARGE := "ABCDEFGHIJKLMNOPQRSTUVWXYZ"

  predicate IsLetter(c: char, k: nat) { k < 26 && (c == SMALL[k] || c == LARGE[k]) }

  /** The same character, or the same letter of the other case. */
  predicate SameLetter(a: char, b: char) { a == b || exists k :: 0 <= k < 26 && IsLetter(a, k) && IsLetter(b, k) }

  /** The same text in any mixture of cases. */
  predicate SameLetters(a: string, b: string) {
    |a| == |b| && forall i :: 0 <= i < |a| ==> SameLetter(a[i], b[i])
  }

  lemma LowerIsSame(a: char, b: char)
    ensures Lower(a) == Lower(b) <==> SameLetter(a, b)
  {
    if SameLetter(a, b) && a != b { LowerOfSame(a, b); }
    if Lower(a) == Lower(b) && a != b { SameOfLower(a, b); }
  }

  lemma LowerOfSame(a: char, b: char)
    requires SameLetter(a, b) && a != b
    ensures Lower(a) == Lower(b)
  {
    var k :| 0 <= k < 26 && IsLetter(a, k) && IsLetter(b, k);
    LetterAt(k);
  }

  lemma SameOfLower(a: char, b: char)
    requires Lower(a) == Lower(b) && a != b
    ensures SameLetter(a, b)
  {
    var k := if a < b then a as int - 'A' as int else b as int - 'A' as int;
    LetterAt(k);
    assert IsLetter(a, k) && IsLetter(b, k);
  }

  lemma LetterAt(k: nat)
    requires k < 26
    ensures SMALL[k] as int == 'a' as int + k && LARGE[k] as int == 'A' as int + k
  {
  }

  /** A line begins with the prefix if it begins with the same letters. */
  lemma CaselessPrefixIs(prefix: string, s: string)
    ensures CaselessPrefix(prefix, s) <==> |prefix| <= |s| && SameLetters(s[..|prefix|], prefix)
  {
    if |prefix| <= |s| {
      forall i | 0 <= i < |prefix|
        ensures Lower(prefix[i]) == Lower(s[i]) <==> SameLetter(s[..|prefix|][i], prefix[i])
      {
        LowerIsSame(s[i], prefix[i]);
      }
    }
  }

  predicate CaselessPrefix(prefix: string, s: string) {
    |prefix| <= |s| && forall i :: 0 <= i < |prefix| ==> Lower(prefix[i]) == Lower(s[i])
  }

  /** A field keeps what it was given first. */
  function Keep(first: Option<string>, next: Option<string>): Option<string> {
    if first.Some? then first else next
  }

  /** What follows the prefix, which may stand anywhere in the line. */
  function AfterPrefix(prefix: string, line: string): Option<string> {
    if line == "" then None
    else if CaselessPrefix(prefix, line) then Some(line[|prefix|..])
    else AfterPrefix(prefix, line[1..])
  }

  /** Behind the key, at the start or behind a space, stands an equals sign. */
  predicate KeyAt(s: string, key: string, p: nat)
    requires p <= |s|
  {
    key <= s[p..] && p + |key| < |s| && s[p + |key|] == '=' && (p == 0 || s[p - 1] == ' ')
  }

  /** The quoted text at p. */
  function QuotedAt(s: string, p: nat): Option<string> {
    if p >= |s| || s[p] != '"' then None
    else
      var n := Find(s[p + 1..], "\"");
      if n == |s[p + 1..]| then None else Some(s[p + 1..p + 1 + n])
  }

  /** The value in key="value", from p on. */
  function QuotedValue(s: string, key: string, p: nat): Option<string>
    requires key != "" && p <= |s|
    decreases |s| - p, 1
  {
    ValueOrLater(s, key, p + Find(s[p..], key))
  }

  /** At a place where the key occurs, or at the end. */
  function ValueOrLater(s: string, key: string, k: nat): Option<string>
    requires key != "" && k <= |s|
    decreases |s| - k, 0
  {
    if k == |s| then None
    else if KeyAt(s, key, k) then QuotedAt(s, k + |key| + 1)
    else QuotedValue(s, key, k + 1)
  }

  /** One line of the headers of a part. */
  function TakeHeader(f: Fields, line: string): Fields {
    if CaselessPrefix("Content-disposition: ", line) then
      var rest := line[|"Content-disposition: "|..];
      f.(name := Keep(f.name, QuotedValue(rest, "name", 0)),
         filename := Keep(f.filename, QuotedValue(rest, "filename", 0)))
    else
      f.(contentType := Keep(f.contentType, AfterPrefix("Content-type: ", line)),
         encoding := Keep(f.encoding, AfterPrefix("Content-Transfer-Encoding: ", line)))
  }

  /** What the value of a part is: plain bytes, parts with a boundary of their own, or parts without one. */
  datatype Kind = Plain | Mixed | Unbounded

  function KindOf(f: Fields): Kind {
    if f.contentType.None? || !CaselessPrefix("multipart/mixed", f.contentType.value) then Plain
    else if Find(f.contentType.value, "boundary=") < |f.contentType.value| then Mixed
    else Unbounded
  }

  // ---------------------------------------------------------------------------------------------
  // Reading from a state of the parser.

  datatype State =
    | Error | Done | Init | ProcessEntryHeaders | PerformCheckMultipart | ProcessValueToBoundary | PerformCleanup
    | NestedInit

  datatype Skip = Inactive | OptN | Full | Dash | Dash2

  /** A state of both machines, the headers so far and, within a value, its text so far. */
  datatype Mode = Mode(state: State, skip: Skip, fields: Fields, text: string)

  const START := Mode(Init, Inactive, NO_FIELDS, "")

  /** The boundary, how many bytes the buffer holds, and what header lines mean. */
  datatype Format = Format(boundary: string, room: nat, take: (Fields, string) -> Fields, kind: Fields -> Kind)

  /** Four bytes are added to the size that was asked for. */
  function FormData(boundary: string, size: nat): Format {
    Format(boundary, size + 4, TakeHeader, KindOf)
  }

  /** What ends a value: a line break and the boundary behind two dashes. */
  function Delimiter(boundary: string): (d: string)
    ensures |d| == |boundary| + 4 && d[0] == '\r' && d[1] == '\n' && d[2] == '-' && d[3] == '-' && d[4..] == boundary
  {
    "\r\n--" + boundary
  }

  datatype Entry = Entry(fields: Fields, value: string)

  /** Where a reading ends: it waits for more, or rejects the body, or meets a part made of parts. */
  datatype Status = Waiting(state: State, skip: Skip) | Rejected | Nested

  datatype Outcome = Outcome(entries: seq<Entry>, status: Status)

  /** One step: wait, stop, or take n bytes and perhaps complete a part. */
  datatype Move = Wait | Stop(status: Status) | Go(mode: Mode, n: nat, part: Option<Entry>)

  function Rank(s: State): nat {
    match s
    case PerformCleanup => 4
    case ProcessEntryHeaders => 3
    case PerformCheckMultipart => 2
    case ProcessValueToBoundary => 1
    case _ => 0
  }

  /** Line breaks, and the two dashes behind the last boundary. */
  function SkipStep(m: Mode, c: char): Move {
    if m.skip == OptN && c == '\n' then Go(m.(skip := Inactive), 1, None)
    else if (m.skip == OptN || m.skip == Dash) && c == '-' then Go(m.(skip := Dash2), 1, None)
    else if m.skip == Dash2 then
      if c == '-' then Go(m.(skip := Full, state := Done), 1, None) else Stop(Rejected)
    else if c == '\r' then Go(m.(skip := OptN), 1, None)
    else if c == '\n' then Go(m.(skip := Inactive), 1, None)
    else Stop(Rejected)
  }

  function InitStep(fm: Format, m: Mode, s: string): Move {
    if |s| < 2 + |fm.boundary| then Wait
    else if "--" + fm.boundary <= s then Go(m.(skip := Dash, state := ProcessEntryHeaders), 2 + |fm.boundary|, None)
    else Go(m, 1, None)
  }

  function HeadersStep(fm: Format, m: Mode, s: string): Move {
    var n := LineLength(s);
    if n >= fm.room then Stop(Rejected)
    else if n == |s| then Wait
    else if n == 0 then Go(m.(skip := Full, state := PerformCheckMultipart), 0, None)
    else Go(m.(skip := if s[n] == '\r' then OptN else Inactive, fields := fm.take(m.fields, CStr(s[..n]))),
            n + 1, None)
  }

  function CheckStep(fm: Format, m: Mode): Move {
    match fm.kind(m.fields)
    case Plain => Go(m.(state := ProcessValueToBoundary, text := ""), 0, None)
    case Mixed => Stop(Nested)
    case Unbounded => Stop(Rejected)
  }

  /** With the delimiter at p the value is complete. */
  function ValueMove(fm: Format, m: Mode, s: string, p: nat): (move: Move)
    requires p <= |s|
    ensures move.Go? ==> move.n == p + |fm.boundary| + 4
  {
    if p == |s| then Wait
    else Go(m.(skip := Dash, state := PerformCleanup, text := ""), p + |fm.boundary| + 4,
            Some(Entry(m.fields, m.text + s[..p])))
  }

  function ValueStep(fm: Format, m: Mode, s: string): (move: Move)
    ensures move.Go? ==> 0 < move.n <= |s|
  {
    FindFirst(s, Delimiter(fm.boundary));
    ValueMove(fm, m, s, Find(s, Delimiter(fm.boundary)))
  }

  function Step(fm: Format, m: Mode, s: string): (move: Move)
    ensures move.Go? ==> move.n <= |s| && (move.n == 0 ==> Rank(move.mode.state) < Rank(m.state))
  {
    if s == "" then Wait
    else if m.skip != Inactive then SkipStep(m, s[0])
    else if m.state == Init then InitStep(fm, m, s)
    else if m.state == ProcessEntryHeaders then HeadersStep(fm, m, s)
    else if m.state == PerformCheckMultipart then CheckStep(fm, m)
    else if m.state == ProcessValueToBoundary then ValueStep(fm, m, s)
    else if m.state == PerformCleanup then Go(m.(state := ProcessEntryHeaders, fields := NO_FIELDS), 0, None)
    else Stop(Rejected)
  }

  function Parts(part: Option<Entry>): seq<Entry> {
    if part.Some? then [part.value] else []
  }

  function Add(entries: seq<Entry>, o: Outcome): Outcome { o.(entries := entries + o.entries) }

  function Read(fm: Format, m: Mode, s: string): Outcome
    decreases |s|, Rank(m.state)
  {
    match Step(fm, m, s)
    case Wait => Outcome([], Waiting(m.state, m.skip))
    case Stop(status) => Outcome([], status)
    case Go(next, n, part) => Add(Parts(part), Read(fm, next, s[n..]))
  }

  // ---------------------------------------------------------------------------------------------
  // Steps do not depend on what follows.

  /** A step on the bytes that are there is the same when more follow. */
  lemma StepStable(fm: Format, m: Mode, s: string, more: string)
    requires Step(fm, m, s) != Wait
    ensures Step(fm, m, s + more) == Step(fm, m, s)
  {
    assert (s + more)[0] == s[0];
    if m.skip == Inactive {
      if m.state == Init {
        InitStable(fm, m, s, more);
      } else if m.state == ProcessEntryHeaders {
        HeadersStable(fm, m, s, more);
      } else if m.state == ProcessValueToBoundary {
        ValueStable(fm, m, s, more);
      }
    }
  }

  lemma InitStable(fm: Format, m: Mode, s: string, more: string)
    requires InitStep(fm, m, s) != Wait
    ensures InitStep(fm, m, s + more) == InitStep(fm, m, s)
  {
    var n := 2 + |fm.boundary|;
    assert (s + more)[..n] == s[..n];
  }

  lemma HeadersStable(fm: Format, m: Mode, s: string, more: string)
    requires HeadersStep(fm, m, s) != Wait
    ensures HeadersStep(fm, m, s + more) == HeadersStep(fm, m, s)
  {
    var n := LineLength(s);
    if n < |s| {
      LineLengthIs(s + more, n);
      assert (s + more)[..n] == s[..n];
    } else {
      assert forall i :: 0 <= i < n ==> (s + more)[i] == s[i];
      assert LineLength(s + more) >= n;
    }
  }

  lemma ValueStable(fm: Format, m: Mode, s: string, more: string)
    requires ValueStep(fm, m, s) != Wait
    ensures ValueStep(fm, m, s + more) == ValueStep(fm, m, s)
  {
    FindStable(s, Delimiter(fm.boundary), more);
    var p := Find(s, Delimiter(fm.boundary));
    assert (s + more)[..p] == s[..p];
  }

  // ---------------------------------------------------------------------------------------------
  // How far a parser has come with a stream.

  /** What the bytes read as, without saying how: only ReadingStep does. */
  ghost function Reading(fm: Format, m: Mode, s: string): Outcome {
    assert Reads(fm, m, s, Read(fm, m, s));
    var o :| Reads(fm, m, s, o);
    o
  }

  ghost predicate Reads(fm: Format, m: Mode, s: string, o: Outcome) {
    forall k {:trigger Look(k)} :: Look(k) ==> o == Read(fm, m, s)
  }

  /** The next step, without saying what it is: only the lemmas for the states do. */
  ghost function Next(fm: Format, m: Mode, s: string): (move: Move)
    ensures move.Go? ==> move.n <= |s|
  {
    assert IsStep(fm, m, s, Step(fm, m, s));
    var move :| IsStep(fm, m, s, move);
    assert Look(0);
    move
  }

  ghost predicate IsStep(fm: Format, m: Mode, s: string, move: Move) {
    forall k {:trigger Look(k)} :: Look(k) ==> move == Step(fm, m, s)
  }

  lemma NextIs(fm: Format, m: Mode, s: string)
    ensures Next(fm, m, s) == Step(fm, m, s)
  {
    assert Look(0);
  }

  lemma ReadingIs(fm: Format, m: Mode, s: string)
    ensures Reading(fm, m, s) == Read(fm, m, s)
  {
    assert Look(0);
  }

  lemma ReadingStep(fm: Format, m: Mode, s: string)
    ensures Step(fm, m, s) == Wait ==> Reading(fm, m, s) == Outcome([], Waiting(m.state, m.skip))
    ensures Step(fm, m, s).Stop? ==> Reading(fm, m, s) == Outcome([], Step(fm, m, s).status)
    ensures Step(fm, m, s).Go? ==>
      var go := Step(fm, m, s); Reading(fm, m, s) == Add(Parts(go.part), Reading(fm, go.mode, s[go.n..]))
  {
    ReadingIs(fm, m, s);
    var step := Step(fm, m, s);
    if step.Go? { ReadingIs(fm, step.mode, s[step.n..]); }
  }

  ghost predicate LeadsTo(fm: Format, received: string, entries: seq<Entry>, m: Mode, held: string, more: string) {
    Reading(fm, START, received + more) == Add(entries, Reading(fm, m, held + more))
  }

  /** The parts completed so far and the bytes held in the present mode make up what was received, whatever follows. */
  ghost function Track(fm: Format, received: string, entries: seq<Entry>, m: Mode, held: string): Answer {
    assert Answers(fm, received, entries, m, held, Yes) || Answers(fm, received, entries, m, held, No);
    var a :| Answers(fm, received, entries, m, held, a);
    a
  }

  ghost predicate Answers(fm: Format, received: string, entries: seq<Entry>, m: Mode, held: string, a: Answer) {
    forall k {:trigger Look(k)} :: Look(k) ==>
      (a == Yes <==> forall more :: LeadsTo(fm, received, entries, m, held, more))
  }

  lemma TrackMeans(fm: Format, received: string, entries: seq<Entry>, m: Mode, held: string)
    ensures Track(fm, received, entries, m, held) == Yes
      <==> forall more :: LeadsTo(fm, received, entries, m, held, more)
  {
    assert Look(0);
  }

  ghost predicate EndsAs(fm: Format, received: string, o: Outcome, more: string) {
    Reading(fm, START, received + more) == o
  }

  /** The reading stops here, whatever follows. */
  ghost function Stopped(fm: Format, received: string, o: Outcome): Answer {
    if forall k {:trigger Look(k)} :: Look(k) ==> forall more :: EndsAs(fm, received, o, more) then Yes else No
  }

  lemma TrackStart(fm: Format)
    ensures Track(fm, "", [], START, "") == Yes
  {
    TrackMeans(fm, "", [], START, "");
    forall more ensures LeadsTo(fm, "", [], START, "", more) {
      AddNothing(Reading(fm, START, "" + more));
    }
  }

  lemma AddNothing(o: Outcome)
    ensures Add([], o) == o
  {
    assert [] + o.entries == o.entries;
  }

  lemma AddTwice(a: seq<Entry>, b: seq<Entry>, o: Outcome)
    ensures Add(a, Add(b, o)) == Add(a + b, o)
  {
    assert a + (b + o.entries) == a + b + o.entries;
  }

  lemma TrackArrival(fm: Format, received: string, entries: seq<Entry>, m: Mode, held: string, data: string)
    requires Track(fm, received, entries, m, held) == Yes
    ensures Track(fm, received + data, entries, m, held + data) == Yes
  {
    TrackMeans(fm, received, entries, m, held);
    TrackMeans(fm, received + data, entries, m, held + data);
    forall more ensures LeadsTo(fm, received + data, entries, m, held + data, more) {
      assert received + data + more == received + (data + more);
      assert held + data + more == held + (data + more);
      assert LeadsTo(fm, received, entries, m, held, data + more);
    }
  }

  lemma TrackStep(fm: Format, received: string, entries: seq<Entry>, m: Mode, held: string)
    requires Track(fm, received, entries, m, held) == Yes
    ensures var step := Step(fm, m, held);
            && (step.Go? ==> Track(fm, received, entries + Parts(step.part), step.mode, held[step.n..]) == Yes)
            && (step.Stop? ==> Stopped(fm, received, Outcome(entries, step.status)) == Yes)
  {
    TrackMeans(fm, received, entries, m, held);
    var step := Step(fm, m, held);
    if step.Go? {
      TrackMeans(fm, received, entries + Parts(step.part), step.mode, held[step.n..]);
      forall more ensures LeadsTo(fm, received, entries + Parts(step.part), step.mode, held[step.n..], more) {
        assert LeadsTo(fm, received, entries, m, held, more);
        GoLeads(fm, entries, m, held, more);
      }
    } else if step.Stop? {
      forall more ensures EndsAs(fm, received, Outcome(entries, step.status), more) {
        assert LeadsTo(fm, received, entries, m, held, more);
        StepStable(fm, m, held, more);
        ReadingStep(fm, m, held + more);
      }
    }
  }

  lemma GoLeads(fm: Format, entries: seq<Entry>, m: Mode, held: string, more: string)
    requires Step(fm, m, held).Go?
    ensures var go := Step(fm, m, held);
            Add(entries, Reading(fm, m, held + more))
            == Add(entries + Parts(go.part), Reading(fm, go.mode, held[go.n..] + more))
  {
    var go := Step(fm, m, held);
    StepStable(fm, m, held, more);
    ReadingStep(fm, m, held + more);
    assert (held + more)[go.n..] == held[go.n..] + more;
    AddTwice(entries, Parts(go.part), Reading(fm, go.mode, held[go.n..] + more));
  }

  lemma TrackGo(fm: Format, received: string, entries: seq<Entry>, m: Mode, held: string, next: Mode, n: nat)
    requires Track(fm, received, entries, m, held) == Yes && n <= |held| && Next(fm, m, held) == Go(next, n, None)
    ensures Track(fm, received, entries, next, held[n..]) == Yes
  {
    NextIs(fm, m, held);
    TrackStep(fm, received, entries, m, held);
    assert entries + [] == entries;
  }

  lemma TrackPart(fm: Format, received: string, entries: seq<Entry>, m: Mode, held: string, next: Mode, n: nat,
                  e: Entry)
    requires Track(fm, received, entries, m, held) == Yes && n <= |held| && Next(fm, m, held) == Go(next, n, Some(e))
    ensures Track(fm, received, entries + [e], next, held[n..]) == Yes
  {
    NextIs(fm, m, held);
    TrackStep(fm, received, entries, m, held);
  }

  lemma TrackStop(fm: Format, received: string, entries: seq<Entry>, m: Mode, held: string, status: Status)
    requires Track(fm, received, entries, m, held) == Yes && Next(fm, m, held) == Stop(status)
    ensures Stopped(fm, received, Outcome(entries, status)) == Yes
  {
    NextIs(fm, m, held);
    TrackStep(fm, received, entries, m, held);
  }

  lemma NextOfNothing(fm: Format, m: Mode)
    ensures Next(fm, m, "") == Wait
  {
    NextIs(fm, m, "");
  }

  lemma NextOfSkip(fm: Format, m: Mode, s: string)
    requires s != "" && m.skip != Inactive
    ensures Next(fm, m, s) == SkipStep(m, s[0])
  {
    NextIs(fm, m, s);
  }

  lemma NextOfInit(fm: Format, m: Mode, s: string)
    requires s != "" && m.skip == Inactive && m.state == Init
    ensures Next(fm, m, s) ==
      if |s| < 2 + |fm.boundary| then Wait
      else if s[..2] == "--" && s[2..2 + |fm.boundary|] == fm.boundary
      then Go(m.(skip := Dash, state := ProcessEntryHeaders), 2 + |fm.boundary|, None)
      else Go(m, 1, None)
  {
    NextIs(fm, m, s);
    if |s| >= 2 + |fm.boundary| {
      assert s[..2 + |fm.boundary|] == s[..2] + s[2..2 + |fm.boundary|];
    }
  }

  lemma NextOfHeaders(fm: Format, m: Mode, s: string, n: nat)
    requires s != "" && m.skip == Inactive && m.state == ProcessEntryHeaders
    requires n <= |s| && (n < |s| ==> IsNewline(s[n])) && forall i :: 0 <= i < n ==> !IsNewline(s[i])
    ensures Next(fm, m, s) ==
      if n >= fm.room then Stop(Rejected)
      else if n == |s| then Wait
      else if n == 0 then Go(m.(skip := Full, state := PerformCheckMultipart), 0, None)
      else Go(m.(skip := if s[n] == '\r' then OptN else Inactive, fields := fm.take(m.fields, CStr(s[..n]))),
              n + 1, None)
  {
    NextIs(fm, m, s);
    LineLengthIs(s, n);
  }

  lemma NextOfCheck(fm: Format, m: Mode, s: string)
    requires s != "" && m.skip == Inactive && m.state == PerformCheckMultipart
    ensures Next(fm, m, s) == CheckStep(fm, m)
  {
    NextIs(fm, m, s);
  }

  lemma NextOfCleanup(fm: Format, m: Mode, s: string)
    requires s != "" && m.skip == Inactive && m.state == PerformCleanup
    ensures Next(fm, m, s) == Go(m.(state := ProcessEntryHeaders, fields := NO_FIELDS), 0, None)
  {
    NextIs(fm, m, s);
  }

  lemma NextOfDone(fm: Format, m: Mode, s: string)
    requires s != "" && m.skip == Inactive && m.state == Done
    ensures Next(fm, m, s) == Stop(Rejected)
  {
    NextIs(fm, m, s);
  }

  /** A value that starts with the delimiter is complete. */
  lemma NextAtDelimiter(fm: Format, m: Mode, s: string)
    requires m.skip == Inactive && m.state == ProcessValueToBoundary && DelimiterAt(s, 0, fm.boundary)
    ensures Next(fm, m, s)
      == Go(m.(skip := Dash, state := PerformCleanup, text := ""), |fm.boundary| + 4, Some(Entry(m.fields, m.text)))
  {
    NextIs(fm, m, s);
    Scanned(s, 0, fm.boundary);
    StepIsValueMove(fm, m, s, 0);
    assert m.text + s[..0] == m.text;
  }

  lemma NextWithoutDelimiter(fm: Format, m: Mode, s: string)
    requires m.skip == Inactive && m.state == ProcessValueToBoundary && |s| < |fm.boundary| + 4
    ensures Next(fm, m, s) == Wait
  {
    NextIs(fm, m, s);
    Scanned(s, 0, fm.boundary);
    StepIsValueMove(fm, m, s, |s|);
  }

  /** Before the first boundary any number of bytes without a dash can go at once. */
  lemma {:induction false} TrackSkip(fm: Format, received: string, entries: seq<Entry>, m: Mode, held: string, n: nat)
    requires Track(fm, received, entries, m, held) == Yes && m.state == Init && m.skip == Inactive
    requires n <= |held| && forall i :: 0 <= i < n ==> held[i] != '-'
    ensures Track(fm, received, entries, m, held[n..]) == Yes
  {
    TrackMeans(fm, received, entries, m, held);
    TrackMeans(fm, received, entries, m, held[n..]);
    forall more ensures LeadsTo(fm, received, entries, m, held[n..], more) {
      assert LeadsTo(fm, received, entries, m, held, more);
      SkipReads(fm, m, held + more, n);
      assert (held + more)[n..] == held[n..] + more;
    }
  }

  lemma {:induction false} SkipReads(fm: Format, m: Mode, s: string, n: nat)
    requires m.state == Init && m.skip == Inactive && n <= |s| && forall i :: 0 <= i < n ==> s[i] != '-'
    ensures Reading(fm, m, s) == Reading(fm, m, s[n..])
  {
    if n == 0 {
      assert s[0..] == s;
    } else if |s| < 2 + |fm.boundary| {
      SkipWaits(fm, m, s, n);
    } else {
      assert ("--" + fm.boundary)[0] == '-';
      ReadingStep(fm, m, s);
      AddNothing(Reading(fm, m, s[1..]));
      SkipReads(fm, m, s[1..], n - 1);
      assert s[1..][n - 1..] == s[n..];
    }
  }

  /** With too few bytes for a boundary all of them are waited for, or skipped. */
  lemma SkipWaits(fm: Format, m: Mode, s: string, n: nat)
    requires m.state == Init && m.skip == Inactive && n <= |s| < 2 + |fm.boundary|
    ensures Reading(fm, m, s) == Reading(fm, m, s[n..])
  {
    ReadingStep(fm, m, s);
    ReadingStep(fm, m, s[n..]);
  }

  /** Part of a value can be handed out before the delimiter is there. */
  lemma TrackValue(fm: Format, received: string, entries: seq<Entry>, m: Mode, held: string, n: nat)
    requires Track(fm, received, entries, m, held) == Yes && m.state == ProcessValueToBoundary && m.skip == Inactive
    requires n <= |held| && NoneBefore(held, n, fm.boundary)
    ensures Track(fm, received, entries, m.(text := m.text + held[..n]), held[n..]) == Yes
  {
    TrackMeans(fm, received, entries, m, held);
    TrackMeans(fm, received, entries, m.(text := m.text + held[..n]), held[n..]);
    var to := m.(text := m.text + held[..n]);
    forall more ensures LeadsTo(fm, received, entries, to, held[n..], more) {
      assert LeadsTo(fm, received, entries, m, held, more);
      ValueReads(fm, m, held, n, more);
    }
  }

  /** A byte that is already there keeps the delimiter from starting at p, whatever follows. */
  ghost predicate Excluded(s: string, p: nat, boundary: string) {
    exists k: nat :: k < |boundary| + 4 && p + k < |s| && s[p + k] != Delimiter(boundary)[k]
  }

  ghost predicate NoneBefore(s: string, to: nat, boundary: string) {
    forall p: nat {:trigger Excluded(s, p, boundary)} :: p < to ==> Excluded(s, p, boundary)
  }

  predicate DelimiterAt(s: string, p: nat, boundary: string) {
    p + |boundary| + 4 <= |s| && s[p..p + |boundary| + 4] == Delimiter(boundary)
  }

  lemma DelimiterLater(s: string, p: nat, boundary: string)
    requires DelimiterAt(s, p, boundary)
    ensures DelimiterAt(s[p..], 0, boundary)
  {
    assert s[p..][0..|boundary| + 4] == s[p..p + |boundary| + 4];
  }

  /** What the scan of a buffer learns is where the delimiter is found, if it is. */
  lemma Scanned(s: string, p: nat, boundary: string)
    requires p <= |s| && NoneBefore(s, p, boundary)
    ensures DelimiterAt(s, p, boundary) ==> Find(s, Delimiter(boundary)) == p
    ensures p + |boundary| + 4 > |s| ==> Find(s, Delimiter(boundary)) == |s|
  {
    var d := Delimiter(boundary);
    forall q | 0 <= q < p ensures !(d <= s[q..]) {
      assert Excluded(s, q, boundary);
      ExcludedMeans(s, q, boundary, "");
      assert s + "" == s;
    }
    if DelimiterAt(s, p, boundary) {
      assert s[p..][..|d|] == d;
      FindIs(s, d, p);
    } else if p + |d| > |s| {
      FindIs(s, d, |s|);
    }
  }

  lemma ExcludedMeans(s: string, p: nat, boundary: string, more: string)
    requires p <= |s| && Excluded(s, p, boundary)
    ensures !(Delimiter(boundary) <= (s + more)[p..])
  {
    var k: nat :| k < |boundary| + 4 && p + k < |s| && s[p + k] != Delimiter(boundary)[k];
    assert (s + more)[p..][k] == s[p + k];
  }

  lemma ValueReads(fm: Format, m: Mode, held: string, n: nat, more: string)
    requires m.state == ProcessValueToBoundary && m.skip == Inactive
    requires n <= |held| && NoneBefore(held, n, fm.boundary)
    ensures Reading(fm, m, held + more) == Reading(fm, m.(text := m.text + held[..n]), held[n..] + more)
  {
    var s, d, to := held + more, Delimiter(fm.boundary), m.(text := m.text + held[..n]);
    assert s[n..] == held[n..] + more && s[..n] == held[..n];
    forall q | 0 <= q < n ensures !(d <= s[q..]) {
      assert Excluded(held, q, fm.boundary);
      ExcludedMeans(held, q, fm.boundary, more);
    }
    FindLater(s, d, n);
    FindFirst(s[n..], d);
    var p := Find(s[n..], d);
    StepIsValueMove(fm, m, s, n + p);
    StepIsValueMove(fm, to, s[n..], p);
    MovesAgree(fm, m, s, n, p);
  }

  lemma StepIsValueMove(fm: Format, m: Mode, s: string, p: nat)
    requires m.state == ProcessValueToBoundary && m.skip == Inactive && p == Find(s, Delimiter(fm.boundary))
    ensures Step(fm, m, s) == ValueMove(fm, m, s, p)
  {
    StepOfValue(fm, m, s);
  }

  lemma StepOfValue(fm: Format, m: Mode, s: string)
    requires m.state == ProcessValueToBoundary && m.skip == Inactive
    ensures Step(fm, m, s) == if s == "" then Wait else ValueStep(fm, m, s)
  {
  }

  lemma MovesAgree(fm: Format, m: Mode, s: string, n: nat, p: nat)
    requires m.state == ProcessValueToBoundary && n + p <= |s| && (n + p < |s| ==> n + p + |fm.boundary| + 4 <= |s|)
    requires Step(fm, m, s) == ValueMove(fm, m, s, n + p)
    requires var to := m.(text := m.text + s[..n]); Step(fm, to, s[n..]) == ValueMove(fm, to, s[n..], p)
    ensures Reading(fm, m, s) == Reading(fm, m.(text := m.text + s[..n]), s[n..])
  {
    ReadingStep(fm, m, s);
    ReadingStep(fm, m.(text := m.text + s[..n]), s[n..]);
    if n + p < |s| { ValueParts(m.text, s, n, p, |fm.boundary| + 4); }
  }

  lemma ValueParts(text: string, s: string, n: nat, p: nat, d: nat)
    requires n + p + d <= |s|
    ensures text + s[..n + p] == text + s[..n] + s[n..][..p] && s[n + p + d..] == s[n..][p + d..]
  {
  }

  /** A parser that can do nothing more has completed what the stream has, and waits as the reading does. */
  lemma TrackEnds(fm: Format, received: string, entries: seq<Entry>, m: Mode, held: string)
    requires Track(fm, received, entries, m, held) == Yes && Next(fm, m, held) == Wait
    ensures Read(fm, START, received) == Outcome(entries, Waiting(m.state, m.skip))
  {
    NextIs(fm, m, held);
    TrackMeans(fm, received, entries, m, held);
    assert LeadsTo(fm, received, entries, m, held, "");
    assert received + "" == received && held + "" == held;
    ReadingStep(fm, m, held);
    ReadingIs(fm, START, received);
  }

  lemma StoppedIs(fm: Format, received: string, o: Outcome, more: string)
    requires Stopped(fm, received, o) == Yes
    ensures Read(fm, START, received + more) == o
  {
    assert Look(0);
    assert EndsAs(fm, received, o, more);
    ReadingIs(fm, START, received + more);
  }

  // ---------------------------------------------------------------------------------------------
  // Well-formed bodies.

  /** A part as a client writes it: its header lines and its value. */
  datatype PartText = PartText(headers: seq<string>, value: string)

  function HeaderLines(headers: seq<string>): string {
    if headers == [] then "" else headers[0] + "\r\n" + HeaderLines(headers[1..])
  }

  /** The parts behind a boundary, up to the two dashes behind the last one. */
  function Rest(boundary: string, parts: seq<PartText>): string {
    if parts == [] then "--" else "\r\n" + PartBody(parts[0]) + Delimiter(boundary) + Rest(boundary, parts[1..])
  }

  function PartBody(p: PartText): string { HeaderLines(p.headers) + "\r\n" + p.value }

  function Body(boundary: string, parts: seq<PartText>): string { "--" + boundary + Rest(boundary, parts) }

  function FieldsOf(fm: Format, f: Fields, headers: seq<string>): Fields
    decreases |headers|
  {
    if headers == [] then f else FieldsOf(fm, fm.take(f, CStr(headers[0])), headers[1..])
  }

  function EntryOf(fm: Format, p: PartText): Entry { Entry(FieldsOf(fm, NO_FIELDS, p.headers), p.value) }

  function Entries(fm: Format, parts: seq<PartText>): seq<Entry> {
    if parts == [] then [] else [EntryOf(fm, parts[0])] + Entries(fm, parts[1..])
  }

  predicate HeaderOk(fm: Format, h: string) {
    h != "" && |h| < fm.room && forall i :: 0 <= i < |h| ==> !IsNewline(h[i])
  }

  /** Section 5.1.1 of RFC 2046: the delimiter does not occur in the value. */
  predicate PartOk(fm: Format, p: PartText) {
    && (forall h <- p.headers :: HeaderOk(fm, h))
    && fm.kind(FieldsOf(fm, NO_FIELDS, p.headers)) == Plain
    && Find(p.value, Delimiter(fm.boundary)) == |p.value|
  }

  predicate WellFormed(fm: Format, parts: seq<PartText>) {
    && (forall c <- fm.boundary :: c != '\r')
    && fm.room > 0
    && forall p <- parts :: PartOk(fm, p)
  }

  lemma ReadingBreak(fm: Format, m: Mode, s: string)
    requires m.skip == Dash || m.skip == Full
    ensures Reading(fm, m, "\r\n" + s) == Reading(fm, m.(skip := Inactive), s)
  {
    var b := "\r\n" + s;
    ReadingStep(fm, m, b);
    assert b[1..] == "\n" + s && b[1..][1..] == s;
    ReadingStep(fm, m.(skip := OptN), b[1..]);
    AddNothing(Reading(fm, m.(skip := Inactive), s));
    AddNothing(Reading(fm, m.(skip := OptN), b[1..]));
  }

  lemma ReadingOptional(fm: Format, m: Mode, s: string)
    requires m.skip == OptN
    ensures Reading(fm, m, "\n" + s) == Reading(fm, m.(skip := Inactive), s)
  {
    ReadingStep(fm, m, "\n" + s);
    assert ("\n" + s)[1..] == s;
    AddNothing(Reading(fm, m.(skip := Inactive), s));
  }

  lemma ReadingHeader(fm: Format, f: Fields, h: string, s: string)
    requires HeaderOk(fm, h)
    ensures Reading(fm, Mode(ProcessEntryHeaders, Inactive, f, ""), h + "\r\n" + s)
      == Reading(fm, Mode(ProcessEntryHeaders, Inactive, fm.take(f, CStr(h)), ""), s)
  {
    var m, next, b := Mode(ProcessEntryHeaders, Inactive, f, ""), fm.take(f, CStr(h)), h + "\r\n" + s;
    assert forall i :: 0 <= i < |h| ==> b[i] == h[i];
    LineLengthIs(b, |h|);
    assert b[..|h|] == h && b[|h| + 1..] == "\n" + s;
    ReadingStep(fm, m, b);
    AddNothing(Reading(fm, Mode(ProcessEntryHeaders, OptN, next, ""), "\n" + s));
    ReadingOptional(fm, Mode(ProcessEntryHeaders, OptN, next, ""), s);
  }

  /** A line feed alone ends a header line as well. */
  lemma ReadingHeaderLf(fm: Format, f: Fields, h: string, s: string)
    requires HeaderOk(fm, h)
    ensures Reading(fm, Mode(ProcessEntryHeaders, Inactive, f, ""), h + "\n" + s)
      == Reading(fm, Mode(ProcessEntryHeaders, Inactive, fm.take(f, CStr(h)), ""), s)
  {
    var m, next, b := Mode(ProcessEntryHeaders, Inactive, f, ""), fm.take(f, CStr(h)), h + "\n" + s;
    assert forall i :: 0 <= i < |h| ==> b[i] == h[i];
    LineLengthIs(b, |h|);
    assert b[..|h|] == h && b[|h| + 1..] == s;
    ReadingStep(fm, m, b);
    AddNothing(Reading(fm, Mode(ProcessEntryHeaders, Inactive, next, ""), s));
  }

  lemma {:induction false} ReadingHeaders(fm: Format, f: Fields, headers: seq<string>, s: string)
    requires forall h <- headers :: HeaderOk(fm, h)
    ensures Reading(fm, Mode(ProcessEntryHeaders, Inactive, f, ""), HeaderLines(headers) + s)
      == Reading(fm, Mode(ProcessEntryHeaders, Inactive, FieldsOf(fm, f, headers), ""), s)
    decreases |headers|
  {
    if headers == [] {
      assert HeaderLines(headers) + s == s;
    } else {
      var rest := HeaderLines(headers[1..]) + s;
      assert HeaderLines(headers) + s == headers[0] + "\r\n" + rest;
      ReadingHeader(fm, f, headers[0], rest);
      ReadingHeaders(fm, fm.take(f, CStr(headers[0])), headers[1..], s);
    }
  }

  /** The empty line in front of the value. */
  lemma ReadingEmptyLine(fm: Format, f: Fields, s: string)
    requires s != "" && fm.room > 0 && fm.kind(f) == Plain
    ensures Reading(fm, Mode(ProcessEntryHeaders, Inactive, f, ""), "\r\n" + s)
      == Reading(fm, Mode(ProcessValueToBoundary, Inactive, f, ""), s)
  {
    var b, m := "\r\n" + s, Mode(ProcessEntryHeaders, Inactive, f, "");
    LineLengthIs(b, 0);
    ReadingStep(fm, m, b);
    assert b[0..] == b && s[0..] == s;
    AddNothing(Reading(fm, Mode(PerformCheckMultipart, Full, f, ""), b));
    ReadingBreak(fm, Mode(PerformCheckMultipart, Full, f, ""), s);
    ReadingStep(fm, Mode(PerformCheckMultipart, Inactive, f, ""), s);
    AddNothing(Reading(fm, Mode(ProcessValueToBoundary, Inactive, f, ""), s));
  }

  /** No delimiter starts in the value, not even one that ends behind it. */
  lemma FindBehind(value: string, boundary: string, s: string)
    requires Find(value, Delimiter(boundary)) == |value| && forall c <- boundary :: c != '\r'
    ensures Find(value + Delimiter(boundary) + s, Delimiter(boundary)) == |value|
  {
    var d := Delimiter(boundary);
    var all := value + d + s;
    assert all[|value|..] == d + s;
    FindFirst(value, d);
    forall q | 0 <= q < |value| ensures !(d <= all[q..]) {
      NotAcross(value, boundary, s, q);
    }
    FindIs(all, d, |value|);
  }

  lemma NotAcross(value: string, boundary: string, s: string, q: nat)
    requires q < |value| && forall c <- boundary :: c != '\r'
    requires !(Delimiter(boundary) <= value[q..])
    ensures !(Delimiter(boundary) <= (value + Delimiter(boundary) + s)[q..])
  {
    var d := Delimiter(boundary);
    var all := value + d + s;
    var k := |value| - q;
    if k < |d| {
      assert all[q..][k] == d[0] == '\r';
      assert k >= 4 ==> d[k] == boundary[k - 4] && boundary[k - 4] in boundary;
      assert d[k] != '\r';
    } else {
      assert all[q..] == value[q..] + (d + s);
      PrefixOfFirst(value[q..], d + s, d);
    }
  }

  lemma ReadingWholeValue(fm: Format, f: Fields, value: string, s: string)
    requires Find(value, Delimiter(fm.boundary)) == |value| && forall c <- fm.boundary :: c != '\r'
    ensures Reading(fm, Mode(ProcessValueToBoundary, Inactive, f, ""), value + Delimiter(fm.boundary) + s)
      == Add([Entry(f, value)], Reading(fm, Mode(PerformCleanup, Dash, f, ""), s))
  {
    var m, b := Mode(ProcessValueToBoundary, Inactive, f, ""), value + Delimiter(fm.boundary) + s;
    FindBehind(value, fm.boundary, s);
    StepIsValueMove(fm, m, b, |value|);
    assert b[..|value|] == value && "" + value == value && b[|value| + |fm.boundary| + 4..] == s;
    ReadingStep(fm, m, b);
  }

  /** Behind a boundary with a line break the headers of the next part begin. */
  lemma ReadingNext(fm: Format, m: Mode, s: string)
    requires m == Mode(ProcessEntryHeaders, Dash, NO_FIELDS, "") || m == Mode(PerformCleanup, Dash, m.fields, "")
    requires s != ""
    ensures Reading(fm, m, "\r\n" + s) == Reading(fm, Mode(ProcessEntryHeaders, Inactive, NO_FIELDS, ""), s)
  {
    ReadingBreak(fm, m, s);
    if m.state == PerformCleanup {
      ReadingStep(fm, m.(skip := Inactive), s);
      assert s[0..] == s;
      AddNothing(Reading(fm, Mode(ProcessEntryHeaders, Inactive, NO_FIELDS, ""), s));
    }
  }

  lemma ReadingPart(fm: Format, m: Mode, p: PartText, s: string)
    requires m == Mode(ProcessEntryHeaders, Dash, NO_FIELDS, "") || m == Mode(PerformCleanup, Dash, m.fields, "")
    requires PartOk(fm, p) && fm.room > 0 && forall c <- fm.boundary :: c != '\r'
    ensures Reading(fm, m, "\r\n" + PartBody(p) + Delimiter(fm.boundary) + s)
      == Add([EntryOf(fm, p)], Reading(fm, Mode(PerformCleanup, Dash, EntryOf(fm, p).fields, ""), s))
  {
    var f := FieldsOf(fm, NO_FIELDS, p.headers);
    var s3 := p.value + Delimiter(fm.boundary) + s;
    var s2 := "\r\n" + s3;
    var s1 := HeaderLines(p.headers) + s2;
    assert "\r\n" + PartBody(p) + Delimiter(fm.boundary) + s == "\r\n" + s1;
    ReadingNext(fm, m, s1);
    ReadingHeaders(fm, NO_FIELDS, p.headers, s2);
    ReadingEmptyLine(fm, f, s3);
    ReadingWholeValue(fm, f, p.value, s);
  }

  /** The two dashes behind the last boundary. */
  lemma ReadingEnd(fm: Format, m: Mode, s: string)
    requires m.skip == Dash
    ensures Reading(fm, m, "--" + s) == Reading(fm, m.(state := Done, skip := Full), s)
  {
    var b := "--" + s;
    ReadingStep(fm, m, b);
    assert b[1..] == "-" + s && b[1..][1..] == s;
    ReadingStep(fm, m.(skip := Dash2), b[1..]);
    AddNothing(Reading(fm, m.(skip := Dash2), b[1..]));
    AddNothing(Reading(fm, m.(state := Done, skip := Full), s));
  }

  function LastFields(fm: Format, f: Fields, parts: seq<PartText>): Fields {
    if parts == [] then f else EntryOf(fm, parts[|parts| - 1]).fields
  }

  lemma {:induction false} ReadingParts(fm: Format, m: Mode, parts: seq<PartText>, tail: string)
    requires m == Mode(ProcessEntryHeaders, Dash, NO_FIELDS, "") || m == Mode(PerformCleanup, Dash, m.fields, "")
    requires WellFormed(fm, parts)
    ensures Reading(fm, m, Rest(fm.boundary, parts) + tail)
      == Add(Entries(fm, parts), Reading(fm, Mode(Done, Full, LastFields(fm, m.fields, parts), ""), tail))
    decreases |parts|
  {
    if parts == [] {
      ReadingEnd(fm, m, tail);
      AddNothing(Reading(fm, Mode(Done, Full, m.fields, ""), tail));
    } else {
      var next := Mode(PerformCleanup, Dash, EntryOf(fm, parts[0]).fields, "");
      var rest := Rest(fm.boundary, parts[1..]) + tail;
      assert Rest(fm.boundary, parts) + tail == "\r\n" + PartBody(parts[0]) + Delimiter(fm.boundary) + rest;
      ReadingPart(fm, m, parts[0], rest);
      ReadingParts(fm, next, parts[1..], tail);
      AddTwice([EntryOf(fm, parts[0])], Entries(fm, parts[1..]),
               Reading(fm, Mode(Done, Full, LastFields(fm, next.fields, parts[1..]), ""), tail));
    }
  }

  /** What stands before the first boundary is skipped. */
  lemma {:induction false} ReadingPreamble(fm: Format, preamble: string, s: string)
    requires Find(preamble + "--" + fm.boundary, "--" + fm.boundary) == |preamble|
    ensures Reading(fm, START, preamble + "--" + fm.boundary + s)
      == Reading(fm, Mode(ProcessEntryHeaders, Dash, NO_FIELDS, ""), s)
  {
    var d := "--" + fm.boundary;
    var b := preamble + "--" + fm.boundary + s;
    ReadingStep(fm, START, b);
    assert preamble + "--" + fm.boundary == preamble + d;
    assert b == preamble + d + s;
    if preamble == "" {
      assert b == d + s && b[|d|..] == s;
      AddNothing(Reading(fm, Mode(ProcessEntryHeaders, Dash, NO_FIELDS, ""), s));
    } else {
      FindFirst(preamble + d, d);
      assert (preamble + d)[0..] == preamble + d && b == (preamble + d) + s;
      PrefixOfFirst(preamble + d, s, d);
      assert (preamble + d)[1..] == preamble[1..] + d;
      assert preamble[1..] + "--" + fm.boundary == preamble[1..] + d;
      assert b[1..] == preamble[1..] + "--" + fm.boundary + s;
      AddNothing(Reading(fm, START, b[1..]));
      ReadingPreamble(fm, preamble[1..], s);
    }
  }

  /** Behind the end a line break is allowed, and nothing else: the text RFC 2046 allows there is rejected. */
  function EndStatus(tail: string): Status
    requires tail == "" || "\r\n" <= tail
  {
    if tail == "" then Waiting(Done, Full) else if tail == "\r\n" then Waiting(Done, Inactive) else Rejected
  }

  lemma ReadingTail(fm: Format, f: Fields, tail: string)
    requires tail == "" || "\r\n" <= tail
    ensures Reading(fm, Mode(Done, Full, f, ""), tail) == Outcome([], EndStatus(tail))
  {
    if tail == "" {
      ReadingStep(fm, Mode(Done, Full, f, ""), tail);
    } else {
      assert tail == "\r\n" + tail[2..];
      ReadingBreak(fm, Mode(Done, Full, f, ""), tail[2..]);
      ReadingStep(fm, Mode(Done, Inactive, f, ""), tail[2..]);
    }
  }

  /** A well-formed body reads as its parts, whatever stands before it and behind it. */
  lemma BodyReads(fm: Format, preamble: string, parts: seq<PartText>, tail: string)
    requires Find(preamble + "--" + fm.boundary, "--" + fm.boundary) == |preamble|
    requires WellFormed(fm, parts) && (tail == "" || "\r\n" <= tail)
    ensures Read(fm, START, preamble + Body(fm.boundary, parts) + tail) == Outcome(Entries(fm, parts), EndStatus(tail))
  {
    var rest := Rest(fm.boundary, parts) + tail;
    assert preamble + Body(fm.boundary, parts) + tail == preamble + "--" + fm.boundary + rest;
    ReadingPreamble(fm, preamble, rest);
    ReadingParts(fm, Mode(ProcessEntryHeaders, Dash, NO_FIELDS, ""), parts, tail);
    ReadingTail(fm, LastFields(fm, NO_FIELDS, parts), tail);
    assert Entries(fm, parts) + [] == Entries(fm, parts);
    ReadingIs(fm, START, preamble + "--" + fm.boundary + rest);
  }
}
