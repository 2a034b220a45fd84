/**
 * The connection's state machine, byte contents left out: the idle loop ends, and the application sees
 * every request begin, be delivered and be completed exactly once.
 */
module IdleLoop {
  import opened Common

  datatype State =
    | Init | UrlReceived | HeaderPartReceived | HeadersReceived | HeadersProcessed
    | ContinueSending | ContinueSent | BodyReceived | FooterPartReceived | FootersReceived
    | HeadersSending | HeadersSent | NormalBodyReady | NormalBodyUnready
    | ChunkedBodyReady | ChunkedBodyUnready | BodySent | FootersSending | FootersSent | Closed

  datatype Info = Read | Write | Block | Cleanup
  datatype Version = NoVersion | EmptyVersion | Http10 | Http11 | OtherVersion

  const CONTINUE_LENGTH: nat := 25

  // ---------------------------------------------------------------------------------------------
  // What the application sees.

  /**
   * A first call, a call with body bytes of which some are taken, a call with none left to come, the notice. In
   * between, unseen by the application, the last chunk of a body is read.
   */
  datatype Event = First | Body(offered: nat, taken: nat) | Last | Final(length: Option<nat>) | Done

  /** The bytes taken since the first call, and whether the last chunk was read. */
  datatype Phase = Idle | Begun(bytes: nat, whole: bool) | Finished | Overfed | Broken

  /**
   * After a notice nothing but a first call, after the last chunk no body; a final call only when exactly the known
   * length is delivered, or the last chunk was read. Only where no bytes were announced may there have been some.
   */
  function After(p: Phase, e: Event): Phase {
    match (p, e)
    case (Idle, First) => Begun(0, false)
    case (Begun(b, w), Body(n, t)) => if !w && 0 < n && t <= n then Begun(b + t, false) else Broken
    case (Begun(b, _), Last) => Begun(b, true)
    case (Begun(b, w), Final(None)) => if w then Finished else Broken
    case (Begun(b, _), Final(Some(l))) => if l == b then Finished else if l == 0 then Overfed else Broken
    case (Finished, Final(_)) => Finished
    case (Overfed, Final(_)) => Overfed
    case (Begun(_, _), Done) => Idle
    case (Finished, Done) => Idle
    case (Overfed, Done) => Idle
    case _ => Broken
  }

  function PhaseOf(trace: seq<Event>): Phase {
    if trace == [] then Idle else After(PhaseOf(trace[..|trace| - 1]), trace[|trace| - 1])
  }

  lemma PhaseSnoc(trace: seq<Event>, e: Event)
    ensures PhaseOf(trace + [e]) == After(PhaseOf(trace), e)
  {
    assert (trace + [e])[..|trace|] == trace;
  }

  function Count(trace: seq<Event>, e: Event): nat {
    if trace == [] then 0 else Count(trace[..|trace| - 1], e) + if trace[|trace| - 1] == e then 1 else 0
  }

  lemma {:induction false} OnceBroken(trace: seq<Event>, n: nat)
    requires n <= |trace| && PhaseOf(trace) != Broken
    ensures PhaseOf(trace[..n]) != Broken
  {
    if n < |trace| {
      OnceBroken(trace[..|trace| - 1], n);
      assert trace[..|trace| - 1][..n] == trace[..n];
    } else {
      assert trace[..n] == trace;
    }
  }

  /** In a run that is not broken, each first call is followed by one notice before the next first call. */
  lemma {:induction false} NoticesMatchRequests(trace: seq<Event>)
    requires PhaseOf(trace) != Broken
    ensures Count(trace, First) == Count(trace, Done) + if PhaseOf(trace) == Idle then 0 else 1
  {
    if trace != [] {
      NoticesMatchRequests(trace[..|trace| - 1]);
    }
  }

  /** No call to the handler follows a notice of completion before a new request begins. */
  lemma NothingAfterNotice(trace: seq<Event>, n: nat)
    requires PhaseOf(trace) != Broken && n + 1 < |trace| && trace[n] == Done
    ensures trace[n + 1] == First
  {
    OnceBroken(trace, n + 2);
    OnceBroken(trace, n + 1);
    assert trace[..n + 2][..n + 1] == trace[..n + 1];
    assert trace[..n + 1][..n] == trace[..n];
  }

  /** Where a length other than 0 was announced, the first final call comes after exactly so many bytes. */
  lemma FinalAfterWholeBody(trace: seq<Event>, n: nat, length: nat)
    requires PhaseOf(trace) != Broken && n < |trace| && trace[n] == Final(Some(length)) && length != 0
    ensures PhaseOf(trace[..n]).Begun? ==> PhaseOf(trace[..n]).bytes == length
  {
    OnceBroken(trace, n + 1);
    assert trace[..n + 1][..n] == trace[..n];
  }

  /** Where none was announced, the first final call follows right behind the last chunk. */
  lemma FinalAfterLastChunk(trace: seq<Event>, n: nat)
    requires PhaseOf(trace) != Broken && n < |trace| && trace[n] == Final(None)
    ensures PhaseOf(trace[..n]).Begun? ==> n > 0 && trace[n - 1] == Last
  {
    OnceBroken(trace, n + 1);
    assert trace[..n + 1][..n] == trace[..n];
    if n > 0 { assert trace[..n][n - 1] == trace[n - 1]; }
  }

  // ---------------------------------------------------------------------------------------------
  // The order that makes the loop end.

  /** Every step of the loop goes down, or keeps the state and takes bytes from the buffer. */
  function Rank(s: State): nat {
    match s
    case HeadersSent => 19
    case ChunkedBodyUnready => 18
    case NormalBodyUnready => 18
    case ChunkedBodyReady => 17
    case NormalBodyReady => 17
    case BodySent => 16
    case FootersSent => 15
    case Init => 14
    case UrlReceived => 13
    case HeaderPartReceived => 12
    case HeadersReceived => 11
    case HeadersProcessed => 10
    case ContinueSending => 9
    case ContinueSent => 8
    case BodyReceived => 7
    case FooterPartReceived => 6
    case FootersReceived => 5
    case HeadersSending => 4
    case FootersSending => 3
    case Closed => 0
  }

  predicate Early(s: State) {
    s == Init || s == UrlReceived || s == HeaderPartReceived || s == HeadersReceived || s == HeadersProcessed
  }

  predicate Uploading(s: State) {
    s == ContinueSending || s == ContinueSent || s == BodyReceived || s == FooterPartReceived
  }

  predicate Sending(s: State) {
    !Early(s) && !Uploading(s) && s != FootersReceived && s != Closed
  }

  /** The states in which the event loop waits: no other one is left for the next round. */
  predicate Settled(s: State) {
    s != HeadersReceived && s != HeadersProcessed && s != HeadersSent && s != BodySent && s != FootersSent
  }

  /** Where a turn of the loop goes on to. */
  function Successors(s: State): set<State> {
    match s
    case Init => {UrlReceived, HeadersSending, Closed}
    case UrlReceived => {HeaderPartReceived, HeadersReceived, HeadersSending, Closed}
    case HeaderPartReceived => {HeaderPartReceived, HeadersReceived, HeadersSending, Closed}
    case HeadersReceived => {HeadersProcessed, Closed}
    case HeadersProcessed => {ContinueSent, FootersReceived, Closed}
    case ContinueSending => {ContinueSent}
    case ContinueSent => {BodyReceived, FootersReceived, Closed}
    case BodyReceived => {FooterPartReceived, FootersReceived, HeadersSending, Closed}
    case FooterPartReceived => {FooterPartReceived, FootersReceived, HeadersSending, Closed}
    case FootersReceived => {Closed}
    case HeadersSent => {NormalBodyUnready, ChunkedBodyUnready}
    case NormalBodyUnready => {BodySent}
    case ChunkedBodyUnready => {ChunkedBodyReady, BodySent}
    case BodySent => {FootersSending, FootersSent, Closed}
    case FootersSent => {Init, Closed}
    case _ => {}
  }

  /** Where a turn of the loop stops to wait for the event loop. */
  function Stops(s: State): set<State> {
    match s
    case UrlReceived => {UrlReceived, HeadersSending, Closed}
    case BodyReceived => {BodyReceived, HeadersSending, Closed}
    case HeadersProcessed => {ContinueSending}
    case FootersReceived => {FootersReceived, HeadersSending}
    case NormalBodyUnready => {NormalBodyUnready, NormalBodyReady, Closed}
    case ChunkedBodyUnready => {ChunkedBodyUnready, Closed}
    case _ => if Settled(s) then {s} else {}
  }

  /** Only the middle of headers and footers can be left for itself, and no way back leads past sending headers. */
  lemma TableDescends(s: State, t: State)
    ensures t in Successors(s) ==> Rank(t) < Rank(s) || (t == s && (s == HeaderPartReceived || s == FooterPartReceived))
    ensures t in Stops(s) ==> Settled(t)
    ensures t in Successors(s) && Rank(s) <= Rank(Init) ==> Rank(t) < Rank(FootersSent)
  {
  }

  function InfoFor(s: State): set<Info> {
    match s
    case Init => {Read, Block}
    case UrlReceived => {Read, Block}
    case HeaderPartReceived => {Read, Block}
    case ContinueSent => {Read, Block}
    case BodyReceived => {Read}
    case FooterPartReceived => {Read}
    case FootersReceived => {Block}
    case NormalBodyUnready => {Block}
    case ChunkedBodyUnready => {Block}
    case Closed => {Cleanup}
    case _ => {Write}
  }

  /** What the application returns from a call without body bytes, and whether it gave a response in it. */
  datatype Reply = Reply(ok: bool, answered: bool)

  /** Whether the header of a response fits the pool, how long it is, and whether the body will be sent in chunks. */
  datatype Header = Header(fits: bool, size: nat, chunks: bool)

  /** What the reader of the content has: some bytes, none yet, or the end of the connection. */
  datatype Content = Bytes(n: nat) | Nothing | End

  /** What the socket gives: bytes, nothing yet, an error, or the end of the stream. */
  datatype Received = Data(n: nat) | NotYet | Failed | EndOfStream {
    function count(room: nat): nat
      requires Data?
    {
      if n > room then room else n
    }
  }

  /** What the socket takes; whether the content has more, and whether the body ends with what was taken. */
  datatype Written = Written(fails: bool, ready: bool, sent: nat, last: bool)

  /** A part of the response gives way to the next one only when all of it is written. */
  function AfterWrite(s: State, w: Written, unsent: nat): State {
    match s
    case NormalBodyReady => if !w.ready then NormalBodyUnready else if w.last then FootersSent else s
    case HeadersSending => if unsent == 0 then HeadersSent else s
    case FootersSending => if unsent == 0 then FootersSent else s
    case ChunkedBodyReady => if unsent > 0 then s else if w.last then BodySent else ChunkedBodyUnready
    case _ => s
  }

  /** What the framing of a chunked body allows next. */
  datatype Piece = Offer(size: nat) | Again | NeedMore | LastChunk | Malformed

  /** A line of a header, by what the parser does with it: folded lines continue the one before. */
  datatype Line = NoLine | EmptyLine | TextLine(colon: bool, folded: bool)

  /** The request line: whether it has a space at all, whether its arguments fit, and what it asks for. */
  datatype RequestLine = RequestLine(space: bool, argumentsFit: bool, version: Version, upload: bool)

  /** What the header fields say about cookies, host and body. */
  datatype Encoding = NoEncoding | ChunkedEncoding | OtherEncoding
  datatype ContentLength = NoLength | BadNumber | Number(n: nat)
  datatype Fields = Fields(cookiesFit: bool, host: bool, encoding: Encoding, length: ContentLength, expects: bool)

  /** The length of the body they announce. */
  function Announced(f: Fields): nat {
    if f.encoding != NoEncoding then SIZE_UNKNOWN
    else if f.length.Number? then f.length.n % ULONG_MODULUS
    else 0
  }

  predicate BadLength(f: Fields) { f.encoding == NoEncoding && f.length == BadNumber }

  /** What the buffer holds, and whether it can grow where it is full and holds no line. */
  datatype Input = Input(line: Line, taken: nat, grown: bool)

  /** What one turn of the loop may meet with. */
  datatype Encounter = Encounter(input: Input, request: RequestLine, header: Header, second: Header, fields: Fields,
                                 fits: bool, reply: Reply, content: Content, wantsClose: bool, keepAlive: bool,
                                 eager: bool)

  /** What the turns of the loop meet with, one after the other. */
  type World = nat -> Encounter

  // ---------------------------------------------------------------------------------------------
  // What one turn makes of a connection.

  /** The fields that a turn of the loop looks at. */
  datatype View = View(state: State, version: Version, hasResponse: bool, responseEmpty: bool, readClosed: bool,
                       chunked: bool, isUpload: bool, expectsContinue: bool, continueOffset: nat, remaining: nat,
                       buffered: nat, bufferSize: nat, pedantic: bool, ownThread: bool)

  /** The state with a response whose header is to be sent. */
  function Answering(v: View, h: Header): State {
    if v.version == EmptyVersion || h.fits then HeadersSending else Closed
  }

  /** No line is there: the buffer is full and can not grow, or no more can come, or the connection waits. */
  function WithoutLine(v: View, i: Input, h: Header): State {
    if 0 < v.buffered == v.bufferSize && !i.grown then Answering(v, h)
    else if v.readClosed then Closed
    else v.state
  }

  function AfterRequestLine(v: View, i: Input, r: RequestLine, h: Header): State {
    if i.line == NoLine then WithoutLine(v, i, h) else if r.space then UrlReceived else Closed
  }

  function AfterFirstLine(v: View, i: Input, h: Header): State {
    var footers := v.state == BodyReceived;
    match i.line
    case NoLine => WithoutLine(v, i, h)
    case EmptyLine => if footers then FootersReceived else HeadersReceived
    case TextLine(colon, _) =>
      if !colon then Answering(v, h) else if footers then FooterPartReceived else HeaderPartReceived
  }

  function AfterNextLine(v: View, i: Input, fits: bool, h: Header, second: Header): State {
    if i.line == NoLine then WithoutLine(v, i, h) else AfterOtherLine(v, i.line, fits, h, second)
  }

  /** A line is folded, or it completes the one before, which may not fit. */
  function AfterOtherLine(v: View, line: Line, fits: bool, h: Header, second: Header): State {
    if !fits then
      if (line.TextLine? && line.folded) || Answering(v, h) == Closed then Answering(v, h) else Answering(v, second)
    else if line.TextLine? then (if line.folded || line.colon then v.state else Answering(v, h))
    else if v.state == FooterPartReceived then FootersReceived
    else HeadersReceived
  }

  function AfterHeaders(v: View, f: Fields, h: Header): State {
    if v.pedantic && v.version == Http11 && !f.host then HeadersProcessed
    else if BadLength(f) || (!f.cookiesFit && Answering(v, h) == Closed) then Closed
    else HeadersProcessed
  }

  function AfterFirstCall(v: View, a: Reply): State {
    if !v.hasResponse && !a.ok then Closed
    else
      var answered := v.hasResponse || a.answered;
      if !answered && v.version == Http11 && v.expectsContinue && v.continueOffset < CONTINUE_LENGTH
      then ContinueSending
      else if v.remaining == 0 || (answered && v.isUpload) then FootersReceived
      else ContinueSent
  }

  /** What the application and the framing make of buffered bytes is theirs; without any the next state is known. */
  function AfterBodyBytes(v: View): set<State> {
    if v.buffered > 0 && !v.hasResponse then {ContinueSent, BodyReceived, FootersReceived, Closed}
    else if v.remaining != 0 && !(v.remaining == SIZE_UNKNOWN && v.buffered == 0 && v.readClosed) then {ContinueSent}
    else if v.chunked && !v.readClosed then {BodyReceived}
    else {FootersReceived}
  }

  function AfterFinalCall(v: View, a: Reply, h: Header): State {
    if !v.hasResponse && !a.ok then Closed
    else if !v.hasResponse && !a.answered then FootersReceived
    else Answering(v, h)
  }

  function AfterContent(v: View, c: Content, ready: State): State {
    if v.responseEmpty then BodySent
    else match c case Bytes(_) => ready case Nothing => v.state case End => Closed
  }

  function AfterContentSent(v: View, h: Header): State {
    if v.version != EmptyVersion && !h.fits then Closed
    else if v.version != EmptyVersion && v.chunked && h.size > 0 then FootersSending
    else FootersSent
  }

  function AfterResponse(v: View, wantsClose: bool, keepAlive: bool): State {
    if !v.readClosed && !wantsClose && v.version != NoVersion && keepAlive then Init else Closed
  }

  /** Nothing has changed but for the room in the buffer. */
  predicate Waited(v: View, i: Input, now: View) {
    now == v.(bufferSize := now.bufferSize) && (v.buffered == 0 || v.buffered < v.bufferSize ==> now == v)
  }

  /** There is no room for the bytes to come, and nobody else will make some. */
  predicate NoRoom(v: View, grown: bool) {
    && (v.state == Init || v.state == UrlReceived || v.state == HeaderPartReceived
        || (v.state == ContinueSent && v.ownThread))
    && v.buffered == v.bufferSize && !grown
  }

  /** Whether a connection that waits can do so: without room it is answered, without bytes to come it is closed. */
  function AfterUpdate(v: View, grown: bool, h: Header): State {
    if NoRoom(v, grown) then Answering(v, h)
    else if (v.state == BodyReceived || v.state == FooterPartReceived) && v.readClosed then Closed
    else v.state
  }

  /** The event to wait for. */
  function InfoDue(v: View): Info {
    match v.state
    case Init => if v.readClosed then Block else Read
    case UrlReceived => if v.readClosed then Block else Read
    case HeaderPartReceived => if v.readClosed then Block else Read
    case ContinueSent => if v.buffered < v.bufferSize && !v.readClosed then Read else Block
    case BodyReceived => Read
    case FooterPartReceived => Read
    case FootersReceived => Block
    case NormalBodyUnready => Block
    case ChunkedBodyUnready => Block
    case Closed => Cleanup
    case _ => Write
  }

  /** The states in which the next line of the headers or footers is looked for. */
  predicate Expecting(s: State) {
    s == UrlReceived || s == BodyReceived || s == HeaderPartReceived || s == FooterPartReceived
  }

  /** Where a turn leads: to just one state, but where bytes of a body are offered. */
  predicate Leads(v: View, e: Encounter, s: State) {
    match v.state
    case Init => s == AfterRequestLine(v, e.input, e.request, e.header)
    case UrlReceived => s == AfterFirstLine(v, e.input, e.header)
    case BodyReceived => s == AfterFirstLine(v, e.input, e.header)
    case HeaderPartReceived => s == AfterNextLine(v, e.input, e.fits, e.header, e.second)
    case FooterPartReceived => s == AfterNextLine(v, e.input, e.fits, e.header, e.second)
    case HeadersReceived => s == AfterHeaders(v, e.fields, e.header)
    case HeadersProcessed => s == AfterFirstCall(v, e.reply)
    case ContinueSending => s == if v.continueOffset == CONTINUE_LENGTH then ContinueSent else ContinueSending
    case ContinueSent => s in AfterBodyBytes(v)
    case FootersReceived => s == AfterFinalCall(v, e.reply, e.header)
    case HeadersSent => s == if v.chunked then ChunkedBodyUnready else NormalBodyUnready
    case NormalBodyUnready => s == AfterContent(v, e.content, NormalBodyReady)
    case ChunkedBodyUnready => s == AfterContent(v, e.content, ChunkedBodyReady)
    case BodySent => s == AfterContentSent(v, e.header)
    case FootersSent => s == AfterResponse(v, e.wantsClose, e.keepAlive)
    case _ => s == v.state
  }

  // ---------------------------------------------------------------------------------------------
  // What the sockets do in a round of the event loop.

  /** What the sockets and the clock do in one round, and what its turns meet. */
  datatype Round = Round(readable: bool, room: nat, got: Received, writable: bool, written: Written, hangup: bool,
                         late: bool, world: World, grown: bool, header: Header)

  /** The turns of a round, and what it leaves for the next one. */
  datatype Stage = Stage(path: seq<View>, ended: View, info: Info)

  /** The end of the stream or an error closes, and so does anything from a client that is not listened to any more. */
  function AfterRead(v: View, room: nat, got: Received): State {
    if v.state == Closed || v.buffered >= v.bufferSize + room || got == NotYet then v.state
    else if got.Data? && !(v.readClosed && (Early(v.state) || Uploading(v.state))) then v.state
    else Closed
  }

  predicate WrittenTo(s: State, w: Written, now: State) {
    if s == Closed || w.fails then now == Closed
    else now == AfterWrite(s, w, 0) || now == AfterWrite(s, w, 1)
  }

  /** Reading comes first; writing only where it was asked for; a hang-up closes. */
  predicate Happened(v: View, asked: Info, r: Round, now: State) {
    var read := if r.readable then AfterRead(v, r.room, r.got) else v.state;
    if r.hangup then now == Closed
    else if r.writable && asked == Write then WrittenTo(read, r.written, now)
    else now == read
  }

  // ---------------------------------------------------------------------------------------------
  // The connection.

  class Connection {
    var state: State
    var info: Info
    var readClosed: bool
    var buffered: nat
    var bufferSize: nat
    var remaining: nat
    var chunked: bool
    var chunkSize: nat
    var chunkOffset: nat
    var continueOffset: nat
    var hasResponse: bool
    var responseEmpty: bool
    var pending: nat
    var clientAware: bool
    var context: Option<nat>
    var version: Version
    var isUpload: bool
    var expectsContinue: bool
    const pedantic: bool
    const ownThread: bool
    ghost var trace: seq<Event>
    ghost var phase: Phase
    ghost var live: set<nat>
    var born: nat
    ghost var declared: nat
    /** The client was told to continue with this body. */
    ghost var continued: bool
    /** More of this body was taken than was announced. */
    ghost var overdrawn: bool
    /** How often the connection was closed. */
    ghost var closings: nat

    constructor (pedantic: bool, ownThread: bool)
      ensures Valid() && Settled(state) && trace == [] && live == {}
      ensures state == Init && !hasResponse && !readClosed && Untouched() && buffered == bufferSize == 0
    {
      state, info := Init, Read;
      readClosed, buffered, bufferSize, remaining := false, 0, 0, 0;
      chunked, chunkSize, chunkOffset, continueOffset := false, 0, 0, 0;
      hasResponse, responseEmpty, pending := false, false, 0;
      clientAware, context, version, isUpload, expectsContinue := false, None, NoVersion, false, false;
      this.pedantic, this.ownThread := pedantic, ownThread;
      trace, phase, live, born, declared, continued, overdrawn := [], Idle, {}, 0, 0, false, false;
      closings := 0;
    }

    /** The fields that a turn looks at. */
    function Seen(): View
      reads this`state, this`version, this`hasResponse, this`responseEmpty, this`readClosed, this`chunked
      reads this`isUpload, this`expectsContinue, this`continueOffset, this`remaining, this`buffered, this`bufferSize
    {
      View(state, version, hasResponse, responseEmpty, readClosed, chunked, isUpload, expectsContinue, continueOffset,
           remaining, buffered, bufferSize, pedantic, ownThread)
    }

    /** The body length the final call stands for, where the header gives one. */
    ghost function Length(): Option<nat>
      reads this`declared
    {
      if declared != SIZE_UNKNOWN then Some(declared) else None
    }

    /** The length is known, and no byte beyond it was taken. */
    ghost predicate Within()
      reads this`declared, this`overdrawn
    {
      declared != SIZE_UNKNOWN && !overdrawn
    }

    /** No bytes were announced, and still the client was told to continue. */
    ghost predicate NoneToContinue()
      reads this`declared, this`continued
    {
      declared == 0 && continued
    }

    /** What was taken is within what was announced; looked at only where bytes or announcements change. */
    ghost predicate Fed()
      reads this`phase, this`declared, this`continued, this`overdrawn
    {
      forall at {:trigger Look(at)} :: Look(at) ==> WithinAnnounced()
    }

    /** More than was announced is taken only where nothing was, and the client was told to continue. */
    ghost predicate WithinAnnounced()
      reads this`phase, this`declared, this`continued, this`overdrawn
    {
      && (phase.Begun? && declared != SIZE_UNKNOWN ==> (overdrawn <==> phase.bytes > declared))
      && (phase == Finished ==> !overdrawn) && (phase == Overfed ==> overdrawn)
      && (overdrawn ==> NoneToContinue())
    }

    /** The phase is the one the trace leads to; looked at only where an event is added. */
    ghost predicate Traced()
      reads this`trace, this`phase
    {
      forall at {:trigger Look(at)} :: Look(at) ==> phase == PhaseOf(trace)
    }

    /** The trace, the application's object and the fields that say whether it knows of the request agree. */
    ghost predicate Aware()
      reads this`trace, this`phase, this`clientAware, this`context, this`live, this`born
      reads this`declared, this`continued, this`overdrawn
    {
      Recorded() == Yes && phase != Broken && (clientAware <==> phase != Idle)
    }

    ghost function Recorded(): Answer
      reads this`trace, this`phase, this`clientAware, this`context, this`live, this`born
      reads this`declared, this`continued, this`overdrawn
    {
      if Traced() && Fed() && Owned() then Yes else No
    }

    /** The application's object lives from the first call to the notice; looked at only there. */
    ghost predicate Owned()
      reads this`clientAware, this`context, this`live, this`born
    {
      forall at {:trigger Look(at)} :: Look(at) ==>
        && live == (if clientAware && context.Some? then {context.value} else {})
        && (context.Some? ==> context.value < born)
    }

    /** The body is being delivered, and what was taken and what remains add up. */
    ghost predicate Delivering()
      reads this`phase, this`clientAware, this`context, this`remaining, this`declared, this`continued, this`overdrawn
    {
      && phase.Begun? && clientAware && context.Some?
      && (Within() ==> remaining != SIZE_UNKNOWN && phase.bytes + remaining == declared)
      && (phase.whole ==> remaining == 0)
      && (declared == SIZE_UNKNOWN && !phase.whole ==> remaining == SIZE_UNKNOWN)
    }

    /** Where the handler may be called, it is called as the protocol demands. */
    ghost predicate Callable()
      reads this`state, this`phase, this`clientAware, this`context, this`remaining, this`declared, this`continued
      reads this`overdrawn, this`hasResponse
    {
      && (Early(state) ==> !clientAware && context == None)
      && (state == HeadersProcessed && !hasResponse ==> declared == remaining && !continued)
      && (Uploading(state) && !hasResponse ==> Delivering())
      && (state == ContinueSending && !hasResponse ==> phase == Begun(0, false) && continued)
      && (state == ContinueSent && !hasResponse ==> !phase.whole && (Within() ==> remaining > 0 || NoneToContinue()))
      && ((state == BodyReceived || state == FooterPartReceived) && !hasResponse ==> remaining == 0)
      && (state == FootersReceived && !hasResponse ==> Complete())
      && (Sending(state) ==> hasResponse)
      && (state == Closed ==> !clientAware)
    }

    ghost predicate Complete()
      reads this`phase, this`clientAware, this`context, this`remaining, this`declared, this`continued, this`overdrawn
    {
      && clientAware && context.Some? && remaining == 0
      && (phase.Begun? && Within() ==> phase.bytes == declared)
      && (phase.Begun? && declared == SIZE_UNKNOWN ==> phase.whole)
    }

    ghost predicate Bounded()
      reads this`remaining, this`continueOffset, this`buffered, this`bufferSize
    {
      remaining <= SIZE_UNKNOWN && continueOffset <= CONTINUE_LENGTH && buffered <= bufferSize
    }

    ghost predicate Valid()
      reads this`state, this`phase, this`clientAware, this`context, this`remaining, this`declared, this`continued
      reads this`overdrawn
      reads this`hasResponse, this`readClosed, this`trace, this`live, this`born, this`continueOffset, this`buffered
      reads this`bufferSize
    {
      && Aware() && Callable() && Bounded()
      && (readClosed ==> hasResponse || state == Closed)
    }

    lemma ClosedIsValid()
      requires Aware() && Bounded() && state == Closed && !clientAware
      ensures Valid()
    {
    }

    lemma SendingIsValid()
      requires Aware() && Bounded() && Sending(state) && hasResponse
      ensures Valid()
    {
    }

    lemma InitIsValid()
      requires Aware() && Bounded() && state == Init && !clientAware && context == None && !readClosed
      ensures Valid()
    {
    }

    // -------------------------------------------------------------------------------------------
    // Completion and errors.

    ghost method Log(e: Event)
      requires Traced()
      modifies this`trace, this`phase
      ensures Traced() && trace == old(trace) + [e] && phase == After(old(phase), e)
    {
      assert Look(0);
      PhaseSnoc(trace, e);
      trace := trace + [e];
      phase := After(phase, e);
    }

    /** The application deletes its object. */
    method NotifyCompleted()
      requires Aware() && clientAware
      modifies this`trace, this`phase, this`live
      ensures trace == old(trace) + [Done] && live == {} && phase == Idle
    {
      assert Look(0);
      Log(Done);
      if context.Some? { live := live - {context.value}; }
    }

    method Close()
      requires Aware()
      modifies this`state, this`info, this`closings, this`clientAware, this`trace, this`phase, this`live
      ensures Aware() && state == Closed && info == Cleanup && !clientAware
      ensures trace == old(trace) + if old(clientAware) then [Done] else []
      ensures closings == old(closings) + 1
    {
      state, info, closings := Closed, Cleanup, closings + 1;
      if clientAware { NotifyCompleted(); }
      clientAware := false;
    }

    /** Nothing is built for the oldest version; the flag for chunks changes with the header, not with the footer. */
    method BuildHeaderResponse(h: Header) returns (ok: bool)
      modifies this`pending, this`chunked
      ensures ok == (version == EmptyVersion || h.fits)
      ensures pending == if version == EmptyVersion then 0 else if h.fits then h.size else old(pending)
      ensures chunked == if version != EmptyVersion && state == FootersReceived then h.chunks else old(chunked)
    {
      if version == EmptyVersion {
        pending := 0;
        return true;
      }
      ok := h.fits;
      if state == FootersReceived { chunked := h.chunks; }
      if ok { pending := h.size; }
    }

    /** The header of a response can be built. */
    predicate Sendable(h: Header)
      reads this`version
    {
      version == EmptyVersion || h.fits
    }

    /** The connection was closed and is not closed any more. */
    twostate predicate Reopened()
      reads this`closings, this`state
    {
      closings > old(closings) && state != Closed
    }

    /** Whatever was going on, the only thing left to do is to send the response that is set. */
    method TransmitError(h: Header)
      requires Aware() && Bounded()
      modifies this`version, this`state, this`readClosed, this`hasResponse, this`responseEmpty, this`pending
      modifies this`chunked
      modifies this`info, this`closings, this`clientAware, this`trace, this`phase, this`live
      ensures Valid() && readClosed && hasResponse
      ensures version == if old(version) == NoVersion then Http10 else old(version)
      ensures state == if version == EmptyVersion || h.fits then HeadersSending else Closed
      ensures trace == old(trace) + if state == Closed && old(clientAware) then [Done] else []
      ensures clientAware <==> old(clientAware) && state != Closed
      ensures closings == old(closings) + if state == Closed then 1 else 0
    {
      SetError();
      SendHeaders(h);
    }

    method SetError()
      requires Aware() && Bounded()
      modifies this`version, this`state, this`readClosed, this`hasResponse, this`responseEmpty
      ensures Aware() && Bounded() && state == FootersReceived && readClosed && hasResponse
      ensures version == if old(version) == NoVersion then Http10 else old(version)
    {
      if version == NoVersion { version := Http10; }
      state := FootersReceived;
      readClosed := true;
      var _ := QueueResponse();
    }

    method SendHeaders(h: Header)
      requires Aware() && Bounded() && state == FootersReceived && hasResponse
      modifies this`pending, this`chunked
      modifies this`state, this`info, this`closings, this`clientAware, this`trace, this`phase, this`live
      ensures Valid() && state == if version == EmptyVersion || h.fits then HeadersSending else Closed
      ensures trace == old(trace) + if state == Closed && old(clientAware) then [Done] else []
      ensures clientAware <==> old(clientAware) && state != Closed
      ensures closings == old(closings) + if state == Closed then 1 else 0
    {
      var ok := BuildHeaderResponse(h);
      if ok {
        state := HeadersSending;
        SendingIsValid();
      } else {
        Close();
        ClosedIsValid();
      }
    }

    /** Refused when a response is set, or in a state in which there is none to be given. */
    method QueueResponse() returns (taken: bool)
      modifies this`hasResponse, this`responseEmpty, this`readClosed, this`state
      ensures taken <==> !old(hasResponse) && (old(state) == HeadersProcessed || old(state) == FootersReceived)
      ensures hasResponse == (old(hasResponse) || taken) && (!taken ==> responseEmpty == old(responseEmpty))
      ensures if taken && old(state) == HeadersProcessed && isUpload
              then readClosed && state == FootersReceived
              else readClosed == old(readClosed) && state == old(state)
    {
      taken := !hasResponse && (state == HeadersProcessed || state == FootersReceived);
      if !taken { return; }
      hasResponse := true;
      responseEmpty := *;
      if state == HeadersProcessed && isUpload {
        readClosed := true;
        state := FootersReceived;
      }
    }

    // -------------------------------------------------------------------------------------------
    // Calls to the application.

    /** A call without body bytes: the application makes its object at the first one. */
    method CallHandler(a: Reply)
      requires Valid() && (state == HeadersProcessed || state == FootersReceived)
      modifies this`trace, this`phase, this`live, this`born, this`context, this`hasResponse, this`responseEmpty
      modifies this`readClosed, this`state, this`info, this`closings, this`clientAware
      ensures Aware() && (readClosed ==> hasResponse || state == Closed)
      ensures old(hasResponse) ==> unchanged(this)
      ensures !old(hasResponse) ==> (state == Closed <==> !a.ok) && (clientAware <==> a.ok)
      ensures !old(hasResponse) && a.ok ==> (hasResponse <==> a.answered) && context.Some?
      ensures !old(hasResponse) && a.ok ==>
        state == if a.answered && old(state) == HeadersProcessed && isUpload then FootersReceived else old(state)
      ensures !old(hasResponse) && a.ok ==>
        phase == if old(state) == HeadersProcessed then Begun(0, false) else if overdrawn then Overfed else Finished
      ensures !old(hasResponse) ==>
        trace == old(trace) + [if old(state) == HeadersProcessed then First else Final(Length())]
                 + if a.ok then [] else [Done]
      ensures closings == old(closings) + if old(hasResponse) || a.ok then 0 else 1
    {
      if hasResponse { return; }
      assert Look(0);
      clientAware := true;
      HandleRequest(a);
      if !a.ok { Close(); }
    }

    /** The application makes its object, or does not want the request. */
    method Begin(ok: bool)
      requires Traced() && Fed() && phase == Idle && clientAware && context == None && live == {} && !continued
      modifies this`trace, this`phase, this`live, this`born, this`context
      ensures Aware() && phase == Begun(0, false) && trace == old(trace) + [First]
      ensures if ok then context == Some(old(born)) && live == {old(born)} && born == old(born) + 1
              else context == None && born == old(born)
    {
      assert Look(0);
      Log(First);
      if ok {
        context := Some(born);
        live := {born};
        born := born + 1;
      }
    }

    /** With no object yet the request is new, otherwise it is complete. */
    method HandleRequest(a: Reply)
      requires Traced() && phase != Broken && !hasResponse && (context.Some? ==> context.value < born)
      requires Fed() && (state == HeadersProcessed ==> phase == Idle && context == None && live == {} && !continued)
      requires state == FootersReceived ==> phase != Idle && context.Some? && live == {context.value}
      requires state == FootersReceived && phase.Begun? && Within() ==> phase.bytes == declared
      requires state == FootersReceived && phase.Begun? && declared == SIZE_UNKNOWN ==> phase.whole
      requires (state == HeadersProcessed || state == FootersReceived) && clientAware && !readClosed
      modifies this`trace, this`phase, this`live, this`born, this`context, this`hasResponse, this`responseEmpty
      modifies this`readClosed, this`state
      ensures Aware() && (a.ok ==> context.Some?) && (readClosed ==> hasResponse)
      ensures trace == old(trace) + [if old(state) == HeadersProcessed then First else Final(Length())]
      ensures phase == if old(state) == HeadersProcessed then Begun(0, false)
                       else if overdrawn then Overfed else Finished
      ensures old(context).Some? ==> context == old(context) && live == old(live) && born == old(born)
      ensures old(context) == None && a.ok ==>
        (context == Some(old(born)) && live == {old(born)} && born == old(born) + 1)
      ensures a.ok ==> (hasResponse <==> a.answered)
      ensures a.ok ==>
        state == (if a.answered && old(state) == HeadersProcessed && isUpload then FootersReceived else old(state))
    {
      if context == None {
        Begin(a.ok);
        if !a.ok { return; }
      } else {
        assert Look(0);
        Log(Final(Length()));
      }
      if a.answered { var _ := QueueResponse(); }
    }

    // -------------------------------------------------------------------------------------------
    // Lines.

    predicate Lower(s: State, n: nat)
      reads this`state, this`buffered
    {
      Rank(state) < Rank(s) || (state == s && buffered < n)
    }

    /** No error response was made, and what is known of the request stays. */
    twostate predicate Untroubled()
      reads this`hasResponse, this`readClosed, this`chunked, this`continueOffset, this`version, this`isUpload
    {
      unchanged(this`hasResponse, this`readClosed, this`chunked, this`continueOffset, this`version, this`isUpload)
    }

    predicate AtLine() reads this {
      || state == Init || state == UrlReceived || state == HeaderPartReceived || state == BodyReceived
      || state == FooterPartReceived
    }

    /** Without a line nothing changes, or the line can not fit and the error response takes over. */
    method GetNextHeaderLine(i: Input, h: Header) returns (line: Line)
      requires Valid() && AtLine() && (i.line != NoLine ==> 1 <= i.taken <= buffered)
      modifies this
      ensures Valid() && line == i.line
      ensures line != NoLine ==> Untroubled() && unchanged(this`state) && buffered == old(buffered) - i.taken
      ensures line == NoLine ==> buffered == old(buffered)
      ensures line == NoLine && (buffered == 0 || buffered < old(bufferSize) || i.grown) ==>
        Seen() == old(Seen()).(bufferSize := bufferSize)
      ensures line == NoLine && (buffered == 0 || buffered < old(bufferSize)) ==> bufferSize == old(bufferSize)
      ensures line == NoLine && !(buffered == 0 || buffered < old(bufferSize) || i.grown) ==>
        hasResponse && readClosed && state == Answering(old(Seen()), h)
      ensures !Reopened() && (line != NoLine ==> closings == old(closings))
    {
      line := NoLine;
      if buffered == 0 { return; }
      if i.line == NoLine {
        if buffered == bufferSize { GrowOrFail(i.grown, h); }
        return;
      }
      buffered, bufferSize := buffered - i.taken, bufferSize - i.taken;
      line := i.line;
    }

    method GrowOrFail(grown: bool, h: Header)
      requires Valid() && AtLine()
      modifies this
      ensures Valid() && buffered == old(buffered)
      ensures if grown then Seen() == old(Seen()).(bufferSize := bufferSize) && bufferSize > old(bufferSize)
              else hasResponse && readClosed && state == Answering(old(Seen()), h)
      ensures !Reopened()
    {
      if grown {
        var more: nat :| more > 0;
        bufferSize := bufferSize + more;
      } else {
        TransmitError(h);
      }
    }

    /** No line yet: the connection waits for one, unless no more bytes can come. */
    method AwaitLine(was: State) returns (again: bool)
      requires Valid() && (state == was || state == HeadersSending || state == Closed) && Rank(was) > 4 && Settled(was)
      modifies this
      ensures Valid() && again == (old(state) != was || old(readClosed))
      ensures state == if old(state) == was && old(readClosed) then Closed else old(state)
      ensures !again ==> unchanged(this)
      ensures closings > old(closings) ==> state == Closed
    {
      if state != was { return true; }
      if readClosed {
        Close();
        return true;
      }
      again := false;
    }

    /** A line without a colon closes the connection first and is answered all the same. */
    method RejectLine(h: Header)
      requires Aware() && Bounded()
      modifies this
      ensures Valid() && readClosed && hasResponse && !clientAware && buffered == old(buffered)
      ensures state == if old(Sendable(h)) then HeadersSending else Closed
      ensures closings > old(closings)
      ensures trace == old(trace) + if old(clientAware) then [Done] else []
    {
      Close();
      TransmitError(h);
    }

    method StepInit(i: Input, r: RequestLine, h: Header) returns (again: bool)
      requires Valid() && state == Init && (i.line != NoLine ==> 1 <= i.taken <= buffered)
      modifies this
      ensures Valid()
      ensures state in if again then Successors(Init) else Stops(Init)
      ensures state == AfterRequestLine(old(Seen()), i, r, h) && (!again ==> Waited(old(Seen()), i, Seen()))
      ensures i.line != NoLine ==> state == if r.space then UrlReceived else Closed
      ensures i.line != NoLine && r.space ==>
        isUpload == r.upload && version == if r.version == NoVersion then EmptyVersion else r.version
      ensures i.line != NoLine && r.space && r.argumentsFit ==>
        (buffered == old(buffered) - i.taken
          && unchanged(this`hasResponse, this`readClosed, this`chunked, this`continueOffset))
      ensures Reopened() <==> i.line != NoLine && r.space && !r.argumentsFit && !old(Sendable(h))
    {
      var line := GetNextHeaderLine(i, h);
      if line == NoLine {
        again := AwaitLine(Init);
        return;
      }
      ParseInitialLine(r, h);
      again := true;
    }

    /** Arguments that do not fit leave their error response behind, and the parse goes on. */
    method ParseInitialLine(r: RequestLine, h: Header)
      requires Valid() && state == Init
      modifies this
      ensures Valid() && state == if r.space then UrlReceived else Closed
      ensures buffered == old(buffered)
      ensures r.space ==> hasResponse == (old(hasResponse) || !r.argumentsFit)
      ensures r.argumentsFit ==> unchanged(this`hasResponse, this`readClosed, this`chunked, this`continueOffset)
      ensures r.space ==> isUpload == r.upload && version == if r.version == NoVersion then EmptyVersion else r.version
      ensures Reopened() <==> r.space && !r.argumentsFit && !old(Sendable(h))
    {
      if !r.space {
        Close();
        return;
      }
      if !r.argumentsFit { TransmitError(h); }
      TakeRequestLine(r);
    }

    method TakeRequestLine(r: RequestLine)
      requires Aware() && Bounded() && !clientAware && context == None && (readClosed ==> hasResponse)
      modifies this`isUpload, this`version, this`state
      ensures Valid() && state == UrlReceived
      ensures isUpload == r.upload && version == if r.version == NoVersion then EmptyVersion else r.version
    {
      isUpload := r.upload;
      version := if r.version == NoVersion then EmptyVersion else r.version;
      state := UrlReceived;
    }

    /** The first line of the headers, or of the footers. */
    method StepFirstLine(footers: bool, i: Input, h: Header) returns (again: bool)
      requires Valid() && state == (if footers then BodyReceived else UrlReceived)
      requires i.line != NoLine ==> 1 <= i.taken <= buffered
      modifies this
      ensures Valid()
      ensures state in if again then Successors(old(state)) else Stops(old(state))
      ensures state == AfterFirstLine(old(Seen()), i, h)
      ensures !again && i.line == NoLine ==> Waited(old(Seen()), i, Seen())
      ensures i.line == EmptyLine ==> state == if footers then FootersReceived else HeadersReceived
      ensures i.line == EmptyLine || (i.line.TextLine? && i.line.colon) ==>
        (Untroubled() && buffered == old(buffered) - i.taken)
      ensures i.line.TextLine? && i.line.colon ==> state == if footers then FooterPartReceived else HeaderPartReceived
      ensures i.line.TextLine? && !i.line.colon ==> hasResponse && readClosed && !clientAware
      ensures i.line.TextLine? && !i.line.colon ==> state == if old(Sendable(h)) then HeadersSending else Closed
      ensures Reopened() <==> i.line.TextLine? && !i.line.colon && old(Sendable(h))
    {
      var line := GetNextHeaderLine(i, h);
      if line == NoLine {
        again := AwaitLine(if footers then BodyReceived else UrlReceived);
      } else {
        again := TakeFirstLine(footers, line, h);
      }
    }

    method TakeFirstLine(footers: bool, line: Line, h: Header) returns (again: bool)
      requires Valid() && state == (if footers then BodyReceived else UrlReceived) && line != NoLine
      modifies this
      ensures Valid() && buffered == old(buffered) && again == (line == EmptyLine || line.colon)
      ensures line == EmptyLine ==> state == if footers then FootersReceived else HeadersReceived
      ensures again ==> Untroubled()
      ensures line.TextLine? && line.colon ==> state == if footers then FooterPartReceived else HeaderPartReceived
      ensures !again ==> hasResponse && readClosed && !clientAware && (state == HeadersSending || state == Closed)
      ensures !again ==> state == if old(Sendable(h)) then HeadersSending else Closed
      ensures Reopened() <==> line.TextLine? && !line.colon && old(Sendable(h))
    {
      again := true;
      if line == EmptyLine {
        state := if footers then FootersReceived else HeadersReceived;
        return;
      }
      if !line.colon {
        RejectLine(h);
        return false;
      }
      state := if footers then FooterPartReceived else HeaderPartReceived;
    }

    /** A line that may continue the one before. */
    method ProcessBrokenLine(line: Line, fits: bool, h: Header, second: Header) returns (ok: bool)
      requires Valid() && (state == HeaderPartReceived || state == FooterPartReceived) && line != NoLine
      modifies this
      ensures Valid() && buffered == old(buffered)
      ensures ok == (fits && (line == EmptyLine || line.folded || line.colon))
      ensures if ok then unchanged(this`state, this`hasResponse)
              else hasResponse && readClosed && (state == HeadersSending || state == Closed)
      ensures !ok ==> state == AfterOtherLine(old(Seen()), line, fits, h, second)
      ensures Reopened() <==> line.TextLine? && !line.folded && fits && !line.colon && old(Sendable(h))
    {
      if line.TextLine? && line.folded {
        if !fits { TransmitError(h); }
        return fits;
      }
      if !fits {
        // What could not be built once cannot be built again; what was built leaves less room.
        var again := if Sendable(h) then second else h;
        TransmitError(h);
        TransmitError(again);
        return false;
      }
      if line.TextLine? && !line.colon {
        RejectLine(h);
        return false;
      }
      ok := true;
    }

    method StepNextLine(footers: bool, i: Input, fits: bool, h: Header, second: Header) returns (again: bool)
      requires Valid() && state == (if footers then FooterPartReceived else HeaderPartReceived)
      requires i.line != NoLine ==> 1 <= i.taken <= buffered
      modifies this
      ensures Valid() && (again ==> state != old(state) || buffered < old(buffered))
      ensures state in if again then Successors(old(state)) else Stops(old(state))
      ensures state == AfterNextLine(old(Seen()), i, fits, h, second)
      ensures !again ==> Waited(old(Seen()), i, Seen())
      ensures Reopened() <==> i.line.TextLine? && !i.line.folded && fits && !i.line.colon && old(Sendable(h))
    {
      var line := GetNextHeaderLine(i, h);
      if line == NoLine {
        again := AwaitLine(if footers then FooterPartReceived else HeaderPartReceived);
      } else {
        TakeNextLine(footers, line, fits, h, second);
        again := true;
      }
    }

    method TakeNextLine(footers: bool, line: Line, fits: bool, h: Header, second: Header)
      requires Valid() && state == (if footers then FooterPartReceived else HeaderPartReceived) && line != NoLine
      modifies this
      ensures Valid() && buffered == old(buffered)
      ensures state == AfterOtherLine(old(Seen()), line, fits, h, second) && state in Successors(old(state))
      ensures Reopened() <==> line.TextLine? && !line.folded && fits && !line.colon && old(Sendable(h))
    {
      var ok := ProcessBrokenLine(line, fits, h, second);
      if ok && line == EmptyLine { state := if footers then FootersReceived else HeadersReceived; }
    }

    // -------------------------------------------------------------------------------------------
    // The body.

    /** Whether and how much body the headers announce. */
    method ParseConnectionHeaders(f: Fields, h: Header)
      requires Valid() && state == HeadersReceived
      modifies this`version, this`state, this`readClosed, this`hasResponse, this`responseEmpty, this`pending
      modifies this`chunked
      modifies this`info, this`closings, this`clientAware, this`trace, this`phase, this`live
      modifies this`remaining, this`declared, this`continued, this`overdrawn, this`expectsContinue
      ensures Aware() && Bounded() && !clientAware && context == None && buffered == old(buffered)
      ensures (readClosed ==> hasResponse || state == Closed) && (!hasResponse ==> declared == remaining && !continued)
      ensures hasResponse == (old(hasResponse) || !f.cookiesFit || NeedsHost(f))
      ensures !NeedsHost(f) ==>
        (remaining == Announced(f) && expectsContinue == f.expects && (BadLength(f) ==> state == Closed))
      ensures f.cookiesFit && !NeedsHost(f) ==> unchanged(this`hasResponse, this`readClosed, this`version)
      ensures f.cookiesFit && !NeedsHost(f) ==>
        declared == remaining && !continued && chunked == (old(chunked) || f.encoding == ChunkedEncoding)
      ensures f.cookiesFit && !NeedsHost(f) ==> state == if BadLength(f) then Closed else HeadersReceived
      ensures state == Closed <==> AfterHeaders(old(Seen()), f, h) == Closed
      ensures Reopened() <==> !f.cookiesFit && !old(Sendable(h)) && old(NeedsHost(f))
    {
      ParseCookies(f, h);
      if pedantic && version == Http11 && !f.host {
        RefuseWithoutHost();
      } else {
        ParseLength(f);
      }
    }

    /** Cookies that do not fit leave their error response behind, and the parse goes on. */
    method ParseCookies(f: Fields, h: Header)
      requires Aware() && Bounded() && !clientAware && (readClosed ==> hasResponse || state == Closed)
      modifies this`version, this`state, this`readClosed, this`hasResponse, this`responseEmpty, this`pending
      modifies this`chunked
      modifies this`info, this`closings, this`clientAware, this`trace, this`phase, this`live
      ensures Aware() && Bounded() && !clientAware && (readClosed ==> hasResponse || state == Closed)
      ensures hasResponse == (old(hasResponse) || !f.cookiesFit)
      ensures f.cookiesFit ==> unchanged(this)
      ensures !f.cookiesFit ==> state == if old(Sendable(h)) then HeadersSending else Closed
      ensures closings == old(closings) + if !f.cookiesFit && state == Closed then 1 else 0
      ensures old(version) == Http11 ==> version == Http11
      ensures version == Http11 ==> old(version) == Http11
    {
      if !f.cookiesFit { TransmitError(h); }
    }

    method RefuseWithoutHost()
      modifies this`state, this`readClosed, this`hasResponse, this`responseEmpty
      ensures hasResponse && readClosed && state == FootersReceived
    {
      state := FootersReceived;
      readClosed := true;
      var _ := QueueResponse();
    }

    method ParseLength(f: Fields)
      requires Aware() && Bounded() && !clientAware
      modifies this`remaining, this`chunked, this`state, this`info, this`closings, this`declared, this`continued
      modifies this`overdrawn, this`expectsContinue
      ensures Aware() && Bounded() && declared == remaining == Announced(f) && !continued
      ensures expectsContinue == f.expects
      ensures chunked == (old(chunked) || f.encoding == ChunkedEncoding)
      ensures state == if BadLength(f) then Closed else old(state)
      ensures closings == old(closings) + if BadLength(f) then 1 else 0
    {
      remaining := 0;
      if f.encoding != NoEncoding {
        remaining := SIZE_UNKNOWN;
        if f.encoding == ChunkedEncoding { chunked := true; }
      } else if f.length != NoLength {
        if f.length == BadNumber {
          CloseUnaware();
        } else {
          remaining := f.length.n % ULONG_MODULUS;
        }
      }
      Announce();
      expectsContinue := f.expects;
    }

    ghost method Announce()
      requires Aware() && !clientAware
      modifies this`declared, this`continued, this`overdrawn
      ensures Aware() && declared == remaining && !continued
    {
      declared, continued, overdrawn := remaining, false, false;
    }

    /** Only a pedantic daemon insists on a host. */
    predicate NeedsHost(f: Fields)
      reads this`version
    {
      pedantic && version == Http11 && !f.host
    }

    method CloseUnaware()
      requires Aware() && !clientAware
      modifies this`state, this`info, this`closings
      ensures state == Closed && info == Cleanup
      ensures closings == old(closings) + 1
    {
      state, info, closings := Closed, Cleanup, closings + 1;
    }

    method StepHeadersReceived(f: Fields, h: Header) returns (again: bool)
      requires Valid() && state == HeadersReceived
      modifies this`version, this`state, this`readClosed, this`hasResponse, this`responseEmpty, this`pending
      modifies this`chunked
      modifies this`info, this`closings, this`clientAware, this`trace, this`phase, this`live
      modifies this`remaining, this`declared, this`continued, this`overdrawn, this`expectsContinue
      ensures Valid() && again && state in Successors(HeadersReceived)
      ensures !NeedsHost(f) ==> remaining == Announced(f) && expectsContinue == f.expects
      ensures hasResponse == (old(hasResponse) || !f.cookiesFit || NeedsHost(f))
      ensures f.cookiesFit && !NeedsHost(f) ==> unchanged(this`hasResponse, this`readClosed, this`version)
      ensures f.cookiesFit && !NeedsHost(f) ==>
        declared == remaining && !continued && chunked == (old(chunked) || f.encoding == ChunkedEncoding)
      ensures f.cookiesFit && !NeedsHost(f) ==> state == if BadLength(f) then Closed else HeadersProcessed
      ensures state == AfterHeaders(old(Seen()), f, h)
      ensures Reopened() <==> !f.cookiesFit && !old(Sendable(h)) && old(NeedsHost(f))
    {
      ParseConnectionHeaders(f, h);
      again := true;
      if state != Closed { state := HeadersProcessed; }
    }

    method StepHeadersProcessed(a: Reply) returns (again: bool)
      requires Valid() && state == HeadersProcessed
      modifies this`trace, this`phase, this`live, this`born, this`context, this`hasResponse, this`responseEmpty
      modifies this`readClosed, this`state, this`info, this`closings, this`clientAware, this`continued, this`remaining
      ensures Valid() && again == (state != ContinueSending)
      ensures state == AfterFirstCall(old(Seen()), a)
      ensures !old(hasResponse) ==> trace == old(trace) + [First] + if a.ok then [] else [Done]
      ensures old(hasResponse) ==> trace == old(trace)
      ensures !old(hasResponse) && a.ok && !a.answered ==>
        (phase == Begun(0, false) && unchanged(this`hasResponse, this`remaining))
      ensures !old(hasResponse) && a.ok && !a.answered && Need100Continue() ==> state == ContinueSending && continued
      ensures !Reopened()
    {
      ghost var v := Seen();
      CallHandler(a);
      again := true;
      if state == Closed { return; }
      assert AfterFirstCall(v, a) == Next();
      again := Proceed();
    }

    /** Where the request goes on once the application knows of it. */
    function Next(): State
      reads this`hasResponse, this`version, this`expectsContinue, this`continueOffset, this`remaining, this`isUpload
    {
      if Need100Continue() then ContinueSending
      else if remaining == 0 || (hasResponse && isUpload) then FootersReceived
      else ContinueSent
    }

    static lemma FirstCallListed(v: View, a: Reply)
      ensures var s := AfterFirstCall(v, a);
        s in if s != ContinueSending then Successors(HeadersProcessed) else Stops(HeadersProcessed)
    {
    }

    /** The client waits, and was not told to continue yet. */
    predicate Need100Continue()
      reads this`hasResponse, this`version, this`expectsContinue, this`continueOffset
    {
      !hasResponse && version == Http11 && expectsContinue && continueOffset < CONTINUE_LENGTH
    }

    /** To the body or past it; the client may wait to be told to continue. */
    method Proceed() returns (again: bool)
      requires Aware() && Bounded()
      requires state == HeadersProcessed || (state == FootersReceived && hasResponse && isUpload)
      requires readClosed ==> hasResponse
      requires !hasResponse ==>
        (phase == Begun(0, false) && clientAware && context.Some? && declared == remaining && !continued)
      modifies this`continued, this`state, this`remaining, this`readClosed
      ensures Valid()
      ensures again == !Need100Continue()
      ensures state == if !again then ContinueSending else if remaining == 0 then FootersReceived else ContinueSent
      ensures state == old(Next())
      ensures remaining == if hasResponse && isUpload then 0 else old(remaining)
      ensures readClosed == (old(readClosed) || (hasResponse && isUpload)) && continued == (old(continued) || !again)
    {
      if Need100Continue() {
        continued := true;
        state := ContinueSending;
        return false;
      }
      if hasResponse && isUpload {
        remaining := 0;
        readClosed := true;
      }
      state := if remaining == 0 then FootersReceived else ContinueSent;
      again := true;
    }

    method StepContinueSending() returns (again: bool)
      requires Valid() && state == ContinueSending
      modifies this`state
      ensures Valid() && again == (continueOffset == CONTINUE_LENGTH)
      ensures state == if again then ContinueSent else ContinueSending
    {
      again := continueOffset == CONTINUE_LENGTH;
      if again { state := ContinueSent; }
    }

    /** A call with body bytes; the application may leave some of them for later. */
    method BodyCall(offered: nat, eager: bool) returns (left: nat, ok: bool)
      requires Aware() && Delivering() && !phase.whole && offered > 0 && state == ContinueSent && Bounded()
      requires Within() ==> offered <= remaining || NoneToContinue()
      modifies this`trace, this`phase, this`state, this`info, this`closings, this`clientAware, this`live, this`overdrawn
      ensures Aware() && left <= offered && (eager ==> ok && left == 0)
      ensures trace == old(trace) + [Body(offered, offered - left)] + if ok then [] else [Done]
      ensures if ok then state == ContinueSent && clientAware else state == Closed && !clientAware
      ensures ok ==> phase == Begun(old(phase.bytes) + offered - left, false)
      ensures closings == old(closings) + if ok then 0 else 1
    {
      left, ok := *, *;
      if left > offered { left := offered; }
      if eager { left, ok := 0, true; }
      Log(Body(offered, offered - left));
      overdrawn := overdrawn || (declared != SIZE_UNKNOWN && phase.bytes > declared);
      if !ok { Close(); }
    }

    /** The next bytes of a chunked body to offer, unless the framing says otherwise. */
    method NextPiece(available: nat) returns (piece: Piece, rest: nat)
      requires available > 0 && Bounded() && state == ContinueSent && Aware() && remaining == SIZE_UNKNOWN
      requires phase.Begun?
      modifies this`chunkSize, this`chunkOffset, this`remaining, this`trace, this`phase
      ensures Aware() && phase == if piece == LastChunk then Begun(old(phase.bytes), true) else old(phase)
      ensures trace == old(trace) + if piece == LastChunk then [Last] else []
      ensures rest <= available && Bounded() && (piece == Again ==> 0 < rest < available)
      ensures piece.Offer? ==>
        (0 < piece.size && piece.size == if chunkSize - chunkOffset > rest then rest else chunkSize - chunkOffset)
      ensures old(chunkOffset < chunkSize) ==>
        (piece.Offer? && rest == available && unchanged(this`chunkOffset, this`chunkSize))
      ensures piece == Again ==> chunkOffset == 0 < chunkSize
      ensures piece == LastChunk ==> chunkSize == 0
      ensures remaining == (if piece == LastChunk then 0 else SIZE_UNKNOWN)
    {
      rest := available;
      if chunkOffset == chunkSize && chunkOffset != 0 && available >= 2 {
        var newline: bool := *;
        if !newline { return Malformed, rest; }
        var i: nat :| 1 <= i <= 2;
        rest := rest - i;
        chunkOffset, chunkSize := 0, 0;
      }
      if chunkOffset < chunkSize {
        return Offer(if chunkSize - chunkOffset > rest then rest else chunkSize - chunkOffset), rest;
      }
      var needMore, malformed: bool := *, *;
      if needMore || rest == 0 { return NeedMore, rest; }
      if malformed { return Malformed, rest; }
      var size: nat, i: nat :| size <= SIZE_UNKNOWN && 1 <= i <= rest;
      rest := rest - i;
      chunkSize, chunkOffset := size, 0;
      if size == 0 {
        remaining := 0;
        Log(Last);
        return LastChunk, rest;
      }
      piece := if rest > 0 then Again else NeedMore;
    }

    /** What to offer next of the available bytes. */
    method NextOffer(available: nat) returns (piece: Piece, rest: nat)
      requires available > 0 && Aware() && Bounded() && Delivering() && !phase.whole && state == ContinueSent
      requires Within() ==> remaining > 0 || NoneToContinue()
      modifies this`chunkSize, this`chunkOffset, this`remaining, this`trace, this`phase
      ensures Aware() && phase == if piece == LastChunk then Begun(old(phase.bytes), true) else old(phase)
      ensures trace == old(trace) + if piece == LastChunk then [Last] else []
      ensures rest <= available && Bounded() && Delivering() && (piece == Again ==> 0 < rest < available)
      ensures piece.Offer? ==> 0 < piece.size <= rest && (Within() ==> piece.size <= remaining || NoneToContinue())
      ensures piece == Again || piece.Offer? ==> remaining == old(remaining)
      ensures !(chunked && old(remaining) == SIZE_UNKNOWN) ==>
        rest == available && piece == Offer(Offered(remaining, available)) && unchanged(this)
    {
      rest := available;
      if chunked && remaining == SIZE_UNKNOWN {
        piece, rest := NextPiece(available);
      } else if remaining != 0 && remaining != SIZE_UNKNOWN && remaining < available {
        piece := Offer(remaining);
      } else {
        piece := Offer(available);
      }
    }

    /** The application gets one piece and says how much of it it leaves. */
    method Deliver(n: nat, available: nat, eager: bool) returns (left: nat, ok: bool)
      requires Aware() && Bounded() && Delivering() && !phase.whole && state == ContinueSent && 0 < n <= available
      requires Within() ==> n <= remaining || NoneToContinue()
      modifies this`trace, this`phase, this`state, this`info, this`closings, this`clientAware, this`live, this`remaining
      modifies this`chunkOffset
      modifies this`overdrawn
      ensures left <= n && Aware() && Bounded() && (eager ==> ok && left == 0)
      ensures ok ==> remaining == if old(remaining) == SIZE_UNKNOWN then SIZE_UNKNOWN
        else (old(remaining) + ULONG_MODULUS - (n - left)) % ULONG_MODULUS
      ensures ok ==> chunkOffset == old(chunkOffset) + if chunked then n - left else 0
      ensures trace == old(trace) + [Body(n, n - left)] + if ok then [] else [Done]
      ensures if ok then state == ContinueSent && Delivering() else state == Closed && !clientAware
      ensures ok ==> phase == Begun(old(phase.bytes) + n - left, false)
      ensures closings == old(closings) + if ok then 0 else 1
    {
      assert Look(0);
      left, ok := BodyCall(n, eager);
      if !ok { return; }
      if chunked { chunkOffset := chunkOffset + n - left; }
      if remaining != SIZE_UNKNOWN { LessToCome(n - left); }
    }

    /** A subtraction of 64-bit numbers. */
    method LessToCome(n: nat)
      requires Bounded() && remaining != SIZE_UNKNOWN
      modifies this`remaining
      ensures Bounded() && remaining == (old(remaining) + ULONG_MODULUS - n) % ULONG_MODULUS
      ensures n <= old(remaining) ==> remaining == old(remaining) - n
    {
      remaining := (remaining + ULONG_MODULUS - n) % ULONG_MODULUS;
    }

    /** One call with all that is offered, of which some is taken; the rest is left, and that much less is to come. */
    twostate predicate OneCall(available: nat, taken: nat, rest: nat)
      reads this`trace, this`phase, this`state, this`remaining
    {
      var n := Offered(old(remaining), available);
      && old(phase).Begun? && (state != Closed ==> phase == Begun(old(phase).bytes + taken, false))
      && taken <= n && trace == old(trace) + [Body(n, taken)] + (if state == Closed then [Done] else [])
      && (state != Closed ==> rest == available - taken)
      && (state != Closed && old(remaining) != SIZE_UNKNOWN ==>
            remaining == (old(remaining) + ULONG_MODULUS - taken) % ULONG_MODULUS)
    }

    /** The bytes of the buffer are offered chunk by chunk, or up to the length that remains. */
    method ProcessRequestBody(eager: bool) returns (ghost taken: nat)
      requires Valid() && state == ContinueSent && buffered > 0
      modifies this`trace, this`phase, this`state, this`info, this`closings, this`clientAware, this`live, this`remaining
      modifies this`chunkOffset
      modifies this`overdrawn
      modifies this`chunkSize, this`buffered
      ensures Aware() && Bounded() && buffered <= old(buffered)
      ensures hasResponse ==> unchanged(this)
      ensures state == Closed || state == ContinueSent
      ensures state == Closed ==> !clientAware
      ensures state == ContinueSent && !hasResponse ==> Delivering()
      ensures !hasResponse && !chunked ==> OneCall(old(buffered), taken, buffered)
      ensures !hasResponse && !chunked && eager ==>
        (state == ContinueSent && taken == Offered(old(remaining), old(buffered)))
      ensures !Reopened()
    {
      taken := 0;
      if !hasResponse { taken := OfferBody(eager); }
    }

    method OfferBody(eager: bool) returns (ghost taken: nat)
      requires Aware() && Bounded() && Delivering() && !phase.whole && state == ContinueSent && buffered > 0
      requires Within() ==> remaining > 0 || NoneToContinue()
      modifies this`trace, this`phase, this`state, this`info, this`closings, this`clientAware, this`live, this`remaining
      modifies this`chunkOffset
      modifies this`overdrawn
      modifies this`chunkSize, this`buffered
      ensures Aware() && Bounded() && buffered <= old(buffered)
      ensures if state == Closed then !clientAware else state == ContinueSent && Delivering()
      ensures !chunked ==> OneCall(old(buffered), taken, buffered)
      ensures !chunked && eager ==> state == ContinueSent && taken == Offered(old(remaining), old(buffered))
      ensures !Reopened()
    {
      var available: nat, retry: bool;
      available, retry, taken := OfferPiece(buffered, eager);
      while retry
        invariant Aware() && Bounded() && buffered == old(buffered) && available <= buffered
        invariant if state == Closed then !clientAware && !retry else state == ContinueSent && Delivering()
        invariant closings > old(closings) ==> state == Closed
        invariant retry ==> !phase.whole && 0 < available && (Within() ==> remaining > 0 || NoneToContinue())
        invariant !chunked ==> !retry && OneCall(old(buffered), taken, available)
        invariant !chunked && eager ==> state == ContinueSent && taken == Offered(old(remaining), old(buffered))
        decreases available, retry
      {
        available, retry, taken := OfferPiece(available, eager);
      }
      if state != Closed { buffered := available; }
    }

    /** One turn of that loop: what is left of the available bytes, and whether there is more to offer at once. */
    method OfferPiece(available: nat, eager: bool) returns (rest: nat, retry: bool, ghost taken: nat)
      requires Aware() && Bounded() && Delivering() && !phase.whole && state == ContinueSent && available > 0
      requires Within() ==> remaining > 0 || NoneToContinue()
      modifies this`trace, this`phase, this`state, this`info, this`closings, this`clientAware, this`live, this`remaining
      modifies this`chunkOffset
      modifies this`overdrawn
      modifies this`chunkSize
      ensures Aware() && Bounded() && rest <= available
      ensures if state == Closed then !clientAware && !retry else state == ContinueSent && Delivering()
      ensures retry ==> !phase.whole && 0 < rest < available && (Within() ==> remaining > 0 || NoneToContinue())
      ensures !chunked ==> !retry && OneCall(available, taken, rest)
      ensures !chunked && eager ==> state == ContinueSent && taken == Offered(old(remaining), available)
      ensures !Reopened()
    {
      var piece;
      piece, rest := NextOffer(available);
      retry, taken := piece == Again, 0;
      if piece == Malformed {
        Close();
      } else if piece.Offer? {
        var n := piece.size;
        var more := chunked && rest > n && remaining == SIZE_UNKNOWN;
        var left, ok := Deliver(n, rest, eager);
        taken := n - left;
        retry := ok && more && left == 0;
        rest := rest - (n - left);
      }
    }

    method StepContinueSent(eager: bool) returns (again: bool, ghost taken: nat)
      requires Valid() && state == ContinueSent
      modifies this`trace, this`phase, this`state, this`info, this`closings, this`clientAware, this`live, this`remaining
      modifies this`chunkOffset
      modifies this`overdrawn, this`chunkSize, this`buffered
      ensures Valid()
      ensures state in AfterBodyBytes(old(Seen()))
      ensures again <==> state != ContinueSent
      ensures state == BodyReceived || state == FootersReceived ==>
        remaining == 0 || (remaining == SIZE_UNKNOWN && readClosed)
      ensures state == BodyReceived ==> chunked && !readClosed
      ensures state == FootersReceived ==> !chunked || readClosed
      ensures !again ==> remaining != 0
      ensures old(buffered) > 0 && !hasResponse && !chunked ==> OneCall(old(buffered), taken, buffered)
      ensures old(buffered) > 0 && !hasResponse && !chunked && eager ==>
        (state != Closed && taken == Offered(old(remaining), old(buffered)))
      ensures old(buffered) > 0 && !hasResponse && !chunked && eager && remaining != 0 && remaining != SIZE_UNKNOWN ==>
        state == ContinueSent
      ensures !Reopened()
    {
      again := true;
      taken := OfferBuffered(eager);
      if state != Closed { again := AfterBody(); }
    }

    method OfferBuffered(eager: bool) returns (ghost taken: nat)
      requires Valid() && state == ContinueSent
      modifies this`trace, this`phase, this`state, this`info, this`closings, this`clientAware, this`live, this`remaining
      modifies this`chunkOffset
      modifies this`overdrawn, this`chunkSize, this`buffered
      ensures Aware() && Bounded() && (hasResponse || old(buffered) == 0 ==> unchanged(this)) && !Reopened()
      ensures if state == Closed then !clientAware else state == ContinueSent && (!hasResponse ==> Delivering())
      ensures old(buffered) > 0 && !hasResponse && !chunked ==> OneCall(old(buffered), taken, buffered)
      ensures old(buffered) > 0 && !hasResponse && !chunked && eager ==>
        (state == ContinueSent && taken == Offered(old(remaining), old(buffered)))
    {
      taken := 0;
      if buffered != 0 { taken := ProcessRequestBody(eager); }
    }

    method AfterBody() returns (again: bool)
      requires Aware() && Bounded() && state == ContinueSent && (readClosed ==> hasResponse)
      requires !hasResponse ==> Delivering()
      modifies this`state
      ensures Valid() && again == (remaining == 0 || (remaining == SIZE_UNKNOWN && buffered == 0 && readClosed))
      ensures state == if !again then ContinueSent else if chunked && !readClosed then BodyReceived else FootersReceived
    {
      again := remaining == 0 || (remaining == SIZE_UNKNOWN && buffered == 0 && readClosed);
      if again {
        state := if chunked && !readClosed then BodyReceived else FootersReceived;
      }
    }

    // -------------------------------------------------------------------------------------------
    // The response.

    method StepFootersReceived(a: Reply, h: Header) returns (again: bool)
      requires Valid() && state == FootersReceived
      modifies this
      ensures Valid()
      ensures state == AfterFinalCall(old(Seen()), a, h)
      ensures again <==> state == Closed
      ensures state == HeadersSending ==> hasResponse && (old(hasResponse) || (a.ok && a.answered))
      ensures state == FootersReceived <==> !old(hasResponse) && a.ok && !a.answered
      ensures state == Closed <==> (!old(hasResponse) && !a.ok) || (hasResponse && !(version == EmptyVersion || h.fits))
      ensures !Reopened()
    {
      CallHandler(a);
      again := true;
      if state == Closed { return; }
      if hasResponse { SendHeaders(h); }
      again := state == Closed;
    }

    /** The reader of the content may have nothing yet, or end the connection. */
    method TryReadyBody(ready: State, unready: State, c: Content) returns (ok: bool)
      requires Valid() && state == unready && Settled(ready) && Settled(unready) && Sending(ready) && Sending(unready)
      modifies this`state, this`info, this`closings, this`clientAware, this`trace, this`phase, this`live, this`pending
      ensures Valid() && ok == c.Bytes? && (ok ==> pending == c.n)
      ensures state == match c { case Bytes(n) => ready case Nothing => unready case End => Closed }
      ensures trace == old(trace) + if c == End && old(clientAware) then [Done] else []
      ensures !Reopened()
    {
      ok := false;
      match c
      case Bytes(n) =>
        pending := n;
        state := ready;
        ok := true;
      case Nothing =>
      case End =>
        Close();
    }

    method StepHeadersSent() returns (again: bool)
      requires Valid() && state == HeadersSent
      modifies this`state
      ensures Valid() && again && state == if chunked then ChunkedBodyUnready else NormalBodyUnready
      ensures state in Successors(HeadersSent)
    {
      state := if chunked then ChunkedBodyUnready else NormalBodyUnready;
      SendingIsValid();
      again := true;
    }

    method StepNormalBody(c: Content) returns (again: bool)
      requires Valid() && state == NormalBodyUnready
      modifies this`state, this`info, this`closings, this`clientAware, this`trace, this`phase, this`live, this`pending
      ensures Valid() && again == responseEmpty && (state == NormalBodyReady ==> c.Bytes? && pending == c.n)
      ensures state == if responseEmpty then BodySent else if c.Bytes? then NormalBodyReady
                       else if c == Nothing then NormalBodyUnready else Closed
      ensures state in if again then Successors(NormalBodyUnready) else Stops(NormalBodyUnready)
      ensures !Reopened()
    {
      again := responseEmpty;
      if responseEmpty {
        state := BodySent;
        SendingIsValid();
      } else {
        var _ := TryReadyBody(NormalBodyReady, NormalBodyUnready, c);
      }
    }

    method StepChunkedBody(c: Content) returns (again: bool)
      requires Valid() && state == ChunkedBodyUnready
      modifies this`state, this`info, this`closings, this`clientAware, this`trace, this`phase, this`live, this`pending
      ensures Valid() && again == (responseEmpty || c.Bytes?)
      ensures state == ChunkedBodyReady ==> c.Bytes? && pending == c.n
      ensures state == if responseEmpty then BodySent else if c.Bytes? then ChunkedBodyReady
                       else if c == Nothing then ChunkedBodyUnready else Closed
      ensures state in if again then Successors(ChunkedBodyUnready) else Stops(ChunkedBodyUnready)
      ensures !Reopened()
    {
      again := true;
      if responseEmpty {
        state := BodySent;
        SendingIsValid();
      } else {
        again := TryReadyBody(ChunkedBodyReady, ChunkedBodyUnready, c);
      }
    }

    method StepBodySent(h: Header) returns (again: bool)
      requires Valid() && state == BodySent
      modifies this
      ensures Valid() && again && state in Successors(BodySent) && state == AfterContentSent(old(Seen()), h)
      ensures state == Closed <==> version != EmptyVersion && !h.fits
      ensures state == FootersSending <==> version != EmptyVersion && h.fits && chunked && h.size > 0
      ensures !Reopened()
    {
      again := true;
      SendFooters(h);
      if state == Closed { ClosedIsValid(); } else { SendingIsValid(); }
    }

    method SendFooters(h: Header)
      requires Aware() && Bounded() && state == BodySent
      modifies this`pending, this`chunked
      modifies this`state, this`info, this`closings, this`clientAware, this`trace, this`phase, this`live
      ensures Aware() && chunked == old(chunked) && (state == Closed ==> !clientAware)
      ensures state == if version != EmptyVersion && !h.fits then Closed
        else if version != EmptyVersion && chunked && h.size > 0 then FootersSending else FootersSent
      ensures !Reopened()
    {
      var ok := BuildHeaderResponse(h);
      if !ok {
        Close();
        return;
      }
      state := if !chunked || pending == 0 then FootersSent else FootersSending;
    }

    /** The request is over: the connection closes, or is made ready for the next request. */
    method StepFootersSent(wantsClose: bool, keepAlive: bool) returns (again: bool)
      requires Valid() && state == FootersSent
      modifies this
      ensures Valid() && again && !clientAware && !hasResponse && context == None
      ensures state in Successors(FootersSent)
      ensures trace == old(trace) + if old(clientAware) then [Done] else []
      ensures state == if Persists(old(readClosed), wantsClose, old(version), keepAlive) then Init else Closed
      ensures Untouched() && buffered == if state == Init then old(buffered) else 0
      ensures state == Init ==> !readClosed && version == NoVersion
      ensures !Reopened()
    {
      again := true;
      FinishRequest(wantsClose, keepAlive);
      if state == Closed { ClosedIsValid(); } else { InitIsValid(); }
    }

    /** Nobody wants the connection closed, and the version allows to keep it. */
    predicate Persists(closed: bool, wantsClose: bool, v: Version, keepAlive: bool) {
      !closed && !wantsClose && v != NoVersion && keepAlive
    }

    method FinishRequest(wantsClose: bool, keepAlive: bool)
      requires Aware() && Bounded()
      modifies this
      ensures Aware() && Bounded() && !clientAware && context == None && !hasResponse
      ensures trace == old(trace) + if old(clientAware) then [Done] else []
      ensures state == if Persists(old(readClosed), wantsClose, old(version), keepAlive) then Init else Closed
      ensures Untouched() && buffered == if state == Init then old(buffered) else 0
      ensures state == Init ==> !readClosed && version == NoVersion
      ensures !Reopened()
    {
      hasResponse := false;
      CompleteRequest();
      Restart(wantsClose, keepAlive);
      Forget();
    }

    /** Nothing of the last request is left. */
    predicate Untouched()
      reads this`continueOffset, this`pending, this`chunked, this`isUpload
    {
      continueOffset == 0 == pending && !chunked && !isUpload
    }

    method Forget()
      requires Aware() && Bounded() && !clientAware
      modifies this`context, this`continueOffset, this`pending, this`chunked, this`isUpload
      ensures Aware() && Bounded() && context == None && Untouched()
    {
      context := None;
      continueOffset, pending := 0, 0;
      chunked, isUpload := false, false;
    }

    method CompleteRequest()
      requires Aware()
      modifies this`trace, this`phase, this`live, this`clientAware
      ensures Aware() && !clientAware && trace == old(trace) + if old(clientAware) then [Done] else []
    {
      if clientAware { NotifyCompleted(); }
      clientAware := false;
    }

    method Restart(wantsClose: bool, keepAlive: bool)
      requires Aware() && Bounded() && !clientAware
      modifies this`readClosed, this`buffered, this`bufferSize, this`version, this`state, this`info, this`closings
      ensures Bounded() && state ==
        if Persists(old(readClosed), wantsClose, old(version), keepAlive) then Init else Closed
      ensures state == Init ==> !readClosed && version == NoVersion
      ensures buffered == if state == Init then old(buffered) else 0
      ensures !Reopened()
    {
      if readClosed || wantsClose {
        readClosed := true;
        buffered := 0;
      }
      if (readClosed && buffered == 0) || version == NoVersion || !keepAlive {
        CloseUnaware();
        bufferSize, buffered := 0, 0;
      } else {
        version := NoVersion;
        state := Init;
      }
    }

    // -------------------------------------------------------------------------------------------
    // The handlers the event loop calls.

    /** One turn of the loop, with whatever the buffer, the application and the pool have to offer. */
    method Step(e: Encounter) returns (again: bool)
      requires Valid() && state != Closed && Possible(e)
      modifies this
      ensures Valid() && (if again then Lower(old(state), old(buffered)) else Settled(state))
      ensures state in if again then Successors(old(state)) else Stops(old(state))
      ensures Leads(old(Seen()), e, state)
      ensures old(Expecting(state) || state == Init) && !again && e.input.line == NoLine
          ==> Waited(old(Seen()), e.input, Seen())
      ensures Reopened() <==> old(Reopens(e))
    {
      if state == Init {
        again := StepInit(e.input, e.request, e.header);
      } else if Expecting(state) {
        again := StepReceiving(e);
      } else if state == HeadersReceived {
        again := StepHeadersReceived(e.fields, e.header);
      } else if state == HeadersProcessed {
        again := StepHeadersProcessed(e.reply);
        FirstCallListed(old(Seen()), e.reply);
      } else if state == ContinueSending {
        again := StepContinueSending();
      } else if state == ContinueSent {
        ghost var taken;
        again, taken := StepContinueSent(e.eager);
      } else if state == FootersReceived {
        again := StepFootersReceived(e.reply, e.header);
      } else {
        again := StepSending(e);
      }
      TableDescends(old(state), state);
    }

    predicate Possible(e: Encounter)
      reads this`buffered
    {
      e.input.line != NoLine ==> 1 <= e.input.taken <= buffered
    }

    /**
     * When a turn that closes the connection does not leave it closed: a line without a colon is answered all the same;
     * arguments that do not fit and can not even be answered do not keep the request line from being taken; cookies of
     * that kind do not keep a request without a host from being refused.
     */
    predicate Reopens(e: Encounter)
      reads this`state, this`version
    {
      if state == Init then
        e.input.line != NoLine && e.request.space && !e.request.argumentsFit && !Sendable(e.header)
      else if state == UrlReceived || state == BodyReceived then
        e.input.line.TextLine? && !e.input.line.colon && Sendable(e.header)
      else if state == HeaderPartReceived || state == FooterPartReceived then
        e.input.line.TextLine? && !e.input.line.folded && e.fits && !e.input.line.colon && Sendable(e.header)
      else
        state == HeadersReceived && !e.fields.cookiesFit && !Sendable(e.header) && NeedsHost(e.fields)
    }

    method StepReceiving(e: Encounter) returns (again: bool)
      requires Valid() && Expecting(state) && Possible(e)
      modifies this
      ensures Valid() && (again ==> state != old(state) || buffered < old(buffered))
      ensures state in if again then Successors(old(state)) else Stops(old(state))
      ensures Leads(old(Seen()), e, state)
      ensures !again && e.input.line == NoLine ==> Waited(old(Seen()), e.input, Seen())
      ensures Reopened() <==> old(Reopens(e))
    {
      var footers := state == BodyReceived || state == FooterPartReceived;
      if state == UrlReceived || state == BodyReceived {
        again := StepFirstLine(footers, e.input, e.header);
      } else {
        again := StepNextLine(footers, e.input, e.fits, e.header, e.second);
      }
    }

    /** The states of a connection that has a response. */
    method StepSending(e: Encounter) returns (again: bool)
      requires Valid() && Sending(state)
      modifies this
      ensures Valid() && Leads(old(Seen()), e, state)
      ensures state in if again then Successors(old(state)) else Stops(old(state))
      ensures !Reopened()
    {
      if state == NormalBodyUnready || state == ChunkedBodyUnready {
        again := StepContent(e);
      } else if state == BodySent || state == FootersSent {
        again := StepSent(e);
      } else if state == HeadersSent {
        again := StepHeadersSent();
      } else {
        again := false;
      }
    }

    method StepSent(e: Encounter) returns (again: bool)
      requires Valid() && (state == BodySent || state == FootersSent)
      modifies this
      ensures Valid() && Leads(old(Seen()), e, state)
      ensures state in if again then Successors(old(state)) else Stops(old(state))
      ensures !Reopened()
    {
      if state == BodySent {
        again := StepBodySent(e.header);
      } else {
        again := StepFootersSent(e.wantsClose, e.keepAlive);
      }
    }

    method StepContent(e: Encounter) returns (again: bool)
      requires Valid() && (state == NormalBodyUnready || state == ChunkedBodyUnready)
      modifies this
      ensures Valid() && Leads(old(Seen()), e, state)
      ensures state in if again then Successors(old(state)) else Stops(old(state))
      ensures !Reopened()
    {
      if state == NormalBodyUnready {
        again := StepNormalBody(e.content);
      } else {
        again := StepChunkedBody(e.content);
      }
    }

    /** What a turn meets: nothing that is not in the buffer. */
    static function Met(v: View, e: Encounter): Encounter {
      if e.input.line == NoLine || 1 <= e.input.taken <= v.buffered then e
      else e.(input := Input(NoLine, 0, e.input.grown))
    }

    /** A turn leads where it must, and goes on or stops as the table says; looked into only where it is used. */
    static ghost predicate TurnMade(v: View, e: Encounter, now: View, again: bool) {
      forall at {:trigger Look(at)} :: Look(at) ==>
        && v.state != Closed && Leads(v, Met(v, e), now.state)
        && (now.state in if again then Successors(v.state) else Stops(v.state))
        && ((!again && (Expecting(v.state) || v.state == Init) && Met(v, e).input.line == NoLine) ==>
              Waited(v, e.input, now))
    }

    /** One turn after the other; all of them go on, or the last one stops. */
    static ghost predicate Path(path: seq<View>, world: World, onwards: bool) {
      forall at {:trigger Look(at)} :: Look(at) ==>
        && (forall i: nat :: i + 1 < |path| ==> TurnMade(path[i], world(i), path[i + 1], onwards || i + 2 < |path|))
        && (onwards || |path| >= 2)
    }

    static lemma OneTurn(path: seq<View>, world: World, now: View, again: bool)
      requires path != [] && Path(path, world, true)
      requires TurnMade(path[|path| - 1], world(|path| - 1), now, again)
      ensures Path(path + [now], world, again)
    {
      var all := path + [now];
      assert Look(0);
      forall i: nat | i + 1 < |all| ensures TurnMade(all[i], world(i), all[i + 1], again || i + 2 < |all|) {
        if i + 1 < |path| { assert TurnMade(path[i], world(i), path[i + 1], true); }
      }
    }

    method Turn(e: Encounter) returns (again: bool)
      requires Valid() && state != Closed
      modifies this
      ensures Valid() && (if again then Lower(old(state), old(buffered)) else Settled(state))
      ensures TurnMade(old(Seen()), e, Seen(), again)
    {
      again := Step(Met(Seen(), e));
    }

    /**
     * Ends for every state and every buffer, after turns that each lead where they must; a dead connection has given
     * back the application's object. Only a time-out, a full buffer or the end of the stream closes one that waits.
     */
    method HandleIdle(timedOut: bool, world: World, grown: bool, h: Header)
      returns (alive: bool, ghost path: seq<View>)
      requires Valid()
      modifies this
      ensures Valid() && Settled(state)
      ensures path != [] && path[0] == old(Seen()) && Path(path, world, !alive)
      ensures !alive ==> path[|path| - 1].state == Closed == state && live == {}
      ensures alive && timedOut ==> state == Closed && info == Cleanup
      ensures alive && !timedOut ==> state == AfterUpdate(path[|path| - 1], grown, h) && info == InfoDue(Seen())
      ensures state == LeftBy(path[|path| - 1], timedOut, grown, h, alive)
      ensures alive && !timedOut && state == path[|path| - 1].state ==>
        (readClosed == path[|path| - 1].readClosed && buffered == path[|path| - 1].buffered)
      ensures alive ==> info in InfoFor(state)
    {
      alive, path := TakeTurns(world);
      if alive { EndRound(timedOut, grown, h); }
    }

    method EndRound(timedOut: bool, grown: bool, h: Header)
      requires Valid() && Settled(state)
      modifies this
      ensures Valid() && Settled(state) && info in InfoFor(state)
      ensures timedOut ==> state == Closed && info == Cleanup
      ensures !timedOut ==> state == AfterUpdate(old(Seen()), grown, h) && info == InfoDue(Seen())
      ensures !timedOut && state == old(state) ==> readClosed == old(readClosed) && buffered == old(buffered)
    {
      if timedOut {
        Close();
        ClosedIsValid();
      } else {
        UpdateEventLoopInfo(grown, h);
      }
    }

    /** A connection that waits for a request, with room and nothing received, goes on waiting whatever comes later. */
    method KeepsWaiting(world: World, grown: bool, h: Header) returns (alive: bool)
      requires Valid() && state == Init && buffered == 0 < bufferSize && !readClosed
      modifies this
      ensures alive && state == Init && info == Read
    {
      ghost var path;
      alive, path := HandleIdle(false, world, grown, h);
      NothingToDo(path, world, !alive);
    }

    static lemma NothingToDo(path: seq<View>, world: World, onwards: bool)
      requires path != [] && Path(path, world, onwards)
      requires path[0].state == Init && path[0].buffered == 0 < path[0].bufferSize && !path[0].readClosed
      ensures path[|path| - 1] == path[0] && (onwards ==> |path| == 1)
    {
      assert Look(0);
      if |path| > 1 {
        assert TurnMade(path[0], world(0), path[1], onwards || |path| > 2) && Look(0);
      }
    }

    /** The loop: until a turn stops, or the connection is closed. */
    method TakeTurns(world: World) returns (alive: bool, ghost path: seq<View>)
      requires Valid()
      modifies this
      ensures Valid() && Settled(state)
      ensures path != [] && path[0] == old(Seen()) && path[|path| - 1] == Seen() && Path(path, world, !alive)
      ensures !alive ==> state == Closed && live == {}
    {
      var again, i := true, 0;
      path := [Seen()];
      while again
        invariant |path| == i + 1 && path[0] == old(Seen()) && Running(path, world, again)
        decreases again, Rank(state), buffered
      {
        if state == Closed {
          Ran(path, world, again);
          return false, path;
        }
        again, path := TakeTurn(world(i), world, path);
        i := i + 1;
      }
      Ran(path, world, again);
      alive := true;
    }

    /** The turns taken so far have led here; looked into only where one is taken. */
    ghost predicate Running(path: seq<View>, world: World, again: bool)
      reads this
    {
      forall at {:trigger Look(at)} :: Look(at) ==>
        && Valid() && path != [] && path[|path| - 1] == Seen() && Path(path, world, again)
        && (!again ==> Settled(state))
    }

    lemma Ran(path: seq<View>, world: World, again: bool)
      requires Running(path, world, again)
      ensures Valid() && path != [] && path[|path| - 1] == Seen() && Path(path, world, again)
      ensures (!again ==> Settled(state)) && (state == Closed ==> live == {})
    {
      assert Look(0);
    }

    method TakeTurn(e: Encounter, world: World, ghost path: seq<View>)
      returns (again: bool, ghost longer: seq<View>)
      requires path != [] && Running(path, world, true) && state != Closed && e == world(|path| - 1)
      modifies this
      ensures |longer| == |path| + 1 && longer[0] == path[0] && Running(longer, world, again)
      ensures again ==> Lower(old(state), old(buffered))
    {
      Ran(path, world, true);
      again := Turn(e);
      OneTurn(path, world, Seen(), again);
      longer := path + [Seen()];
    }

    method UpdateEventLoopInfo(grown: bool, h: Header)
      requires Valid() && Settled(state)
      modifies this
      ensures Valid() && Settled(state) && info in InfoFor(state)
      ensures state == AfterUpdate(old(Seen()), grown, h) && info == InfoDue(Seen())
      ensures state == old(state) ==> readClosed == old(readClosed) && buffered == old(buffered)
    {
      var again := true;
      while again
        invariant Valid() && Settled(state) && (!again ==> info == InfoDue(Seen()))
        invariant if again then AfterUpdate(Seen(), grown, h) == AfterUpdate(old(Seen()), grown, h)
                  else state == AfterUpdate(old(Seen()), grown, h)
        invariant state == old(state) ==> readClosed == old(readClosed) && buffered == old(buffered)
        invariant Rank(state) < old(Rank(state)) || state == old(state)
        decreases again, Rank(state)
      {
        ghost var was := state;
        again := UpdateOnce(grown, h);
        if again { UpdatedStays(was, Seen(), grown, h); }
      }
      DueFits(Seen());
    }

    /** The states in which bytes are waited for. */
    static predicate Waits(s: State) { s == Init || Expecting(s) || s == ContinueSent }

    static lemma UpdatedStays(was: State, v: View, grown: bool, h: Header)
      requires Waits(was) && (v.state == HeadersSending || v.state == Closed)
      ensures AfterUpdate(v, grown, h) == v.state && Rank(v.state) < Rank(was)
    {
    }

    static lemma DueFits(v: View)
      ensures InfoDue(v) in InfoFor(v.state)
    {
    }

    method UpdateOnce(grown: bool, h: Header) returns (again: bool)
      requires Valid() && Settled(state)
      modifies this
      ensures Valid() && (again ==> Waits(old(state)))
      ensures state == AfterUpdate(old(Seen()), grown, h)
      ensures if again then state == HeadersSending || state == Closed else info == InfoDue(Seen())
      ensures !again ==> state == old(state) && readClosed == old(readClosed) && buffered == old(buffered)
    {
      if Waits(state) {
        again := UpdateWaiting(grown, h);
      } else {
        StaysPut(Seen(), grown, h);
        SetInfo();
        again := false;
      }
    }

    static lemma StaysPut(v: View, grown: bool, h: Header)
      requires Settled(v.state) && !Waits(v.state)
      ensures AfterUpdate(v, grown, h) == v.state
      ensures v.state == FootersReceived || Sending(v.state) || v.state == ContinueSending || v.state == Closed
    {
    }

    method UpdateWaiting(grown: bool, h: Header) returns (again: bool)
      requires Valid() && Waits(state)
      modifies this
      ensures Valid() && state == AfterUpdate(old(Seen()), grown, h)
      ensures if again then state == HeadersSending || state == Closed else info == InfoDue(Seen())
      ensures !again ==> state == old(state) && readClosed == old(readClosed) && buffered == old(buffered)
    {
      if state == BodyReceived || state == FooterPartReceived {
        again := AwaitFooters();
      } else {
        again := MakeRoom(grown, h);
      }
    }

    method SetInfo()
      requires state == FootersReceived || Sending(state) || state == ContinueSending || state == Closed
      modifies this`info
      ensures Settled(state) ==> info in InfoFor(state) && info == InfoDue(Seen())
    {
      info := if state == FootersReceived || state == NormalBodyUnready || state == ChunkedBodyUnready then Block
              else if state == Closed then Cleanup
              else Write;
    }

    method AwaitFooters() returns (again: bool)
      requires Valid() && (state == BodyReceived || state == FooterPartReceived)
      modifies this`state, this`info, this`closings, this`clientAware, this`trace, this`phase, this`live
      ensures Valid() && again == readClosed && (if again then state == Closed else state == old(state) && info == Read)
      ensures !again ==> info in InfoFor(state) && info == InfoDue(Seen())
    {
      again := readClosed;
      if again {
        Close();
        ClosedIsValid();
      } else {
        info := Read;
      }
    }

    /** A full buffer that can not grow is an error, in the body only where nobody else could empty it. */
    method MakeRoom(grown: bool, h: Header) returns (again: bool)
      requires Valid()
      requires state == Init || state == UrlReceived || state == HeaderPartReceived || state == ContinueSent
      modifies this
      ensures Valid() && again == (old(buffered == bufferSize) && !grown && (old(state) != ContinueSent || ownThread))
      ensures again ==> hasResponse && readClosed && (state == HeadersSending || state == Closed)
      ensures state == AfterUpdate(old(Seen()), grown, h) && (!again ==> info == InfoDue(Seen()))
      ensures !again ==> info in InfoFor(state)
      ensures !again ==> state == old(state) && readClosed == old(readClosed) && buffered == old(buffered)
      ensures !again ==>
        (if old(buffered == bufferSize) && grown then bufferSize > old(bufferSize) else bufferSize == old(bufferSize))
      ensures !again ==>
        info == if (state != ContinueSent || buffered < bufferSize) && !readClosed then Read else Block
    {
      again := false;
      if buffered == bufferSize {
        if grown {
          var more: nat :| more > 0;
          bufferSize := bufferSize + more;
        } else if state != ContinueSent || ownThread {
          TransmitError(h);
          return true;
        }
      }
      AskForBytes();
    }

    method AskForBytes()
      modifies this`info
      ensures info == if (state != ContinueSent || buffered < bufferSize) && !readClosed then Read else Block
    {
      info := if (state != ContinueSent || buffered < bufferSize) && !readClosed then Read else Block;
    }

    /** The socket is readable: some bytes, nothing yet, the end of the stream, or an error. */
    method HandleRead(grown: nat, got: Received)
      requires Valid() && Settled(state)
      modifies this`state, this`info, this`closings, this`readClosed, this`buffered, this`bufferSize
      modifies this`clientAware, this`trace, this`phase, this`live
      ensures Valid()
      ensures var room := old(bufferSize) + grown - old(buffered);
        state == if old(state) == Closed || room == 0 || got == NotYet then old(state)
                 else if got.Data? && !(old(readClosed) && (Early(old(state)) || Uploading(old(state)))) then old(state)
                 else Closed
      ensures old(state) != Closed && old(bufferSize) + grown > old(buffered) ==>
        buffered == old(buffered) + (if got.Data? then got.count(old(bufferSize) + grown - old(buffered)) else 0)
        && readClosed == (old(readClosed) || got == EndOfStream)
      ensures trace == old(trace) + if state == Closed && old(clientAware) then [Done] else []
    {
      if state == Closed { return; }
      var progress := DoRead(grown, got);
      if state == Closed {
        ClosedIsValid();
      } else if progress && readClosed && (Early(state) || Uploading(state)) {
        Close();
        ClosedIsValid();
      }
    }

    /** At most as much as there is room for. */
    method DoRead(grown: nat, got: Received) returns (progress: bool)
      requires Aware() && Bounded()
      modifies this`state, this`info, this`closings, this`readClosed, this`buffered, this`bufferSize
      modifies this`clientAware, this`trace, this`phase, this`live
      ensures Aware() && Bounded() && bufferSize == old(bufferSize) + grown
      ensures progress == (bufferSize > old(buffered) && got != NotYet)
      ensures bufferSize > old(buffered) ==> readClosed == (old(readClosed) || got == EndOfStream)
      ensures state == Closed ==> unchanged(this`buffered) || got.Data?
      ensures var room := bufferSize - old(buffered);
        if room == 0 || got == NotYet
        then unchanged(this`state, this`readClosed, this`clientAware, this`phase, this`trace, this`live, this`buffered)
        else if got.Data? then buffered == old(buffered) + got.count(room)
          && unchanged(this`state, this`readClosed, this`clientAware, this`phase, this`trace, this`live)
        else state == Closed && !clientAware && trace == old(trace) + if old(clientAware) then [Done] else []
    {
      bufferSize := bufferSize + grown;
      progress := buffered < bufferSize && got != NotYet;
      if !progress { return; }
      match got
      case NotYet =>
      case Data(n) =>
        buffered := buffered + got.count(bufferSize - buffered);
      case Failed =>
        Close();
      case EndOfStream =>
        readClosed := true;
        Close();
    }

    /** The socket is writable. Only a state that asked for this is found here, or a connection just closed. */
    method HandleWrite(w: Written)
      requires Valid() && Settled(state) && (state == Closed || Write in InfoFor(state))
      modifies this`state, this`info, this`closings, this`continueOffset, this`pending, this`clientAware
      modifies this`trace, this`phase, this`live
      ensures Valid()
      ensures old(state) == Closed || w.fails ==> state == Closed
      ensures old(state) == ContinueSending && !w.fails ==> state == ContinueSending
      ensures old(state) == ContinueSending && !w.fails ==>
        continueOffset ==
          if w.sent > CONTINUE_LENGTH - old(continueOffset) then CONTINUE_LENGTH else old(continueOffset) + w.sent
      ensures old(state) != Closed && old(state) != ContinueSending && !w.fails ==>
        state == AfterWrite(old(state), w, if w.sent > old(pending) then 0 else old(pending) - w.sent)
      ensures trace == old(trace) + if state == Closed && old(clientAware) then [Done] else []
      ensures state != Closed ==> phase == old(phase)
    {
      if state == Closed { return; }
      if w.fails {
        Close();
        ClosedIsValid();
      } else if state == ContinueSending {
        continueOffset :=
          if w.sent > CONTINUE_LENGTH - continueOffset then CONTINUE_LENGTH else continueOffset + w.sent;
      } else {
        WriteSome(w);
        SendingIsValid();
      }
    }

    /** With everything written the response goes on to its next part. */
    method WriteSome(w: Written)
      requires
        state == HeadersSending || state == NormalBodyReady || state == ChunkedBodyReady || state == FootersSending
      modifies this`state, this`pending
      ensures Sending(state)
      ensures state == AfterWrite(old(state), w, if w.sent > old(pending) then 0 else old(pending) - w.sent)
    {
      if state == NormalBodyReady && !w.ready {
        state := NormalBodyUnready;
        return;
      }
      pending := if w.sent > pending then 0 else pending - w.sent;
      if state == NormalBodyReady {
        if w.last { state := FootersSent; }
      } else if pending == 0 {
        state := if state == HeadersSending then HeadersSent
                 else if state == FootersSending then FootersSent
                 else if w.last then BodySent
                 else ChunkedBodyUnready;
      }
    }

    /** Shutdown, or an error the event loop sees. */
    method Terminate()
      requires Valid()
      modifies this
      ensures Valid() && state == Closed && live == {}
    {
      Close();
      ClosedIsValid();
      assert Look(0);
    }

    /** What the sockets do, and then a round of idling. */
    method ServeRound(r: Round) returns (alive: bool, ghost after: Stage)
      requires Valid() && Settled(state) && info in InfoFor(state)
      modifies this
      ensures Valid() && Settled(state) && after.ended == Seen() && after.info == info
      ensures if alive then info in InfoFor(state) else state == Closed && live == {}
      ensures Idled(r, after, alive) && Happened(old(Seen()), old(info), r, after.path[0].state)
    {
      Happen(r);
      alive, after := IdleOnce(r);
    }

    method Happen(r: Round)
      requires Valid() && Settled(state) && info in InfoFor(state)
      modifies this
      ensures Valid() && Happened(old(Seen()), old(info), r, state)
    {
      var asked := info;
      if r.readable { HandleRead(r.room, r.got); }
      if r.writable && asked == Write { HandleWrite(r.written); }
      if r.hangup { Terminate(); }
    }

    method IdleOnce(r: Round) returns (alive: bool, ghost after: Stage)
      requires Valid()
      modifies this
      ensures Valid() && Settled(state) && after.ended == Seen() && after.info == info
      ensures if alive then info in InfoFor(state) else state == Closed && live == {}
      ensures Idled(r, after, alive) && after.path[0] == old(Seen())
    {
      ghost var path;
      alive, path := HandleIdle(r.late, r.world, r.grown, r.header);
      after := Stage(path, Seen(), info);
      IdledSo(r, path, Seen(), info, alive);
    }

    static lemma IdledSo(r: Round, path: seq<View>, now: View, info: Info, alive: bool)
      requires path != [] && Path(path, r.world, !alive)
      requires now.state == LeftBy(path[|path| - 1], r.late, r.grown, r.header, alive)
      ensures Idled(r, Stage(path, now, info), alive)
    {
    }

    /** Idling after the events of a round: its turns, and what they leave. */
    static ghost predicate Idled(r: Round, after: Stage, alive: bool) {
      && after.path != [] && Path(after.path, r.world, !alive)
      && after.ended.state == LeftBy(after.path[|after.path| - 1], r.late, r.grown, r.header, alive)
    }

    static function LeftBy(last: View, timedOut: bool, grown: bool, h: Header, alive: bool): State {
      if !alive then last.state else if timedOut then Closed else AfterUpdate(last, grown, h)
    }

    /** Each round starts with what the one before left, and what the sockets did to it. */
    static ghost predicate Rounds(log: seq<Stage>, rounds: seq<Round>, alive: bool) {
      && 0 < |log| <= |rounds|
      && forall i :: 0 <= i < |log| ==>
           Idled(rounds[i], log[i], alive || i + 1 < |log|)
           && (i > 0 ==> Happened(log[i - 1].ended, log[i - 1].info, rounds[i], log[i].path[0].state))
    }

    static lemma OneRound(log: seq<Stage>, rounds: seq<Round>, after: Stage, alive: bool)
      requires Rounds(log, rounds, true) && |log| < |rounds| && Idled(rounds[|log|], after, alive)
      requires var last := log[|log| - 1];
        Happened(last.ended, last.info, rounds[|log|], after.path[0].state)
      ensures Rounds(log + [after], rounds, alive)
    {
    }

    /** The rounds so far have led here; looked into only where one is served. */
    ghost predicate Serving(log: seq<Stage>, rounds: seq<Round>, alive: bool)
      reads this
    {
      forall at {:trigger Look(at)} :: Look(at) ==>
        && Valid() && Settled(state) && Rounds(log, rounds, alive)
        && log[|log| - 1].ended == Seen() && log[|log| - 1].info == info
        && (if alive then info in InfoFor(state) else state == Closed && live == {})
    }

    lemma Served(log: seq<Stage>, rounds: seq<Round>, alive: bool)
      requires Serving(log, rounds, alive)
      ensures Valid() && Settled(state) && Rounds(log, rounds, alive)
      ensures log[|log| - 1].ended == Seen() && log[|log| - 1].info == info
      ensures if alive then info in InfoFor(state) else state == Closed && live == {}
    {
      assert Look(0);
    }

    method FirstRound(rounds: seq<Round>) returns (alive: bool, ghost log: seq<Stage>)
      requires Valid() && rounds != []
      modifies this
      ensures |log| == 1 && log[0].path != [] && log[0].path[0] == old(Seen()) && Serving(log, rounds, alive)
    {
      ghost var stage;
      alive, stage := IdleOnce(rounds[0]);
      log := [stage];
    }

    method NextRound(r: Round, ghost log: seq<Stage>, rounds: seq<Round>)
      returns (alive: bool, ghost longer: seq<Stage>)
      requires 0 < |log| < |rounds| && r == rounds[|log|] && Serving(log, rounds, true)
      modifies this
      ensures |longer| == |log| + 1 && longer[0] == log[0] && Serving(longer, rounds, alive)
    {
      ghost var stage;
      Served(log, rounds, true);
      alive, stage := ServeRound(r);
      OneRound(log, rounds, stage, alive);
      longer := log + [stage];
    }

    /**
     * Any number of rounds of the event loop, each reading, writing or closing as the sockets allow, and then idling;
     * the log says how each round follows from the one before. Once the connection is dead as many notices were given
     * as requests begun, and no object is left.
     */
    method Serve(rounds: seq<Round>) returns (alive: bool, ghost log: seq<Stage>)
      requires Valid() && Settled(state) && trace == [] && rounds != []
      modifies this
      ensures Valid() && PhaseOf(trace) != Broken
      ensures !alive ==> live == {} && Count(trace, First) == Count(trace, Done)
      ensures Rounds(log, rounds, alive) && log[0].path[0] == old(Seen()) && log[|log| - 1].ended == Seen()
      ensures if alive then |log| == |rounds| else state == Closed
    {
      var i := 1;
      alive, log := FirstRound(rounds);
      while i < |rounds| && alive
        invariant 1 <= i <= |rounds| && |log| == i && log[0].path != [] && Serving(log, rounds, alive)
        invariant log[0].path[0] == old(Seen())
        decreases |rounds| - i
      {
        alive, log := NextRound(rounds[i], log, rounds);
        i := i + 1;
      }
      Served(log, rounds, alive);
      assert Look(0);
      NoticesMatchRequests(trace);
    }
  }
  // ---------------------------------------------------------------------------------------------
  // A run in which more is taken than was announced.

  /** 100 bytes arrive, of which 38 are the request line. */
  method RequestLineTaken() returns (c: Connection)
    ensures fresh(c) && c.Valid() && c.state == UrlReceived && c.version == Http11 && c.buffered == 62
    ensures !c.hasResponse && !c.readClosed && !c.chunked && c.continueOffset == 0
  {
    c := new Connection(false, false);
    c.HandleRead(100, Data(100));
    var r, h := RequestLine(true, true, Http11, true), Header(true, 100, false);
    var _ := c.StepInit(Input(TextLine(true, false), 38, true), r, h);
  }

  /** The header of a request without a body, and 60 bytes of the next request. */
  method RequestWithoutBody() returns (c: Connection)
    ensures fresh(c) && c.Valid() && c.state == HeadersReceived && c.version == Http11 && c.buffered == 60
    ensures !c.hasResponse && !c.readClosed && !c.chunked && c.continueOffset == 0
  {
    c := RequestLineTaken();
    var _ := c.StepFirstLine(false, Input(EmptyLine, 2, true), Header(true, 100, false));
  }

  /** The header gives the length 0 and the client waits for 100 Continue. */
  method WaitsToContinue() returns (c: Connection)
    ensures fresh(c) && c.Valid() && c.state == ContinueSending && c.continueOffset == 0 && c.buffered == 60
    ensures !c.hasResponse && !c.readClosed && !c.chunked && c.declared == 0 == c.remaining
    ensures c.phase == Begun(0, false)
    ensures c.continued
  {
    c := RequestWithoutBody();
    var _ := c.StepHeadersReceived(Fields(true, true, NoEncoding, Number(0), true), Header(true, 100, false));
    var _ := c.StepHeadersProcessed(Reply(true, false));
  }

  /** It is sent. */
  method ToldToContinue() returns (c: Connection)
    ensures fresh(c) && c.Valid() && c.state == ContinueSent && c.buffered == 60 && c.continued
    ensures !c.hasResponse && !c.readClosed && !c.chunked && c.declared == 0 == c.remaining
    ensures c.phase == Begun(0, false)
  {
    c := WaitsToContinue();
    c.HandleWrite(Written(false, true, CONTINUE_LENGTH, false));
    var _ := c.StepContinueSending();
  }

  /** The application is given all 60 bytes of the next request as the body of this one. */
  method MoreThanAnnounced() returns (c: Connection)
    ensures c.Valid() && c.state == ContinueSent && c.Length() == Some(0) && c.continued
    ensures c.phase == Begun(60, false) && c.overdrawn
  {
    c := ToldToContinue();
    var _, taken := c.StepContinueSent(true);
    assert taken == 60 && c.remaining == ULONG_MODULUS - 60;
    assert Look(0);
  }

  /** A line without a colon: the connection is closed, and then an error response is on its way. */
  method OpenAgain() returns (c: Connection)
    ensures c.Valid() && c.closings > 0 && c.state == HeadersSending
  {
    c := RequestLineTaken();
    var _ := c.StepFirstLine(false, Input(TextLine(false, false), 20, true), Header(true, 100, false));
  }
}
