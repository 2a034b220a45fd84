/** Form data of type application/x-www-form-urlencoded, parsed as its segments arrive. */
module UrlEncoded {
  import opened Common
  import opened CText
  import opened Unescape
  import CMemory

  const XBUF_SIZE: nat := 512

  // ---------------------------------------------------------------------------------------------
  // The whole body at once (HTML 4.01 section 17.13.4.1).

  datatype Pair = Pair(key: string, value: string)

  /** How far a string goes without a character. */
  function Span(s: string, c: char): (n: nat)
    ensures n <= |s| && c !in s[..n] && (n < |s| ==> s[n] == c)
  {
    if s == "" || s[0] == c then 0 else
      var n := 1 + Span(s[1..], c);
      assert s[..n] == [s[0]] + s[1..][..n - 1];
      n
  }

  /** Keys end at the first '=', values at the first '&' after it; a last key without value is dropped. */
  function Pairs(body: string): seq<Pair>
    decreases |body|
  {
    var k := Span(body, '=');
    if k == |body| then [] else
      var rest := body[k + 1..];
      var v := Span(rest, '&');
      [Pair(body[..k], rest[..v])] + if v == |rest| then [] else Pairs(rest[v + 1..])
  }

  /** A key is read as a C string. */
  function KeyText(k: string): string { CStr(Plain(k)) }

  /** The parameters the pairs make: of equal keys the last one wins. */
  function Collect(pairs: seq<Pair>): map<string, string> {
    if pairs == [] then map[] else
      var last := pairs[|pairs| - 1];
      Collect(pairs[..|pairs| - 1])[KeyText(last.key) := Plain(last.value)]
  }

  // ---------------------------------------------------------------------------------------------
  // The same character by character.

  datatype Mode = InKey(key: string) | InValue(key: string, value: string)
  datatype Parse = Parse(done: seq<Pair>, mode: Mode)

  const START := Parse([], InKey(""))

  function Next(p: Parse, c: char): Parse {
    match p.mode
    case InKey(k) => if c == '=' then Parse(p.done, InValue(k, "")) else Parse(p.done, InKey(k + [c]))
    case InValue(k, v) =>
      if c == '&' then Parse(p.done + [Pair(k, v)], InKey("")) else Parse(p.done, InValue(k, v + [c]))
  }

  function Feed(p: Parse, s: string): Parse
    decreases |s|
  {
    if s == "" then p else Feed(Next(p, s[0]), s[1..])
  }

  /** The pairs when nothing more comes. */
  function Ended(p: Parse): seq<Pair> {
    p.done + if p.mode.InValue? then [Pair(p.mode.key, p.mode.value)] else []
  }

  lemma {:induction false} FeedConcat(p: Parse, a: string, b: string)
    ensures Feed(p, a + b) == Feed(Feed(p, a), b)
    decreases |a|
  {
    if a == "" {
      assert a + b == b;
    } else {
      FeedConcat(Next(p, a[0]), a[1..], b);
      assert (a + b)[1..] == a[1..] + b;
    }
  }

  lemma {:induction false} FeedKey(done: seq<Pair>, k: string, s: string)
    requires '=' !in s
    ensures Feed(Parse(done, InKey(k)), s) == Parse(done, InKey(k + s))
    decreases |s|
  {
    if s == "" {
      assert k + s == k;
    } else {
      FeedKey(done, k + [s[0]], s[1..]);
      assert k + [s[0]] + s[1..] == k + s;
    }
  }

  lemma {:induction false} FeedValue(done: seq<Pair>, k: string, v: string, s: string)
    requires '&' !in s
    ensures Feed(Parse(done, InValue(k, v)), s) == Parse(done, InValue(k, v + s))
    decreases |s|
  {
    if s == "" {
      assert v + s == v;
    } else {
      FeedValue(done, k, v + [s[0]], s[1..]);
      assert v + [s[0]] + s[1..] == v + s;
    }
  }

  lemma FeedOne(p: Parse, c: char)
    ensures Feed(p, [c]) == Next(p, c)
  {
  }

  lemma FeedToEquals(done: seq<Pair>, key: string, rest: string)
    requires '=' !in key
    ensures Feed(Parse(done, InKey("")), key + ['='] + rest) == Feed(Parse(done, InValue(key, "")), rest)
  {
    FeedConcat(Parse(done, InKey("")), key + ['='], rest);
    FeedConcat(Parse(done, InKey("")), key, ['=']);
    FeedKey(done, "", key);
    assert "" + key == key;
    FeedOne(Parse(done, InKey(key)), '=');
  }

  lemma FeedToAmpersand(done: seq<Pair>, key: string, value: string, more: string)
    requires '&' !in value
    ensures Feed(Parse(done, InValue(key, "")), value + ['&'] + more)
      == Feed(Parse(done + [Pair(key, value)], InKey("")), more)
  {
    FeedConcat(Parse(done, InValue(key, "")), value + ['&'], more);
    FeedConcat(Parse(done, InValue(key, "")), value, ['&']);
    FeedValue(done, key, "", value);
    assert "" + value == value;
    FeedOne(Parse(done, InValue(key, value)), '&');
  }

  /** Splitting the body and feeding it give the same pairs. */
  lemma {:induction false} FeedIsPairs(done: seq<Pair>, body: string)
    ensures Ended(Feed(Parse(done, InKey("")), body)) == done + Pairs(body)
    decreases |body|
  {
    var k := Span(body, '=');
    if k == |body| {
      FeedKey(done, "", body);
      assert body[..k] == body;
    } else {
      var key, rest := body[..k], body[k + 1..];
      FeedToEquals(done, key, rest);
      assert body == key + ['='] + rest;
      FeedIsRest(done, key, rest);
    }
  }

  lemma {:induction false} FeedIsRest(done: seq<Pair>, key: string, rest: string)
    ensures var v := Span(rest, '&');
      Ended(Feed(Parse(done, InValue(key, "")), rest)) ==
      done + ([Pair(key, rest[..v])] + if v == |rest| then [] else Pairs(rest[v + 1..]))
    decreases |rest|
  {
    var v := Span(rest, '&');
    var value := rest[..v];
    if v == |rest| {
      FeedValue(done, key, "", rest);
      assert rest == value && "" + value == value;
    } else {
      var more := rest[v + 1..];
      assert rest == value + ['&'] + more;
      FeedToAmpersand(done, key, value, more);
      FeedIsPairs(done + [Pair(key, value)], more);
    }
  }

  // ---------------------------------------------------------------------------------------------
  // The bodies that are read the same in any segments.

  /** Keys fit the buffer, finished values hold complete escapes, and an unfinished one may end in a cut escape. */
  predicate Acceptable(p: Parse, size: nat) {
    && (forall i :: 0 <= i < |p.done| ==> |p.done[i].key| <= size && Complete(p.done[i].value))
    && |p.mode.key| <= size
    && (p.mode.InValue? ==> Loose(p.mode.value))
  }

  /** What is still to come leaves the parse acceptable; looked at only where it matters. */
  ghost predicate Suits(p: Parse, s: string, size: nat) {
    forall at {:trigger Look(at)} :: Look(at) ==> Acceptable(Feed(p, s), size)
  }

  ghost predicate WellFormed(body: string, size: nat) {
    Breakless(body) && Suits(START, body, size)
  }

  lemma SuitsAfter(p: Parse, a: string, b: string, size: nat)
    requires Suits(p, a + b, size)
    ensures Suits(Feed(p, a), b, size)
  {
    FeedConcat(p, a, b);
  }

  lemma SuitsPrefix(p: Parse, a: string, b: string, size: nat)
    requires Suits(p, a + b, size)
    ensures Suits(p, a, size)
  {
    assert Look(0);
    FeedConcat(p, a, b);
    AcceptablePrefix(Feed(p, a), b, size);
  }

  /** The key fits, and the value is as it must be. */
  lemma SuitsNow(p: Parse, s: string, size: nat)
    requires Suits(p, s, size)
    ensures |p.mode.key| <= size && (p.mode.InValue? ==> Loose(p.mode.value))
  {
    assert Look(0);
    AcceptablePrefix(p, s, size);
  }

  lemma AcceptableBefore(p: Parse, c: char, size: nat)
    requires Acceptable(Next(p, c), size)
    ensures Acceptable(p, size)
  {
    var q := Next(p, c);
    assert forall i :: 0 <= i < |p.done| ==> q.done[i] == p.done[i];
    match p.mode
    case InKey(k) =>
      assert c != '=' ==> |k| < |q.mode.key|;
    case InValue(k, v) =>
      if c == '&' {
        assert q.done[|p.done|] == Pair(k, v);
        CompleteIsReady(v);
      } else {
        var w := q.mode.value;
        assert forall i :: 0 <= i < |v| ==> v[i] == w[i];
      }
  }

  lemma {:induction false} AcceptablePrefix(p: Parse, s: string, size: nat)
    requires Acceptable(Feed(p, s), size)
    ensures Acceptable(p, size)
    decreases |s|
  {
    if s != "" {
      AcceptablePrefix(Next(p, s[0]), s[1..], size);
      AcceptableBefore(p, s[0], size);
    }
  }

  // ---------------------------------------------------------------------------------------------
  // The post processor.

  datatype State = Error | Done | Init | ProcessValue | ExpectNewLine

  predicate IsEnd(c: char) { c == '&' || IsNewline(c) }

  predicate EndFree(s: string, from: nat, to: nat)
    requires from <= to <= |s|
  {
    forall i :: from <= i < to ==> !IsEnd(s[i])
  }

  lemma NoAmpersand(s: string, from: nat, to: nat)
    requires from <= to <= |s| && EndFree(s, from, to)
    ensures '&' !in s[from..to]
  {
  }

  lemma CStrOf(s: string, p: string)
    requires p <= s && |p| < |s| && s[|p|] == '\0'
    ensures CStr(s) == CStr(p)
  {
    if p != "" && p[0] != '\0' { CStrOf(s[1..], p[1..]); }
  }

  lemma CollectSnoc(done: seq<Pair>, k: string, v: string)
    ensures Collect(done + [Pair(k, v)]) == Collect(done)[KeyText(k) := Plain(v)]
  {
    assert (done + [Pair(k, v)])[..|done|] == done;
  }

  class PostProcessor {
    const bufferSize: nat
    const buf: array<char>
    var state: State
    var bufferPos: nat
    var xbuf: string
    var valueOffset: nat
    var params: map<string, string>
    ghost var parse: Parse

    constructor (bufferSize: nat)
      ensures Valid() && parse == START && this.bufferSize == bufferSize && fresh(buf)
    {
      this.bufferSize := bufferSize;
      buf := new char[bufferSize + 1](_ => '\0');
      state, bufferPos, xbuf, valueOffset, params, parse := Init, 0, "", 0, map[], START;
    }

    /** What has been decoded of the value is its bytes but for those held back. */
    ghost predicate Delivered(done: seq<Pair>, k: string, ready: string)
      reads this`params
    {
      params == Collect(done)[KeyText(k) := Plain(ready)] || (ready == "" && params == Collect(done))
    }

    ghost predicate Valid()
      reads this, buf
    {
      && buf.Length == bufferSize + 1
      && match parse.mode {
           case InKey(k) =>
             && state == Init && xbuf == "" && '\0' !in k
             && bufferPos == |k| <= bufferSize && buf[..bufferPos] == k
             && params == Collect(parse.done)
           case InValue(k, v) =>
             && state == ProcessValue && bufferPos == 0 && CStr(buf[..]) == KeyText(k)
             && '\0' !in v && Loose(v) && xbuf == Held(v)
             && valueOffset == |Plain(Ready(v))| && Delivered(parse.done, k, Ready(v))
         }
    }

    /** The application's iterator: a first fragment starts the value, later ones continue it. */
    method Iterate(key: string, data: string, off: nat)
      requires off > 0 ==> key in params && |params[key]| == off
      modifies this`params
      ensures params == old(params)[key := (if off == 0 then "" else old(params)[key]) + data]
    {
      var value := if key in params then params[key] else "";
      if off == 0 { value := ""; }
      assert data == "" ==> value + data == value;
      if data != "" { value := value + data; }
      params := params[key := value];
    }

    method FindEquals(data: string, poff: nat) returns (equals: nat)
      requires poff < |data|
      ensures poff + equals <= |data| && '=' !in data[poff..poff + equals]
      ensures poff + equals < |data| ==> data[poff + equals] == '='
      ensures equals == Span(data[poff..], '=')
    {
      equals := 0;
      while equals + poff < |data| && data[equals + poff] != '='
        invariant equals + poff <= |data| && '=' !in data[poff..poff + equals]
      {
        equals := equals + 1;
      }
      assert data[poff..][..equals] == data[poff..poff + equals];
      SpanIs(data[poff..], '=', equals);
    }

    method StepKey(data: string, poff: nat) returns (next: nat, ok: bool)
      requires Valid() && parse.mode.InKey? && poff < |data| && '\0' !in data
      modifies this, buf
      ensures ok ==> poff < next <= |data| && Valid() && parse == Feed(old(parse), data[poff..next])
      ensures !ok ==> state == Error && |old(parse.mode.key)| + Span(data[poff..], '=') > bufferSize
    {
      var equals := FindEquals(data, poff);
      ghost var k, t, done := parse.mode.key, data[poff..poff + equals], parse.done;
      if equals + bufferPos > bufferSize {
        state := Error;
        return 0, false;
      }
      AppendKey(data[poff..poff + equals]);
      ok := true;
      if equals + poff == |data| {
        FeedKey(done, k, t);
        return |data|, true;
      }
      StartValue();
      next := poff + equals + 1;
      assert data[poff..next] == t + ['='];
      FeedKeyThenEquals(done, k, t);
    }

    method StartValue()
      requires Valid() && parse.mode.InKey?
      modifies this, buf
      ensures Valid() && parse == Parse(old(parse.done), InValue(old(parse.mode.key), ""))
    {
      ghost var k, done := parse.mode.key, parse.done;
      TerminateKey(k);
      state := ProcessValue;
      valueOffset := 0;
      parse := Parse(done, InValue(k, ""));
      assert CStr(buf[..]) == KeyText(k);
      assert Loose("") && xbuf == Held("");
      assert valueOffset == |Plain(Ready(""))|;
      assert Delivered(done, k, Ready(""));
    }

    method AppendKey(t: string)
      requires Valid() && parse.mode.InKey? && '\0' !in t && bufferPos + |t| <= bufferSize
      modifies this`bufferPos, this`parse, buf
      ensures Valid() && parse == Parse(old(parse.done), InKey(old(parse.mode.key) + t))
    {
      ghost var k := parse.mode.key;
      CMemory.Memcpy(buf, bufferPos, t);
      bufferPos := bufferPos + |t|;
      parse := Parse(parse.done, InKey(k + t));
      assert buf[..bufferPos] == buf[..|k|] + buf[|k|..bufferPos];
    }

    method TerminateKey(ghost k: string)
      requires buf.Length == bufferSize + 1 && bufferPos == |k| <= bufferSize && buf[..bufferPos] == k && '\0' !in k
      modifies this`bufferPos, buf
      ensures bufferPos == 0 && CStr(buf[..]) == KeyText(k)
    {
      buf[bufferPos] := '\0';
      bufferPos := 0;
      assert Terminated(buf, |k|) && buf[..|k|] == k;
      UnescapePlus(buf, |k|);
      var n := HttpUnescape(buf, |k|);
      assert buf[..n] == Plain(k);
      CStrOf(buf[..], buf[..n]);
    }

    /** The held bytes and the next stretch of the value go to the buffer x; what may be cut is held again. */
    method Gather(data: string, poff: nat) returns (x: array<char>, xoff: nat, next: nat, endFound: bool)
      requires |xbuf| <= 2 && poff < |data|
      modifies this`xbuf
      ensures fresh(x) && x.Length == XBUF_SIZE + 1 && poff <= next <= |data|
      ensures poff <= next <= |data| && EndFree(data, poff, next)
      ensures xbuf == Held(old(xbuf) + data[poff..next]) && xoff <= XBUF_SIZE
      ensures x[..xoff] == Ready(old(xbuf) + data[poff..next])
      ensures next < |data| && IsEnd(data[next]) ==> endFound
      ensures endFound ==> next < |data|
      ensures next > poff || (next < |data| && IsEnd(data[next]))
    {
      ghost var h := xbuf;
      var amper;
      amper, endFound := FindEnd(data, poff);
      var delta := if amper > XBUF_SIZE - |xbuf| then XBUF_SIZE - |xbuf| else amper;
      next := poff + delta;
      x := Load(xbuf, data[poff..next]);
      xoff := Hold(x, |xbuf| + delta);
    }

    /** The held bytes and new ones in a buffer of their own. */
    method Load(held: string, bytes: string) returns (x: array<char>)
      requires |held| + |bytes| <= XBUF_SIZE
      ensures fresh(x) && x.Length == XBUF_SIZE + 1 && x[..|held| + |bytes|] == held + bytes
    {
      x := new char[XBUF_SIZE + 1](_ => '\0');
      CMemory.Memcpy(x, 0, held);
      assert x[..|held|] == held;
      CMemory.Memcpy(x, |held|, bytes);
      assert x[..|held| + |bytes|] == x[..|held|] + x[|held|..|held| + |bytes|];
    }

    /** The end of the buffer that may be a cut escape is held back. */
    method Hold(x: array<char>, n: nat) returns (xoff: nat)
      requires n <= x.Length
      modifies this`xbuf
      ensures xoff <= n && xbuf == Held(x[..n]) && x[..xoff] == Ready(x[..n])
    {
      xbuf := "";
      xoff := Keep(x, n);
      if xoff < n { xbuf := x[xoff..n]; }
      SplitAt(x[..n], xoff);
      assert x[xoff..n] == x[..n][xoff..] && x[..xoff] == x[..n][..xoff];
    }

    method FindEnd(data: string, poff: nat) returns (amper: nat, endFound: bool)
      requires poff < |data|
      ensures poff + amper <= |data| && amper <= XBUF_SIZE
      ensures forall i :: poff <= i < poff + amper ==> !IsEnd(data[i])
      ensures endFound <==> poff + amper < |data| && IsEnd(data[poff + amper])
      ensures poff + amper == |data| || endFound || amper == XBUF_SIZE
    {
      amper := 0;
      while amper + poff < |data| && amper < XBUF_SIZE && !IsEnd(data[amper + poff])
        invariant amper + poff <= |data| && amper <= XBUF_SIZE
        invariant forall i :: poff <= i < poff + amper ==> !IsEnd(data[i])
      {
        amper := amper + 1;
      }
      endFound := amper + poff < |data| && IsEnd(data[amper + poff]);
    }

    /** How much of the buffer can be decoded now. */
    method Keep(x: array<char>, xoff: nat) returns (delta: nat)
      requires xoff <= x.Length
      ensures delta == HeldFrom(x[..xoff])
    {
      delta := xoff;
      if delta > 0 && x[delta - 1] == '%' {
        delta := delta - 1;
      } else if delta > 1 && x[delta - 2] == '%' {
        delta := delta - 2;
      }
    }

    /** The state of a value, but for the bytes w the buffers already stand for. */
    ghost predicate Midway(w: string)
      reads this, buf
    {
      && buf.Length == bufferSize + 1 && parse.mode.InValue? && state == ProcessValue && bufferPos == 0
      && CStr(buf[..]) == KeyText(parse.mode.key)
      && '\0' !in w && Loose(w) && xbuf == Held(w)
      && valueOffset == |Plain(Ready(parse.mode.value))|
      && Delivered(parse.done, parse.mode.key, Ready(parse.mode.value))
    }

    /** The gathered bytes are decoded and handed to the application. */
    method Emit(x: array<char>, xoff: nat, ghost w: string)
      requires Midway(w) && x != buf && xoff < x.Length && '\0' !in x[..xoff]
      requires Plain(Ready(w)) == Plain(Ready(parse.mode.value)) + Plain(x[..xoff])
      modifies this`params, this`valueOffset, this`parse, x
      ensures Valid() && parse == Parse(old(parse.done), InValue(old(parse.mode.key), w))
      ensures params == Collect(parse.done)[KeyText(parse.mode.key) := Plain(Ready(w))]
    {
      ghost var s := x[..xoff];
      var n := Decode(x, xoff);
      Iterate(CStr(buf[..]), x[..n], valueOffset);
      valueOffset := valueOffset + n;
      parse := Parse(parse.done, InValue(parse.mode.key, w));
    }

    method Decode(x: array<char>, xoff: nat) returns (n: nat)
      requires xoff < x.Length && '\0' !in x[..xoff]
      modifies x
      ensures n <= xoff && x[..n] == Plain(old(x[..xoff]))
    {
      x[xoff] := '\0';
      UnescapePlus(x, xoff);
      n := HttpUnescape(x, xoff);
    }

    method ExpectEnd()
      requires Valid() && parse.mode.InValue?
      requires params == Collect(parse.done)[KeyText(parse.mode.key) := Plain(Ready(parse.mode.value))]
      modifies this`state
      ensures state == ExpectNewLine && params == Collect(Ended(parse))
    {
      PlainReady(parse.mode.value);
      CollectSnoc(parse.done, parse.mode.key, parse.mode.value);
      state := ExpectNewLine;
    }

    method StartKey()
      requires Valid() && parse.mode.InValue? && Complete(parse.mode.value)
      requires params == Collect(parse.done)[KeyText(parse.mode.key) := Plain(Ready(parse.mode.value))]
      modifies this`state, this`parse
      ensures Valid() && parse == Next(old(parse), '&')
    {
      CompleteIsReady(parse.mode.value);
      CollectSnoc(parse.done, parse.mode.key, parse.mode.value);
      state := Init;
      parse := Next(parse, '&');
    }

    /** The gathered bytes w of the value, of which x holds what can be decoded. */
    method GatherValue(data: string, poff: nat)
      returns (x: array<char>, xoff: nat, next: nat, endFound: bool, ghost w: string)
      requires Valid() && parse.mode.InValue? && poff < |data| && '\0' !in data
      requires IsNewline(data[poff]) || Suits(parse, data[poff..], bufferSize)
      modifies this`xbuf
      ensures fresh(x) && xoff < x.Length && poff <= next <= |data| && Midway(w)
      ensures Ready(w) == Ready(parse.mode.value) + x[..xoff] && '\0' !in x[..xoff]
      ensures Plain(Ready(w)) == Plain(Ready(parse.mode.value)) + Plain(x[..xoff])
      ensures Feed(parse, data[poff..next]) == Parse(parse.done, InValue(parse.mode.key, w))
      ensures IsNewline(data[poff]) || Suits(Parse(parse.done, InValue(parse.mode.key, w)), data[next..], bufferSize)
      ensures poff <= next <= |data| && EndFree(data, poff, next)
      ensures next < |data| && IsEnd(data[next]) ==> endFound
      ensures endFound ==> next < |data|
      ensures next > poff || (next < |data| && IsEnd(data[next]))
    {
      ghost var v := parse.mode.value;
      x, xoff, next, endFound := Gather(data, poff);
      w := v + data[poff..next];
      if IsNewline(data[poff]) {
        assert data[poff..next] == "" && v + "" == v;
      } else {
        FeedAdvance(parse, data, poff, next, bufferSize);
      }
      ReadyAdvance(v, data[poff..next]);
      assert x[..xoff] == Ready(Held(v) + data[poff..next]) <= Held(v) + data[poff..next];
    }

    /** More of a value is gathered, and decoded and handed over unless all of it is held back. */
    method Absorb(data: string, poff: nat) returns (next: nat, endFound: bool, emitted: bool)
      requires Valid() && parse.mode.InValue? && poff < |data| && '\0' !in data
      requires IsNewline(data[poff]) || Suits(parse, data[poff..], bufferSize)
      modifies this
      ensures poff <= next <= |data| && parse == Feed(old(parse), data[poff..next])
      ensures Valid() && parse.mode.InValue? && (IsNewline(data[poff]) || Suits(parse, data[next..], bufferSize))
      ensures if emitted then params == Collect(parse.done)[KeyText(parse.mode.key) := Plain(Ready(parse.mode.value))]
              else next == |data|
      ensures next < |data| && IsEnd(data[next]) ==> endFound
      ensures endFound ==> next < |data|
      ensures next == poff <==> IsEnd(data[poff])
    {
      var x, xoff;
      ghost var w;
      x, xoff, next, endFound, w := GatherValue(data, poff);
      emitted := xoff != 0 || next != |data|;
      if emitted {
        Emit(x, xoff, w);
      } else {
        HoldAll(w);
      }
    }

    ghost method HoldAll(w: string)
      requires Midway(w) && Ready(w) == Ready(parse.mode.value)
      modifies this`parse
      ensures Valid() && parse == Parse(old(parse.done), InValue(old(parse.mode.key), w))
    {
      parse := Parse(parse.done, InValue(parse.mode.key, w));
    }

    /** One turn on a value: more of it is decoded and handed over, and its end is noticed. */
    method StepValue(data: string, poff: nat) returns (next: nat)
      requires Valid() && parse.mode.InValue? && poff < |data| && '\0' !in data
      requires IsNewline(data[poff]) || Suits(parse, data[poff..], bufferSize)
      modifies this
      ensures poff <= next <= |data| && parse == Feed(old(parse), data[poff..next])
      ensures state != ExpectNewLine ==> Valid() && next > poff
      ensures state == ExpectNewLine ==> next < |data| && IsNewline(data[next]) && params == Collect(Ended(parse))
      ensures IsNewline(data[poff]) ==> state == ExpectNewLine && next == poff
    {
      var mid, endFound, emitted := Absorb(data, poff);
      next := mid;
      if emitted && endFound { next := TurnAt(data, poff, mid, old(parse)); }
    }

    /** The end of the value, if the character there is one. */
    method TurnAt(data: string, poff: nat, at: nat, ghost before: Parse) returns (next: nat)
      requires Valid() && parse.mode.InValue? && poff <= at < |data|
      requires IsNewline(data[at]) || Suits(parse, data[at..], bufferSize)
      requires params == Collect(parse.done)[KeyText(parse.mode.key) := Plain(Ready(parse.mode.value))]
      requires parse == Feed(before, data[poff..at])
      modifies this`state, this`parse
      ensures at <= next <= at + 1 && parse == Feed(before, data[poff..next])
      ensures if IsNewline(data[at]) then state == ExpectNewLine && next == at && params == Collect(Ended(parse))
              else Valid() && (data[at] == '&' ==> next == at + 1)
    {
      next := at;
      if IsNewline(data[at]) {
        ExpectEnd();
      } else if data[at] == '&' {
        PassAmpersand(data, poff, at, before);
        next := at + 1;
      }
    }

    method PassAmpersand(data: string, poff: nat, at: nat, ghost before: Parse)
      requires Valid() && parse.mode.InValue? && poff <= at < |data| && data[at] == '&'
      requires Suits(parse, data[at..], bufferSize)
      requires params == Collect(parse.done)[KeyText(parse.mode.key) := Plain(Ready(parse.mode.value))]
      requires parse == Feed(before, data[poff..at])
      modifies this`state, this`parse
      ensures Valid() && parse == Feed(before, data[poff..at + 1])
    {
      FeedPast(before, data, poff, at);
      ValueEnds(parse, data, at, bufferSize);
      StartKey();
    }

    /** One segment. With what is acceptable to come no error branch is taken. */
    method Process(data: string) returns (ok: bool)
      requires Valid() && Suits(parse, data, bufferSize) && Breakless(data)
      modifies this, buf
      ensures ok && Valid() && parse == Feed(old(parse), data)
    {
      var poff := 0;
      assert data[0..] == data && data[..0] == "";
      while poff < |data|
        invariant poff <= |data| && Valid() && parse == Feed(old(parse), data[..poff])
        invariant Suits(parse, data[poff..], bufferSize)
      {
        var was := poff;
        if state == Init {
          KeyFits(parse, data[poff..], bufferSize);
          poff, ok := StepKey(data, poff);
          if !ok { return; }
        } else {
          poff := StepValue(data, poff);
        }
        FeedFurther(old(parse), data, was, poff, bufferSize);
      }
      assert data[..poff] == data;
      ok := true;
    }

    /** A value without its end is ended; a key without its "=" is dropped, and the parse did not end nicely. */
    method Destroy() returns (nicely: bool)
      requires Valid() && Suits(parse, "", bufferSize)
      modifies this
      ensures params == Collect(Ended(old(parse)))
      ensures state == if old(parse).mode.InValue? then Done else old(state)
      ensures nicely <==> state == Done && xbuf == ""
    {
      if state == ProcessValue {
        var n := StepValue("\n", 0);
        assert "\n"[0..n] == "";
        state := Done;
      } else {
        assert Ended(parse) == parse.done;
      }
      nicely := xbuf == "" && (state == Done || state == ExpectNewLine);
    }
  }

  /** No byte that a form never holds unencoded. */
  predicate Breakless(s: string) {
    forall i :: 0 <= i < |s| ==> s[i] != '\0' && !IsNewline(s[i])
  }

  lemma KeyFits(p: Parse, s: string, size: nat)
    requires p.mode.InKey? && Suits(p, s, size)
    ensures |p.mode.key| + Span(s, '=') <= size
  {
    var n := Span(s, '=');
    assert s == s[..n] + s[n..];
    SuitsAfter(p, s[..n], s[n..], size);
    FeedKey(p.done, p.mode.key, s[..n]);
    SuitsNow(Feed(p, s[..n]), s[n..], size);
  }

  lemma FeedFurther(p: Parse, data: string, from: nat, to: nat, size: nat)
    requires from <= to <= |data| && Suits(Feed(p, data[..from]), data[from..], size)
    ensures Feed(p, data[..to]) == Feed(Feed(p, data[..from]), data[from..to])
    ensures Suits(Feed(p, data[..to]), data[to..], size)
  {
    assert data[..to] == data[..from] + data[from..to];
    FeedConcat(p, data[..from], data[from..to]);
    assert data[from..] == data[from..to] + data[to..];
    SuitsAfter(Feed(p, data[..from]), data[from..to], data[to..], size);
  }

  ghost function Received(p: Parse, segments: seq<string>, i: nat): Answer
    requires i <= |segments|
  {
    if p == Feed(START, Joined(segments[..i])) then Yes else No
  }

  /** However a well-formed body is cut into segments, its parameters are those of the whole. */
  method ParseForm(segments: seq<string>, bufferSize: nat) returns (params: map<string, string>)
    requires WellFormed(Joined(segments), bufferSize)
    ensures params == Collect(Pairs(Joined(segments)))
  {
    var pp := new PostProcessor(bufferSize);
    var i := 0;
    while i < |segments|
      invariant 0 <= i <= |segments| && pp.Valid() && fresh(pp) && fresh(pp.buf) && pp.bufferSize == bufferSize
      invariant Received(pp.parse, segments, i) == Yes
    {
      ReceivedNext(pp.parse, segments, i, bufferSize);
      var _ := pp.Process(segments[i]);
      i := i + 1;
    }
    ReceivedAll(pp.parse, segments, bufferSize);
    var _ := pp.Destroy();
    params := pp.params;
  }

  lemma ReceivedAll(p: Parse, segments: seq<string>, size: nat)
    requires WellFormed(Joined(segments), size) && Received(p, segments, |segments|) == Yes
    ensures Suits(p, "", size) && Ended(p) == Pairs(Joined(segments))
  {
    var body := Joined(segments);
    assert segments[..|segments|] == segments && body + "" == body;
    SuitsAfter(START, body, "", size);
    FeedIsPairs([], body);
  }

  lemma ReceivedNext(p: Parse, segments: seq<string>, i: nat, size: nat)
    requires i < |segments| && WellFormed(Joined(segments), size) && Received(p, segments, i) == Yes
    ensures Received(Feed(p, segments[i]), segments, i + 1) == Yes
    ensures Suits(p, segments[i], size) && Breakless(segments[i])
  {
    var whole, before, here := Joined(segments), Joined(segments[..i]), segments[i];
    assert segments[..i + 1][..i] == segments[..i];
    JoinedPrefix(segments, i + 1);
    FeedConcat(START, before, here);
    var after := whole[|before + here|..];
    assert whole == before + (here + after);
    SuitsAfter(START, before, here + after, size);
    SuitsPrefix(p, here, after, size);
    forall j | 0 <= j < |here| ensures here[j] != '\0' && !IsNewline(here[j]) {
      assert here[j] == whole[|before| + j];
    }
  }

  lemma FeedPast(p: Parse, data: string, from: nat, to: nat)
    requires from <= to < |data|
    ensures Feed(p, data[from..to + 1]) == Next(Feed(p, data[from..to]), data[to])
  {
    assert data[from..to + 1] == data[from..to] + [data[to]];
    FeedConcat(p, data[from..to], [data[to]]);
    FeedOne(Feed(p, data[from..to]), data[to]);
  }

  lemma ValueEnds(p: Parse, data: string, mid: nat, size: nat)
    requires p.mode.InValue? && mid < |data| && data[mid] == '&'
    requires Suits(p, data[mid..], size)
    ensures Complete(p.mode.value)
  {
    assert Look(0);
    var q := Next(p, '&');
    assert Feed(p, data[mid..]) == Feed(q, data[mid..][1..]);
    AcceptablePrefix(q, data[mid..][1..], size);
    assert q.done[|p.done|] == Pair(p.mode.key, p.mode.value);
  }

  /** A stretch without an end character makes the value longer. */
  lemma FeedAdvance(p: Parse, data: string, poff: nat, mid: nat, size: nat)
    requires p.mode.InValue? && poff <= mid <= |data| && EndFree(data, poff, mid)
    requires Suits(p, data[poff..], size)
    ensures var q := Parse(p.done, InValue(p.mode.key, p.mode.value + data[poff..mid]));
      Feed(p, data[poff..mid]) == q && Suits(q, data[mid..], size) && Loose(q.mode.value)
  {
    var t, rest := data[poff..mid], data[mid..];
    NoAmpersand(data, poff, mid);
    ValueGrows(p, t);
    CutInTwo(data, poff, mid);
    SuitsLonger(p, t, rest, data[poff..], size);
  }

  lemma ValueGrows(p: Parse, t: string)
    requires p.mode.InValue? && '&' !in t
    ensures Feed(p, t) == Parse(p.done, InValue(p.mode.key, p.mode.value + t))
  {
    assert p == Parse(p.done, InValue(p.mode.key, p.mode.value));
    FeedValue(p.done, p.mode.key, p.mode.value, t);
  }

  lemma CutInTwo(s: string, from: nat, mid: nat)
    requires from <= mid <= |s|
    ensures s[from..] == s[from..mid] + s[mid..]
  {
  }

  lemma SuitsLonger(p: Parse, t: string, rest: string, whole: string, size: nat)
    requires whole == t + rest && Suits(p, whole, size)
    ensures Suits(Feed(p, t), rest, size)
    ensures Feed(p, t).mode.InValue? ==> Loose(Feed(p, t).mode.value)
  {
    SuitsAfter(p, t, rest, size);
    SuitsNow(Feed(p, t), rest, size);
  }

  /** Decoding goes through a cut whose first part holds back a cut escape. */
  lemma ReadyAdvance(v: string, t: string)
    requires Loose(v + t)
    ensures Held(v + t) == Held(Held(v) + t) && Ready(v + t) == Ready(v) + Ready(Held(v) + t)
    ensures Plain(Ready(v + t)) == Plain(Ready(v)) + Plain(Ready(Held(v) + t))
  {
    var s := Held(v) + t;
    LooseBefore(v, t);
    if t == "" {
      assert v + t == v && s == Held(v);
      HeldAgain(v);
      assert Plain(Ready(v)) + "" == Plain(Ready(v)) && Ready(v) + "" == Ready(v);
      return;
    }
    ReadyIsComplete(v);
    assert v + t == Ready(v) + s;
    HeldBehind(Ready(v), s);
    PlainConcat(Ready(v), Ready(s));
  }

  lemma SplitAt(s: string, n: nat)
    requires n <= |s|
    ensures n == |s| ==> s[n..] == "" && s[..n] == s
  {
  }

  lemma SpanIs(s: string, c: char, n: nat)
    requires n <= |s| && c !in s[..n] && (n < |s| ==> s[n] == c)
    ensures Span(s, c) == n
  {
    if n > 0 {
      assert s[0] == s[..n][0];
      assert s[..n] == [s[0]] + s[1..][..n - 1];
      SpanIs(s[1..], c, n - 1);
    }
  }

  lemma FeedKeyThenEquals(done: seq<Pair>, k: string, t: string)
    requires '=' !in t
    ensures Feed(Parse(done, InKey(k)), t + ['=']) == Parse(done, InValue(k + t, ""))
  {
    FeedKey(done, k, t);
    FeedConcat(Parse(done, InKey(k)), t, ['=']);
    FeedOne(Parse(done, InKey(k + t)), '=');
  }
}
