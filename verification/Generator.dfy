/** A response pulled from a generator: what is sent is what was generated, byte by byte. */
module Generator {
  import opened Common

  // ---------------------------------------------------------------------------------------------
  // The application's generator.

  /** It appends to its buffer, and gives up what has been read from the front. */
  class ResponseGenerator {
    var buffer: seq<int>
    var ended: bool
    ghost var made: seq<int>
    /** How often it can still be asked before it ends. */
    var left: nat
    /** How many bytes it held each time it was asked. */
    ghost var asked: seq<nat>

    constructor (steps: nat)
      ensures Valid() && buffer == made == [] && !ended && asked == []
    {
      buffer, ended, made, left, asked := [], false, [], steps, [];
    }

    ghost predicate Valid()
      reads this
    {
      |buffer| <= |made| && made[|made| - |buffer|..] == buffer
    }

    /** Some more bytes, or none; false when there will be no more. */
    method Generate() returns (more: bool)
      requires Valid() && !ended
      modifies this
      ensures Valid() && old(buffer) <= buffer && made == old(made) + buffer[|old(buffer)|..]
      ensures ended == !more && (more ==> left < old(left)) && asked == old(asked) + [|old(buffer)|]
    {
      asked := asked + [|buffer|];
      var bytes: seq<int> := *;
      buffer := buffer + bytes;
      made := made + bytes;
      more := *;
      if left == 0 { more := false; }
      if more { left := left - 1; }
      ended := !more;
    }

    method Consume(n: nat)
      requires Valid() && n <= |buffer|
      modifies this`buffer
      ensures Valid() && buffer == old(buffer)[n..]
    {
      buffer := buffer[n..];
    }
  }

  // ---------------------------------------------------------------------------------------------
  // The content reader of the request.

  datatype Reading = EndOfStream | Bytes(data: seq<int>)

  class Request {
    const minGenerated: nat
    const generator: ResponseGenerator
    var generatorEnd: bool
    var generatorOffset: nat
    /** What the reader has handed out. */
    ghost var given: seq<int>

    constructor (minGenerated: nat, steps: nat)
      ensures this.minGenerated == minGenerated
      ensures Valid() && given == [] && fresh(generator) && generator.made == []
    {
      this.minGenerated := minGenerated;
      generator := new ResponseGenerator(steps);
      generatorEnd, generatorOffset, given := false, 0, [];
    }

    ghost predicate Valid()
      reads this, generator
    {
      && generator.Valid()
      && generatorOffset <= |generator.buffer| && generatorEnd == generator.ended
      && given + generator.buffer[generatorOffset..] == generator.made
    }

    /**
     * At most max of the generated bytes. The end comes only when the generator has ended and nothing is left,
     * unless no minimum is set: then a generator with nothing unread is not even asked.
     */
    method Callback(max: nat) returns (r: Reading)
      requires Valid() && max >= 1
      modifies this, generator
      ensures Valid() && old(generator.made) <= generator.made
      ensures AskedBelow(old(generator.asked), old(generatorOffset), if minGenerated < max then minGenerated else max)
      ensures r == EndOfStream ==>
        (given == generator.made && given == old(given) && (minGenerated >= 1 ==> generator.ended))
      ensures minGenerated == 0 && old(generatorOffset == |generator.buffer|) ==>
        (r == EndOfStream && unchanged(generator))
      ensures r.Bytes? ==> 1 <= |r.data| <= max && given == old(given) + r.data
      ensures r.Bytes? && |r.data| < max ==> given == generator.made
      ensures r.Bytes? && |r.data| < max && |r.data| < minGenerated ==> generator.ended
      ensures r.Bytes? && minGenerated < max ==>
        (generatorOffset == 0 <==> |generator.buffer| - generatorOffset < minGenerated)
      ensures r.Bytes? && minGenerated >= max ==>
        (generatorOffset == 0 <==> |generator.buffer| - generatorOffset < max)
    {
      var minimum := if minGenerated < max then minGenerated else max;
      FillUp(minimum);
      if |generator.buffer| <= generatorOffset {
        assert generator.buffer[generatorOffset..] == [];
        return EndOfStream;
      }
      var n := |generator.buffer| - generatorOffset;
      if n > max { n := max; }
      r := Bytes(generator.buffer[generatorOffset..generatorOffset + n]);
      HandOut(n);
      if |generator.buffer| - generatorOffset < minimum { Trim(); }
    }

    /** Since then the generator was asked only while it held fewer unread bytes than this. */
    ghost predicate AskedBelow(before: seq<nat>, offset: nat, minimum: nat)
      reads generator
    {
      before <= generator.asked
        && forall i :: |before| <= i < |generator.asked| ==> generator.asked[i] - offset < minimum
    }

    /** What has been read leaves the generator. */
    method Trim()
      requires Valid()
      modifies this`generatorOffset, generator`buffer
      ensures Valid() && generatorOffset == 0 && generator.buffer == old(generator.buffer[generatorOffset..])
    {
      assert generator.buffer[generatorOffset..][0..] == generator.buffer[generatorOffset..];
      generator.Consume(generatorOffset);
      generatorOffset := 0;
    }

    /** The generator is asked until there is enough, or no more to come. */
    method FillUp(minimum: nat)
      requires Valid()
      modifies this`generatorEnd, generator
      ensures Valid() && old(generator.made) <= generator.made && given == old(given)
      ensures |generator.buffer| - generatorOffset < minimum ==> generator.ended
      ensures AskedBelow(old(generator.asked), generatorOffset, minimum)
      ensures minimum == 0 ==> unchanged(generator)
    {
      while |generator.buffer| - generatorOffset < minimum && !generatorEnd
        invariant Valid() && old(generator.made) <= generator.made && (minimum == 0 ==> unchanged(generator))
        invariant AskedBelow(old(generator.asked), generatorOffset, minimum)
        decreases !generatorEnd, generator.left
      {
        FillOnce();
      }
    }

    method FillOnce()
      requires Valid() && !generatorEnd
      modifies this`generatorEnd, generator
      ensures Valid() && old(generator.made) <= generator.made && given == old(given)
      ensures generatorEnd || generator.left < old(generator.left)
      ensures generator.asked == old(generator.asked) + [|old(generator.buffer)|]
    {
      ghost var was := generator.buffer;
      var more := generator.Generate();
      generatorEnd := !more;
    }

    method HandOut(n: nat)
      requires Valid() && generatorOffset + n <= |generator.buffer|
      modifies this`generatorOffset, this`given
      ensures Valid() && generatorOffset == old(generatorOffset) + n
      ensures given == old(given) + generator.buffer[old(generatorOffset)..generatorOffset]
    {
      ghost var b := generator.buffer;
      ghost var more := b[generatorOffset..generatorOffset + n];
      given, generatorOffset := given + more, generatorOffset + n;
    }
  }

  // ---------------------------------------------------------------------------------------------
  // The connection that sends the response; the length of the body is not known beforehand.

  datatype BodyState = Ready | Unready | Closed

  class Sender {
    const request: Request
    const blockSize: nat
    var state: BodyState
    var data: seq<int>
    var dataStart: nat
    var writePosition: nat
    ghost var sent: seq<int>

    constructor (request: Request, blockSize: nat)
      requires request.Valid() && request.minGenerated >= 1 && request.given == [] && blockSize >= 1
      ensures Valid() && sent == [] && this.request == request && state == Unready
    {
      this.request, this.blockSize := request, blockSize;
      state, data, dataStart, writePosition, sent := Unready, [], 0, 0, [];
    }

    /** The window of the response is the last the reader has given; everything before the position is sent. */
    ghost predicate Valid()
      reads this, request, request.generator
    {
      && request.Valid() && request.minGenerated >= 1 && blockSize >= 1
      && |sent| == writePosition && dataStart <= writePosition <= dataStart + |data|
      && sent + data[writePosition - dataStart..] == request.given
    }

    /** What was sent, what waits in the window and what is unread in the generator make up what was generated. */
    lemma Conserved()
      requires Valid()
      ensures sent + data[writePosition - dataStart..] + request.generator.buffer[request.generatorOffset..]
        == request.generator.made
    {
    }

    /** The window is filled again once all of it is sent; at the end of the stream the connection closes. */
    method TryReadyNormalBody() returns (ready: bool)
      requires Valid() && state != Closed && writePosition < SIZE_UNKNOWN
      modifies this, request, request.generator
      ensures Valid() && sent == old(sent) && old(request.generator.made) <= request.generator.made
      ensures ready ==> state == old(state) && writePosition < dataStart + |data|
      ensures |request.given| > |sent| || !ready
      ensures !ready ==> state == Closed && request.generator.ended && sent == request.generator.made
    {
      if dataStart <= writePosition && |data| + dataStart > writePosition { return true; }
      var max := if blockSize < SIZE_UNKNOWN - writePosition then blockSize else SIZE_UNKNOWN - writePosition;
      var r := request.Callback(max);
      if r == EndOfStream {
        state := Closed;
        return false;
      }
      NewWindow(r.data);
      ready := true;
    }

    method NewWindow(bytes: seq<int>)
      requires request.Valid() && request.minGenerated >= 1 && blockSize >= 1 && |sent| == writePosition
      requires state != Closed
      requires sent + bytes == request.given
      modifies this`dataStart, this`data
      ensures Valid() && data == bytes && dataStart == writePosition
    {
      dataStart, data := writePosition, bytes;
      assert data[writePosition - dataStart..] == bytes;
    }

    /** In the idle loop. */
    method HandleIdle()
      requires Valid() && state == Unready && writePosition < SIZE_UNKNOWN
      modifies this, request, request.generator
      ensures Valid() && sent == old(sent) && state != Unready
      ensures state == Ready ==> |request.given| > |sent|
      ensures state == Closed ==> request.generator.ended && sent == request.generator.made
    {
      var ready := TryReadyNormalBody();
      if ready { state := Ready; }
    }

    /** The socket takes some bytes from the position on, or none yet, or fails. */
    method HandleWrite(accepts: nat, failed: bool)
      requires Valid() && state == Ready && writePosition < SIZE_UNKNOWN
      modifies this, request, request.generator
      ensures Valid() && old(sent) <= sent && old(request.generator.made) <= request.generator.made
      ensures failed ==> state == Closed
      ensures state == Ready ==> |request.given| > |old(sent)|
      ensures state == Ready ==>
        |sent| == if accepts > |request.given| - |old(sent)| then |request.given| else |old(sent)| + accepts
      ensures state == Closed ==>
        (sent == old(sent) && (failed || (request.generator.ended && sent == request.generator.made)))
    {
      var ready := TryReadyNormalBody();
      if !ready { return; }
      if failed {
        state := Closed;
        return;
      }
      var from := writePosition - dataStart;
      var k := if accepts > |data| - from then |data| - from else accepts;
      Send(k);
    }

    method Send(k: nat)
      requires Valid() && writePosition - dataStart + k <= |data|
      modifies this`writePosition, this`sent
      ensures Valid() && writePosition == old(writePosition) + k
      ensures sent == old(sent) + data[old(writePosition) - dataStart..writePosition - dataStart]
    {
      ghost var from := writePosition - dataStart;
      assert data[from..] == data[from..from + k] + data[from + k..];
      sent := sent + data[from..from + k];
      writePosition := writePosition + k;
    }
  }
}
