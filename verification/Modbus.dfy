/** MODBUS RTU frames: building a request, checking an answer and taking its payload out. */
module Modbus {
  import opened Common
  import CMemory
  import opened Crc
  import CrcTable

  /** The bytes the CRC really covers: its length argument is cut to 8 bits. */
  function Covered(s: seq<Byte>): seq<Byte> { s[..|s| % 256] }

  lemma CoveredWhole(s: seq<Byte>)
    requires |s| < 256
    ensures Covered(s) == s
  {
  }

  function WithCrc(body: seq<Byte>): seq<Byte> {
    var crc := Crc16(Covered(body), 0xFFFF);
    body + [Low(crc), High(crc)]
  }

  /** The worked example of the standard: behind the bytes 2 and 7 the CRC is sent as 41 and 12 hexadecimal. */
  lemma StandardExample()
    ensures WithCrc([0x02, 0x07]) == [0x02, 0x07, 0x41, 0x12]
  {
    var s: seq<Byte> := [0x02, 0x07];
    CrcTable.TableCrcIsCrc16(s, 0xFFFF);
    assert s[..1] == [0x02] && s[..1][..0] == [] && Covered(s) == s;
    assert CrcTable.TableStep(0xFFFF, 0x02) == 0x813E;
    assert CrcTable.TableStep(0x813E, 0x07) == 0x1241;
  }

  lemma LastTwo<T>(s: seq<T>, x: T, y: T)
    requires |s| >= 2
    ensures s == s[..|s| - 2] + [x, y] <==> s[|s| - 2] == x && s[|s| - 1] == y
  {
    var n := |s| - 2;
    assert s == s[..n] + [s[n], s[n + 1]];
    if s == s[..n] + [x, y] {
      assert (s[..n] + [x, y])[n] == x && (s[..n] + [x, y])[n + 1] == y;
    }
  }

  lemma Front<T>(s: seq<T>, t: seq<T>)
    ensures (s + t)[..|s|] == s && (s + t)[|s|..] == t
  {
  }

  lemma Extend<T>(s: seq<T>, from: nat, i: nat)
    requires from <= i < |s|
    ensures s[from..i + 1] == s[from..i] + [s[i]]
    ensures s[..i + 1][..i] == s[..i]
  {
  }

  // ---------------------------------------------------------------------------------------------
  // Requests.

  datatype IoVec = NoBase(len: nat) | Base(bytes: seq<Byte>)

  function Gather(v: seq<IoVec>): seq<Byte> {
    if v == [] then []
    else Gather(v[..|v| - 1]) + (match v[|v| - 1] case NoBase(_) => [] case Base(bytes) => bytes)
  }

  function Source(v: array?<IoVec>, count: int): seq<IoVec>
    requires v != null ==> count <= v.Length
    reads v
  {
    if v == null || count < 0 then [] else v[..count]
  }

  method TotalLength(source: seq<IoVec>) returns (srcLenAll: nat)
    ensures srcLenAll == |Gather(source)|
  {
    srcLenAll := 0;
    for i := 0 to |source|
      invariant srcLenAll == |Gather(source[..i])|
    {
      Extend(source, 0, i);
      assert source[..i + 1][i] == source[i];
      if source[i].Base? && |source[i].bytes| > 0 {
        srcLenAll := srcLenAll + |source[i].bytes|;
      }
    }
    assert source[..|source|] == source;
  }

  lemma GatherMore(v: seq<IoVec>, i: nat)
    requires i < |v|
    ensures Gather(v[..i + 1]) == Gather(v[..i]) + (if v[i].Base? then v[i].bytes else [])
  {
    assert v[..i + 1][..i] == v[..i];
  }

  lemma {:induction false} GatherPrefix(v: seq<IoVec>, n: nat)
    requires n <= |v|
    ensures |Gather(v[..n])| <= |Gather(v)|
  {
    if n < |v| {
      GatherPrefix(v[..|v| - 1], n);
      assert v[..|v| - 1][..n] == v[..n];
    } else {
      assert v[..n] == v;
    }
  }

  /** Appends bytes at a position; what lies beyond a later position stays. */
  method Append(dst: array<Byte>, at: nat, bytes: seq<Byte>, limit: nat) returns (end: nat)
    requires at + |bytes| <= limit <= dst.Length
    modifies dst
    ensures end == at + |bytes|
    ensures dst[..end] == old(dst[..at]) + bytes
    ensures dst[limit..] == old(dst[limit..])
  {
    ghost var before := dst[..];
    CMemory.Memcpy(dst, at, bytes);
    end := at + |bytes|;
    CMemory.Glue(dst[..], 0, at, end, end);
    CMemory.Inside(before[end..], dst[end..], 0, dst.Length - end, limit - end, dst.Length - end);
  }

  method WriteBody(dst: array<Byte>, limit: nat, devAddress: Byte, funCode: Byte, source: seq<IoVec>)
    returns (na: nat)
    requires 2 + |Gather(source)| == limit && limit + 2 <= dst.Length
    modifies dst
    ensures na == limit
    ensures dst[..na] == [devAddress, funCode] + Gather(source)
    ensures dst[limit + 2..] == old(dst[limit + 2..])
  {
    na := Append(dst, 0, [devAddress, funCode], limit + 2);
    assert Gather(source[..0]) == [];
    for i := 0 to |source|
      invariant na == 2 + |Gather(source[..i])| <= limit
      invariant dst[..na] == [devAddress, funCode] + Gather(source[..i])
      invariant dst[limit + 2..] == old(dst[limit + 2..])
    {
      GatherMore(source, i);
      GatherPrefix(source, i + 1);
      if source[i].Base? && |source[i].bytes| > 0 {
        Together([devAddress, funCode], Gather(source[..i]), source[i].bytes);
        na := Append(dst, na, source[i].bytes, limit + 2);
      }
    }
    assert source[..|source|] == source;
  }

  lemma Together<T>(a: seq<T>, b: seq<T>, c: seq<T>)
    ensures a + b + c == a + (b + c)
  {
  }

  /** The room for a request: too little for the CRC's 8-bit length to matter. */
  const SEND_DATA_BUFSIZE := 256

  method CreateModBusADU(dst: array<Byte>, dstSize: int, funCode: Byte, srcVector: array?<IoVec>, srcCount: int,
                         devAddress: Byte)
    returns (ok: bool, dstLen: int)
    requires dstSize <= dst.Length
    requires srcVector != null ==> srcCount <= srcVector.Length
    modifies dst
    ensures dstLen == |Gather(old(Source(srcVector, srcCount)))| + 4
    ensures ok <==> dstLen <= dstSize
    ensures ok ==> dst[..dstLen] == WithCrc([devAddress, funCode] + Gather(old(Source(srcVector, srcCount))))
    ensures ok ==> dst[dstLen..] == old(dst[dstLen..])
    ensures !ok ==> dst[..] == old(dst[..])
    ensures ok && dstSize <= SEND_DATA_BUFSIZE ==> Crc16(dst[..dstLen], 0xFFFF) == 0
  {
    var source := Source(srcVector, srcCount);
    var srcLenAll := TotalLength(source);
    dstLen := srcLenAll + 4;
    ok := dstLen <= dstSize;
    if ok {
      var na := WriteBody(dst, dstLen - 2, devAddress, funCode, source);
      var crc := CalcCrc16(dst, na % 256, 0xFFFF);
      assert dst[..na % 256] == Covered(dst[..na]);
      ghost var body := dst[..na];
      na := Append(dst, na, [Low(crc), High(crc)], dstLen);
      RequestResidue(body);
    }
  }

  // ---------------------------------------------------------------------------------------------
  // Answers.

  function Number(b: Byte): nat { b as nat }

  lemma NumberOf(n: nat)
    requires n < 256
    ensures Number(n as Byte) == n
  {
    assert n % 256 == n;
  }

  /** The first three bytes are those of the answer to a request. */
  predicate Matches(slaveId: int, funcNum: int, regCount: int, answer: seq<Byte>) {
    && |answer| >= 3
    && Number(answer[0]) == slaveId && Number(answer[1]) == funcNum && Number(answer[2]) == 2 * regCount
  }

  /** When an answer is taken; note that its length is only bounded from below. */
  predicate Accepts(slaveId: int, funcNum: int, regCount: int, answer: seq<Byte>) {
    && Matches(slaveId, funcNum, regCount, answer)
    && answer == WithCrc(answer[..|answer| - 2])
    && |answer| >= 3 + 2 * regCount
  }

  method EndsInCrc(a: seq<Byte>) returns (ok: bool)
    requires |a| >= 2
    ensures ok <==> a == WithCrc(a[..|a| - 2])
  {
    var n := |a| - 2;
    var temp := new Byte[n];
    for k := 0 to n
      invariant temp[..k] == a[..k]
    {
      temp[k] := a[k];
      Extend(temp[..], 0, k);
      Extend(a, 0, k);
    }
    assert temp[..n % 256] == temp[..n][..n % 256] == Covered(a[..n]);
    var crc := CalcCrc16(temp, n % 256, 0xFFFF);
    LastTwo(a, Low(crc), High(crc));
    ok := Low(crc) == a[n] && High(crc) == a[n + 1];
  }

  /** The bytes after the three header bytes; running off the end is the caught out-of-range error. */
  method CopyPayload(a: seq<Byte>, count: nat) returns (ok: bool, payload: seq<Byte>)
    requires |a| >= 3
    ensures ok <==> |a| >= 3 + count
    ensures ok ==> payload == a[3..3 + count]
  {
    var buf := new Byte[count];
    for i := 0 to count
      invariant 3 + i <= |a| && buf[..i] == a[3..3 + i]
    {
      if 3 + i >= |a| { return false, []; }
      buf[i] := a[3 + i];
      Extend(buf[..], 0, i);
      Extend(a, 3, 3 + i);
    }
    ok, payload := true, buf[..count];
  }

  class ModbusObject {
    const slaveId: int
    const funcNum: int
    const regCount: int
    /** False for the handler types that have no smart handler. */
    const handlerKnown: bool
    var answer: seq<Byte>
    /** The payload the smart handler was last created or updated with. */
    var smartHandler: Option<seq<Byte>>

    constructor (slaveId: int, funcNum: int, regCount: int, handlerKnown: bool)
      ensures this.slaveId == slaveId && this.funcNum == funcNum && this.regCount == regCount
      ensures this.handlerKnown == handlerKnown && answer == [] && smartHandler == None
    {
      this.slaveId, this.funcNum, this.regCount, this.handlerKnown := slaveId, funcNum, regCount, handlerKnown;
      answer, smartHandler := [], None;
    }

    method CheckFields(a: seq<Byte>) returns (ok: bool)
      ensures ok <==> Matches(slaveId, funcNum, regCount, a)
    {
      var n := |a|;
      if n < 1 || slaveId != Number(a[0]) { return false; }
      if n < 2 || funcNum != Number(a[1]) { return false; }
      if n < 3 || regCount * 2 != Number(a[2]) { return false; }
      ok := true;
    }

    method DataHandling() returns (ok: bool)
      modifies this
      ensures ok <==> Accepts(slaveId, funcNum, regCount, old(answer))
      ensures answer == []
      ensures ok && (old(smartHandler).Some? || handlerKnown)
          ==> smartHandler == Some(old(answer)[3..3 + 2 * regCount])
      ensures !(ok && (old(smartHandler).Some? || handlerKnown)) ==> smartHandler == old(smartHandler)
    {
      var a := answer;
      answer := [];
      var matches := CheckFields(a);
      if !matches { return false; }
      var valid := EndsInCrc(a);
      if !valid { return false; }
      var complete, payload := CopyPayload(a, regCount * 2);
      if !complete { return false; }
      if smartHandler.Some? || handlerKnown {
        smartHandler := Some(payload);
      }
      return true;
    }
  }

  // ---------------------------------------------------------------------------------------------
  // What the two sides promise each other.

  /** The answer a slave sends to a read of |payload| / 2 registers. */
  function ReadAnswer(slave: Byte, func: Byte, payload: seq<Byte>): seq<Byte>
    requires |payload| < 256
  {
    WithCrc([slave, func, |payload| as Byte] + payload)
  }

  function CalcNormalAnswFullLen(regCount: int): int { 1 + 1 + 1 + regCount * 2 + 2 }

  lemma Middle<T>(a: seq<T>, b: seq<T>, c: seq<T>)
    ensures (a + b + c)[|a|..|a| + |b|] == b
    ensures forall i :: 0 <= i < |a| ==> (a + b + c)[i] == a[i]
  {
  }

  lemma Header<T>(s: seq<T>, n: nat)
    requires |s| == n + 5
    ensures s[..|s| - 2] == [s[0], s[1], s[2]] + s[3..3 + n]
  {
  }

  /** Among answers of the normal length, exactly those a slave would send are accepted. */
  lemma NormalAnswerExactly(slave: Byte, func: Byte, regCount: nat, answer: seq<Byte>)
    requires 2 * regCount < 256 && |answer| == CalcNormalAnswFullLen(regCount)
    ensures Accepts(Number(slave), Number(func), regCount, answer)
       <==> answer == ReadAnswer(slave, func, answer[3..3 + 2 * regCount])
  {
    var payload := answer[3..3 + 2 * regCount];
    if Accepts(Number(slave), Number(func), regCount, answer) { AcceptedIsSent(slave, func, regCount, answer); }
    if answer == ReadAnswer(slave, func, payload) {
      SentAnswerAccepted(slave, func, payload, answer);
      assert |payload| / 2 == regCount;
    }
  }

  lemma AcceptedIsSent(slave: Byte, func: Byte, regCount: nat, answer: seq<Byte>)
    requires 2 * regCount < 256 && |answer| == CalcNormalAnswFullLen(regCount)
    requires Accepts(Number(slave), Number(func), regCount, answer)
    ensures answer == ReadAnswer(slave, func, answer[3..3 + 2 * regCount])
  {
    NumberOf(2 * regCount);
    NumberInjective(answer[0], slave);
    NumberInjective(answer[1], func);
    NumberInjective(answer[2], (2 * regCount) as Byte);
    Header(answer, 2 * regCount);
  }

  lemma SentAnswerAccepted(slave: Byte, func: Byte, payload: seq<Byte>, answer: seq<Byte>)
    requires |payload| < 256 && |payload| % 2 == 0
    requires answer == ReadAnswer(slave, func, payload)
    ensures Accepts(Number(slave), Number(func), |payload| / 2, answer) && answer[3..3 + |payload|] == payload
  {
    var body := [slave, func, |payload| as Byte] + payload;
    var crc := Crc16(Covered(body), 0xFFFF);
    Front(body, [Low(crc), High(crc)]);
    Middle([slave, func, |payload| as Byte], payload, [Low(crc), High(crc)]);
    NumberOf(|payload|);
  }

  lemma NumberInjective(a: Byte, b: Byte)
    requires Number(a) == Number(b)
    ensures a == b
  {
    assert Number(a) as Byte == a;
    assert Number(b) as Byte == b;
  }

  /** A frame ends in its CRC exactly when reading all of it leaves the register at 0. */
  lemma FrameResidue(frame: seq<Byte>)
    requires 2 <= |frame| <= 257
    ensures frame == WithCrc(frame[..|frame| - 2]) <==> Crc16(frame, 0xFFFF) == 0
  {
    var n := |frame| - 2;
    var body := frame[..n];
    var crc := Crc16(body, 0xFFFF);
    CoveredWhole(body);
    LastTwo(frame, frame[n], frame[n + 1]);
    LastTwo(frame, Low(crc), High(crc));
    CrcResidue(body, frame[n], frame[n + 1], 0xFFFF);
  }

  /** A burst of at most 16 bits anywhere in an accepted answer makes it unacceptable, to any reader. */
  lemma BurstRejected(slaveId: int, funcNum: int, regCount: int, answer: seq<Byte>, error: seq<Byte>,
                      slaveId': int, funcNum': int, regCount': int)
    requires Accepts(slaveId, funcNum, regCount, answer)
    requires |answer| <= 257 && |error| == |answer| && Burst(Bits(error))
    ensures !Accepts(slaveId', funcNum', regCount', Xor(answer, error))
  {
    FrameResidue(answer);
    BurstDetected(answer, error, 0xFFFF);
    FrameResidue(Xor(answer, error));
  }

  /** An odd number of wrong bits anywhere in an accepted answer makes it unacceptable, to any reader. */
  lemma OddErrorRejected(slaveId: int, funcNum: int, regCount: int, answer: seq<Byte>, error: seq<Byte>,
                         slaveId': int, funcNum': int, regCount': int)
    requires Accepts(slaveId, funcNum, regCount, answer)
    requires |answer| <= 257 && |error| == |answer| && Ones(Bits(error)) % 2 == 1
    ensures !Accepts(slaveId', funcNum', regCount', Xor(answer, error))
  {
    FrameResidue(answer);
    OddErrorDetected(answer, error, 0xFFFF);
    FrameResidue(Xor(answer, error));
  }

  /** A request leaves with a valid CRC exactly when the CRC of the part it covers is that of the whole. */
  lemma RequestResidue(body: seq<Byte>)
    ensures Crc16(WithCrc(body), 0xFFFF) == 0 <==> Crc16(Covered(body), 0xFFFF) == Crc16(body, 0xFFFF)
    ensures |body| <= 255 ==> Crc16(WithCrc(body), 0xFFFF) == 0
  {
    var crc := Crc16(Covered(body), 0xFFFF);
    CrcResidue(body, Low(crc), High(crc), 0xFFFF);
    LowAndHigh(crc, Crc16(body, 0xFFFF));
    if |body| <= 255 { CoveredWhole(body); }
  }

  lemma LowAndHigh(x: Word, y: Word)
    ensures x == y <==> Low(x) == Low(y) && High(x) == High(y)
  {
  }
}
