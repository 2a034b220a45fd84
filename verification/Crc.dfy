/** The CRC-16 of MODBUS over Serial Line (section 6.2.2): a bit-by-bit loop and a table-driven step. */
module Crc {
  import opened Common

  type Byte = bv8
  type Word = bv16

  // ---------------------------------------------------------------------------------------------
  // What the register does: one shift, n shifts, one byte, a whole message.  Registers are added
  // with exclusive or, which is named so that proofs can treat it as one operation.

  function Add(x: Word, y: Word): Word { x ^ y }

  function Wide(b: Byte): Word { b as Word }

  function BitStep(c: Word): Word {
    if c & 1 == 1 then (c >> 1) ^ 0xA001 else c >> 1
  }

  function Shifts(c: Word, n: nat): Word {
    if n == 0 then c else BitStep(Shifts(c, n - 1))
  }

  function ByteStep(c: Word, b: Byte): Word {
    Shifts(Add(c, Wide(b)), 8)
  }

  function Crc16(s: seq<Byte>, start: Word): Word {
    if s == [] then start else ByteStep(Crc16(s[..|s| - 1], start), s[|s| - 1])
  }

  /** The bitwise loop; the length parameter of the original has 8 bits. */
  method CalcCrc16(buf: array<Byte>, len: nat, start: Word) returns (crc: Word)
    requires len < 256 && len <= buf.Length
    ensures crc == Crc16(buf[..len], start)
  {
    crc := start;
    for i := 0 to len
      invariant crc == Crc16(buf[..i], start)
    {
      crc := crc ^ (buf[i] as Word);
      ghost var mixed := crc;
      var j := 0;
      while j < 8
        invariant j <= 8 && crc == Shifts(mixed, j)
      {
        crc := OneBit(crc);
        j := j + 1;
      }
      OneByteMore(buf[..], i, start);
    }
  }

  /** The body of the inner loop. */
  method OneBit(before: Word) returns (crc: Word)
    ensures crc == BitStep(before)
  {
    crc := before;
    if crc & 1 == 1 {
      crc := crc >> 1;
      crc := crc ^ 0xA001;
    } else {
      crc := crc >> 1;
    }
  }

  lemma OneByteMore(s: seq<Byte>, i: nat, start: Word)
    requires i < |s|
    ensures Crc16(s[..i + 1], start) == ByteStep(Crc16(s[..i], start), s[i])
  {
    assert s[..i + 1][..i] == s[..i];
  }

  // ---------------------------------------------------------------------------------------------
  // Facts about single words and bytes, decided on their bits.

  /** One shift without a branch. */
  function Shift(c: Word): Word {
    (c >> 1) ^ ((0 - (c & 1)) & 0xA001)
  }

  function EightShifts(c: Word): Word {
    Shift(Shift(Shift(Shift(Shift(Shift(Shift(Shift(c))))))))
  }

  lemma BitStepIsShift(c: Word)
    ensures BitStep(c) == Shift(c)
  {
    if c & 1 == 1 { LowestSet(c & 1); } else { LowestClear(c, c >> 1); }
  }

  lemma LowestSet(bit: Word)
    requires bit == 1
    ensures (0 - bit) & 0xA001 == 0xA001
  {
  }

  lemma LowestClear(c: Word, half: Word)
    requires c & 1 != 1
    ensures half ^ ((0 - (c & 1)) & 0xA001) == half
  {
  }

  lemma ShiftLinear(x: Word, y: Word)
    ensures Shift(x ^ y) == Shift(x) ^ Shift(y)
  {
  }

  lemma BitStepLinear(x: Word, y: Word)
    ensures BitStep(Add(x, y)) == Add(BitStep(x), BitStep(y))
  {
    BitStepIsShift(x);
    BitStepIsShift(y);
    BitStepIsShift(Add(x, y));
    ShiftLinear(x, y);
  }

  lemma BitStepInjective(x: Word, y: Word)
    requires BitStep(x) == BitStep(y)
    ensures x == y
  {
  }

  lemma AddRegroup(x: Word, y: Word, a: Byte, b: Byte)
    ensures Add(Add(x, y), Wide(a ^ b)) == Add(Add(x, Wide(a)), Add(y, Wide(b)))
  {
  }

  lemma ShiftsIsEightShifts(c: Word)
    ensures Shifts(c, 8) == EightShifts(c)
  {
    assert Shifts(c, 0) == c;
    var c1 := Shift(c);   BitStepIsShift(c);   assert Shifts(c, 1) == c1;
    var c2 := Shift(c1);  BitStepIsShift(c1);  assert Shifts(c, 2) == c2;
    var c3 := Shift(c2);  BitStepIsShift(c2);  assert Shifts(c, 3) == c3;
    var c4 := Shift(c3);  BitStepIsShift(c3);  assert Shifts(c, 4) == c4;
    var c5 := Shift(c4);  BitStepIsShift(c4);  assert Shifts(c, 5) == c5;
    var c6 := Shift(c5);  BitStepIsShift(c5);  assert Shifts(c, 6) == c6;
    var c7 := Shift(c6);  BitStepIsShift(c6);  assert Shifts(c, 7) == c7;
    BitStepIsShift(c7);
  }

  // ---------------------------------------------------------------------------------------------
  // The register as a linear map, and as a permutation of its states.

  lemma {:induction false} ShiftsLinear(x: Word, y: Word, n: nat)
    ensures Shifts(Add(x, y), n) == Add(Shifts(x, n), Shifts(y, n))
  {
    if n > 0 {
      ShiftsLinear(x, y, n - 1);
      BitStepLinear(Shifts(x, n - 1), Shifts(y, n - 1));
    }
  }

  lemma {:induction false} ShiftsInjective(x: Word, y: Word, n: nat)
    requires Shifts(x, n) == Shifts(y, n)
    ensures x == y
  {
    if n > 0 {
      BitStepInjective(Shifts(x, n - 1), Shifts(y, n - 1));
      ShiftsInjective(x, y, n - 1);
    }
  }

  lemma {:induction false} ShiftsOfZero(n: nat)
    ensures Shifts(0, n) == 0
  {
    if n > 0 { ShiftsOfZero(n - 1); }
  }

  function Xor(a: seq<Byte>, b: seq<Byte>): (c: seq<Byte>)
    requires |a| == |b|
    ensures |c| == |a| && forall i :: 0 <= i < |c| ==> c[i] == a[i] ^ b[i]
  {
    seq(|a|, i requires 0 <= i < |a| => a[i] ^ b[i])
  }

  /** Messages of equal length: the CRC of a sum is the sum of the CRCs. */
  lemma {:induction false} CrcAffine(a: seq<Byte>, b: seq<Byte>, x: Word, y: Word)
    requires |a| == |b|
    ensures Crc16(Xor(a, b), Add(x, y)) == Add(Crc16(a, x), Crc16(b, y))
  {
    if a != [] {
      var n := |a| - 1;
      CrcAffine(a[..n], b[..n], x, y);
      XorLast(a, b);
      ByteStepLinear(Crc16(a[..n], x), Crc16(b[..n], y), a[n], b[n]);
    }
  }

  lemma XorLast(a: seq<Byte>, b: seq<Byte>)
    requires |a| == |b| > 0
    ensures var n := |a| - 1; Xor(a, b)[..n] == Xor(a[..n], b[..n]) && Xor(a, b)[n] == a[n] ^ b[n]
  {
  }

  lemma ByteStepLinear(x: Word, y: Word, a: Byte, b: Byte)
    ensures ByteStep(Add(x, y), a ^ b) == Add(ByteStep(x, a), ByteStep(y, b))
  {
    AddRegroup(x, y, a, b);
    ShiftsLinear(Add(x, Wide(a)), Add(y, Wide(b)), 8);
  }

  /** Two different registers never meet again, whatever message both of them read. */
  lemma {:induction false} CrcInjective(s: seq<Byte>, x: Word, y: Word)
    requires Crc16(s, x) == Crc16(s, y)
    ensures x == y
  {
    if s != [] {
      var n := |s| - 1;
      var cx, cy := Crc16(s[..n], x), Crc16(s[..n], y);
      ShiftsInjective(Add(cx, Wide(s[n])), Add(cy, Wide(s[n])), 8);
      CrcInjective(s[..n], x, y);
    }
  }

  // ---------------------------------------------------------------------------------------------
  // The CRC appended low byte first leaves residue 0, and nothing else does.

  function Low(c: Word): Byte { (c & 0xFF) as Byte }

  function High(c: Word): Byte { (c >> 8) as Byte }

  lemma OnlyTheCrc(c: Word, lo: Byte, hi: Byte)
    ensures Add(EightShifts(Add(c, Wide(lo))), Wide(hi)) == 0 <==> lo == Low(c) && hi == High(c)
  {
    var mixed := Add(c, Wide(lo));
  }

  lemma CrcResidue(s: seq<Byte>, lo: Byte, hi: Byte, start: Word)
    ensures Crc16(s + [lo, hi], start) == 0
       <==> lo == Low(Crc16(s, start)) && hi == High(Crc16(s, start))
  {
    var t := s + [lo, hi];
    assert t[..|t| - 1] == s + [lo];
    assert (s + [lo])[..|s|] == s;
    var c := Crc16(s, start);
    ShiftsIsEightShifts(Add(c, Wide(lo)));
    OnlyTheCrc(c, lo, hi);
    var last := Add(ByteStep(c, lo), Wide(hi));
    ShiftsOfZero(8);
    if Shifts(last, 8) == 0 { ShiftsInjective(last, 0, 8); }
  }

  // ---------------------------------------------------------------------------------------------
  // The message as a stream of bits in the order the register reads them: bytes in order, the
  // least significant bit of each byte first.

  function Halve(v: Word): Word { v >> 1 }

  function Dropped(v: Word, n: nat): Word {
    if n == 0 then v else Halve(Dropped(v, n - 1))
  }

  function BitWord(b: bool): Word { if b then 1 else 0 }

  function Odd(v: Word): bool { v & 1 == 1 }

  function LowBits(v: Word, n: nat): (bits: seq<bool>)
    ensures |bits| == n
  {
    if n == 0 then [] else LowBits(v, n - 1) + [Odd(Dropped(v, n - 1))]
  }

  function Bits(s: seq<Byte>): (bits: seq<bool>)
    ensures |bits| == 8 * |s|
  {
    if s == [] then [] else Bits(s[..|s| - 1]) + LowBits(Wide(s[|s| - 1]), 8)
  }

  function Feed(bits: seq<bool>, c: Word): Word {
    if bits == [] then c
    else BitStep(Add(Feed(bits[..|bits| - 1], c), BitWord(bits[|bits| - 1])))
  }

  lemma {:induction false} FeedConcat(a: seq<bool>, b: seq<bool>, c: Word)
    ensures Feed(a + b, c) == Feed(b, Feed(a, c))
  {
    if b == [] {
      assert a + b == a;
    } else {
      FeedConcat(a, b[..|b| - 1], c);
      assert (a + b)[..|a + b| - 1] == a + b[..|b| - 1];
    }
  }

  /** A shift of a sum acts on the lowest bit of the second summand; the rest of it just moves down. */
  lemma PeelBit(c: Word, v: Word)
    ensures BitStep(Add(c, v)) == Add(BitStep(Add(c, BitWord(Odd(v)))), Halve(v))
  {
    BitStepIsShift(Add(c, v));
    BitStepIsShift(Add(c, BitWord(Odd(v))));
    PeelShift(c, v);
  }

  lemma PeelShift(c: Word, v: Word)
    ensures Shift(Add(c, v)) == Add(Shift(Add(c, BitWord(Odd(v)))), Halve(v))
  {
  }

  lemma {:induction false} ShiftsFeedBits(c: Word, v: Word, n: nat)
    ensures Shifts(Add(c, v), n) == Add(Feed(LowBits(v, n), c), Dropped(v, n))
  {
    if n > 0 {
      ShiftsFeedBits(c, v, n - 1);
      PeelBit(Feed(LowBits(v, n - 1), c), Dropped(v, n - 1));
      assert LowBits(v, n)[..n - 1] == LowBits(v, n - 1);
    }
  }

  lemma ByteDropped(b: Byte)
    ensures Dropped(Wide(b), 8) == 0
  {
    var v := Wide(b);
    assert Dropped(v, 0) < 256;
    assert Dropped(v, 1) < 128;
    assert Dropped(v, 2) < 64;
    assert Dropped(v, 3) < 32;
    assert Dropped(v, 4) < 16;
    assert Dropped(v, 5) < 8;
    assert Dropped(v, 6) < 4;
    assert Dropped(v, 7) < 2;
  }

  lemma AddZero(x: Word)
    ensures Add(x, 0) == x
  {
  }

  lemma {:induction false} CrcFeedsBits(s: seq<Byte>, c: Word)
    ensures Crc16(s, c) == Feed(Bits(s), c)
  {
    if s != [] {
      var n := |s| - 1;
      CrcFeedsBits(s[..n], c);
      var before := Crc16(s[..n], c);
      ShiftsFeedBits(before, Wide(s[n]), 8);
      ByteDropped(s[n]);
      AddZero(Feed(LowBits(Wide(s[n]), 8), before));
      FeedConcat(Bits(s[..n]), LowBits(Wide(s[n]), 8), c);
    }
  }

  // ---------------------------------------------------------------------------------------------
  // Error bursts.

  /** A non-zero error pattern whose set bits lie within 16 consecutive positions. */
  predicate Burst(e: seq<bool>) {
    && (exists i :: 0 <= i < |e| && e[i])
    && (forall i, j :: 0 <= i < j < |e| && e[i] && e[j] ==> j - i < 16)
  }

  /** The word whose bits, lowest first, are the given ones. */
  function Pack(bits: seq<bool>): Word {
    if bits == [] then 0 else Prepend(bits[0], Pack(bits[1..]))
  }

  function Prepend(b: bool, v: Word): Word { if b then (v << 1) | 1 else v << 1 }

  function Mask(n: nat): Word {
    if n == 0 then 0 else Prepend(true, Mask(n - 1))
  }

  /** The bits of v that the mask does not cover. */
  function Excess(v: Word, mask: Word): Word { v & !mask }

  lemma PrependWithin(b: bool, v: Word, mask: Word)
    requires Excess(v, mask) == 0
    ensures Excess(Prepend(b, v), Prepend(true, mask)) == 0
  {
    ShiftWithin(v, mask);
  }

  lemma ShiftWithin(v: Word, mask: Word)
    requires Excess(v, mask) == 0
    ensures Excess(v << 1, (mask << 1) | 1) == 0
    ensures Excess((v << 1) | 1, (mask << 1) | 1) == 0
  {
  }

  lemma {:induction false} MaskGrows(m: nat, n: nat)
    requires m <= n
    ensures Excess(Mask(m), Mask(n)) == 0
  {
    if m > 0 {
      MaskGrows(m - 1, n - 1);
      PrependWithin(true, Mask(m - 1), Mask(n - 1));
    }
  }

  lemma {:induction false} PackFits(bits: seq<bool>)
    ensures Excess(Pack(bits), Mask(|bits|)) == 0
  {
    if bits != [] {
      PackFits(bits[1..]);
      PrependWithin(bits[0], Pack(bits[1..]), Mask(|bits| - 1));
    }
  }

  lemma Mask15()
    ensures Mask(15) == 0x7FFF
  {
    assert Mask(4) == 0xF;
    assert Mask(8) == 0xFF;
    assert Mask(12) == 0xFFF;
  }

  /** A shift whose result has a clear top bit lost a zero, so it can be undone. */
  lemma UndoShift(c: Word, b: bool, after: Word)
    requires BitStep(Add(c, BitWord(b))) == after && Excess(after, 0x7FFF) == 0
    ensures c == Prepend(b, after)
  {
    UndoBitStep(Add(c, BitWord(b)), after);
    UndoAdd(c, b, after);
  }

  lemma UndoBitStep(x: Word, after: Word)
    requires BitStep(x) == after && Excess(after, 0x7FFF) == 0
    ensures x == after << 1
  {
    BitStepIsShift(x);
  }

  lemma UndoAdd(c: Word, b: bool, v: Word)
    requires Add(c, BitWord(b)) == v << 1
    ensures c == Prepend(b, v)
  {
    if b { ClearLowest(c, v); } else { AddZero(c); }
  }

  lemma ClearLowest(c: Word, v: Word)
    ensures c ^ 1 == v << 1 ==> c == (v << 1) | 1
  {
  }

  /** If at most 16 bits drive the register to zero, then before the last bits it spelled those bits. */
  lemma {:induction false} Rewind(e: seq<bool>, m: nat, c: Word)
    requires m <= |e| <= 16 && Feed(e, c) == 0
    ensures Feed(e[..m], c) == Pack(e[m..])
    decreases |e| - m
  {
    if m == |e| {
      assert e[..m] == e;
    } else {
      Rewind(e, m + 1, c);
      assert e[..m + 1][..m] == e[..m] && e[m..][1..] == e[m + 1..];
      PackFits(e[m + 1..]);
      MaskGrows(|e| - m - 1, 15);
      Mask15();
      UndoShift(Feed(e[..m], c), e[m], Pack(e[m + 1..]));
    }
  }

  /** No burst drives a zero register back to zero. */
  lemma {:induction false} BurstLeavesResidue(e: seq<bool>)
    requires Burst(e)
    ensures Feed(e, 0) != 0
    decreases |e|
  {
    var n := |e| - 1;
    if !e[n] {
      assert forall i :: 0 <= i < n ==> e[..n][i] == e[i];
      BurstLeavesResidue(e[..n]);
    } else if !e[0] {
      var rest := e[1..];
      assert forall i :: 0 <= i < n ==> rest[i] == e[i + 1];
      assert rest[n - 1];
      BurstLeavesResidue(rest);
      assert e == [false] + rest;
      FeedConcat([false], rest, 0);
    } else if Feed(e, 0) == 0 {
      assert e[0..] == e;
      Rewind(e, 0, 0);
    }
  }

  /** A valid frame hit by a burst is no longer valid: its residue is not 0. */
  lemma BurstDetected(frame: seq<Byte>, error: seq<Byte>, start: Word)
    requires |frame| == |error|
    requires Crc16(frame, start) == 0
    requires Burst(Bits(error))
    ensures Crc16(Xor(frame, error), start) != 0
  {
    BurstLeavesResidue(Bits(error));
    ResidueOfError(frame, error, start);
  }

  /** The residue of a damaged frame is that of the error alone. */
  lemma ResidueOfError(frame: seq<Byte>, error: seq<Byte>, start: Word)
    requires |frame| == |error| && Crc16(frame, start) == 0
    ensures Crc16(Xor(frame, error), start) == Feed(Bits(error), 0)
  {
    AddZero(start);
    CrcAffine(frame, error, start, 0);
    CrcFeedsBits(error, 0);
    var residue := Feed(Bits(error), 0);
    assert Add(0, residue) == residue;
  }

  // ---------------------------------------------------------------------------------------------
  // Errors with an odd number of bits.

  function Ones(bits: seq<bool>): nat {
    if bits == [] then 0 else Ones(bits[..|bits| - 1]) + if bits[|bits| - 1] then 1 else 0
  }

  /** Whether an odd number of the lowest n bits is set. */
  function Parity(w: Word, n: nat): bool {
    n > 0 && Odd(w) != Parity(Halve(w), n - 1)
  }

  /** One word is the sum of two; looked at only for a single step. */
  ghost predicate Summed(x: Word, y: Word, sum: Word) {
    forall at {:trigger Look(at)} :: Look(at) ==> sum == Add(x, y)
  }

  lemma {:induction false} ParityOfSum(x: Word, y: Word, sum: Word, n: nat)
    requires Summed(x, y, sum)
    ensures Parity(sum, n) == (Parity(x, n) != Parity(y, n))
    decreases n
  {
    if n > 0 {
      HalvesSummed(x, y, sum);
      ParityOfSum(Halve(x), Halve(y), Halve(sum), n - 1);
    }
  }

  lemma HalvesSummed(x: Word, y: Word, sum: Word)
    requires Summed(x, y, sum)
    ensures Odd(sum) == (Odd(x) != Odd(y)) && Summed(Halve(x), Halve(y), Halve(sum))
  {
    assert Look(0);
  }

  lemma ParityAdds(x: Word, y: Word)
    ensures Parity(Add(x, y), 16) == (Parity(x, 16) != Parity(y, 16))
  {
    ParityOfSum(x, y, Add(x, y), 16);
  }

  lemma {:induction false} ParityOfNothing(n: nat)
    ensures !Parity(0, n)
  {
    if n > 0 {
      ParityOfNothing(n - 1);
      assert Halve(0) == 0;
    }
  }

  /** A word with a clear top bit has as many set bits without it. */
  lemma ParityOfHalf(c: Word)
    ensures Parity(c, 16) == (Odd(c) != Parity(Halve(c), 16))
  {
    Mask15();
    ParityOfSmall(Halve(c), 0x7FFF, 15);
  }

  lemma {:induction false} ParityOfSmall(w: Word, mask: Word, n: nat)
    requires Excess(w, mask) == 0 && mask == Mask(n)
    ensures Parity(w, n + 1) == Parity(w, n)
    decreases n
  {
    if n == 0 {
    } else {
      ParityOfSmall(Halve(w), Mask(n - 1), n - 1);
    }
  }

  /** A bit that is shifted out comes back as three: the generator polynomial has the factor x + 1. */
  lemma BitStepKeepsParity(c: Word)
    ensures Parity(BitStep(c), 16) == Parity(c, 16)
  {
    ParityOfHalf(c);
    ParityAdds(Halve(c), 0xA001);
    GeneratorParity();
    assert BitStep(c) == if Odd(c) then Add(Halve(c), 0xA001) else Halve(c);
  }

  lemma GeneratorParity()
    ensures Parity(0xA001, 16)
  {
    ParityOfNothing(0);
    assert Parity(5, 3) == Parity(0, 0) == false;
  }

  lemma BitStepParity(c: Word, b: bool)
    ensures Parity(BitStep(Add(c, BitWord(b))), 16) == (Parity(c, 16) != b)
  {
    BitStepKeepsParity(Add(c, BitWord(b)));
    ParityAdds(c, BitWord(b));
    ParityOfNothing(15);
    ParityOfNothing(16);
    assert Odd(1) && Halve(1) == 0;
  }

  /** The register counts the bits it is fed, up to their parity. */
  lemma {:induction false} FeedParity(bits: seq<bool>, c: Word)
    ensures Parity(Feed(bits, c), 16) == (Parity(c, 16) != (Ones(bits) % 2 == 1))
  {
    if bits != [] {
      var n := |bits| - 1;
      FeedParity(bits[..n], c);
      BitStepParity(Feed(bits[..n], c), bits[n]);
    }
  }

  /** A valid frame with an odd number of wrong bits, wherever they are, is no longer valid. */
  lemma OddErrorDetected(frame: seq<Byte>, error: seq<Byte>, start: Word)
    requires |frame| == |error|
    requires Crc16(frame, start) == 0
    requires Ones(Bits(error)) % 2 == 1
    ensures Crc16(Xor(frame, error), start) != 0
  {
    ResidueOfError(frame, error, start);
    FeedParity(Bits(error), 0);
    ParityOfNothing(16);
  }
}
