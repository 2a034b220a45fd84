/**
 The table-driven CRC step.  Each of its two 256-entry tables is kept as sixteen rows of sixteen
 bytes; a row is one constant with its first entry in the top byte.
 */
module CrcTable {
  import opened Crc

  /** CRC16_L */
  function LowRow(row: Byte): bv128 {
    match row
    case 0 => 0x00C1814001C0804101C0804100C18140
    case 1 => 0x01C0804100C1814000C1814001C08041
    case 2 => 0x01C0804100C1814000C1814001C08041
    case 3 => 0x00C1814001C0804101C0804100C18140
    case 4 => 0x01C0804100C1814000C1814001C08041
    case 5 => 0x00C1814001C0804101C0804100C18140
    case 6 => 0x00C1814001C0804101C0804100C18140
    case 7 => 0x01C0804100C1814000C1814001C08041
    case 8 => 0x01C0804100C1814000C1814001C08041
    case 9 => 0x00C1814001C0804101C0804100C18140
    case 10 => 0x00C1814001C0804101C0804100C18140
    case 11 => 0x01C0804100C1814000C1814001C08041
    case 12 => 0x00C1814001C0804101C0804100C18140
    case 13 => 0x01C0804100C1814000C1814001C08041
    case 14 => 0x01C0804100C1814000C1814001C08041
    case _ => 0x00C1814001C0804101C0804100C18140
  }

  /** CRC16_H */
  function HighRow(row: Byte): bv128 {
    match row
    case 0 => 0x00C0C101C30302C2C60607C705C5C404
    case 1 => 0xCC0C0DCD0FCFCE0E0ACACB0BC90908C8
    case 2 => 0xD81819D91BDBDA1A1EDEDF1FDD1D1CDC
    case 3 => 0x14D4D515D71716D6D21213D311D1D010
    case 4 => 0xF03031F133F3F23236F6F737F53534F4
    case 5 => 0x3CFCFD3DFF3F3EFEFA3A3BFB39F9F838
    case 6 => 0x28E8E929EB2B2AEAEE2E2FEF2DEDEC2C
    case 7 => 0xE42425E527E7E62622E2E323E12120E0
    case 8 => 0xA06061A163A3A26266A6A767A56564A4
    case 9 => 0x6CACAD6DAF6F6EAEAA6A6BAB69A9A868
    case 10 => 0x78B8B979BB7B7ABABE7E7FBF7DBDBC7C
    case 11 => 0xB47475B577B7B67672B2B373B17170B0
    case 12 => 0x50909151935352929656579755959454
    case 13 => 0x9C5C5D9D5F9F9E5E5A9A9B5B99595898
    case 14 => 0x884849894B8B8A4A4E8E8F4F8D4D4C8C
    case _ => 0x44848545874746868242438341818040
  }

  function At(row: bv128, column: Byte): Byte {
    ((row >> (8 * (15 - (column & 15)))) & 0xFF) as Byte
  }

  function Crc16L(index: Byte): Byte { At(LowRow(index >> 4), index & 15) }

  function Crc16H(index: Byte): Byte { At(HighRow(index >> 4), index & 15) }

  function Join(low: Byte, high: Byte): Word { (low as Word) | ((high as Word) << 8) }

  /** Every table entry is eight shifts of its index. */
  lemma TableIsEightShifts(index: Byte)
    ensures Join(Crc16L(index), Crc16H(index)) == EightShifts(Wide(index))
  {
    match index >> 4
    case 0 => case 1 => case 2 => case 3 => case 4 => case 5 => case 6 => case 7 =>
    case 8 => case 9 => case 10 => case 11 => case 12 => case 13 => case 14 => case _ =>
  }

  function TableStep(c: Word, b: Byte): Word {
    var index := b ^ Low(c);
    Join(Crc16L(index) ^ High(c), Crc16H(index))
  }

  /** Only the low byte of the register goes through the table; the high byte just moves down. */
  lemma SplitRegister(c: Word, b: Byte)
    ensures EightShifts(Add(c, Wide(b))) == Add(EightShifts(Wide(b ^ Low(c))), Wide(High(c)))
  {
    RegisterParts(c, b);
    EightShiftsOfSum(Wide(b ^ Low(c)), TopPart(c));
    TopMovesDown(c);
  }

  function TopPart(c: Word): Word { c & 0xFF00 }

  lemma RegisterParts(c: Word, b: Byte)
    ensures Add(c, Wide(b)) == Add(Wide(b ^ Low(c)), TopPart(c))
  {
  }

  lemma TopMovesDown(c: Word)
    ensures EightShifts(TopPart(c)) == Wide(High(c))
  {
  }

  lemma EightShiftsOfSum(x: Word, y: Word)
    ensures EightShifts(Add(x, y)) == Add(EightShifts(x), EightShifts(y))
  {
    ShiftsLinear(x, y, 8);
    ShiftsIsEightShifts(x);
    ShiftsIsEightShifts(y);
    ShiftsIsEightShifts(Add(x, y));
  }

  lemma JoinXor(low: Byte, high: Byte, x: Byte)
    ensures Join(low ^ x, high) == Add(Join(low, high), Wide(x))
  {
  }

  lemma TableStepIsByteStep(c: Word, b: Byte)
    ensures TableStep(c, b) == ByteStep(c, b)
  {
    var index := b ^ Low(c);
    TableIsEightShifts(index);
    JoinXor(Crc16L(index), Crc16H(index), High(c));
    ShiftsIsEightShifts(Add(c, Wide(b)));
    SplitRegister(c, b);
  }

  function TableCrc(s: seq<Byte>, start: Word): Word {
    if s == [] then start else TableStep(TableCrc(s[..|s| - 1], start), s[|s| - 1])
  }

  /** Folding the table step over a message gives what the bitwise loop computes. */
  lemma {:induction false} TableCrcIsCrc16(s: seq<Byte>, start: Word)
    ensures TableCrc(s, start) == Crc16(s, start)
  {
    if s != [] {
      TableCrcIsCrc16(s[..|s| - 1], start);
      TableStepIsByteStep(TableCrc(s[..|s| - 1], start), s[|s| - 1]);
    }
  }

  class Register {
    var value: Word
  }

  /** One byte of the message, on the fly; a null register pointer is ignored. */
  method CalcCrc16Fly(p: Register?, b: Byte)
    modifies p
    ensures p != null ==> p.value == ByteStep(old(p.value), b)
  {
    if p != null {
      TableStepIsByteStep(p.value, b);
      var index := b ^ Low(p.value);
      p.value := Join(Crc16L(index) ^ High(p.value), Crc16H(index));
    }
  }
}
