/** The two-ended memory pool of a connection. */
module MemoryPool {
  import opened Common
  import CMemory

  // ---------------------------------------------------------------------------------------------
  // Sizes are 64-bit numbers that wrap around.

  const ALIGN_SIZE := 16

  function Plus(a: nat, b: nat): nat { (a + b) % ULONG_MODULUS }

  function Minus(a: nat, b: nat): nat { (a - b) % ULONG_MODULUS }

  /** The rounding macro. */
  function RoundToAlign(n: nat): nat {
    var m := Plus(n, ALIGN_SIZE - 1);
    m - m % ALIGN_SIZE
  }

  /** The smallest multiple of the alignment that is not below n. */
  function RoundedUp(n: nat): (r: nat)
    ensures n <= r < n + ALIGN_SIZE && r % ALIGN_SIZE == 0
  {
    (n + ALIGN_SIZE - 1) / ALIGN_SIZE * ALIGN_SIZE
  }

  /** Rounding wraps around exactly when it yields 0 for a size that is not 0. */
  lemma Rounding(n: nat)
    requires n < ULONG_MODULUS
    ensures RoundedUp(n) < ULONG_MODULUS ==> RoundToAlign(n) == RoundedUp(n)
    ensures RoundToAlign(n) == 0 && n != 0 <==> RoundedUp(n) >= ULONG_MODULUS
  {
  }

  /** Below half of the address space nothing wraps around. */
  lemma NoWrap(pos: nat, asize: nat, oldSize: nat)
    requires pos < ULONG_MODULUS / 2 && asize < ULONG_MODULUS / 2
    ensures Plus(pos, asize) == pos + asize
    ensures oldSize <= pos ==> Minus(Plus(pos, asize), oldSize) == pos + asize - oldSize
  {
  }

  // ---------------------------------------------------------------------------------------------
  // The pool.

  datatype Block = Block(start: nat, len: nat) {
    predicate Apart(other: Block) {
      len == 0 || other.len == 0 || start + len <= other.start || other.start + other.len <= start
    }
  }

  function Min(a: nat, b: nat): nat { if a < b then a else b }

  class Pool {
    const memory: array<char>
    const size: nat
    var pos: nat
    var end: nat
    /** The blocks that are in use: their addresses and the sizes that were asked for. */
    ghost var live: seq<Block>

    /** No object is larger than half of the address space. */
    constructor (max: nat)
      requires max < ULONG_MODULUS / 2
      ensures Valid() && fresh(memory) && size == max && live == [] && pos == 0 && end == max
    {
      memory, size, pos, end, live := new char[max], max, 0, max, [];
    }

    ghost predicate Inside(b: Block)
      reads this
    {
      b.start + b.len <= size && (b.len == 0 || b.start + b.len <= pos || end <= b.start)
    }

    ghost predicate Valid()
      reads this
    {
      && pos <= end <= size == memory.Length < ULONG_MODULUS / 2
      && (forall i :: 0 <= i < |live| ==> Inside(live[i]))
      && (forall i, j :: 0 <= i < j < |live| ==> live[i].Apart(live[j]))
    }

    ghost function Bytes(b: Block): seq<char>
      requires b.start + b.len <= memory.Length
      reads memory
    {
      memory[b.start..b.start + b.len]
    }

    method Allocate(n: nat, fromEnd: bool) returns (ret: Option<nat>)
      requires Valid() && n < ULONG_MODULUS
      modifies this
      ensures Valid()
      ensures ret.Some? <==> old(pos) + RoundedUp(n) <= old(end)
      ensures ret.None? ==> live == old(live) && pos == old(pos) && end == old(end)
      ensures ret.Some? ==> live == old(live) + [Block(ret.value, n)]
      ensures ret.Some? ==> if fromEnd then end == ret.value == old(end) - RoundedUp(n) && pos == old(pos)
                            else ret.value == old(pos) && pos == old(pos) + RoundedUp(n) && end == old(end)
    {
      var asize := RoundToAlign(n);
      Rounding(n);
      if asize == 0 && n != 0 { return None; }
      if Plus(pos, asize) > end || Plus(pos, asize) < pos { return None; }
      if fromEnd {
        ret := Some(end - asize);
        end := end - asize;
      } else {
        ret := Some(pos);
        pos := pos + asize;
      }
      live := live + [Block(ret.value, n)];
    }

    /** Whether a request to resize the block at this address (None is the null pointer) is granted. */
    ghost predicate Resizable(block: Option<nat>, oldSize: nat, newSize: nat)
      reads this
    {
      && oldSize <= end && RoundedUp(newSize) <= end
      && if block.Some? && block.value + oldSize == pos then block.value + RoundedUp(newSize) <= end
         else if RoundedUp(newSize) <= oldSize then block.Some?
         else pos + RoundedUp(newSize) <= end
    }

    static function Placed(live: seq<Block>, i: nat, b: Block): seq<Block>
      requires i <= |live|
    {
      if i < |live| then live[i := b] else live + [b]
    }

    /** Every block but the i-th keeps its bytes. */
    twostate predicate OthersKept(i: nat)
      requires old(Valid())
      reads this, memory
    {
      forall j :: 0 <= j < |old(live)| && j != i ==> Bytes(old(live)[j]) == old(Bytes(live[j]))
    }

    ghost predicate Stored(address: nat, content: seq<char>)
      reads this, memory
    {
      address + |content| <= memory.Length && memory[address..address + |content|] == content
    }

    /** The content, which may be any beginning of the block that fits both sizes, survives. */
    method Reallocate(block: Option<nat>, oldSize: nat, newSize: nat, ghost i: nat, ghost content: seq<char>)
      returns (ret: Option<nat>)
      requires Valid() && newSize < ULONG_MODULUS
      requires if block.None? then oldSize == 0 && i == |live| else i < |live| && live[i] == Block(block.value, oldSize)
      requires block.Some? ==> |content| <= Min(oldSize, newSize) && Stored(block.value, content)
      modifies this, memory
      ensures Valid() && end == old(end)
      ensures ret.Some? <==> old(Resizable(block, oldSize, newSize))
      ensures ret.None? ==> live == old(live) && pos == old(pos) && memory[..] == old(memory[..])
      ensures ret.Some? ==> live == Placed(old(live), i, Block(ret.value, newSize)) && OthersKept(i)
      ensures ret.Some? ==> live[i] == Block(ret.value, newSize)
      ensures ret.Some? && (block.None? || block.value + oldSize <= old(pos)) ==> ret.value + newSize <= pos
      ensures ret.Some? && block.Some? ==> Stored(ret.value, content)
      ensures ret.Some? && block.Some? && block.value + oldSize == old(pos) ==>
        ret == block && pos == block.value + RoundedUp(newSize) && forall k :: pos <= k < old(pos) ==> memory[k] == '\0'
      ensures ret.Some? && block.Some? && block.value + oldSize != old(pos) && RoundedUp(newSize) <= oldSize ==>
        ret == block && pos == old(pos)
    {
      var asize := RoundToAlign(newSize);
      Rounding(newSize);
      if asize == 0 && newSize != 0 { return None; }
      if end < oldSize || end < asize { return None; }
      NoWrap(pos, asize, oldSize);
      if pos >= oldSize && block == Some(pos - oldSize) {
        if Minus(Plus(pos, asize), oldSize) <= end {
          ResizeLast(block.value, oldSize, asize, newSize, i, content);
          return block;
        }
        return None;
      }
      if asize <= oldSize {
        if block.Some? { Shorten(block.value, oldSize, newSize, i); }
        return block;
      }
      if Plus(pos, asize) >= pos && Plus(pos, asize) <= end {
        ret := Some(pos);
        MoveToEnd(block, oldSize, asize, newSize, i, content);
        return;
      }
      return None;
    }

    /** A block in the middle of the pool stays where it is. */
    ghost method Shorten(start: nat, oldSize: nat, newSize: nat, i: nat)
      requires Valid() && i < |live| && live[i] == Block(start, oldSize) && newSize <= oldSize
      modifies this`live
      ensures Valid() && live == old(live)[i := Block(start, newSize)]
    {
      live := live[i := Block(start, newSize)];
    }

    /** The block ends where the free space starts: move that border. */
    method ResizeLast(start: nat, oldSize: nat, asize: nat, newSize: nat, ghost i: nat, ghost content: seq<char>)
      requires Valid() && i < |live| && live[i] == Block(start, oldSize)
      requires start + oldSize == pos && asize == RoundedUp(newSize) && start + asize <= end
      requires |content| <= Min(oldSize, newSize) && Stored(start, content)
      modifies this`pos, this`live, memory
      ensures Valid() && pos == start + asize && live == old(live)[i := Block(start, newSize)] && OthersKept(i)
      ensures Stored(start, content)
      ensures forall k :: start + asize <= k < start + oldSize ==> memory[k] == '\0'
    {
      if asize < oldSize { Clear(start + asize, oldSize - asize, i, content); }
      pos := pos + asize - oldSize;
      live := live[i := Block(start, newSize)];
    }

    /** Zeroes the last n bytes of a block. */
    method Clear(from: nat, n: nat, ghost i: nat, ghost content: seq<char>)
      requires Valid() && i < |live| && live[i].start + |content| <= from && from + n == live[i].start + live[i].len
      requires n > 0 && Stored(live[i].start, content)
      modifies memory
      ensures OthersKept(i) && Stored(live[i].start, content)
      ensures forall k :: from <= k < from + n ==> memory[k] == '\0'
    {
      ghost var before := memory[..];
      CMemory.Memset(memory, from, n, '\0');
      forall j | 0 <= j < |live| && j != i
        ensures Bytes(live[j]) == before[live[j].start..live[j].start + live[j].len]
      {
        assert live[j].Apart(live[i]) || live[i].Apart(live[j]);
        CMemory.Outside(memory[..], before, from, from + n, live[j].start, live[j].start + live[j].len);
      }
      CMemory.Outside(memory[..], before, from, from + n, live[i].start, live[i].start + |content|);
    }

    /** Copies a block into the free space, which belongs to no block. */
    method CopyToFree(from: nat, n: nat, ghost content: seq<char>)
      requires Valid() && from + n <= size && pos + n <= end
      requires |content| <= n && Stored(from, content)
      modifies memory
      ensures forall j :: 0 <= j < |live| ==> Bytes(live[j]) == old(Bytes(live[j]))
      ensures Stored(pos, content)
    {
      ghost var before := memory[..];
      CMemory.Memcpy(memory, pos, memory[from..from + n]);
      CMemory.Shorter(memory[..], pos, before, from, n, |content|);
      forall j | 0 <= j < |live| ensures Bytes(live[j]) == before[live[j].start..live[j].start + live[j].len] {
        CMemory.Outside(memory[..], before, pos, pos + n, live[j].start, live[j].start + live[j].len);
      }
    }

    /** A new block at the start of the free space; the old bytes are copied, the old block is given up. */
    method MoveToEnd(block: Option<nat>, oldSize: nat, asize: nat, newSize: nat, ghost i: nat, ghost content: seq<char>)
      requires Valid() && oldSize < asize == RoundedUp(newSize) && pos + asize <= end
      requires if block.None? then oldSize == 0 && i == |live| else i < |live| && live[i] == Block(block.value, oldSize)
      requires block.Some? ==> |content| <= Min(oldSize, newSize) && Stored(block.value, content)
      modifies this`pos, this`live, memory
      ensures Valid() && pos == old(pos) + asize && live == Placed(old(live), i, Block(old(pos), newSize))
      ensures OthersKept(i)
      ensures block.Some? ==> Stored(old(pos), content)
    {
      if block.Some? { CopyToFree(block.value, oldSize, content); }
      ghost var start := pos;
      pos := pos + asize;
      live := Placed(live, i, Block(start, newSize));
    }

    /** What the owner of a block may do with it: no other block notices. */
    method Write(at: nat, bytes: seq<char>, ghost i: nat)
      requires Valid() && i < |live| && live[i].start <= at && at + |bytes| <= live[i].start + live[i].len
      modifies memory
      ensures OthersKept(i) && Stored(at, bytes)
      ensures memory[..at] == old(memory[..at]) && memory[at + |bytes|..] == old(memory[at + |bytes|..])
    {
      ghost var before := memory[..];
      CMemory.Memcpy(memory, at, bytes);
      if |bytes| > 0 {
        forall j | 0 <= j < |live| && j != i
          ensures Bytes(live[j]) == before[live[j].start..live[j].start + live[j].len]
        {
          assert live[j].Apart(live[i]) || live[i].Apart(live[j]);
          CMemory.Outside(memory[..], before, at, at + |bytes|, live[j].start, live[j].start + live[j].len);
        }
      } else {
        assert memory[..] == before;
      }
    }

    /** The first k bytes of a block are from now on a block of their own. */
    ghost method Split(i: nat, k: nat)
      requires Valid() && i < |live| && k <= live[i].len
      modifies this`live
      ensures Valid()
      ensures live ==
        old(live)[i := Block(old(live)[i].start + k, old(live)[i].len - k)] + [Block(old(live)[i].start, k)]
    {
      var b := live[i];
      live := live[i := Block(b.start + k, b.len - k)] + [Block(b.start, k)];
    }

    /** Everything but one block is given up; that block moves to the front. With none to keep the position stays. */
    method Reset(keep: Option<nat>, n: nat, ghost i: nat)
      requires Valid() && RoundedUp(n) <= size
      requires keep.Some? ==> i < |live| && live[i] == Block(keep.value, n) && keep.value + RoundedUp(n) <= size
      modifies this, memory
      ensures Valid() && live == (if keep.Some? then [Block(0, n)] else []) && end == size
      ensures pos == if keep.Some? then RoundedUp(n) else old(pos)
      ensures keep.Some? ==> memory[..n] == old(memory[keep.value..keep.value + n])
      ensures forall k :: RoundedUp(n) <= k < size ==> memory[k] == '\0'
    {
      Rounding(n);
      var asize := RoundToAlign(n);
      ghost var before := memory[..];
      if keep.Some? {
        if keep != Some(0) { CMemory.MoveToFront(memory, keep.value, asize); }
        pos := asize;
      }
      end := size;
      ghost var moved := memory[..];
      CMemory.Memset(memory, asize, size - asize, '\0');
      live := if keep.Some? then [Block(0, n)] else [];
      if keep.Some? {
        CMemory.Shorter(moved, 0, before, keep.value, asize, n);
        assert memory[..asize] == moved[..asize];
        CMemory.Inside(memory[..], moved, 0, asize, 0, n);
      }
    }
  }
}
