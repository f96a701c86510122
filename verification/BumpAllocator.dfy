/** The on-chain bump allocator: a heap whose first eight bytes hold the current position, as a
    little-endian word, and whose blocks follow each other upward. */
module BumpAllocator {
  import opened Options
  import opened Bits

  const HEAP_START: nat := 0x3_0000_0000
  const HEAP_END: nat := 0x4_0000_0000
  const HEADER: nat := 8
  const U64: nat := 64

  type Address = nat

  /** Memory that was never written reads as zero. */
  type Memory = map<Address, nat>

  function Read(mem: Memory, a: Address): nat {
    if a in mem then mem[a] else 0
  }

  // ---- Little-endian words ----

  /** The word stored from `a` up to `end`. */
  function ReadWord(mem: Memory, a: Address, end: Address): nat
    decreases end - a
  {
    if a >= end then 0 else Read(mem, a) + 256 * ReadWord(mem, a + 1, end)
  }

  function WriteWord(mem: Memory, a: Address, end: Address, x: nat): Memory
    decreases end - a
  {
    if a >= end then mem else WriteWord(mem[a := x % 256], a + 1, end, x / 256)
  }

  lemma {:induction false} WriteWordElsewhere(mem: Memory, a: Address, end: Address, x: nat, other: Address)
    requires !(a <= other < end)
    ensures Read(WriteWord(mem, a, end, x), other) == Read(mem, other)
    decreases end - a
  {
    if a < end { WriteWordElsewhere(mem[a := x % 256], a + 1, end, x / 256, other); }
  }

  lemma {:induction false} ReadWordSame(mem: Memory, mem': Memory, a: Address, end: Address)
    requires forall x :: a <= x < end ==> Read(mem, x) == Read(mem', x)
    ensures ReadWord(mem, a, end) == ReadWord(mem', a, end)
    decreases end - a
  {
    if a < end { ReadWordSame(mem, mem', a + 1, end); }
  }

  lemma {:induction false} WordRoundTrip(mem: Memory, a: Address, end: Address, x: nat)
    requires a <= end && x < Pow2(8 * (end - a))
    ensures ReadWord(WriteWord(mem, a, end, x), a, end) == x
    decreases end - a
  {
    if a < end {
      assert Pow2(8 * (end - a)) == 256 * Pow2(8 * (end - a - 1)) by { TimesByte(8 * (end - a - 1)); }
      WordRoundTrip(mem[a := x % 256], a + 1, end, x / 256);
      WriteWordElsewhere(mem[a := x % 256], a + 1, end, x / 256, a);
    }
  }

  // ---- Alignment ----

  /** The first address at or after `pos` with alignment 2^k: pos plus the mask, wrapping, with the
      masked bits cleared. */
  function Align(pos: nat, k: nat): nat {
    var wrapped := Mod(pos + (Pow2(k) - 1), Pow2(U64));
    Div(wrapped, Pow2(k)) * Pow2(k)
  }

  lemma RoundUp(pos: nat, p: nat)
    requires p > 0
    ensures var q := Div(pos + (p - 1), p); pos <= q * p < pos + p
  {
    hide Div;
    var q := Div(pos + (p - 1), p);
    DivBounds(pos + (p - 1), p);
    assert (q + 1) * p == q * p + p;
  }

  lemma SmallestMultiple(pos: nat, p: nat, q: nat, m: nat)
    requires p > 0 && q * p < pos + p && pos <= m * p
    ensures q * p <= m * p
  {
    if m < q {
      MulMono(m + 1, q, p);
    } else {
      MulMono(q, m, p);
    }
  }

  lemma MultipleOf(q: nat, p: nat)
    requires p > 0
    ensures q * p % p == 0
  {
    hide Mod, Div;
    DivUnique(q * p, p, q);
    ModRest(q * p, p);
    ModIs(q * p, p);
  }

  lemma MultipleIs(x: nat, p: nat)
    requires p > 0 && x % p == 0
    ensures x == Div(x, p) * p
  {
    hide Mod, Div;
    ModRest(x, p);
    ModIs(x, p);
  }

  lemma AlignIs(pos: nat, k: nat)
    requires pos < HEAP_END && k < 64
    ensures Align(pos, k) == Div(pos + (Pow2(k) - 1), Pow2(k)) * Pow2(k)
  {
    hide Pow2, Mod, Div;
    NoWrap(pos, k);
    ModSmall(pos + (Pow2(k) - 1), Pow2(U64));
  }

  /** No address from `pos` on with the alignment comes before the aligned one. */
  lemma AlignIsFirst(pos: nat, k: nat, other: nat)
    requires pos < HEAP_END && k < 64
    ensures pos <= Align(pos, k) < pos + Pow2(k)
    ensures Align(pos, k) % Pow2(k) == 0
    ensures pos <= other && other % Pow2(k) == 0 ==> Align(pos, k) <= other
  {
    hide Pow2, Mod, Div, Align;
    var p := Pow2(k);
    var q := Div(pos + (p - 1), p);
    AlignIs(pos, k);
    RoundUp(pos, p);
    MultipleOf(q, p);
    if pos <= other && other % p == 0 {
      MultipleIs(other, p);
      SmallestMultiple(pos, p, q, Div(other, p));
    }
  }

  lemma NoWrap(pos: nat, k: nat)
    requires pos < HEAP_END && k < 64
    ensures pos + (Pow2(k) - 1) < Pow2(U64)
  {
    hide Pow2;
    Pow2Mono(k, U64 - 1);
    Pow2Mono(HEAP_BITS, U64 - 1);
    HeapBits();
    Pow2Step(U64 - 1);
  }

  const HEAP_BITS: nat := 34

  lemma HeapBits()
    ensures Pow2(HEAP_BITS) == HEAP_END
  {
    TimesByte(26);
    TimesByte(18);
    TimesByte(10);
    TimesByte(2);
  }

  /** The low k bits are clear. */
  predicate Aligned(x: nat, k: nat)
    decreases k
  {
    k == 0 || (x % 2 == 0 && Aligned(x / 2, k - 1))
  }

  lemma {:induction false} AlignedIsMultiple(x: nat, k: nat)
    ensures Aligned(x, k) <==> x % Pow2(k) == 0
    decreases k
  {
    if k > 0 {
      AlignedIsMultiple(x / 2, k - 1);
      HalfMultiple(x, Pow2(k - 1));
    }
  }

  lemma HalfMultiple(x: nat, p: nat)
    requires p > 0
    ensures x % (2 * p) == 0 <==> x % 2 == 0 && x / 2 % p == 0
  {
    if x % (2 * p) == 0 {
      MultipleIs(x, 2 * p);
      EvenMultiple(x, p, Div(x, 2 * p));
      MultipleOf(Div(x, 2 * p), p);
    }
    if x % 2 == 0 && x / 2 % p == 0 {
      MultipleIs(x / 2, p);
      EvenMultiple(x, p, Div(x / 2, p));
      MultipleOf(Div(x / 2, p), 2 * p);
    }
  }

  lemma EvenMultiple(x: nat, p: nat, q: nat)
    ensures x == q * (2 * p) <==> x % 2 == 0 && x / 2 == q * p
  {
    assert q * (2 * p) == 2 * (q * p);
  }

  // ---- The heap ----

  datatype Block = Block(begin: Address, size: nat, k: nat)

  ghost predicate Inside(a: Address, b: Block) {
    b.begin <= a < b.begin + b.size
  }

  /** Blocks are aligned, above the header, below the position, and follow each other; the
      position is 0 before the first allocation. */
  ghost predicate Laid(blocks: seq<Block>, position: nat) {
    && (position == 0 <==> blocks == [])
    && (position != 0 ==> HEAP_START + HEADER <= position < HEAP_END)
    && (forall i :: 0 <= i < |blocks| ==> Placed(blocks[i], position))
    && (forall i, j :: 0 <= i < j < |blocks| ==> blocks[i].begin + blocks[i].size <= blocks[j].begin)
  }

  ghost predicate Placed(b: Block, position: nat) {
    && b.k < 64 && Aligned(b.begin, b.k)
    && HEAP_START + HEADER <= b.begin && b.begin + b.size <= position
  }

  lemma LaidNext(blocks: seq<Block>, position: nat, b: Block)
    requires Laid(blocks, position) && position <= b.begin
    requires Placed(b, b.begin + b.size) && b.begin + b.size < HEAP_END
    ensures Laid(blocks + [b], b.begin + b.size)
  {
    forall i | 0 <= i < |blocks| ensures Placed(blocks[i], b.begin + b.size) {
      assert Placed(blocks[i], position);
    }
  }

  function FreeAfter(position: nat, k: nat): Address {
    Align(if position == 0 then HEAP_START + HEADER else position, k)
  }

  lemma FirstIsPlaced(position: nat, size: nat, k: nat)
    requires position == 0 || HEAP_START + HEADER <= position < HEAP_END
    requires k < 64
    ensures position <= FreeAfter(position, k)
    ensures Placed(Block(FreeAfter(position, k), size, k), FreeAfter(position, k) + size)
  {
    hide Pow2, Align, Aligned;
    var pos := if position == 0 then HEAP_START + HEADER else position;
    AlignIsFirst(pos, k, pos);
    AlignedIsMultiple(Align(pos, k), k);
  }

  /** The memory after an allocation that ends at `end`: the new position, and a byte past the block. */
  function Bumped(mem: Memory, end: Address): Memory {
    WriteWord(mem, HEAP_START, HEAP_START + HEADER, end)[end := 0]
  }

  lemma BumpedElsewhere(mem: Memory, end: Address, a: Address)
    requires HEAP_START + HEADER <= a < end
    ensures Read(Bumped(mem, end), a) == Read(mem, a)
  {
    WriteWordElsewhere(mem, HEAP_START, HEAP_START + HEADER, end, a);
  }

  ghost predicate SameBytes(blocks: seq<Block>, mem: Memory, mem': Memory) {
    forall a, i :: 0 <= i < |blocks| && Inside(a, blocks[i]) ==> Read(mem', a) == Read(mem, a)
  }

  lemma BumpedSameBytes(blocks: seq<Block>, mem: Memory, end: Address)
    requires Laid(blocks, end)
    ensures SameBytes(blocks, mem, Bumped(mem, end))
  {
    forall a, i | 0 <= i < |blocks| && Inside(a, blocks[i])
      ensures Read(Bumped(mem, end), a) == Read(mem, a)
    {
      assert Placed(blocks[i], end);
      BumpedElsewhere(mem, end, a);
    }
  }

  /** A successful allocation keeps the layout and the bytes of every block, old and new. */
  lemma AllocEffect(mem: Memory, blocks: seq<Block>, position: nat, b: Block)
    requires Laid(blocks, position) && position <= b.begin
    requires Placed(b, b.begin + b.size) && b.begin + b.size < HEAP_END
    ensures var end, all := b.begin + b.size, blocks + [b];
            && Laid(all, end)
            && SameBytes(all, mem, Bumped(mem, end))
  {
    LaidNext(blocks, position, b);
    BumpedSameBytes(blocks + [b], mem, b.begin + b.size);
  }

  class Heap {
    var mem: Memory

    /** The blocks handed out so far. */
    ghost var blocks: seq<Block>

    /** The position word. */
    function Position(): nat
      reads this
    {
      ReadWord(mem, HEAP_START, HEAP_START + HEADER)
    }

    ghost predicate Valid()
      reads this
    {
      Laid(blocks, Position())
    }

    /** A fresh heap is all zeros. */
    constructor ()
      ensures Valid() && blocks == []
    {
      mem, blocks := map[], [];
      new;
      ZeroWord(HEAP_START, HEAP_START + HEADER);
    }

    /** Allocates `size` bytes aligned to 2^k; None stands for a panic, after which the program is
        gone. The bytes of all earlier blocks are left alone, although the position word and a
        byte just past the new block are written. */
    method Alloc(size: nat, k: nat) returns (begin: Option<Address>)
      requires Valid() && k < 64
      modifies this
      ensures begin.None? <==> old(FirstFree(k)) + size >= HEAP_END
      ensures begin.Some? ==>
                && Valid()
                && begin.value == old(FirstFree(k))
                && blocks == old(blocks) + [Block(begin.value, size, k)]
                && Position() == begin.value + size
                && SameBytes(blocks, old(mem), mem)
    {
      hide Align, ReadWord, Aligned;
      var pos := Position();
      FirstIsPlaced(pos, size, k);
      if pos == 0 {
        pos := HEAP_START + HEADER;
      }
      var first := Align(pos, k);
      begin := Bump(first, size, k);
    }

    /** The part of an allocation after the alignment. */
    method Bump(first: Address, size: nat, ghost k: nat) returns (begin: Option<Address>)
      requires Valid() && Position() <= first && Placed(Block(first, size, k), first + size)
      modifies this
      ensures begin == if first + size >= HEAP_END then None else Some(first)
      ensures begin.Some? ==>
                && Valid()
                && blocks == old(blocks) + [Block(first, size, k)]
                && Position() == first + size
                && SameBytes(blocks, old(mem), mem)
    {
      hide Pow2, ReadWord, WriteWord, Aligned;
      var end := first + size;
      EndFits();
      if end >= Pow2(U64) {
        return None;
      }
      mem := WriteWord(mem, HEAP_START, HEAP_START + HEADER, end);
      if end >= HEAP_END {
        return None;
      }
      mem := mem[end := 0];
      blocks := blocks + [Block(first, size, k)];
      HeaderSurvives(old(mem), end);
      AllocEffect(old(mem), old(blocks), old(Position()), Block(first, size, k));
      return Some(first);
    }

    ghost function FirstFree(k: nat): Address
      reads this
    {
      FreeAfter(Position(), k)
    }

    /** The program writes into its blocks. */
    method Write(a: Address, byte: nat, ghost i: nat)
      requires Valid() && i < |blocks| && Inside(a, blocks[i]) && byte < 256
      modifies this`mem
      ensures Valid()
      ensures Position() == old(Position()) && Read(mem, a) == byte
    {
      assert Placed(blocks[i], Position());
      ghost var before := mem;
      mem := mem[a := byte];
      ReadWordSame(before, mem, HEAP_START, HEAP_START + HEADER);
    }

    /** The bytes in use, the header included. */
    method Used() returns (n: nat)
      requires Valid()
      ensures n == if blocks == [] then 0 else Position() - HEAP_START
      ensures forall i :: 0 <= i < |blocks| ==> blocks[i].size + HEADER <= n
    {
      n := if Position() == 0 then 0 else Position() - HEAP_START;
      forall i | 0 <= i < |blocks| ensures blocks[i].size + HEADER <= n {
        assert Placed(blocks[i], Position());
      }
    }
  }

  lemma {:induction false} ZeroWord(a: Address, end: Address)
    ensures ReadWord(map[], a, end) == 0
    decreases end - a
  {
    if a < end { ZeroWord(a + 1, end); }
  }

  lemma EndFits()
    ensures HEAP_END < Pow2(U64)
  {
    hide Pow2;
    HeapBits();
    Pow2Step(HEAP_BITS);
    Pow2Mono(HEAP_BITS + 1, U64);
  }

  /** The byte written at `end` is not part of the position word. */
  lemma HeaderSurvives(mem: Memory, end: nat)
    requires HEAP_START + HEADER <= end < HEAP_END
    ensures ReadWord(Bumped(mem, end), HEAP_START, HEAP_START + HEADER) == end
  {
    hide Pow2, ReadWord, WriteWord;
    EndFits();
    var written := WriteWord(mem, HEAP_START, HEAP_START + HEADER, end);
    WordRoundTrip(mem, HEAP_START, HEAP_START + HEADER, end);
    ReadWordSame(written, written[end := 0], HEAP_START, HEAP_START + HEADER);
  }
}
