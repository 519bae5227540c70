/** Allocation of zeroed kernel memory: the heap's blocks inside a 4 GB physical memory. */
module Kheap {
  import opened Words
  import opened HeapTable
  import opened Heap
  import opened PageTables

  const HEAP_ADDRESS: word := 0x0100_0000
  const HEAP_SIZE: word := 104857600
  const HEAP_BLOCKS := 25600

  /** `kheap_init`: the kernel's heap, all of it free. */
  method KheapInit(table: array<bv8>) returns (heap: Heap)
    requires table.Length == HEAP_BLOCKS
    modifies table
    ensures fresh(heap) && heap.Valid() && heap.entries == table && heap.live == map[]
    ensures HasRun(table[..], HEAP_BLOCKS) && heap.saddr + HEAP_BLOCKS * BLOCK_SIZE < ADDRESS_SPACE
  {
    var _, h := Heap.Create(HEAP_ADDRESS, HEAP_ADDRESS + HEAP_SIZE, table);
    assert IsRun(table[..], 0, HEAP_BLOCKS);
    heap := h;
  }

  /** Allocates and zeroes `size` bytes, or returns 0. */
  method Kzalloc(heap: Heap, mem: array<byte>, size: word) returns (p: word)
    requires heap.Valid() && mem.Length == ADDRESS_SPACE
    requires Fits(heap.entries[..], Blocks(size)) && (size <= 0xFFFFF000 || LastTaken(heap.entries[..]))
    modifies heap, heap.entries, mem
    ensures heap.Valid()
    ensures heap.entries[..] == Step(old(heap.entries[..]), Malloc(Blocks(size)))
    ensures heap.live == LiveStep(old(heap.entries[..]), old(heap.live), Malloc(Blocks(size)))
    ensures var s := StartBlock(old(heap.entries[..]), Blocks(size));
            p == (if s < 0 then 0 else heap.saddr + s * BLOCK_SIZE)
    ensures p != 0 && size > 0 ==>
        var s, n := StartBlock(old(heap.entries[..]), Blocks(size)), Blocks(size);
        && n > 0 && s + n <= heap.entries.Length && p + size <= p + n * BLOCK_SIZE <= ADDRESS_SPACE
        && forall r | r in old(heap.live) :: r + old(heap.live)[r] <= s || s + n <= r
    ensures mem[..] == if p == 0 || size == 0 then old(mem[..]) else Splice(old(mem[..]), p, Zeros(size))
  {
    BlocksIsCeilingIff(size);
    SearchFailsIff(heap.entries[..], Blocks(size));
    p := heap.Malloc(size);
    if p == 0 {
      return;
    }
    if size > 0 {
      ZeroFill(mem, p, size);
    }
  }

  /** Where the blocks of a heap lie in memory: the page of the first, and how many there are. */
  datatype Area = Area(first: nat, size: nat)

  function AreaOf(heap: Heap): Area {
    Area(heap.saddr / PAGE_SIZE, heap.entries.Length)
  }

  /** The block in page `p`, if it is a page of the heap. */
  function Block(area: Area, p: page): int {
    p - area.first
  }

  lemma BlocksArePages(saddr: nat, block: nat)
    requires saddr % PAGE_SIZE == 0
    ensures (saddr + block * BLOCK_SIZE) % PAGE_SIZE == 0
    ensures (saddr + block * BLOCK_SIZE) / PAGE_SIZE == saddr / PAGE_SIZE + block
  {
  }

  lemma OneBlockSize(size: word)
    requires 0 < size <= BLOCK_SIZE
    ensures Blocks(size) == 1
  {
  }

  /** The start of its page is the address of live block `b`, so that is what to free it by. */
  lemma PageOfLive(heap: Heap, b: int)
    requires heap.Valid() && b in heap.live
    ensures 0 <= b && 0 <= (AreaOf(heap).first + b) * PAGE_SIZE < ADDRESS_SPACE
    ensures heap.AddressToBlock((AreaOf(heap).first + b) * PAGE_SIZE) == b
    ensures heap.BlockToAddress(b) == (AreaOf(heap).first + b) * PAGE_SIZE
  {
    assert Unfolded(OfTable, 0);
    heap.AddressesInvert(b);
  }

  /** No live allocation reaches block `b`. */
  ghost predicate Unused(live: Live, b: int) {
    forall r | r in live :: r + live[r] <= b || b < r
  }

  /** Page `p` is a page of the heap, and no live allocation reaches it. */
  ghost predicate Vacant(live: Live, area: Area, p: page) {
    0 <= Block(area, p) < area.size && Unused(live, Block(area, p))
  }

  /** The block that the search for one finds is such a page. */
  lemma FirstFreeIsUnused(t: Table, live: Live)
    requires Recorded(t, live) && StartBlock(t, 1) >= 0
    ensures StartBlock(t, 1) < |t| && Unused(live, StartBlock(t, 1))
  {
    OneBlockFits(t);
    SearchIsSoundIff(t, 1);
    assert Unfolded(OfTable, 0);
    assert IsFree(t[StartBlock(t, 1)]);
  }

  lemma NewIsNotLive(t: Table, live: Live, b: int)
    requires Recorded(t, live) && Unused(live, b)
    ensures b !in live
  {
    assert Unfolded(OfTable, 0);
  }

  /** `Kzalloc` of at most one block: it fails only if no block is free, and otherwise finds a page no live
      allocation reaches. */
  method KzallocSmall(heap: Heap, mem: array<byte>, size: word) returns (p: word)
    requires heap.Valid() && mem.Length == ADDRESS_SPACE && 0 < size <= BLOCK_SIZE
    modifies heap, heap.entries, mem
    ensures heap.Valid() && (p == 0 <==> StartBlock(old(heap.entries[..]), 1) < 0)
    ensures p == 0 ==>
        heap.entries[..] == old(heap.entries[..]) && heap.live == old(heap.live) && mem[..] == old(mem[..])
    ensures p != 0 ==>
      && Aligned(p) && p + PAGE_SIZE <= ADDRESS_SPACE && mem[..] == Splice(old(mem[..]), p, Zeros(size))
      && var b := Block(AreaOf(heap), PageOf(p));
         && 0 <= b < heap.entries.Length && b == StartBlock(old(heap.entries[..]), 1) && Unused(old(heap.live), b)
         && b !in old(heap.live) && heap.live == old(heap.live)[b := 1]
         && heap.entries[..] == Take(old(heap.entries[..]), b, 1)
    ensures p != 0 ==> SameOutside(AsWords(old(mem[..])), AsWords(mem[..]), {PageOf(p)})
  {
    ghost var t, live, ram := heap.entries[..], heap.live, mem[..];
    ghost var s := StartBlock(t, 1);
    OneBlockFits(t);
    OneBlockSize(size);
    p := Kzalloc(heap, mem, size);
    if p != 0 {
      BlocksArePages(heap.saddr, s);
      NewIsNotLive(t, live, s);
      WritingInPage(ram, PageOf(p), Zeros(size));
    }
  }

  /** While a block is free, it succeeds, and costs one block. */
  method KzallocBlock(heap: Heap, mem: array<byte>, size: word) returns (p: word)
    requires heap.Valid() && mem.Length == ADDRESS_SPACE
    requires 0 < size <= BLOCK_SIZE && heap.FreeCount() > 0
    modifies heap, heap.entries, mem
    ensures heap.Valid() && Aligned(p)
    ensures var b := Block(AreaOf(heap), PageOf(p));
            && 0 <= b < heap.entries.Length
            && b == StartBlock(old(heap.entries[..]), 1)
            && b !in old(heap.live) && heap.live == old(heap.live)[b := 1]
            && Unused(old(heap.live), b)
    ensures heap.FreeCount() == old(heap.FreeCount()) - 1 && Shrinks(old(heap.entries[..]), heap.entries[..], 1)
    ensures p + PAGE_SIZE <= ADDRESS_SPACE && mem[..] == Splice(old(mem[..]), p, Zeros(size))
    ensures SameOutside(AsWords(old(mem[..])), AsWords(mem[..]), {PageOf(p)})
  {
    OneBlock(heap.entries[..]);
    ShrinksByTake(heap.entries[..], 1);
    p := KzallocSmall(heap, mem, size);
  }
}
