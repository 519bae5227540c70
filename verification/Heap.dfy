/** The kernel heap: first-fit allocation of 4096-byte blocks over an entry table. */
module Heap {
  import opened Words
  import opened HeapTable

  const EINVARG := 2
  const MAX_BYTES := 0x8000_0000

  /** Rounds up to whole blocks, in 32 bits. */
  function AlignUp(val: word): word {
    if val % BLOCK_SIZE == 0 then val else Wrap(val - val % BLOCK_SIZE + BLOCK_SIZE)
  }

  function Blocks(size: word): nat {
    AlignUp(size) / BLOCK_SIZE
  }

  /** Requests are rounded up correctly exactly up to 0xFFFFF000; beyond, the sum wraps and a
      request for almost 4 GB becomes a request for nothing. */
  lemma BlocksIsCeilingIff(size: word)
    ensures (Blocks(size) * BLOCK_SIZE >= size > (Blocks(size) - 1) * BLOCK_SIZE) <==> size <= 0xFFFFF000
    ensures size > 0xFFFFF000 ==> Blocks(size) == 0
  {
    if size > 0xFFFFF000 {
      assert size / BLOCK_SIZE == 0xFFFFF;
    }
  }

  class Heap {
    const entries: array<bv8>
    const saddr: nat
    ghost var live: Live

    /** The block table records exactly the live allocations, at addresses that do not wrap. */
    ghost predicate Valid()
      reads this, entries
    {
      && 0 < saddr && saddr % BLOCK_SIZE == 0
      && entries.Length * BLOCK_SIZE < MAX_BYTES
      && saddr + entries.Length * BLOCK_SIZE <= ADDRESS_SPACE
      && Recorded(entries[..], live)
    }

    /** How many blocks are free. */
    ghost function FreeCount(): nat
      reads this, entries
    {
      FreeBlocks(entries[..], entries.Length)
    }

    constructor (start: nat, table: array<bv8>)
      ensures saddr == start && entries == table && live == map[]
    {
      saddr, entries, live := start, table, map[];
    }

    /** Sets up a heap over `ptr .. end`: refused unless both ends are aligned, in which case it is not
        touched, and the table has one entry per block, in which case it is filled in all the same. */
    static method Create(ptr: word, end: word, table: array<bv8>) returns (res: int, heap: Heap?)
      modifies table
      ensures heap != null <==> ptr % BLOCK_SIZE == 0 && end % BLOCK_SIZE == 0
      ensures res == 0 <==> heap != null && table.Length == Wrap(end - ptr) / BLOCK_SIZE
      ensures res != 0 ==> res == -EINVARG && table[..] == old(table[..])
      ensures heap != null ==> fresh(heap) && heap.saddr == ptr && heap.entries == table && heap.live == map[]
      ensures res == 0 ==> forall k | 0 <= k < table.Length :: table[k] == FREE
      ensures res == 0 && 0 < ptr <= end && end - ptr < MAX_BYTES ==> heap.Valid()
    {
      if ptr % BLOCK_SIZE != 0 || end % BLOCK_SIZE != 0 {
        return -EINVARG, null;
      }
      heap := new Heap(ptr, table);
      if table.Length != Wrap(end - ptr) / BLOCK_SIZE {
        return -EINVARG, heap;
      }
      res := 0;
      for i := 0 to table.Length
        invariant heap.live == map[] && forall k | 0 <= k < i :: table[k] == FREE
      {
        table[i] := FREE;
      }
    }

    function BlockToAddress(block: int): word {
      Wrap(saddr + block * BLOCK_SIZE)
    }

    /** C's truncating division of the signed offset. */
    function AddressToBlock(address: word): int {
      var offset := Int32(address - saddr);
      if offset >= 0 then offset / BLOCK_SIZE else -(-offset / BLOCK_SIZE)
    }

    /** On the blocks of the heap the two conversions invert each other, without wrapping. */
    lemma AddressesInvert(block: int)
      requires Valid() && 0 <= block < entries.Length
      ensures BlockToAddress(block) == saddr + block * BLOCK_SIZE
      ensures AddressToBlock(BlockToAddress(block)) == block
    {
    }

    method GetStartBlock(n: nat) returns (start: int)
      requires n < ADDRESS_SPACE
      ensures start == StartBlock(entries[..], n)
    {
      var bc, bs := 0, -1;
      var i := 0;
      ghost var t := entries[..];
      while i < entries.Length
        invariant 0 <= i <= entries.Length
        invariant if bs == -1 then bc == 0 else 0 <= bs && bc == i - bs > 0 && bc != n
        invariant bs == -1 ==> i == 0 || !IsFree(t[i - 1])
        invariant bs != -1 ==> IsRun(t, bs, bc) && (bs == 0 || !IsFree(t[bs - 1]))
        invariant n > 0 ==> bc < n && forall s | s + n <= i :: !IsRun(t, s, n)
        invariant t == entries[..]
      {
        if !IsFree(entries[i]) {
          bc, bs := 0, -1;
          i := i + 1;
          continue;
        }
        if bs == -1 {
          bs := i;
        }
        bc := bc + 1;
        if bc == n {
          assert IsRun(t, bs, n);
          return bs;
        }
        i := i + 1;
      }
      TrailingRunIsUnique(t, if bs == -1 then |t| else bs);
      start := if bs == -1 then -ENOMEM else bs;
    }

    method MarkBlocksTaken(start: nat, n: nat)
      requires start + n <= entries.Length
      modifies entries
      ensures entries[..] == Take(old(entries[..]), start, n)
    {
      var last := start + n - 1;
      var entry := TAKEN | IS_FIRST;
      if n > 1 {
        entry := entry | HAS_NEXT;
      }
      for i := start to start + n
        invariant n > 0 ==> entry == Code(i == start, if i == start then n <= 1 else i == last)
        invariant forall k | 0 <= k < entries.Length ::
            entries[k] == if start <= k < i then Code(k == start, k == last) else old(entries[k])
      {
        entries[i] := entry;
        entry := TAKEN;
        if i != last - 1 {
          entry := entry | HAS_NEXT;
        }
      }
    }

    method MarkBlocksFree(start: nat)
      modifies entries
      ensures entries[..] == Clear(old(entries[..]), start)
    {
      ghost var t := entries[..];
      var i := start;
      while i < entries.Length
        invariant start <= i && (start < entries.Length ==> i <= entries.Length)
        invariant ChainLength(t, start) == i - start + ChainLength(t, i)
        invariant forall k | 0 <= k < entries.Length :: entries[k] == if start <= k < i then FREE else t[k]
      {
        var entry := entries[i];
        entries[i] := FREE;
        i := i + 1;
        if !HasNext(entry) {
          break;
        }
      }
    }

    /** Allocates `size` bytes, or returns 0. The guard excludes the one case in which the search
        hands out a run that is too short and marking it would write past the table. */
    method Malloc(size: word) returns (p: word)
      requires Valid() && Fits(entries[..], Blocks(size))
      modifies this, entries
      ensures Valid()
      ensures entries[..] == Step(old(entries[..]), Op.Malloc(Blocks(size)))
      ensures live == LiveStep(old(entries[..]), old(live), Op.Malloc(Blocks(size)))
      ensures var s := StartBlock(old(entries[..]), Blocks(size));
              p == (if s < 0 then 0 else saddr + s * BLOCK_SIZE)
      ensures p != 0 && Blocks(size) > 0 ==>
          var s := StartBlock(old(entries[..]), Blocks(size));
          && s + Blocks(size) <= entries.Length
          && forall r | r in old(live) :: r + old(live)[r] <= s || s + Blocks(size) <= r
    {
      var n := AlignUp(size) / BLOCK_SIZE;
      ghost var t := entries[..];
      assert Unfolded(OfTable, 0);
      StepRepresents(t, live, Op.Malloc(n));
      SearchIsSoundIff(t, n);
      SearchFailsIff(t, n);
      var start := GetStartBlock(n);
      if start < 0 {
        return 0;
      }
      p := BlockToAddress(start);
      AddressesInvert(start);
      if n > 0 {
        TakeRepresents(t, live, start, n);
      }
      live := LiveStep(t, live, Op.Malloc(n));
      MarkBlocksTaken(start, n);
    }

    /** Frees the allocation that starts at `p`. */
    method Free(p: word)
      requires Valid()
      requires AddressToBlock(p) in live && p == BlockToAddress(AddressToBlock(p))
      modifies this, entries
      ensures Valid()
      ensures entries[..] == Step(old(entries[..]), Op.Free(AddressToBlock(p)))
      ensures live == old(live) - {AddressToBlock(p)}
    {
      var block := AddressToBlock(p);
      assert Unfolded(OfTable, 0);
      StepRepresents(entries[..], live, Op.Free(block));
      live := live - {block};
      MarkBlocksFree(block);
    }
  }
}
