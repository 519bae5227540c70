/** What a call that only allocates does to the heap and to memory, in one relation that composes. */
module Growth {
  import opened Words
  import opened HeapTable
  import opened Heap
  import opened Kheap
  import opened PageTables
  import opened Paging

  /** The heap's allocations and block table, and memory as words. */
  datatype Snapshot = Snapshot(live: Live, words: seq<word>, table: Table)

  ghost function Snap(heap: Heap, mem: array<byte>): Snapshot
    reads heap, heap.entries, mem
  {
    Snapshot(heap.live, AsWords(mem[..]), heap.entries[..])
  }

  /** No block of `live` was written to, and `n` blocks were taken, from any free run at most that many. */
  ghost predicate Took(live: Live, area: Area, a: Snapshot, b: Snapshot, n: nat) {
    && OnlyVacant(live, area, a.words, b.words) && Shrinks(a.table, b.table, n)
    && FreeBlocks(b.table, |b.table|) == FreeBlocks(a.table, |a.table|) - n
  }

  lemma TookTwice(live: Live, area: Area, a: Snapshot, b: Snapshot, c: Snapshot, m: nat, n: nat, total: nat)
    requires Took(live, area, a, b, m) && Took(live, area, b, c, n) && total == m + n
    ensures Took(live, area, a, c, total)
  {
    OnlyVacantTwice(live, area, a.words, b.words, c.words);
    ShrinksTwice(a.table, b.table, c.table, m, n, total);
  }

  lemma TookNothing(live: Live, area: Area, a: Snapshot, n: nat)
    requires |a.words| == MEMORY_WORDS && n == 0
    ensures Took(live, area, a, a, n)
  {
    NoShrink(a.table, n);
  }

  /** The pages `ps` became live blocks, nothing that was live was freed or written to, and `n` blocks
      were taken. */
  ghost predicate Grew(area: Area, a: Snapshot, b: Snapshot, ps: set<page>, n: nat) {
    Added(a.live, b.live, area, ps) && Took(a.live, area, a, b, n)
  }

  lemma GrewTwice(area: Area, a: Snapshot, b: Snapshot, c: Snapshot, ps: set<page>, qs: set<page>, m: nat, n: nat,
                  all: set<page>, total: nat)
    requires Grew(area, a, b, ps, m) && Grew(area, b, c, qs, n) && all == ps + qs && total == m + n
    ensures Grew(area, a, c, all, total) && ps !! qs
  {
    AddedBoth(a.live, b.live, c.live, area, ps, qs);
    OnlyVacantEarlier(a.live, b.live, area, ps, b.words, c.words);
    TookTwice(a.live, area, a, b, c, m, n, total);
  }

  lemma GrewNot(area: Area, a: Snapshot)
    requires |a.words| == MEMORY_WORDS
    ensures Grew(area, a, a, {}, 0)
  {
    assert AddedBlocks(a.live, a.live, area, {});
    TookNothing(a.live, area, a, 0);
  }

  /** Writing to what was just allocated changes nothing of this. */
  lemma GrewAndWritten(area: Area, a: Snapshot, b: Snapshot, c: Snapshot, ps: set<page>, n: nat)
    requires Grew(area, a, b, ps, n) && Recorded(b.table, b.live) && c.live == b.live && c.table == b.table
    requires SameOutside(b.words, c.words, ps) && |b.table| == area.size
    ensures Grew(area, a, c, ps, n)
  {
    assert ps + {} == ps;
    AddedWritesVacant(b.table, a.live, b.live, area, ps, {}, b.words, c.words);
    OnlyVacantTwice(a.live, area, a.words, b.words, c.words);
  }

  /** A fresh block, zeroed as far as asked for. */
  method NewBlock(heap: Heap, mem: array<byte>, size: word) returns (p: word)
    requires heap.Valid() && mem.Length == ADDRESS_SPACE && 0 < size <= BLOCK_SIZE && heap.FreeCount() > 0
    modifies heap, heap.entries, mem
    ensures heap.Valid() && Aligned(p) && p != 0 && p + size <= ADDRESS_SPACE && mem[p..p + size] == Zeros(size)
    ensures Grew(AreaOf(heap), old(Snap(heap, mem)), Snap(heap, mem), {PageOf(p)}, 1)
  {
    ghost var a, area := Snap(heap, mem), AreaOf(heap);
    p := KzallocBlock(heap, mem, size);
    OneMorePage(a.live, a.live, area, {}, PageOf(p));
    assert {} + {PageOf(p)} == {PageOf(p)} == {PageOf(p)} + {};
    AddedWritesVacant(heap.entries[..], a.live, heap.live, area, {PageOf(p)}, {}, a.words, AsWords(mem[..]));
  }

  /** Every old allocation is still there. Folded. */
  ghost predicate Keeps(live0: Live, live: Live) {
    forall k: nat | Unfolded(OfBlocks, k) :: forall b | b in live0 :: b in live && live[b] == live0[b]
  }

  /** Nothing that was live was freed or written to. */
  ghost predicate Kept(area: Area, a: Snapshot, b: Snapshot) {
    Keeps(a.live, b.live) && OnlyVacant(a.live, area, a.words, b.words)
  }

  /** Nor was any free run shortened by more than `n` blocks. */
  ghost predicate Spared(area: Area, a: Snapshot, b: Snapshot, n: nat) {
    Kept(area, a, b) && Shrinks(a.table, b.table, n)
  }

  lemma KeptTwice(area: Area, a: Snapshot, b: Snapshot, c: Snapshot)
    requires Kept(area, a, b) && Kept(area, b, c)
    ensures Kept(area, a, c)
  {
    assert Keeps(a.live, c.live);
    SparedEarlier(a.live, b.live, area, b.words, c.words);
    OnlyVacantTwice(a.live, area, a.words, b.words, c.words);
  }

  /** Writing pages that no allocation reaches. */
  lemma VacantWritten(live: Live, area: Area, w: seq<word>, after: seq<word>, ps: set<page>)
    requires SameOutside(w, after, ps) && forall p | p in ps :: Vacant(live, area, p)
    ensures OnlyVacant(live, area, w, after)
  {
  }

  lemma GrewSpared(area: Area, a: Snapshot, b: Snapshot, ps: set<page>, n: nat)
    requires Grew(area, a, b, ps, n)
    ensures Spared(area, a, b, n)
  {
    assert Unfolded(OfBlocks, 0);
  }

  lemma KeepsUnused(live0: Live, live: Live, b: int)
    requires Keeps(live0, live) && Unused(live, b)
    ensures Unused(live0, b)
  {
    assert Unfolded(OfBlocks, 0);
  }

  lemma SparedEarlier(live0: Live, live: Live, area: Area, w: seq<word>, after: seq<word>)
    requires Keeps(live0, live) && OnlyVacant(live, area, w, after)
    ensures OnlyVacant(live0, area, w, after)
  {
    assert Unfolded(OfWrites, 0);
    forall p: page | !Vacant(live0, area, p)
      ensures SamePage(w, after, p)
    {
      if Vacant(live, area, p) {
        KeepsUnused(live0, live, Block(area, p));
      }
    }
  }

  lemma SparedTwice(area: Area, a: Snapshot, b: Snapshot, c: Snapshot, m: nat, n: nat, total: nat)
    requires Spared(area, a, b, m) && Spared(area, b, c, n) && total == m + n
    ensures Spared(area, a, c, total)
  {
    KeptTwice(area, a, b, c);
    ShrinksTwice(a.table, b.table, c.table, m, n, total);
  }

  lemma StillLive(live0: Live, live: Live, b: int)
    requires Keeps(live0, live) && b in live0
    ensures b in live && live[b] == live0[b]
  {
    assert Unfolded(OfBlocks, 0);
  }

  /** The bytes of a live allocation are untouched. */
  lemma BytesSpared(live: Live, area: Area, ram: seq<byte>, after: seq<byte>, s: int, n: nat)
    requires |ram| == |after| == ADDRESS_SPACE && OnlyVacant(live, area, AsWords(ram), AsWords(after))
    requires s in live && n <= live[s] * PAGE_SIZE && 0 <= area.first + s
    requires (area.first + s) * PAGE_SIZE + n <= ADDRESS_SPACE
    ensures var at := (area.first + s) * PAGE_SIZE; after[at..at + n] == ram[at..at + n]
  {
    var at := (area.first + s) * PAGE_SIZE;
    assert Unfolded(OfWrites, 0);
    forall k | at <= k < at + n
      ensures after[k] == ram[k]
    {
      var p: page := k / PAGE_SIZE;
      assert !Vacant(live, area, p);
      assert AsWords(after)[k / 4] == AsWords(ram)[k / 4];
      SameWordSameBytes(ram, after, k / 4);
    }
  }

  predicate Within(p: page, ptr: word, n: nat) {
    PageOf(ptr) <= p < PageOf(ptr) + PagesFor(n)
  }

  /** The pages of `n` bytes from `ptr` on. */
  function PagesAt(ptr: word, n: nat): set<page> {
    set p: page | 0 <= p < PAGES && Within(p, ptr, n)
  }

  /** All these pages are vacant. Folded. */
  ghost predicate AllVacant(live: Live, area: Area, ps: set<page>) {
    forall k: nat | Unfolded(OfVacant, k) :: forall p | p in ps :: Vacant(live, area, p)
  }

  /** What is vacant now was so before. */
  lemma VacantBefore(live0: Live, live: Live, area: Area, ps: set<page>)
    requires Keeps(live0, live) && AllVacant(live, area, ps)
    ensures AllVacant(live0, area, ps)
  {
    assert Unfolded(OfVacant, 0);
    forall p | p in ps
      ensures Vacant(live0, area, p)
    {
      KeepsUnused(live0, live, Block(area, p));
    }
  }

  lemma BlocksArePagesFor(size: word)
    requires size <= 0xFFFFF000
    ensures Blocks(size) == PagesFor(size)
  {
  }

  /** There is an allocation at `ptr`, of just enough blocks for `n` bytes. */
  ghost predicate Held(live: Live, area: Area, ptr: word, n: nat) {
    && Aligned(ptr) && ptr != 0 && ptr + n <= ADDRESS_SPACE
    && Block(area, PageOf(ptr)) in live && live[Block(area, PageOf(ptr))] == PagesFor(n)
  }

  /** It starts with `bytes`, for which it is just large enough. */
  ghost predicate Stored(live: Live, area: Area, ram: seq<byte>, ptr: word, bytes: seq<byte>) {
    |ram| == ADDRESS_SPACE && Held(live, area, ptr, |bytes|) && ram[ptr..ptr + |bytes|] == bytes
  }

  /** Its pages are not vacant. */
  lemma HeldTaken(live: Live, area: Area, ptr: word, n: nat, p: page)
    requires Held(live, area, ptr, n) && p in PagesAt(ptr, n)
    ensures !Vacant(live, area, p)
  {
    var s := Block(area, PageOf(ptr));
    assert Within(p, ptr, n) && s <= Block(area, p) < s + live[s];
  }

  lemma VacantIsBeside(live: Live, area: Area, ptr: word, n: nat, p: page)
    requires Held(live, area, ptr, n) && Vacant(live, area, p)
    ensures p !in PagesAt(ptr, n)
  {
    if p in PagesAt(ptr, n) {
      HeldTaken(live, area, ptr, n, p);
    }
  }

  lemma StoredKept(area: Area, a: Snapshot, b: Snapshot, ram: seq<byte>, after: seq<byte>, ptr: word, bytes: seq<byte>)
    requires Kept(area, a, b) && a.words == AsWords(ram) && b.words == AsWords(after) && |after| == ADDRESS_SPACE
    requires Stored(a.live, area, ram, ptr, bytes)
    ensures Stored(b.live, area, after, ptr, bytes)
  {
    var s := Block(area, PageOf(ptr));
    assert ptr == (area.first + s) * PAGE_SIZE;
    StillLive(a.live, b.live, s);
    BytesSpared(a.live, area, ram, after, s, |bytes|);
  }

  /** A request for `n` blocks finds a run of them, or is refused. */
  ghost predicate Serves(t: Table, n: nat) {
    HasRun(t, n) || LastTaken(t)
  }

  /** What the allocator makes of a request for `size` bytes. A run that is long enough is never longer than
      the heap, so that the size has not wrapped. */
  lemma Requested(heap: Heap, size: word)
    requires heap.Valid() && 0 < size && Serves(heap.entries[..], PagesFor(size))
    ensures var t := heap.entries[..];
      if HasRun(t, PagesFor(size)) then size <= MAX_INT && Blocks(size) == PagesFor(size) > 0
      else LastTaken(t) && StartBlock(t, Blocks(size)) < 0 && Fits(t, Blocks(size))
  {
    BlocksIsCeilingIff(size);
    SearchFailsIff(heap.entries[..], Blocks(size));
    if size <= 0xFFFFF000 {
      BlocksArePagesFor(size);
    }
  }

  /** What a request for `n` blocks took from the heap, when it was served. */
  lemma RequestTook(t: Table, live: Live, u: Table, live1: Live, n: nat)
    requires Recorded(t, live) && Recorded(u, live1) && n > 0 && HasRun(t, n)
    requires u == HeapTable.Step(t, Malloc(n)) && live1 == LiveStep(t, live, Malloc(n))
    ensures var s := StartBlock(t, n);
      && 0 <= s && s + n <= |t| && s !in live && live1 == live[s := n]
      && (forall b | s <= b < s + n :: Unused(live, b)) && Keeps(live, live1)
    ensures Shrinks(t, u, n) && FreeBlocks(u, |u|) == FreeBlocks(t, |t|) - n
  {
    var s := StartBlock(t, n);
    SearchIsSoundIff(t, n);
    RoomAfterTake(t, n, n);
    ShrinksByTake(t, n);
    assert Unfolded(OfTable, 0);
    forall b | s <= b < s + n
      ensures Unused(live, b)
    {
      assert IsFree(t[b]);
    }
    NewIsNotLive(t, live, s);
    BlocksTaken(t, live, u, s, n);
  }

  /** Writing inside blocks that no allocation reaches. */
  lemma WrittenVacant(live: Live, area: Area, ram: seq<byte>, after: seq<byte>, at: word, n: nat, blocks: nat)
    requires |ram| == |after| == ADDRESS_SPACE && Aligned(at) && n <= blocks * PAGE_SIZE
    requires 0 <= Block(area, PageOf(at)) && Block(area, PageOf(at)) + blocks <= area.size
    requires forall b | Block(area, PageOf(at)) <= b < Block(area, PageOf(at)) + blocks :: Unused(live, b)
    requires forall k | 0 <= k < |ram| && !(at <= k < at + n) :: after[k] == ram[k]
    ensures OnlyVacant(live, area, AsWords(ram), AsWords(after))
  {
    forall p: page | !Vacant(live, area, p)
      ensures SamePage(AsWords(ram), AsWords(after), p)
    {
      forall k | p * ENTRIES <= k < p * ENTRIES + ENTRIES
        ensures AsWords(after)[k] == AsWords(ram)[k]
      {
        SameBytesSameWord(ram, after, k);
      }
    }
  }

  /** What a request that was served did, the blocks being filled in. */
  lemma RunFilled(area: Area, a: Snapshot, b: Snapshot, ram: seq<byte>, after: seq<byte>, at: word, size: nat)
    requires |ram| == |after| == ADDRESS_SPACE && a.words == AsWords(ram) && b.words == AsWords(after)
    requires Recorded(a.table, a.live) && Recorded(b.table, b.live) && |a.table| == area.size
    requires 0 < size && HasRun(a.table, PagesFor(size)) && at + size <= ADDRESS_SPACE
    requires b.table == HeapTable.Step(a.table, Malloc(PagesFor(size)))
    requires b.live == LiveStep(a.table, a.live, Malloc(PagesFor(size)))
    requires Aligned(at) && at != 0 && Block(area, PageOf(at)) == StartBlock(a.table, PagesFor(size))
    requires forall k | 0 <= k < |ram| && !(at <= k < at + size) :: after[k] == ram[k]
    ensures Spared(area, a, b, PagesFor(size))
    ensures FreeBlocks(b.table, |b.table|) == FreeBlocks(a.table, |a.table|) - PagesFor(size)
    ensures Block(area, PageOf(at)) !in a.live && Held(b.live, area, at, size)
    ensures AllVacant(a.live, area, PagesAt(at, size))
    ensures var s := Block(area, PageOf(at));
      0 <= s && s + PagesFor(size) <= area.size && forall r | s <= r < s + PagesFor(size) :: Unused(a.live, r)
  {
    RequestTook(a.table, a.live, b.table, b.live, PagesFor(size));
    WrittenVacant(a.live, area, ram, after, at, size, PagesFor(size));
  }

  /** `Kzalloc` of any positive size: 0 exactly if no free run is long enough. */
  method NewBlocks(heap: Heap, mem: array<byte>, size: word) returns (p: word)
    requires heap.Valid() && mem.Length == ADDRESS_SPACE && 0 < size && Serves(heap.entries[..], PagesFor(size))
    modifies heap, heap.entries, mem
    ensures heap.Valid() && (p == 0 <==> !HasRun(old(heap.entries[..]), PagesFor(size)))
    ensures p == 0 ==> Snap(heap, mem) == old(Snap(heap, mem)) && mem[..] == old(mem[..])
    ensures p != 0 ==> Aligned(p) && size <= MAX_INT && p + size <= ADDRESS_SPACE && mem[p..p + size] == Zeros(size)
    ensures p != 0 ==>
      var s := Block(AreaOf(heap), PageOf(p));
      && s !in old(heap.live) && heap.live == old(heap.live)[s := PagesFor(size)]
      && 0 <= s && s + PagesFor(size) <= heap.entries.Length
      && (forall b | s <= b < s + PagesFor(size) :: Unused(old(heap.live), b))
    ensures p != 0 ==>
      && AllVacant(old(heap.live), AreaOf(heap), PagesAt(p, size))
      && Spared(AreaOf(heap), old(Snap(heap, mem)), Snap(heap, mem), PagesFor(size))
      && heap.FreeCount() == old(heap.FreeCount()) - PagesFor(size)
  {
    ghost var a, area, t, ram := Snap(heap, mem), AreaOf(heap), heap.entries[..], mem[..];
    ghost var n, s := PagesFor(size), StartBlock(t, Blocks(size));
    Requested(heap, size);
    p := Kzalloc(heap, mem, size);
    if p != 0 {
      BlocksArePages(heap.saddr, s);
      RunFilled(area, a, Snap(heap, mem), ram, mem[..], p, size);
    }
  }

  /** The last block of a table stays taken while nothing is freed. */
  lemma LastStaysTaken(a: Snapshot, b: Snapshot)
    requires Recorded(a.table, a.live) && Recorded(b.table, b.live) && Keeps(a.live, b.live)
    requires |a.table| == |b.table| && LastTaken(a.table)
    ensures LastTaken(b.table)
  {
    if a.table != [] {
      assert Unfolded(OfTable, 0) && Unfolded(OfBlocks, 0);
      var k := |a.table| - 1;
      var r :| r in a.live && r <= k < r + a.live[r];
      assert b.table[k] == Code(k == r, k == r + b.live[r] - 1);
    }
  }

  /** Requests for `n` blocks in all will be served: there is a run of so many, or nothing is free at the
      end of the table. */
  lemma StillServes(area: Area, a: Snapshot, b: Snapshot, k: nat, total: nat, n: nat)
    requires Serves(a.table, total) && Spared(area, a, b, k) && total == k + n
    requires Recorded(a.table, a.live) && Recorded(b.table, b.live) && |a.table| == |b.table|
    ensures Serves(b.table, n)
  {
    if HasRun(a.table, total) {
      ShrinksTo(a.table, b.table, k, total);
    } else {
      LastStaysTaken(a, b);
    }
  }

  lemma ServesLess(t: Table, n: nat, m: nat)
    requires Serves(t, n) && m <= n
    ensures Serves(t, m)
  {
    if HasRun(t, n) {
      ShorterRun(t, n, m);
    }
  }

  /** Fewer blocks are free, by exactly `taken`, and no free run is shorter by more than `most`. */
  ghost predicate Thinned(t0: Table, t: Table, taken: int, most: nat) {
    FreeBlocks(t, |t|) == FreeBlocks(t0, |t0|) - taken && Shrinks(t0, t, most)
  }

  lemma ThinnedTwice(t0: Table, t1: Table, t: Table, k: nat, taken: int, most: nat)
    requires Thinned(t0, t1, k, k) && Thinned(t1, t, taken, most)
    ensures Thinned(t0, t, k + taken, k + most)
  {
    ShrinksTwice(t0, t1, t, k, most, k + most);
  }

  /** Freeing what was not there at first spares what was. */
  lemma SparedAndFreed(area: Area, a: Snapshot, b: Snapshot, c: Snapshot, n: nat, bs: set<int>)
    requires Spared(area, a, b, n) && c.live == b.live - bs && bs !! a.live.Keys && c.words == b.words
    requires Shrinks(b.table, c.table, 0)
    ensures Spared(area, a, c, n)
  {
    assert Unfolded(OfBlocks, 0);
    ShrinksTwice(a.table, b.table, c.table, n, 0, n);
  }

  /** So does writing what was not there. */
  lemma SparedAndWritten(area: Area, a: Snapshot, b: Snapshot, c: Snapshot, n: nat)
    requires Spared(area, a, b, n) && c.live == b.live && c.table == b.table
    requires OnlyVacant(a.live, area, b.words, c.words)
    ensures Spared(area, a, c, n)
  {
    OnlyVacantTwice(a.live, area, a.words, b.words, c.words);
  }

  lemma SparedNot(area: Area, a: Snapshot)
    requires |a.words| == MEMORY_WORDS
    ensures Spared(area, a, a, 0)
  {
    NoShrink(a.table, 0);
  }
}
