/** Building, editing and freeing page directories whose tables are blocks of the kernel heap. */
module Paging {
  import opened Words
  import opened HeapTable
  import opened Heap
  import opened Kheap
  import opened PageTables

  const ADDRESS_MASK: nat := 0xfffff000

  /** The address in a directory word: the word masked with 0xfffff000. */
  method MaskAddress(entry: word) returns (table: word)
    ensures table == PageOf(entry) * PAGE_SIZE
  {
    PageMask(entry, ADDRESS_MASK);
    table := And(entry, ADDRESS_MASK);
  }

  /** The directory that a chunk structure at address `chunk` points to. */
  function DirectoryOf(mem: seq<byte>, chunk: word): page
    requires |mem| == ADDRESS_SPACE
  {
    PageOf(AsWords(mem)[PageOf(chunk) * ENTRIES])
  }

  ghost predicate ChunkAt(mem: seq<byte>, chunk: word) {
    |mem| == ADDRESS_SPACE && Aligned(chunk) && ChunkOk(AsWords(mem), PageOf(chunk))
  }

  /** The `i`-th word of the page at `a`. */
  lemma WordsOfPage(a: word, i: nat)
    requires Aligned(a) && i < ENTRIES
    ensures (a + 4 * i) % 4 == 0 && (a + 4 * i) / 4 == PageOf(a) * ENTRIES + i < MEMORY_WORDS
  {
    FourTimes(a + 4 * i, PageOf(a) * ENTRIES + i);
  }

  lemma FourTimes(x: nat, q: nat)
    requires x == 4 * q
    ensures x % 4 == 0 && x / 4 == q
  {
  }

  lemma FirstWordOfPage(a: word)
    requires Aligned(a)
    ensures a % 4 == 0 && a + 4 <= ADDRESS_SPACE && a / 4 == PageOf(a) * ENTRIES < MEMORY_WORDS
  {
    WordsOfPage(a, 0);
  }

  method GetIndexes(virt: word) returns (res: int, directoryIndex: nat, tableIndex: nat)
    ensures res == if Aligned(virt) then 0 else -EINVARG
    ensures Aligned(virt) ==> directoryIndex == DirectoryIndex(PageOf(virt)) && tableIndex == TableIndex(PageOf(virt))
    ensures !Aligned(virt) ==> directoryIndex == tableIndex == 0
    ensures Aligned(virt) ==>
        virt == directoryIndex * ENTRIES * PAGE_SIZE + tableIndex * PAGE_SIZE && tableIndex < ENTRIES
  {
    if virt % PAGE_SIZE != 0 {
      return -EINVARG, 0, 0;
    }
    return 0, virt / (ENTRIES * PAGE_SIZE), virt % (ENTRIES * PAGE_SIZE) / PAGE_SIZE;
  }

  method PagingSet(mem: array<byte>, dir: word, virt: word, val: word) returns (res: int)
    requires mem.Length == ADDRESS_SPACE && Aligned(dir)
    modifies mem
    ensures res == if Accepts(Set(virt, val)) then 0 else -EINVARG
    ensures AsWords(mem[..]) == Apply(AsWords(old(mem[..])), PageOf(dir), Set(virt, val))
    ensures res < 0 ==> mem[..] == old(mem[..])
  {
    var directoryIndex, tableIndex;
    res, directoryIndex, tableIndex := GetIndexes(virt);
    if res < 0 {
      return;
    }
    WordsOfPage(dir, directoryIndex);
    var entry := LoadWord(mem, dir + 4 * directoryIndex);
    var table := MaskAddress(entry);
    WordsOfPage(table, tableIndex);
    StoreWord(mem, table + 4 * tableIndex, val);
  }

  /** The page whose entry `paging_get` returns: an address that is not aligned gets that of page 0. */
  function Looked(virt: word): page {
    if Aligned(virt) then PageOf(virt) else 0
  }

  method PagingGet(mem: array<byte>, dir: word, virt: word) returns (val: word)
    requires mem.Length == ADDRESS_SPACE && Aligned(dir)
    ensures val == Entry(AsWords(mem[..]), PageOf(dir), Looked(virt))
  {
    var res, directoryIndex, tableIndex := GetIndexes(virt);
    WordsOfPage(dir, directoryIndex);
    var entry := LoadWord(mem, dir + 4 * directoryIndex);
    var table := MaskAddress(entry);
    WordsOfPage(table, tableIndex);
    val := LoadWord(mem, table + 4 * tableIndex);
  }

  lemma MapIsSet(w: seq<word>, d: page, virt: word, phys: word, flags: word)
    requires |w| == MEMORY_WORDS && Aligned(virt) && Aligned(phys)
    ensures Apply(w, d, Map(virt, phys, flags)) == Apply(w, d, Set(virt, OrWord(phys, flags)))
  {
    assert PageOf(phys) * PAGE_SIZE == phys;
  }

  method PagingMap(mem: array<byte>, chunk: word, virt: word, phys: word, flags: word) returns (res: int)
    requires ChunkAt(mem[..], chunk)
    modifies mem
    ensures res == if Accepts(Map(virt, phys, flags)) then 0 else -EINVARG
    ensures AsWords(mem[..]) == Apply(AsWords(old(mem[..])), DirectoryOf(old(mem[..]), chunk), Map(virt, phys, flags))
    ensures res < 0 ==> mem[..] == old(mem[..])
  {
    if virt % PAGE_SIZE != 0 || phys % PAGE_SIZE != 0 {
      return -EINVARG;
    }
    FirstWordOfPage(chunk);
    var dir := LoadWord(mem, chunk);
    MapIsSet(AsWords(mem[..]), PageOf(dir), virt, phys, flags);
    res := PagingSet(mem, dir, virt, OrWord(phys, flags));
  }

  /** Stores the first two words of the block at `a`. */
  method SetPair(mem: array<byte>, a: word, first: word, second: word)
    requires mem.Length == ADDRESS_SPACE && Aligned(a)
    modifies mem
    ensures var w, p := AsWords(mem[..]), PageOf(a); w[p * ENTRIES] == first && w[p * ENTRIES + 1] == second
    ensures SameOutside(AsWords(old(mem[..])), AsWords(mem[..]), {PageOf(a)})
  {
    ghost var p, w := PageOf(a), AsWords(mem[..]);
    WordsOfPage(a, 0);
    WordsOfPage(a, 1);
    StoreWord(mem, a, first);
    StoreWord(mem, a + 4, second);
    assert forall q: page | q != p :: SamePage(w, AsWords(mem[..]), q);
  }

  lemma NextPage(a: word)
    requires Aligned(a)
    ensures Aligned(Wrap(a + PAGE_SIZE)) && PageOf(Wrap(a + PAGE_SIZE)) == Next(PageOf(a))
  {
  }

  /** One step of a range: the rest of it starts at the next pages, and is mapped through the same tables. */
  lemma RangeStep(ram: seq<byte>, after: seq<byte>, chunk: word, v: word, p: word, n: nat, flags: word)
    requires ChunkAt(ram, chunk) && |after| == ADDRESS_SPACE && Aligned(v) && Aligned(p) && n > 0
    requires AsWords(after) == MapRange(AsWords(ram), DirectoryOf(ram, chunk), PageOf(v), PageOf(p), 1, flags)
    ensures ChunkAt(after, chunk) && DirectoryOf(after, chunk) == DirectoryOf(ram, chunk)
    ensures var d, v1, p1 := DirectoryOf(ram, chunk), Wrap(v + PAGE_SIZE), Wrap(p + PAGE_SIZE);
      && Aligned(v1) && Aligned(p1)
      && MapRange(AsWords(after), d, PageOf(v1), PageOf(p1), n - 1, flags) ==
         MapRange(AsWords(ram), d, PageOf(v), PageOf(p), n, flags)
  {
    MapRangeKeepsTables(AsWords(ram), DirectoryOf(ram, chunk), PageOf(v), PageOf(p), 1, flags);
    ChunkKept(AsWords(ram), AsWords(after), PageOf(chunk));
    NextPage(v);
    NextPage(p);
  }

  method PagingMapRange(mem: array<byte>, chunk: word, virt: word, phys: word, count: int, flags: word)
    returns (res: int)
    requires ChunkAt(mem[..], chunk)
    modifies mem
    ensures res == if Accepts(Range(virt, phys, count, flags)) then 0 else -EINVARG
    ensures AsWords(mem[..]) ==
            Apply(AsWords(old(mem[..])), DirectoryOf(old(mem[..]), chunk), Range(virt, phys, count, flags))
    ensures res < 0 ==> mem[..] == old(mem[..])
  {
    res := 0;
    var v: word, p: word, i := virt, phys, 0;
    ghost var n, d := Rounds(count), DirectoryOf(mem[..], chunk);
    while i < count
      decreases n
      invariant 0 <= i && i + n == Rounds(count) && res == 0
      invariant ChunkAt(mem[..], chunk) && DirectoryOf(mem[..], chunk) == d
      invariant if Aligned(virt) && Aligned(phys)
                then Aligned(v) && Aligned(p) &&
                     MapRange(AsWords(mem[..]), d, PageOf(v), PageOf(p), n, flags) ==
                     MapRange(AsWords(old(mem[..])), d, PageOf(virt), PageOf(phys), Rounds(count), flags)
                else i == 0 && v == virt && p == phys && mem[..] == old(mem[..])
    {
      ghost var ram := mem[..];
      res := PagingMap(mem, chunk, v, p, flags);
      if res < 0 {
        break;
      }
      RangeStep(ram, mem[..], chunk, v, p, n, flags);
      v, p, i := Wrap(v + PAGE_SIZE), Wrap(p + PAGE_SIZE), i + 1;
      n := n - 1;
    }
  }

  method PagingMapTo(mem: array<byte>, chunk: word, virt: word, phys: word, physEnd: word, flags: word)
    returns (res: int)
    requires ChunkAt(mem[..], chunk)
    modifies mem
    ensures res == if Accepts(To(virt, phys, physEnd, flags)) then 0 else -EINVARG
    ensures AsWords(mem[..]) ==
            Apply(AsWords(old(mem[..])), DirectoryOf(old(mem[..]), chunk), To(virt, phys, physEnd, flags))
    ensures res < 0 ==> mem[..] == old(mem[..])
  {
    if virt % PAGE_SIZE != 0 || phys % PAGE_SIZE != 0 || physEnd % PAGE_SIZE != 0 || physEnd < phys {
      return -EINVARG;
    }
    var totalBytes := physEnd - phys;
    res := PagingMapRange(mem, chunk, virt, phys, totalBytes / PAGE_SIZE, flags);
  }

  // ---------------------------------------------------------------- building

  lemma FilledOneMore(w0: seq<word>, w: seq<word>, p: page, i: nat, b: nat, flags: word)
    requires i < ENTRIES && b < ENTRIES && SameOutside(w0, w, {p}) && Filled(w, p, i, b, flags)
    ensures var after := w[p * ENTRIES + b := EntryFor(i * ENTRIES + b, flags)];
            Filled(after, p, i, b + 1, flags) && SameOutside(w0, after, {p})
  {
    var after := w[p * ENTRIES + b := EntryFor(i * ENTRIES + b, flags)];
    FilledKept(w, after, p, i, b, flags);
    forall q: page | q != p
      ensures SamePage(w0, after, q)
    {
      assert SamePage(w0, w, q);
    }
  }

  lemma FillOffset(i: nat, b: nat)
    requires i < ENTRIES && b < ENTRIES
    ensures Wrap(i * SPAN + b * PAGE_SIZE) == (i * ENTRIES + b) * PAGE_SIZE
  {
  }

  /** The inner loop of `paging_new_4gb`: the `i`-th table of the identity mapping. `offset` advances
      by a table's span per table and wraps to 0 after the last. */
  method FillTable(mem: array<byte>, entry: word, i: nat, offset: word, flags: word)
    requires mem.Length == ADDRESS_SPACE && Aligned(entry) && i < ENTRIES && offset == i * SPAN
    modifies mem
    ensures Filled(AsWords(mem[..]), PageOf(entry), i, ENTRIES, flags)
    ensures SameOutside(AsWords(old(mem[..])), AsWords(mem[..]), {PageOf(entry)})
  {
    ghost var p, w0, w := PageOf(entry), AsWords(mem[..]), AsWords(mem[..]);
    for b := 0 to ENTRIES
      invariant w == AsWords(mem[..])
      invariant Filled(w, p, i, b, flags)
      invariant SameOutside(w0, w, {p})
    {
      WordsOfPage(entry, b);
      FillOffset(i, b);
      StoreWord(mem, entry + 4 * b, OrWord(Wrap(offset + b * PAGE_SIZE), flags));
      FilledOneMore(w0, w, p, i, b, flags);
      w := AsWords(mem[..]);
    }
  }

  lemma TableInstalled(w0: seq<word>, w1: seq<word>, d: page, p: page, i: nat, flags: word)
    requires i < ENTRIES && p != d && SameOutside(w0, w1, {p}) && Filled(w1, p, i, ENTRIES, flags)
    ensures var w := w1[d * ENTRIES + i := DirectoryWord(p, flags)];
      && Filled(w, p, i, ENTRIES, flags) && SameOutside(w0, w, {d, p})
      && forall k | d * ENTRIES <= k < d * ENTRIES + ENTRIES && k != d * ENTRIES + i :: w[k] == w0[k]
  {
    var w := w1[d * ENTRIES + i := DirectoryWord(p, flags)];
    assert forall q: page | q != d :: SamePage(w1, w, q);
    FilledKept(w1, w, p, i, ENTRIES, flags);
    SameOutsideBoth(w0, w1, w, {p}, {d}, {d, p});
    assert SamePage(w0, w1, d);
  }

  /** A fresh block, filled as the `i`-th table. */
  method FreshTable(heap: Heap, mem: array<byte>, i: nat, offset: word, flags: word) returns (entry: word)
    requires heap.Valid() && mem.Length == ADDRESS_SPACE && heap.FreeCount() > 0
    requires i < ENTRIES && offset == i * SPAN
    modifies heap, heap.entries, mem
    ensures heap.Valid() && Aligned(entry) && heap.FreeCount() == old(heap.FreeCount()) - 1
    ensures Block(AreaOf(heap), PageOf(entry)) !in old(heap.live)
    ensures heap.live == old(heap.live)[Block(AreaOf(heap), PageOf(entry)) := 1]
    ensures Filled(AsWords(mem[..]), PageOf(entry), i, ENTRIES, flags)
    ensures SameOutside(AsWords(old(mem[..])), AsWords(mem[..]), {PageOf(entry)})
  {
    ghost var w0 := AsWords(mem[..]);
    entry := KzallocBlock(heap, mem, 4 * ENTRIES);
    ghost var w1 := AsWords(mem[..]);
    FillTable(mem, entry, i, offset, flags);
    SameOutsideBoth(w0, w1, AsWords(mem[..]), {PageOf(entry)}, {PageOf(entry)}, {PageOf(entry)});
  }

  /** The outer loop's body: a fresh table and the directory word that points to it. */
  method NewTable(heap: Heap, mem: array<byte>, dir: word, i: nat, offset: word, flags: word) returns (entry: word)
    requires heap.Valid() && mem.Length == ADDRESS_SPACE && heap.FreeCount() > 0
    requires Aligned(dir) && i < ENTRIES && offset == i * SPAN
    requires Block(AreaOf(heap), PageOf(dir)) in heap.live
    modifies heap, heap.entries, mem
    ensures heap.Valid() && Aligned(entry) && heap.FreeCount() == old(heap.FreeCount()) - 1
    ensures Block(AreaOf(heap), PageOf(entry)) !in old(heap.live)
    ensures heap.live == old(heap.live)[Block(AreaOf(heap), PageOf(entry)) := 1]
    ensures var w0, w, p, d := AsWords(old(mem[..])), AsWords(mem[..]), PageOf(entry), PageOf(dir);
      && p != d && Filled(w, p, i, ENTRIES, flags) && w[d * ENTRIES + i] == DirectoryWord(p, flags)
      && SameOutside(w0, w, {d, p})
      && forall k | d * ENTRIES <= k < d * ENTRIES + ENTRIES && k != d * ENTRIES + i :: w[k] == w0[k]
  {
    ghost var w0, d := AsWords(mem[..]), PageOf(dir);
    entry := FreshTable(heap, mem, i, offset, flags);
    ghost var w1 := AsWords(mem[..]);
    TableInstalled(w0, w1, d, PageOf(entry), i, flags);
    WordsOfPage(dir, i);
    StoreWord(mem, dir + 4 * i, OrWord(OrWord(entry, flags), IS_WRITABLE));
    assert AsWords(mem[..]) == w1[d * ENTRIES + i := DirectoryWord(PageOf(entry), flags)];
  }

  /** Directory `d`'s words so far point to distinct, filled `tables`. */
  ghost predicate Linked(w: seq<word>, d: page, tables: seq<page>, flags: word) {
    && |w| == MEMORY_WORDS && |tables| <= ENTRIES
    && (forall i | 0 <= i < |tables| ::
          && tables[i] != d && w[d * ENTRIES + i] == DirectoryWord(tables[i], flags)
          && Filled(w, tables[i], i, ENTRIES, flags))
    && (forall i, j | 0 <= i < j < |tables| :: tables[i] != tables[j])
  }

  function Pages(tables: seq<page>): set<page> {
    set p | p in tables
  }

  lemma PagesOfMore(tables: seq<page>, p: page)
    ensures Pages(tables + [p]) == Pages(tables) + {p}
  {
    assert forall q :: q in tables + [p] <==> q in tables || q == p;
  }

  lemma LinkedKept(w: seq<word>, after: seq<word>, d: page, tables: seq<page>, flags: word)
    requires Linked(w, d, tables, flags) && |after| == MEMORY_WORDS
    requires forall k | d * ENTRIES <= k < d * ENTRIES + |tables| :: after[k] == w[k]
    requires forall p | p in tables :: SamePage(w, after, p)
    ensures Linked(after, d, tables, flags)
  {
    forall i | 0 <= i < |tables|
      ensures Filled(after, tables[i], i, ENTRIES, flags)
    {
      assert tables[i] in tables && SamePage(w, after, tables[i]);
      FilledKept(w, after, tables[i], i, ENTRIES, flags);
    }
  }

  lemma OneMoreTable(w1: seq<word>, w: seq<word>, d: page, tables: seq<page>, p: page, flags: word)
    requires Linked(w1, d, tables, flags) && |tables| < ENTRIES && p != d && p !in Pages(tables)
    requires SameOutside(w1, w, {d, p}) && Filled(w, p, |tables|, ENTRIES, flags)
    requires w[d * ENTRIES + |tables|] == DirectoryWord(p, flags)
    requires forall k | d * ENTRIES <= k < d * ENTRIES + ENTRIES && k != d * ENTRIES + |tables| :: w[k] == w1[k]
    ensures Linked(w, d, tables + [p], flags)
  {
    assert forall q | q in tables :: q in Pages(tables) && SamePage(w1, w, q);
    LinkedKept(w1, w, d, tables, flags);
    assert forall i | 0 <= i < |tables| :: tables[i] in Pages(tables);
  }

  /** The pages `ps` are new live blocks, one block each, beside the old ones. */
  ghost predicate AddedBlocks(live0: Live, live: Live, area: Area, ps: set<page>) {
    && (forall b | b in live0 :: b in live && live[b] == live0[b])
    && (forall p | p in ps :: Block(area, p) !in live0 && Block(area, p) in live && live[Block(area, p)] == 1)
    && (forall b | b in live :: b in live0 || exists p :: p in ps && Block(area, p) == b)
  }

  /** The same, folded. */
  ghost predicate Added(live0: Live, live: Live, area: Area, ps: set<page>) {
    forall k: nat | Unfolded(OfBlocks, k) :: AddedBlocks(live0, live, area, ps)
  }

  lemma OneMorePage(live0: Live, live: Live, area: Area, ps: set<page>, p: page)
    requires Added(live0, live, area, ps) && Block(area, p) !in live
    ensures p !in ps && Added(live0, live[Block(area, p) := 1], area, ps + {p})
  {
    assert Unfolded(OfBlocks, 0);
  }

  lemma AddedIsLive(live0: Live, live: Live, area: Area, ps: set<page>, p: page)
    requires Added(live0, live, area, ps) && p in ps
    ensures Block(area, p) in live && live[Block(area, p)] == 1 && Block(area, p) !in live0
  {
    assert Unfolded(OfBlocks, 0);
  }

  /** Only pages of the heap that no allocation of `live` reaches were written. Folded. */
  ghost predicate OnlyVacant(live: Live, area: Area, w: seq<word>, after: seq<word>) {
    forall k: nat | Unfolded(OfWrites, k) ::
      |w| == |after| == MEMORY_WORDS && forall p: page | !Vacant(live, area, p) :: SamePage(w, after, p)
  }

  lemma OnlyVacantTwice(live: Live, area: Area, a: seq<word>, b: seq<word>, c: seq<word>)
    requires OnlyVacant(live, area, a, b) && OnlyVacant(live, area, b, c)
    ensures OnlyVacant(live, area, a, c)
  {
    assert Unfolded(OfWrites, 0);
    forall p: page | !Vacant(live, area, p)
      ensures SamePage(a, c, p)
    {
      assert SamePage(a, b, p) && SamePage(b, c, p);
    }
  }

  lemma StillUnused(live0: Live, live: Live, area: Area, ps: set<page>, b: int)
    requires Added(live0, live, area, ps) && Unused(live, b)
    ensures Unused(live0, b)
  {
    assert Unfolded(OfBlocks, 0);
  }

  /** What spares all present allocations spares the earlier ones among them. */
  lemma OnlyVacantEarlier(live0: Live, live: Live, area: Area, ps: set<page>, w: seq<word>, after: seq<word>)
    requires Added(live0, live, area, ps) && OnlyVacant(live, area, w, after)
    ensures OnlyVacant(live0, area, w, after)
  {
    assert Unfolded(OfBlocks, 0) && Unfolded(OfWrites, 0);
    forall p: page | !Vacant(live0, area, p)
      ensures SamePage(w, after, p)
    {
      if Vacant(live, area, p) {
        StillUnused(live0, live, area, ps, Block(area, p));
      }
    }
  }

  lemma AddedBoth(live0: Live, live1: Live, live2: Live, area: Area, ps: set<page>, qs: set<page>)
    requires Added(live0, live1, area, ps) && Added(live1, live2, area, qs)
    ensures Added(live0, live2, area, ps + qs) && ps !! qs
  {
    assert Unfolded(OfBlocks, 0);
  }

  /** The page of a live block keeps its words. */
  lemma LivePageKept(t: Table, live: Live, area: Area, w: seq<word>, after: seq<word>, p: page)
    requires Recorded(t, live) && OnlyVacant(live, area, w, after) && Block(area, p) in live
    ensures |w| == |after| == MEMORY_WORDS && SamePage(w, after, p)
  {
    assert Unfolded(OfTable, 0) && Unfolded(OfWrites, 0);
    assert !Vacant(live, area, p);
  }

  lemma AddedIsVacant(t: Table, live0: Live, live: Live, area: Area, ps: set<page>, p: page)
    requires Recorded(t, live) && |t| == area.size && Added(live0, live, area, ps) && p in ps
    ensures Vacant(live0, area, p)
  {
    assert Unfolded(OfTable, 0) && Unfolded(OfBlocks, 0);
    var b := Block(area, p);
    forall r | r in live0
      ensures r + live0[r] <= b || b < r
    {
      assert r in live && b in live;
    }
  }

  /** Writing added blocks, and others no old allocation reaches, writes no old allocation. */
  lemma AddedWritesVacant(t: Table, live0: Live, live: Live, area: Area, ps: set<page>, qs: set<page>, w: seq<word>,
                          after: seq<word>)
    requires Recorded(t, live) && |t| == area.size && Added(live0, live, area, ps) && SameOutside(w, after, ps + qs)
    requires forall q | q in qs :: Vacant(live0, area, q)
    ensures OnlyVacant(live0, area, w, after)
  {
    forall p | p in ps
      ensures Vacant(live0, area, p)
    {
      AddedIsVacant(t, live0, live, area, ps, p);
    }
  }

  lemma LinkedBeside(w1: seq<word>, w: seq<word>, d: page, tables: seq<page>, c: page, flags: word)
    requires Linked(w1, d, tables, flags) && c != d && c !in Pages(tables) && SameOutside(w1, w, {c})
    ensures Linked(w, d, tables, flags)
  {
    assert forall q | q in tables :: q in Pages(tables) && SamePage(w1, w, q);
    assert SamePage(w1, w, d);
    LinkedKept(w1, w, d, tables, flags);
  }

  lemma TablesAre(w: seq<word>, d: page, tables: seq<page>)
    requires |w| == MEMORY_WORDS && |tables| == ENTRIES
    requires forall i | 0 <= i < ENTRIES :: TablePage(w, d, i) == tables[i]
    ensures TablePages(w, d) == Pages(tables)
  {
    assert forall i | 0 <= i < ENTRIES :: tables[i] in Pages(tables);
  }

  /** All tables built and the chunk structure pointing at the directory: the 4 GB identity. */
  lemma ChunkFinished(w1: seq<word>, w: seq<word>, d: page, tables: seq<page>, c: page, flags: word)
    requires Linked(w1, d, tables, flags) && |tables| == ENTRIES && flags < PAGE_SIZE
    requires c != d && c !in Pages(tables) && SameOutside(w1, w, {c})
    requires Aligned(w[c * ENTRIES]) && PageOf(w[c * ENTRIES]) == d
    ensures ChunkOk(w, c) && Identity(w, d, flags)
    ensures Footprint(w, c) == {d} + Pages(tables) + {c}
  {
    LinkedBeside(w1, w, d, tables, c, flags);
    FilledIsIdentity(w, d, tables, flags);
    TablesAre(w, d, tables);
  }

  lemma NextOffset(i: nat)
    requires i < ENTRIES
    ensures i + 1 < ENTRIES ==> Wrap(i * SPAN + ENTRIES * PAGE_SIZE) == (i + 1) * SPAN
  {
  }

  /** The loops of `paging_new_4gb`: all the tables of a fresh directory. */
  method BuildTables(heap: Heap, mem: array<byte>, directory: word, flags: word, ghost live0: Live)
    returns (ghost tables: seq<page>)
    requires heap.Valid() && mem.Length == ADDRESS_SPACE && heap.FreeCount() > ENTRIES
    requires Aligned(directory) && Added(live0, heap.live, AreaOf(heap), {PageOf(directory)})
    modifies heap, heap.entries, mem
    ensures heap.Valid() && heap.FreeCount() == old(heap.FreeCount()) - ENTRIES && |tables| == ENTRIES
    ensures Linked(AsWords(mem[..]), PageOf(directory), tables, flags)
    ensures SameOutside(AsWords(old(mem[..])), AsWords(mem[..]), {PageOf(directory)} + Pages(tables))
    ensures Added(live0, heap.live, AreaOf(heap), {PageOf(directory)} + Pages(tables))
  {
    var offset := 0;
    tables := [];
    ghost var area, d, w0, w := AreaOf(heap), PageOf(directory), AsWords(mem[..]), AsWords(mem[..]);
    assert {d} + Pages(tables) == {d};
    for i := 0 to ENTRIES
      invariant heap.Valid() && heap.FreeCount() == old(heap.FreeCount()) - i
      invariant i < ENTRIES ==> offset == i * SPAN
      invariant |tables| == i && w == AsWords(mem[..]) && Linked(w, d, tables, flags)
      invariant SameOutside(w0, w, {d} + Pages(tables))
      invariant Added(live0, heap.live, area, {d} + Pages(tables))
    {
      ghost var live := heap.live;
      AddedIsLive(live0, live, area, {d} + Pages(tables), d);
      var entry := NewTable(heap, mem, directory, i, offset, flags);
      OneMorePage(live0, live, area, {d} + Pages(tables), PageOf(entry));
      PagesOfMore(tables, PageOf(entry));
      OneMoreTable(w, AsWords(mem[..]), d, tables, PageOf(entry), flags);
      SameOutsideBoth(w0, w, AsWords(mem[..]), {d} + Pages(tables), {d, PageOf(entry)},
                      {d} + Pages(tables + [PageOf(entry)]));
      w := AsWords(mem[..]);
      assert {d} + Pages(tables + [PageOf(entry)]) == {d} + Pages(tables) + {PageOf(entry)};
      tables := tables + [PageOf(entry)];
      NextOffset(i);
      offset := Wrap(offset + ENTRIES * PAGE_SIZE);
    }
  }

  /** The chunk structure of a finished directory. */
  method NewChunk(heap: Heap, mem: array<byte>, directory: word) returns (chunk: word)
    requires heap.Valid() && mem.Length == ADDRESS_SPACE && heap.FreeCount() > 0 && Aligned(directory)
    modifies heap, heap.entries, mem
    ensures heap.Valid() && Aligned(chunk) && heap.FreeCount() == old(heap.FreeCount()) - 1
    ensures Block(AreaOf(heap), PageOf(chunk)) !in old(heap.live)
    ensures heap.live == old(heap.live)[Block(AreaOf(heap), PageOf(chunk)) := 1]
    ensures AsWords(mem[..])[PageOf(chunk) * ENTRIES] == directory
    ensures SameOutside(AsWords(old(mem[..])), AsWords(mem[..]), {PageOf(chunk)})
  {
    chunk := KzallocBlock(heap, mem, 4);
    FirstWordOfPage(chunk);
    ghost var w := AsWords(mem[..]);
    StoreWord(mem, chunk, directory);
    assert AsWords(mem[..]) == w[PageOf(chunk) * ENTRIES := directory];
    assert forall q: page | q != PageOf(chunk) :: SamePage(w, AsWords(mem[..]), q);
    SameOutsideBoth(AsWords(old(mem[..])), w, AsWords(mem[..]), {PageOf(chunk)}, {PageOf(chunk)}, {PageOf(chunk)});
  }

  /** A directory that maps all 4 GB to itself: 1026 blocks, all of them new. */
  method PagingNew4Gb(heap: Heap, mem: array<byte>, flags: word) returns (chunk: word)
    requires heap.Valid() && mem.Length == ADDRESS_SPACE && flags < 256
    requires heap.FreeCount() >= ENTRIES + 2
    modifies heap, heap.entries, mem
    ensures heap.Valid() && ChunkAt(mem[..], chunk) && heap.FreeCount() == old(heap.FreeCount()) - (ENTRIES + 2)
    ensures Identity(AsWords(mem[..]), DirectoryOf(mem[..], chunk), flags)
    ensures Added(old(heap.live), heap.live, AreaOf(heap), Footprint(AsWords(mem[..]), PageOf(chunk)))
    ensures SameOutside(AsWords(old(mem[..])), AsWords(mem[..]), Footprint(AsWords(mem[..]), PageOf(chunk)))
  {
    ghost var area, live0, w0 := AreaOf(heap), heap.live, AsWords(mem[..]);
    var directory := KzallocBlock(heap, mem, 4 * ENTRIES);
    ghost var d, w1 := PageOf(directory), AsWords(mem[..]);
    OneMorePage(live0, live0, area, {}, d);
    ghost var tables := BuildTables(heap, mem, directory, flags, live0);
    ghost var live, w2 := heap.live, AsWords(mem[..]);
    chunk := NewChunk(heap, mem, directory);
    ghost var c, w := PageOf(chunk), AsWords(mem[..]);
    OneMorePage(live0, live, area, {d} + Pages(tables), c);
    ChunkFinished(w2, w, d, tables, c, flags);
    SameOutsideBoth(w0, w1, w2, {d}, {d} + Pages(tables), {d} + Pages(tables));
    SameOutsideBoth(w0, w2, w, {d} + Pages(tables), {c}, {d} + Pages(tables) + {c});
  }

  // ---------------------------------------------------------------- freeing

  /** Every page of the directory behind chunk `c` is a live block of its own. */
  ghost predicate Owned(live: Live, area: Area, w: seq<word>, c: page) {
    ChunkOk(w, c) && forall p | p in Footprint(w, c) :: Block(area, p) in live
  }

  function BlocksOf(area: Area, ps: set<page>): set<int> {
    set p | p in ps :: Block(area, p)
  }

  /** The pages of the first `n` tables. */
  function FirstTables(w: seq<word>, d: page, n: nat): set<page>
    requires |w| == MEMORY_WORDS && n <= ENTRIES
  {
    set i | 0 <= i < n :: TablePage(w, d, i)
  }

  /** Frees page `p`, a live block. */
  method FreePage(heap: Heap, p: word)
    requires heap.Valid() && Aligned(p) && Block(AreaOf(heap), PageOf(p)) in heap.live
    modifies heap, heap.entries
    ensures heap.Valid() && heap.live == old(heap.live) - {Block(AreaOf(heap), PageOf(p))}
    ensures Shrinks(old(heap.entries[..]), heap.entries[..], 0)
    ensures heap.FreeCount() == old(heap.FreeCount()) + old(heap.live)[Block(AreaOf(heap), PageOf(p))]
  {
    ghost var t, live, b := heap.entries[..], heap.live, Block(AreaOf(heap), PageOf(p));
    PageOfLive(heap, b);
    ShrinksByClear(t, b);
    heap.Free(p);
    BlocksGiven(t, live, heap.entries[..], b);
  }

  /** Frees the tables, found by masking the directory words, then the directory and the chunk. */
  method PagingFree4Gb(heap: Heap, mem: array<byte>, chunk: word)
    requires heap.Valid() && mem.Length == ADDRESS_SPACE && Aligned(chunk)
    requires Owned(heap.live, AreaOf(heap), AsWords(mem[..]), PageOf(chunk))
    modifies heap, heap.entries
    ensures heap.Valid()
    ensures heap.live == old(heap.live) - BlocksOf(AreaOf(heap), Footprint(AsWords(mem[..]), PageOf(chunk)))
  {
    ghost var area, live0, w, c := AreaOf(heap), heap.live, AsWords(mem[..]), PageOf(chunk);
    FirstWordOfPage(chunk);
    var dir := LoadWord(mem, chunk);
    ghost var d := PageOf(dir);
    for i := 0 to ENTRIES
      invariant heap.Valid() && heap.live == live0 - BlocksOf(area, FirstTables(w, d, i))
    {
      WordsOfPage(dir, i);
      var entry := LoadWord(mem, dir + 4 * i);
      var table := MaskAddress(entry);
      assert PageOf(table) == TablePage(w, d, i);
      OneMoreFreed(live0, area, w, c, i);
      FreePage(heap, table);
    }
    LastTwoFreed(live0, area, w, c);
    FreePage(heap, dir);
    FreePage(heap, chunk);
  }

  lemma OneMoreFreed(live0: Live, area: Area, w: seq<word>, c: page, i: nat)
    requires Owned(live0, area, w, c) && i < ENTRIES
    ensures var d := PageOf(w[c * ENTRIES]);
      && Block(area, TablePage(w, d, i)) in live0 - BlocksOf(area, FirstTables(w, d, i))
      && live0 - BlocksOf(area, FirstTables(w, d, i)) - {Block(area, TablePage(w, d, i))}
         == live0 - BlocksOf(area, FirstTables(w, d, i + 1))
  {
    var d := PageOf(w[c * ENTRIES]);
    assert FirstTables(w, d, i + 1) == FirstTables(w, d, i) + {TablePage(w, d, i)};
    assert BlocksOf(area, FirstTables(w, d, i + 1)) ==
           BlocksOf(area, FirstTables(w, d, i)) + {Block(area, TablePage(w, d, i))};
    assert TablePage(w, d, i) in TablePages(w, d);
  }

  lemma LastTwoFreed(live0: Live, area: Area, w: seq<word>, c: page)
    requires Owned(live0, area, w, c)
    ensures var d, ts := PageOf(w[c * ENTRIES]), FirstTables(w, PageOf(w[c * ENTRIES]), ENTRIES);
      && c != d && c !in ts && d !in ts && Block(area, d) in live0 && Block(area, c) in live0
      && live0 - BlocksOf(area, ts) - {Block(area, d)} - {Block(area, c)} == live0 - BlocksOf(area, Footprint(w, c))
  {
    var d := PageOf(w[c * ENTRIES]);
    assert TablePage(w, d, 0) != d;
    assert BlocksOf(area, Footprint(w, c)) ==
           BlocksOf(area, FirstTables(w, d, ENTRIES)) + {Block(area, d), Block(area, c)};
  }

  // ---------------------------------------------------------------- the whole life of a directory

  /** Any one of the four ways to edit a directory. */
  method ApplyEdit(mem: array<byte>, chunk: word, e: Edit) returns (res: int)
    requires ChunkAt(mem[..], chunk)
    modifies mem
    ensures res == if Accepts(e) then 0 else -EINVARG
    ensures AsWords(mem[..]) == Apply(AsWords(old(mem[..])), DirectoryOf(old(mem[..]), chunk), e)
  {
    match e {
      case Set(virt, val) =>
        FirstWordOfPage(chunk);
        var dir := LoadWord(mem, chunk);
        res := PagingSet(mem, dir, virt, val);
      case Map(virt, phys, flags) => res := PagingMap(mem, chunk, virt, phys, flags);
      case Range(virt, phys, count, flags) => res := PagingMapRange(mem, chunk, virt, phys, count, flags);
      case To(virt, phys, physEnd, flags) => res := PagingMapTo(mem, chunk, virt, phys, physEnd, flags);
    }
  }

  lemma EditKeepsOwned(live: Live, area: Area, w: seq<word>, c: page, e: Edit)
    requires Owned(live, area, w, c)
    ensures var after := Apply(w, PageOf(w[c * ENTRIES]), e);
      && after[c * ENTRIES] == w[c * ENTRIES] && Owned(live, area, after, c) && Footprint(after, c) == Footprint(w, c)
  {
    EditKeepsTables(w, PageOf(w[c * ENTRIES]), e);
    ChunkKept(w, Apply(w, PageOf(w[c * ENTRIES]), e), c);
  }

  /** Without the added blocks, the allocations are the old ones. */
  lemma AddedRemoved(live0: Live, live: Live, area: Area, ps: set<page>)
    requires Added(live0, live, area, ps)
    ensures live - BlocksOf(area, ps) == live0
  {
    assert Unfolded(OfBlocks, 0);
    assert forall p | p in ps :: Block(area, p) in BlocksOf(area, ps);
    assert forall b | b in BlocksOf(area, ps) :: b !in live0;
    forall b | b in live
      ensures b in live0 <==> b !in BlocksOf(area, ps)
    {
      assert b in live0 || exists p :: p in ps && Block(area, p) == b;
    }
    var rest := live - BlocksOf(area, ps);
    assert forall b :: b in rest <==> b in live0;
    assert forall b | b in live0 :: rest[b] == live0[b];
  }

  lemma AddedAreOwned(live0: Live, live: Live, area: Area, w: seq<word>, c: page)
    requires ChunkOk(w, c) && Added(live0, live, area, Footprint(w, c))
    ensures Owned(live, area, w, c)
    ensures live - BlocksOf(area, Footprint(w, c)) == live0
  {
    assert Unfolded(OfBlocks, 0);
    AddedRemoved(live0, live, area, Footprint(w, c));
  }

  lemma OneMoreEdit(w0: seq<word>, d: page, edits: seq<Edit>, i: nat)
    requires |w0| == MEMORY_WORDS && i < |edits|
    ensures ApplyAll(w0, d, edits[..i + 1]) == Apply(ApplyAll(w0, d, edits[..i]), d, edits[i])
  {
    assert edits[..i + 1][..i] == edits[..i];
  }

  /** What a directory that began as the identity says of a page after `edits`. */
  lemma SeenAfter(w0: seq<word>, d: page, flags: word, edits: seq<Edit>, u: page)
    requires Built(w0, d) && Identity(w0, d, flags)
    ensures Entry(ApplyAll(w0, d, edits), d, u) == EditedAll(EntryFor(u, flags), edits, u)
  {
    EditsRefine(w0, d, edits, u);
  }

  /** Any sequence of edits of the directory behind `chunk`. */
  method ApplyEdits(mem: array<byte>, chunk: word, edits: seq<Edit>, ghost live: Live, ghost area: Area)
    requires mem.Length == ADDRESS_SPACE && Aligned(chunk) && Owned(live, area, AsWords(mem[..]), PageOf(chunk))
    modifies mem
    ensures AsWords(mem[..]) == ApplyAll(AsWords(old(mem[..])), DirectoryOf(old(mem[..]), chunk), edits)
    ensures Owned(live, area, AsWords(mem[..]), PageOf(chunk))
    ensures DirectoryOf(mem[..], chunk) == DirectoryOf(old(mem[..]), chunk)
    ensures Footprint(AsWords(mem[..]), PageOf(chunk)) == Footprint(AsWords(old(mem[..])), PageOf(chunk))
  {
    ghost var w0, c, d := AsWords(mem[..]), PageOf(chunk), DirectoryOf(mem[..], chunk);
    for i := 0 to |edits|
      invariant AsWords(mem[..]) == ApplyAll(w0, d, edits[..i]) && DirectoryOf(mem[..], chunk) == d
      invariant Owned(live, area, AsWords(mem[..]), c) && Footprint(AsWords(mem[..]), c) == Footprint(w0, c)
    {
      EditKeepsOwned(live, area, AsWords(mem[..]), c, edits[i]);
      OneMoreEdit(w0, d, edits, i);
      var _ := ApplyEdit(mem, chunk, edits[i]);
    }
    assert edits[..|edits|] == edits;
  }

  /** Build a directory, edit it in any way any number of times, look up an address, free it. The lookup
      finds what the edits made of the identity, and the heap's table is byte for byte what it was,
      because no edit moves a table from under its directory word. */
  method DirectoryLifeCycle(heap: Heap, mem: array<byte>, flags: word, edits: seq<Edit>, probe: word)
    returns (seen: word)
    requires heap.Valid() && mem.Length == ADDRESS_SPACE && flags < 256
    requires heap.FreeCount() >= ENTRIES + 2
    modifies heap, heap.entries, mem
    ensures seen == EditedAll(EntryFor(Looked(probe), flags), edits, Looked(probe))
    ensures heap.Valid() && heap.live == old(heap.live)
    ensures heap.entries[..] == old(heap.entries[..])
  {
    ghost var t0, live0, area := heap.entries[..], heap.live, AreaOf(heap);
    var chunk := PagingNew4Gb(heap, mem, flags);
    ghost var w0, d := AsWords(mem[..]), DirectoryOf(mem[..], chunk);
    AddedAreOwned(live0, heap.live, area, w0, PageOf(chunk));
    ApplyEdits(mem, chunk, edits, heap.live, area);
    SeenAfter(w0, d, flags, edits, Looked(probe));
    FirstWordOfPage(chunk);
    var dir := LoadWord(mem, chunk);
    seen := PagingGet(mem, dir, probe);
    PagingFree4Gb(heap, mem, chunk);
    TableIsDetermined(heap.entries[..], t0, live0);
  }
}
