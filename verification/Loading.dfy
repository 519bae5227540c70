/** Loading a file: from a path to a fresh allocation that holds the file. */
module Loading {
  import opened Words
  import opened HeapTable
  import opened Heap
  import opened Kheap
  import opened PageTables
  import opened Paging
  import opened Growth
  import opened Paths
  import opened Streamer
  import opened Pieces
  import opened Division
  import opened Fat16
  import opened Lookup
  import opened Files

  /** What the file whose entry is `item` holds, if it can all be read. */
  ghost function Content(m: Mounted, item: seq<byte>): Option<seq<byte>>
    requires |item| == ITEM_SIZE && m.disk.Valid()
  {
    Gather(m.disk.volume.Chain(FirstCluster(item)), m.disk.volume.clusterBytes, 0, FileSize(item))
  }

  /** If the clusters are on the disk, that is what the chain's clusters start with. */
  lemma ContentIsChain(m: Mounted, item: seq<byte>, cs: seq<seq<byte>>)
    requires |item| == ITEM_SIZE && m.disk.Valid() && Content(m, item).Some?
    requires Contents(m.disk.volume, FirstCluster(item), cs) && cs != []
    requires FileSize(item) <= Times(|cs|, m.disk.volume.clusterBytes)
    ensures FileSize(item) <= |Concat(cs)| && Content(m, item).value == Concat(cs)[..FileSize(item)]
  {
    AlignedReadIsSlice(m.disk.volume, FirstCluster(item), 0, FileSize(item), cs);
  }

  /** The allocation at `ptr` is new since `live0`, in pages that were vacant, and holds `bytes`. */
  ghost predicate Loaded(live0: Live, live: Live, area: Area, ram: seq<byte>, ptr: word, bytes: seq<byte>) {
    && Stored(live, area, ram, ptr, bytes) && Block(area, PageOf(ptr)) !in live0
    && AllVacant(live0, area, PagesAt(ptr, |bytes|))
  }

  /** An open file whose blocks are live survives what spares them. */
  lemma OpenSurvives(t: Table, live: Live, area: Area, ram: seq<byte>, after: seq<byte>, slots: seq<word>, fd: int,
                     h: Handle, item: seq<byte>)
    requires Recorded(t, live) && OnlyVacant(live, area, AsWords(ram), AsWords(after)) && |after| == ADDRESS_SPACE
    requires OpenAt(ram, slots, fd, h, item) && forall p | p in h.All() :: Block(area, p) in live
    ensures OpenAt(after, slots, fd, h, item)
  {
    forall p | p in h.All()
      ensures SamePage(AsWords(ram), AsWords(after), p)
    {
      LivePageKept(t, live, area, AsWords(ram), AsWords(after), p);
    }
    OpenKept(ram, after, slots, fd, h, item);
  }

  /** `fread(ptr, size, 1, fd)` of a file just opened, from its beginning. */
  method ReadAll(mem: array<byte>, files: FileTable, m: Mounted, fd: int, ptr: word, size: word, ghost h: Handle,
                 ghost item: seq<byte>)
    returns (res: int)
    requires mem.Length == ADDRESS_SPACE && OpenAt(mem[..], files.slots, fd, h, item) && m.disk.Valid()
    requires h.pos == 0 && 0 < size == FileSize(item) <= MAX_INT && ptr + size <= ADDRESS_SPACE && fd < MAX_DESCRIPTORS
    modifies mem, m.disk.fatStream, m.disk.clusterStream
    ensures SameBeside(old(mem[..]), mem[..], ptr, size) && res == if Content(m, item).Some? then 0 else -EIO
    ensures res == 0 ==> |Content(m, item).value| == size && mem[ptr..ptr + size] == Content(m, item).value
  {
    assert Times(1, size) == size;
    FirstItem(m.disk.volume, m.disk.clusterStream.around, FirstCluster(item), size);
    var n := Fread(mem, files, m, fd, ptr, size, 1, h, item);
    res := if n != 1 then -EIO else 0;
    if res == 0 {
      CopiedSlice(mem[..], ptr, Content(m, item).value);
    }
  }

  /** Reading into new blocks spares what was there. */
  lemma ReadBeside(area: Area, a: Snapshot, b: Snapshot, c: Snapshot, ram: seq<byte>, after: seq<byte>, ptr: word,
                   size: nat)
    requires Spared(area, a, b, PagesFor(size)) && c.live == b.live && c.table == b.table
    requires b.words == AsWords(ram) && c.words == AsWords(after) && SameBeside(ram, after, ptr, size)
    requires |ram| == |after| == ADDRESS_SPACE && Aligned(ptr) && 0 <= Block(area, PageOf(ptr))
    requires Block(area, PageOf(ptr)) + PagesFor(size) <= area.size
    requires forall r | Block(area, PageOf(ptr)) <= r < Block(area, PageOf(ptr)) + PagesFor(size) :: Unused(a.live, r)
    ensures Spared(area, a, c, PagesFor(size))
  {
    WrittenVacant(a.live, area, ram, after, ptr, size, PagesFor(size));
    SparedAndWritten(area, a, b, c, PagesFor(size));
  }

  /** New blocks that hold all the bytes they were meant for. */
  lemma FilledIsLoaded(live0: Live, live: Live, area: Area, ram: seq<byte>, ptr: word, size: nat, bytes: seq<byte>)
    requires Held(live, area, ptr, size) && Block(area, PageOf(ptr)) !in live0 && |ram| == ADDRESS_SPACE
    requires AllVacant(live0, area, PagesAt(ptr, size)) && |bytes| == size && ram[ptr..ptr + size] == bytes
    ensures Loaded(live0, live, area, ram, ptr, bytes)
  {
  }

  /** A file with something in it: `kzalloc` of its size, and the read into that. */
  method LoadBytes(heap: Heap, mem: array<byte>, files: FileTable, m: Mounted, fd: int, size: word, ghost h: Handle,
                   ghost item: seq<byte>)
    returns (res: int, ptr: word)
    requires heap.Valid() && mem.Length == ADDRESS_SPACE && OpenAt(mem[..], files.slots, fd, h, item) && m.disk.Valid()
    requires h.pos == 0 && fd < MAX_DESCRIPTORS && 0 < size == FileSize(item)
    requires forall p | p in h.All() :: Block(AreaOf(heap), p) in heap.live
    requires Serves(heap.entries[..], PagesFor(size))
    modifies heap, heap.entries, mem, m.disk.fatStream, m.disk.clusterStream
    ensures heap.Valid() && Spared(AreaOf(heap), old(Snap(heap, mem)), Snap(heap, mem), PagesFor(size))
    ensures res == if !HasRun(old(heap.entries[..]), PagesFor(size)) then -ENOMEM
                   else if Content(m, item).Some? then 0 else -EIO
    ensures heap.FreeCount() ==
            old(heap.FreeCount()) - if HasRun(old(heap.entries[..]), PagesFor(size)) then PagesFor(size) else 0
    ensures res == 0 ==>
      && |Content(m, item).value| == size
      && Loaded(old(heap.live), heap.live, AreaOf(heap), mem[..], ptr, Content(m, item).value)
  {
    ghost var s0, ram0, area := Snap(heap, mem), mem[..], AreaOf(heap);
    SparedNot(area, s0);
    ptr := NewBlocks(heap, mem, size);
    if ptr == 0 {
      ShrinksMore(s0.table, s0.table, 0, PagesFor(size));
      return -ENOMEM, ptr;
    }
    ghost var s1, ram1 := Snap(heap, mem), mem[..];
    OpenSurvives(s0.table, s0.live, area, ram0, ram1, files.slots, fd, h, item);
    res := ReadAll(mem, files, m, fd, ptr, size, h, item);
    ReadBeside(area, s0, s1, Snap(heap, mem), ram1, mem[..], ptr, size);
    if res == 0 {
      FilledIsLoaded(s0.live, heap.live, area, mem[..], ptr, size, Content(m, item).value);
    }
  }

  /** What comes of loading an open file, if its memory is asked for when the block table is `t`: an empty
      one always fails. */
  ghost function OpenedResult(m: Mounted, item: seq<byte>, fd: int, t: Table): int
    requires |item| == ITEM_SIZE && m.disk.Valid()
  {
    if fd >= MAX_DESCRIPTORS then -EIO
    else if FileSize(item) == 0 then (if StartBlock(t, 0) < 0 then -ENOMEM else -EIO)
    else if !HasRun(t, PagesFor(FileSize(item))) then -ENOMEM
    else if Content(m, item).Some? then 0 else -EIO
  }

  /** The blocks that its contents get, and keep even if they cannot be read. */
  ghost function DataBlocks(item: seq<byte>, fd: int, t: Table): nat
    requires |item| == ITEM_SIZE
  {
    if fd < MAX_DESCRIPTORS && HasRun(t, PagesFor(FileSize(item))) then PagesFor(FileSize(item)) else 0
  }

  /** An empty file is allocated nothing, and reading nothing is refused. */
  method LoadNothing(heap: Heap, mem: array<byte>, files: FileTable, m: Mounted, fd: int, size: word, ghost h: Handle,
                     ghost item: seq<byte>)
    returns (res: int)
    requires heap.Valid() && mem.Length == ADDRESS_SPACE && OpenAt(mem[..], files.slots, fd, h, item) && m.disk.Valid()
    requires size == 0 && h.pos == 0
    modifies heap, heap.entries, mem, m.disk.fatStream, m.disk.clusterStream
    ensures heap.Valid() && Snap(heap, mem) == old(Snap(heap, mem)) && mem[..] == old(mem[..])
    ensures res == if StartBlock(old(heap.entries[..]), 0) < 0 then -ENOMEM else -EIO
  {
    ghost var t := heap.entries[..];
    assert Take(t, StartBlock(t, 0), 0) == t;
    var ptr := Kzalloc(heap, mem, size);
    if ptr == 0 {
      return -ENOMEM;
    }
    var n := Fread(mem, files, m, fd, ptr, size, 1, h, item);
    res := if n != 1 then -EIO else 0;
  }

  /** The entry that the lookup finds. */
  function FoundEntry(root: Root, named: set<nat>): seq<byte>
    requires LastOf(named, Rounds(root.total)) >= 0 && (LastOf(named, Rounds(root.total)) + 1) * ITEM_SIZE <= |root.raw|
  {
    ItemOf(root.raw, LastOf(named, Rounds(root.total)))
  }

  /** The blocks for the file's contents, if the path leads to one. */
  function FileBlocks(root: Root, filename: CString, named: set<nat>): nat {
    if Opens(root, filename, named) && (LastOf(named, Rounds(root.total)) + 1) * ITEM_SIZE <= |root.raw|
    then PagesFor(FileSize(FoundEntry(root, named))) else 0
  }

  /** Between opening and closing: the file's size, memory for it, and the read. */
  method LoadOpened(heap: Heap, mem: array<byte>, files: FileTable, m: Mounted, fd: int, ghost h: Handle,
                    ghost item: seq<byte>)
    returns (res: int, ptr: word, size: word)
    requires heap.Valid() && mem.Length == ADDRESS_SPACE && OpenAt(mem[..], files.slots, fd, h, item) && m.disk.Valid()
    requires h.pos == 0 && forall p | p in h.All() :: Block(AreaOf(heap), p) in heap.live
    requires Serves(heap.entries[..], PagesFor(FileSize(item)))
    modifies heap, heap.entries, mem, m.disk.fatStream, m.disk.clusterStream
    ensures heap.Valid() && Spared(AreaOf(heap), old(Snap(heap, mem)), Snap(heap, mem), PagesFor(FileSize(item)))
    ensures res == OpenedResult(m, item, fd, old(heap.entries[..]))
    ensures res == 0 ==>
      && size == FileSize(item) == |Content(m, item).value|
      && Loaded(old(heap.live), heap.live, AreaOf(heap), mem[..], ptr, Content(m, item).value)
    ensures heap.FreeCount() == old(heap.FreeCount()) - DataBlocks(item, fd, old(heap.entries[..]))
  {
    ghost var s0, area := Snap(heap, mem), AreaOf(heap);
    SparedNot(area, s0);
    ShrinksMore(s0.table, s0.table, 0, PagesFor(FileSize(item)));
    ptr := 0;
    var flags;
    res, size, flags := Fstat(mem, files, fd, h, item);
    if res != 0 {
      return;
    }
    if size == 0 {
      res := LoadNothing(heap, mem, files, m, fd, size, h, item);
      return;
    }
    res, ptr := LoadBytes(heap, mem, files, m, fd, size, h, item);
  }

  /** The contents of the last entry among `named`, if it is in the table and can be read. */
  ghost function FileOf(m: Mounted, named: set<nat>): Option<seq<byte>> {
    var found := LastOf(named, Rounds(m.root.total));
    if !m.disk.Valid() || found < 0 || (found + 1) * ITEM_SIZE > |m.root.raw| then None
    else Content(m, ItemOf(m.root.raw, found))
  }

  /** When a file can be loaded: the path leads to it, a reachable descriptor slot is free, and it has
      contents that can be read. */
  ghost predicate Loads(m: Mounted, filename: CString, named: set<nat>, slots: seq<word>) {
    && Opens(m.root, filename, named) && FreeSlot(slots, 0) + 1 < MAX_DESCRIPTORS
    && FileOf(m, named).Some? && FileOf(m, named).value != []
  }

  /** The blocks of an open file are live. */
  lemma HandleLive(area: Area, a: Snapshot, b: Snapshot, c: Snapshot, all: set<page>, h: Handle, n: nat)
    requires Grew(area, a, b, all, n) && h.All() <= all && Keeps(b.live, c.live)
    ensures forall p | p in h.All() ::
        Block(area, p) in c.live && c.live[Block(area, p)] == 1 && Block(area, p) in b.live && Block(area, p) !in a.live
  {
    forall p | p in h.All()
      ensures Block(area, p) in c.live && c.live[Block(area, p)] == 1
      ensures Block(area, p) in b.live && Block(area, p) !in a.live
    {
      AddedIsLive(a.live, b.live, area, all, p);
      StillLive(b.live, c.live, Block(area, p));
    }
  }

  /** Closing a file that was opened since `a`, whether it works or not, spares what was there. */
  lemma ClosedSpared(area: Area, a: Snapshot, b: Snapshot, c: Snapshot, d: Snapshot, all: set<page>, h: Handle, n: nat,
                     m: nat, total: nat)
    requires Grew(area, a, b, all, n) && h.All() <= all && Spared(area, b, c, m) && total >= n + m
    requires d.live == c.live - BlocksOf(area, h.All()) || d.live == c.live
    requires d.words == c.words && Shrinks(c.table, d.table, 0)
    ensures Spared(area, a, d, total)
  {
    GrewSpared(area, a, b, all, n);
    SparedTwice(area, a, b, c, n, m, n + m);
    ShrinksMore(a.table, c.table, n + m, total);
    HandleLive(area, a, b, c, all, h, n);
    assert c.live - {} == c.live;
    SparedAndFreed(area, a, c, d, total, if d.live == c.live then {} else BlocksOf(area, h.All()));
  }

  /** The data is not among the blocks of the file that is closed. */
  lemma LoadedStays(area: Area, a: Snapshot, b: Snapshot, c: Snapshot, live: Live, all: set<page>, h: Handle, n: nat,
                    ram: seq<byte>, ptr: word, bytes: seq<byte>)
    requires Grew(area, a, b, all, n) && h.All() <= all && Keeps(b.live, c.live)
    requires Loaded(b.live, c.live, area, ram, ptr, bytes)
    requires live == c.live - BlocksOf(area, h.All())
    ensures Loaded(a.live, live, area, ram, ptr, bytes)
  {
    HandleLive(area, a, b, c, all, h, n);
    GrewSpared(area, a, b, all, n);
    var s := Block(area, PageOf(ptr));
    if s in a.live {
      StillLive(a.live, b.live, s);
    }
    VacantBefore(a.live, b.live, area, PagesAt(ptr, |bytes|));
  }

  /** Reads and closes an open file. */
  method LoadAndClose(heap: Heap, mem: array<byte>, files: FileTable, m: Mounted, fd: int, ghost h: Handle,
                      ghost item: seq<byte>, ghost s0: Snapshot, ghost all: set<page>, ghost n: nat, ghost total: nat)
    returns (res: int, ptr: word, size: word)
    requires heap.Valid() && mem.Length == ADDRESS_SPACE && OpenAt(mem[..], files.slots, fd, h, item) && m.disk.Valid()
    requires Grew(AreaOf(heap), s0, Snap(heap, mem), all, n) && h.All() <= all && h.pos == 0
    requires Serves(heap.entries[..], PagesFor(FileSize(item))) && total >= n + PagesFor(FileSize(item))
    modifies heap, heap.entries, mem, files, m.disk.fatStream, m.disk.clusterStream
    ensures heap.Valid() && Spared(AreaOf(heap), s0, Snap(heap, mem), total)
    ensures res == OpenedResult(m, item, fd, old(heap.entries[..]))
    ensures res == 0 ==>
      && size == FileSize(item) == |Content(m, item).value|
      && Loaded(s0.live, heap.live, AreaOf(heap), mem[..], ptr, Content(m, item).value)
    ensures files.slots == if fd < MAX_DESCRIPTORS then old(files.slots)[fd - 1 := 0] else old(files.slots)
    ensures heap.FreeCount() == old(heap.FreeCount()) - DataBlocks(item, fd, old(heap.entries[..])) +
        if fd < MAX_DESCRIPTORS then 4 else 0
  {
    ghost var s1, ram, area := Snap(heap, mem), mem[..], AreaOf(heap);
    assert Keeps(s1.live, s1.live);
    HandleLive(area, s0, s1, s1, all, h, n);
    res, ptr, size := LoadOpened(heap, mem, files, m, fd, h, item);
    ghost var s2 := Snap(heap, mem);
    HandleLive(area, s0, s1, s2, all, h, n);
    OpenSurvives(s1.table, s1.live, area, ram, mem[..], files.slots, fd, h, item);
    var _ := Fclose(heap, mem, files, fd, h, item);
    ClosedSpared(area, s0, s1, s2, Snap(heap, mem), all, h, n, PagesFor(FileSize(item)), total);
    if res == 0 {
      LoadedStays(area, s0, s1, s2, heap.live, all, h, n, mem[..], ptr, Content(m, item).value);
    }
  }

  /** The blocks loading a program takes out of a free run, until its stack. */
  function BinaryCost(root: Root, filename: CString, named: set<nat>): nat {
    OpenCost(root, filename, named) + FileBlocks(root, filename, named)
  }

  /** The path leads to a file, and a slot for it is free that can be used. */
  predicate Reaches(root: Root, filename: CString, named: set<nat>, slots: seq<word>) {
    && Opens(root, filename, named) && FreeSlot(slots, 0) + 1 < MAX_DESCRIPTORS
    && (LastOf(named, Rounds(root.total)) + 1) * ITEM_SIZE <= |root.raw|
  }

  /** What loading a program answers, if memory for its contents is asked for when the block table is `t`. */
  ghost function LoadResult(m: Mounted, filename: CString, named: set<nat>, slots: seq<word>, t: Table): int
    requires m.disk.Valid()
  {
    if !Reaches(m.root, filename, named, slots) then -EIO
    else OpenedResult(m, FoundEntry(m.root, named), FreeSlot(slots, 0) + 1, t)
  }

  /** 0 exactly if the file can be loaded and its memory had. */
  lemma LoadResultIs(m: Mounted, filename: CString, named: set<nat>, slots: seq<word>, t: Table)
    requires m.disk.Valid()
    ensures LoadResult(m, filename, named, slots, t) == 0 <==>
            Loads(m, filename, named, slots) && HasRun(t, FileBlocks(m.root, filename, named))
    ensures LoadResult(m, filename, named, slots, t) in {0, -EIO, -ENOMEM}
  {
  }

  /** How many blocks loading a program has taken when it is done, whether it succeeds or not. A file that
      was opened is closed again, and its four blocks with it, unless it has the slot that is out of reach;
      the memory for the contents stays, even if they could not be read. */
  ghost function LoadUsed(m: Mounted, filename: CString, named: set<nat>, slots: seq<word>, t: Table): int {
    OpenUsed(m.root, filename, named, slots) +
    (if Reaches(m.root, filename, named, slots)
       then DataBlocks(FoundEntry(m.root, named), FreeSlot(slots, 0) + 1, t) - 4 else 0)
  }

  /** The descriptor table afterwards: as before, but for a file left open in the slot that is out of reach. */
  predicate SlotsAfter(root: Root, filename: CString, named: set<nat>, slots: seq<word>, after: seq<word>) {
    if Opens(root, filename, named) && FreeSlot(slots, 0) + 1 == MAX_DESCRIPTORS
    then |after| == |slots| == MAX_DESCRIPTORS && after[MAX_DESCRIPTORS - 1] != 0
         && after[..MAX_DESCRIPTORS - 1] == slots[..MAX_DESCRIPTORS - 1]
    else after == slots
  }

  lemma SlotRestored(slots: seq<word>, i: nat, e: word)
    requires i < |slots| && slots[i] == 0
    ensures slots[i := e][i := 0] == slots
  {
  }

  /** The blocks that loading a program asks for: at most those that opening the file takes, and those for its
      contents. */
  datatype Quote = Quote(open: nat, file: nat)

  /** Folded. */
  ghost predicate Quoted(q: Quote, root: Root, filename: CString, named: set<nat>) {
    forall k: nat | Unfolded(OfBill, k) ::
      q == Quote(OpenCost(root, filename, named), FileBlocks(root, filename, named))
  }

  /** What loading a program comes to: whether there is a file that can be loaded, what it answers, and the
      blocks that are taken when memory for the contents is asked for, and when it is done. */
  datatype Bill = Bill(loads: bool, result: int, ahead: nat, used: int)

  /** That is so if memory for the contents is asked for when the block table is `t`. Folded. */
  ghost predicate Billed(b: Bill, m: Mounted, filename: CString, named: set<nat>, slots: seq<word>, t: Table) {
    forall k: nat | Unfolded(OfBill, k) ::
      && m.disk.Valid() && b.loads == Loads(m, filename, named, slots)
      && b.result == LoadResult(m, filename, named, slots, t)
      && b.ahead == OpenUsed(m.root, filename, named, slots)
      && b.used == LoadUsed(m, filename, named, slots, t)
  }

  /** It answers 0 exactly if the file can be loaded and memory for it had. */
  lemma BillIs(b: Bill, q: Quote, m: Mounted, filename: CString, named: set<nat>, slots: seq<word>, t: Table)
    requires Billed(b, m, filename, named, slots, t) && Quoted(q, m.root, filename, named)
    ensures b.result == 0 <==> b.loads && HasRun(t, q.file)
    ensures b.result in {0, -EIO, -ENOMEM} && b.used <= q.open + q.file
    ensures b.loads <==> Loads(m, filename, named, slots)
  {
    assert Unfolded(OfBill, 0);
    LoadResultIs(m, filename, named, slots, t);
  }

  /** There are blocks to open a file with, and what is asked for beyond them is found in one free run, or
      refused. */
  ghost predicate CanAsk(t: Table, opening: nat, total: nat) {
    Serves(t, total) && FreeBlocks(t, |t|) >= opening
  }

  /** `process_load_binary`, all told. */
  method OpenAndLoad(heap: Heap, mem: array<byte>, files: FileTable, m: Mounted, filename: CString,
                     ghost named: set<nat>, ghost name: CString)
    returns (res: int, ptr: word, size: word, ghost t: Table)
    requires heap.Valid() && mem.Length == ADDRESS_SPACE && |files.slots| == MAX_DESCRIPTORS && m.disk.Valid()
    requires Asks(m.root, filename, named, name)
    requires CanAsk(heap.entries[..], OpenCost(m.root, filename, named), BinaryCost(m.root, filename, named))
    modifies heap, heap.entries, mem, files, m.disk.fatStream, m.disk.clusterStream
    ensures heap.Valid()
    ensures Spared(AreaOf(heap), old(Snap(heap, mem)), Snap(heap, mem), BinaryCost(m.root, filename, named))
    ensures Thinned(old(heap.entries[..]), t, OpenUsed(m.root, filename, named, old(files.slots)),
                    OpenCost(m.root, filename, named))
    ensures res == LoadResult(m, filename, named, old(files.slots), t)
    ensures SlotsAfter(m.root, filename, named, old(files.slots), files.slots)
    ensures heap.FreeCount() == old(heap.FreeCount()) - LoadUsed(m, filename, named, old(files.slots), t)
    ensures res == 0 ==>
      && size == FileSize(FoundEntry(m.root, named)) == |Content(m, FoundEntry(m.root, named)).value|
      && Loaded(old(heap.live), heap.live, AreaOf(heap), mem[..], ptr, Content(m, FoundEntry(m.root, named)).value)
  {
    ghost var s0, area, slots := Snap(heap, mem), AreaOf(heap), files.slots;
    ghost var open, cost := OpenCost(m.root, filename, named), BinaryCost(m.root, filename, named);
    var fd;
    ghost var h, all, n;
    fd, h, all, n := Fopen(heap, mem, files, m, filename, named, name);
    ghost var s1 := Snap(heap, mem);
    t := s1.table;
    GrewSpared(area, s0, s1, all, n);
    ShrinksMore(s0.table, t, n, open);
    if fd == 0 {
      ShrinksMore(s0.table, t, n, cost);
      return -EIO, 0, 0, t;
    }
    StillServes(area, s0, s1, open, cost, FileBlocks(m.root, filename, named));
    SlotRestored(slots, fd - 1, h.e * PAGE_SIZE);
    res, ptr, size := LoadAndClose(heap, mem, files, m, fd, h, FoundEntry(m.root, named), s0, all, n, cost);
  }

  /** `process_load_binary`. */
  method LoadBinary(heap: Heap, mem: array<byte>, files: FileTable, m: Mounted, filename: CString,
                    ghost named: set<nat>, ghost name: CString, ghost q: Quote)
    returns (res: int, ptr: word, size: word, ghost t: Table, ghost b: Bill)
    requires heap.Valid() && mem.Length == ADDRESS_SPACE && |files.slots| == MAX_DESCRIPTORS && m.disk.Valid()
    requires Asks(m.root, filename, named, name) && Quoted(q, m.root, filename, named)
    requires CanAsk(heap.entries[..], q.open, q.open + q.file)
    modifies heap, heap.entries, mem, files, m.disk.fatStream, m.disk.clusterStream
    ensures heap.Valid() && Spared(AreaOf(heap), old(Snap(heap, mem)), Snap(heap, mem), q.open + q.file)
    ensures Billed(b, m, filename, named, old(files.slots), t) && res == b.result
    ensures Thinned(old(heap.entries[..]), t, b.ahead, q.open)
    ensures SlotsAfter(m.root, filename, named, old(files.slots), files.slots)
    ensures heap.FreeCount() == old(heap.FreeCount()) - b.used
    ensures res == 0 ==>
      && FileOf(m, named).Some? && size == |FileOf(m, named).value|
      && Loaded(old(heap.live), heap.live, AreaOf(heap), mem[..], ptr, FileOf(m, named).value)
  {
    ghost var s0, slots := Snap(heap, mem), files.slots;
    assert Unfolded(OfBill, 0);
    res, ptr, size, t := OpenAndLoad(heap, mem, files, m, filename, named, name);
    b := Bill(Loads(m, filename, named, slots), res, OpenUsed(m.root, filename, named, slots),
              LoadUsed(m, filename, named, slots, t));
  }
}
