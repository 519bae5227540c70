/** Mounting a FAT16 disk, and what that makes of loading: from the bytes of a disk to a running process. */
module Mounting {
  import opened Words
  import opened HeapTable
  import opened Heap
  import opened Kheap
  import opened PageTables
  import opened Paging
  import opened Growth
  import opened Paths
  import opened Streamer
  import opened Pieces
  import opened Fat16
  import opened Directory
  import opened Lookup
  import opened Files
  import opened Loading
  import opened AddressSpace
  import opened Tasks
  import opened TaskLife
  import opened Processes
  import opened Isolation

  const EFSNOTUS := 5
  const SIGNATURE := 0x29
  const HEADER_SIZE := 62
  const PRIVATE_SIZE := 92
  const STREAM_SIZE := 8

  /** The fields of the boot sector that are used. */
  function HeaderOf(bytes: seq<byte>): Header
    requires |bytes| >= HEADER_SIZE
  {
    Header(bytes[13], Half(bytes, 14), bytes[16], Half(bytes, 22), Half(bytes, 17))
  }

  /** A boot sector with the extended signature. */
  predicate IsFat16(disk: seq<byte>) {
    |disk| >= SECTOR_SIZE && disk[38] == SIGNATURE
  }

  /** Where the root directory is, and how long. */
  function RootAt(disk: seq<byte>): nat
    requires IsFat16(disk)
  {
    HeaderOf(disk).RootSector() * SECTOR_SIZE
  }

  function RootSize(disk: seq<byte>): nat
    requires IsFat16(disk)
  {
    HeaderOf(disk).rootEntries * ITEM_SIZE
  }

  predicate HasRoot(disk: seq<byte>) {
    && IsFat16(disk) && OnDisk(|disk|, RootAt(disk), RootSize(disk))
    && RootAt(disk) + RootSize(disk) <= |disk|
  }

  /** The root directory that is on a disk: its table, and the number of its entries that are not deleted. */
  function RootOf(disk: seq<byte>): Root
    requires HasRoot(disk)
  {
    var firsts := FirstBytes(disk, RootAt(disk));
    Root(disk[RootAt(disk)..RootAt(disk) + RootSize(disk)], if firsts.Some? then CountLive(firsts.value) else -EIO)
  }

  function VolumeOf(disk: seq<byte>): Volume
    requires IsFat16(disk)
  {
    Mount(disk, HeaderOf(disk))
  }

  /** `m` is what mounting makes of the disk's bytes. */
  ghost predicate MountedFrom(disk: seq<byte>, m: Mounted) {
    && HasRoot(disk) && m.root == RootOf(disk) && m.disk.volume == VolumeOf(disk)
    && (VolumeOf(disk).Valid() ==> m.disk.Valid())
  }

  /** The contents, by the chain on the disk, of the last entry among `named`, if they can all be read. */
  ghost function FileOn(disk: seq<byte>, named: set<nat>): Option<seq<byte>> {
    if !HasRoot(disk) || !VolumeOf(disk).Valid() then None
    else
      var root, v, found := RootOf(disk), VolumeOf(disk), LastOf(named, Rounds(RootOf(disk).total));
      if found < 0 || (found + 1) * ITEM_SIZE > |root.raw| then None
      else
        var item := ItemOf(root.raw, found);
        Gather(v.Chain(FirstCluster(item)), v.clusterBytes, 0, FileSize(item))
  }

  /** It is what loading finds. */
  lemma FileIsOnDisk(disk: seq<byte>, m: Mounted, named: set<nat>)
    requires MountedFrom(disk, m) && m.disk.Valid()
    ensures FileOf(m, named) == FileOn(disk, named)
  {
  }

  // ---------------------------------------------------------------- the root directory

  /** Memory for a table of `size` bytes is had. */
  ghost predicate TableHad(t: Table, size: nat) {
    if size == 0 then StartBlock(t, 0) >= 0 else HasRun(t, PagesFor(size))
  }

  /** A request for a table that was served, and the table read. */
  lemma TableFilled(area: Area, a: Snapshot, b: Snapshot, ram: seq<byte>, after: seq<byte>, dir: word, size: nat)
    requires |ram| == |after| == ADDRESS_SPACE && a.words == AsWords(ram) && b.words == AsWords(after)
    requires Recorded(a.table, a.live) && Recorded(b.table, b.live) && |a.table| == area.size
    requires 0 < size && HasRun(a.table, PagesFor(size)) && dir + size <= ADDRESS_SPACE
    requires b.table == HeapTable.Step(a.table, Malloc(PagesFor(size)))
    requires b.live == LiveStep(a.table, a.live, Malloc(PagesFor(size)))
    requires Aligned(dir) && dir != 0 && Block(area, PageOf(dir)) == StartBlock(a.table, PagesFor(size))
    requires forall k | 0 <= k < |ram| && !(dir <= k < dir + size) :: after[k] == ram[k]
    ensures Spared(area, a, b, PagesFor(size))
    ensures FreeBlocks(b.table, |b.table|) == FreeBlocks(a.table, |a.table|) - PagesFor(size)
    ensures Loaded(a.live, b.live, area, after, dir, after[dir..dir + size])
  {
    RunFilled(area, a, b, ram, after, dir, size);
    FilledIsLoaded(a.live, b.live, area, after, dir, size, after[dir..dir + size]);
  }

  /** `fat16_get_root_directory`: the table is a new allocation, and holds what is on the disk. */
  method LoadRoot(heap: Heap, mem: array<byte>, stream: DiskStream, h: Header)
    returns (res: int, v: Volume, dir: word, total: int)
    requires heap.Valid() && mem.Length == ADDRESS_SPACE && stream.Valid()
    requires h.RootSector() * SECTOR_SIZE <= MAX_INT && Serves(heap.entries[..], PagesFor(h.rootEntries * ITEM_SIZE))
    modifies heap, heap.entries, mem, stream
    ensures heap.Valid() && v == Mount(stream.disk, h)
    ensures var firsts := FirstBytes(stream.disk, h.RootSector() * SECTOR_SIZE);
            total == if firsts.Some? then CountLive(firsts.value) else -EIO
    ensures var size, had := h.rootEntries * ITEM_SIZE, TableHad(old(heap.entries[..]), h.rootEntries * ITEM_SIZE);
      && Spared(AreaOf(heap), old(Snap(heap, mem)), Snap(heap, mem), PagesFor(size))
      && heap.FreeCount() == old(heap.FreeCount()) - (if had then PagesFor(size) else 0)
      && res == if !had then -ENOMEM
                else if OnDisk(|stream.disk|, h.RootSector() * SECTOR_SIZE, size) then 0 else -EIO
    ensures res == 0 ==>
      var pos, size := h.RootSector() * SECTOR_SIZE, h.rootEntries * ITEM_SIZE;
      && pos + size <= |stream.disk|
      && (size > 0 ==> Loaded(old(heap.live), heap.live, AreaOf(heap), mem[..], dir, stream.disk[pos..pos + size]))
  {
    ghost var a, ram, area, size := Snap(heap, mem), mem[..], AreaOf(heap), h.rootEntries * ITEM_SIZE;
    BlocksArePagesFor(size);
    SearchFailsIff(a.table, PagesFor(size));
    res, v, dir, total := GetRootDirectory(heap, mem, stream, h);
    if TableHad(a.table, size) && size > 0 {
      SearchIsSoundIff(a.table, PagesFor(size));
      BlocksArePages(heap.saddr, StartBlock(a.table, PagesFor(size)));
      TableFilled(area, a, Snap(heap, mem), ram, mem[..], dir, size);
    } else {
      assert Take(a.table, StartBlock(a.table, 0), 0) == a.table && mem[..] == ram;
      SparedNot(area, a);
      ShrinksMore(a.table, a.table, 0, PagesFor(size));
    }
  }

  // ---------------------------------------------------------------- mounting

  /** The blocks for the private record and the four streams. */
  const MOUNT_BLOCKS := 5

  function TableBlocks(disk: seq<byte>): nat {
    if IsFat16(disk) then PagesFor(RootSize(disk)) else 0
  }

  /** One block each for the record and the streams, which is not checked, and the table, which is; and the
      root directory at a position that a C int can hold. */
  ghost predicate CanMount(t: Table, disk: seq<byte>) {
    && FreeBlocks(t, |t|) >= MOUNT_BLOCKS && Serves(t, MOUNT_BLOCKS + TableBlocks(disk))
    && (IsFat16(disk) ==> RootAt(disk) <= MAX_INT)
  }

  /** What mounting answers, if memory for the table is asked for when the block table is `t`. */
  ghost function MountResult(disk: seq<byte>, t: Table): int {
    if |disk| < SECTOR_SIZE then -EIO
    else if !IsFat16(disk) then -EFSNOTUS
    else if TableHad(t, RootSize(disk)) && HasRoot(disk) then 0
    else -EIO
  }

  /** The blocks that the table got. It keeps them even if it cannot be read. */
  ghost function TableUsed(disk: seq<byte>, t: Table): nat {
    if IsFat16(disk) && TableHad(t, RootSize(disk)) then TableBlocks(disk) else 0
  }

  /** The blocks of the three streams that stay open, the private record's, given back if mounting fails, and
      the table's. */
  ghost function MountUsed(disk: seq<byte>, t: Table): nat {
    (if MountResult(disk, t) == 0 then 4 else 3) + TableUsed(disk, t)
  }

  /** The three streams of `fat16_init_private`. */
  method NewStreams(heap: Heap, mem: array<byte>) returns (ghost ps: set<page>)
    requires heap.Valid() && mem.Length == ADDRESS_SPACE && heap.FreeCount() >= 3
    modifies heap, heap.entries, mem
    ensures heap.Valid() && Grew(AreaOf(heap), old(Snap(heap, mem)), Snap(heap, mem), ps, 3)
  {
    ghost var s0, area := Snap(heap, mem), AreaOf(heap);
    var clusterStream := NewBlock(heap, mem, STREAM_SIZE);
    ghost var s1 := Snap(heap, mem);
    var fatStream := NewBlock(heap, mem, STREAM_SIZE);
    ghost var s2 := Snap(heap, mem);
    var directoryStream := NewBlock(heap, mem, STREAM_SIZE);
    ps := {PageOf(clusterStream)} + {PageOf(fatStream)};
    GrewTwice(area, s0, s1, s2, {PageOf(clusterStream)}, {PageOf(fatStream)}, 1, 1, ps, 2);
    GrewTwice(area, s0, s2, Snap(heap, mem), ps, {PageOf(directoryStream)}, 2, 1, ps + {PageOf(directoryStream)}, 3);
    ps := ps + {PageOf(directoryStream)};
  }

  /** The private record with its streams, and a stream to read the header with. */
  method NewPrivate(heap: Heap, mem: array<byte>) returns (private: word, stream: word, ghost ps: set<page>)
    requires heap.Valid() && mem.Length == ADDRESS_SPACE && heap.FreeCount() >= MOUNT_BLOCKS
    modifies heap, heap.entries, mem
    ensures heap.Valid() && Grew(AreaOf(heap), old(Snap(heap, mem)), Snap(heap, mem), ps, MOUNT_BLOCKS)
    ensures Aligned(private) && Aligned(stream) && private != 0 && PageOf(private) != PageOf(stream)
    ensures PageOf(private) in ps && PageOf(stream) in ps
  {
    ghost var s0, area := Snap(heap, mem), AreaOf(heap);
    private := NewBlock(heap, mem, PRIVATE_SIZE);
    ghost var s1, p := Snap(heap, mem), {PageOf(private)};
    ghost var qs := NewStreams(heap, mem);
    ghost var s2 := Snap(heap, mem);
    GrewTwice(area, s0, s1, s2, p, qs, 1, 3, p + qs, 4);
    stream := NewBlock(heap, mem, STREAM_SIZE);
    ps := p + qs + {PageOf(stream)};
    GrewTwice(area, s0, s2, Snap(heap, mem), p + qs, {PageOf(stream)}, 4, 1, ps, MOUNT_BLOCKS);
  }

  /** The header, into the private record. */
  method ReadHeader(mem: array<byte>, private: word, stream: DiskStream) returns (res: int)
    requires mem.Length == ADDRESS_SPACE && stream.Valid() && stream.pos == 0 && Aligned(private)
    modifies mem, stream
    ensures res == if |stream.disk| >= SECTOR_SIZE then 0 else -EIO
    ensures res == 0 ==> mem[..][private..private + HEADER_SIZE] == stream.disk[..HEADER_SIZE]
    ensures SameOutside(AsWords(old(mem[..])), AsWords(mem[..]), {PageOf(private)})
  {
    ghost var ram := mem[..];
    res := stream.ReadInPlace(mem, private, HEADER_SIZE);
    forall q: page | q != PageOf(private)
      ensures SamePage(AsWords(ram), AsWords(mem[..]), q)
    {
      forall k | q * ENTRIES <= k < q * ENTRIES + ENTRIES
        ensures AsWords(mem[..])[k] == AsWords(ram)[k]
      {
        SameBytesSameWord(ram, mem[..], k);
      }
    }
    assert res == 0 ==> forall k | 0 <= k < HEADER_SIZE :: mem[..][private..private + HEADER_SIZE][k] == stream.disk[k];
  }

  /** The record holds the header, and a block of its own the table, in pages that were vacant. A table
      without entries has no block. */
  ghost predicate RootStored(live0: Live, live: Live, area: Area, ram: seq<byte>, private: word, dir: word,
                             disk: seq<byte>)
    requires HasRoot(disk)
  {
    && Loaded(live0, live, area, ram, private, disk[..HEADER_SIZE])
    && (RootSize(disk) > 0 ==> Loaded(live0, live, area, ram, dir, RootOf(disk).raw))
  }

  lemma PrivateLoaded(area: Area, a: Snapshot, b: Snapshot, ram: seq<byte>, private: word, ps: set<page>, n: nat,
                      bytes: seq<byte>)
    requires Grew(area, a, b, ps, n) && Recorded(b.table, b.live) && |b.table| == area.size
    requires Aligned(private) && private != 0 && PageOf(private) in ps && 0 < |bytes| <= PAGE_SIZE
    requires |ram| == ADDRESS_SPACE && ram[private..private + |bytes|] == bytes
    ensures Loaded(a.live, b.live, area, ram, private, bytes)
  {
    AddedIsLive(a.live, b.live, area, ps, PageOf(private));
    AddedIsVacant(b.table, a.live, b.live, area, ps, PageOf(private));
  }

  /** What was loaded stays so while nothing live is touched. */
  lemma StaysLoaded(live0: Live, area: Area, a: Snapshot, b: Snapshot, ram: seq<byte>, after: seq<byte>, ptr: word,
                    bytes: seq<byte>)
    requires Kept(area, a, b) && a.words == AsWords(ram) && b.words == AsWords(after) && |after| == ADDRESS_SPACE
    requires Loaded(live0, a.live, area, ram, ptr, bytes)
    ensures Loaded(live0, b.live, area, after, ptr, bytes)
  {
    StoredKept(area, a, b, ram, after, ptr, bytes);
  }

  /** A table loaded beside the header. */
  lemma RootHeld(area: Area, a: Snapshot, b: Snapshot, c: Snapshot, ram: seq<byte>, after: seq<byte>, private: word,
                 dir: word, disk: seq<byte>)
    requires Kept(area, a, b) && Kept(area, b, c) && HasRoot(disk)
    requires b.words == AsWords(ram) && c.words == AsWords(after) && |after| == ADDRESS_SPACE
    requires Loaded(a.live, b.live, area, ram, private, disk[..HEADER_SIZE])
    requires RootSize(disk) > 0 ==> Loaded(b.live, c.live, area, after, dir, RootOf(disk).raw)
    ensures RootStored(a.live, c.live, area, after, private, dir, disk)
    ensures RootSize(disk) > 0 ==> Block(area, PageOf(dir)) !in b.live
  {
    StaysLoaded(a.live, area, b, c, ram, after, private, disk[..HEADER_SIZE]);
    if RootSize(disk) > 0 {
      LoadedEarlier(area, a, b, c.live, after, dir, RootOf(disk).raw);
    }
  }

  /** With the header read, the root directory. */
  method ResolveRoot(heap: Heap, mem: array<byte>, disk: seq<byte>, stream: DiskStream, h: Header, ghost private: word,
                     ghost s0: Snapshot)
    returns (res: int, v: Volume, dir: word, root: Root)
    requires heap.Valid() && mem.Length == ADDRESS_SPACE && |disk| <= MAX_INT && stream.disk == disk
    requires IsFat16(disk) && h == HeaderOf(disk) && Spared(AreaOf(heap), s0, Snap(heap, mem), MOUNT_BLOCKS)
    requires Loaded(s0.live, heap.live, AreaOf(heap), mem[..], private, disk[..HEADER_SIZE])
    requires Serves(heap.entries[..], TableBlocks(disk)) && RootAt(disk) <= MAX_INT
    modifies heap, heap.entries, mem, stream
    ensures heap.Valid() && Spared(AreaOf(heap), s0, Snap(heap, mem), MOUNT_BLOCKS + TableBlocks(disk))
    ensures Keeps(old(heap.live), heap.live) && res == MountResult(disk, old(heap.entries[..]))
    ensures heap.FreeCount() == old(heap.FreeCount()) - TableUsed(disk, old(heap.entries[..]))
    ensures res == 0 ==>
      && v == VolumeOf(disk) && root == RootOf(disk)
      && RootStored(s0.live, heap.live, AreaOf(heap), mem[..], private, dir, disk)
      && (RootSize(disk) > 0 ==> Block(AreaOf(heap), PageOf(dir)) !in old(heap.live))
  {
    ghost var s1, ram, area := Snap(heap, mem), mem[..], AreaOf(heap);
    var total;
    res, v, dir, total := LoadRoot(heap, mem, stream, h);
    ghost var s2 := Snap(heap, mem);
    SparedTwice(area, s0, s1, s2, MOUNT_BLOCKS, TableBlocks(disk), MOUNT_BLOCKS + TableBlocks(disk));
    if res != 0 {
      return -EIO, v, dir, Root([], 0);
    }
    root := Root(mem[dir..dir + h.rootEntries * ITEM_SIZE], total);
    RootHeld(area, s0, s1, s2, ram, mem[..], private, dir, disk);
  }

  /** Between the allocations and the way out: the header, and the root directory that it tells of. */
  method ResolveHeader(heap: Heap, mem: array<byte>, disk: seq<byte>, around: Around, private: word, ghost s0: Snapshot,
                       ghost ps: set<page>)
    returns (res: int, v: Volume, dir: word, root: Root)
    requires heap.Valid() && mem.Length == ADDRESS_SPACE && |disk| <= MAX_INT
    requires Grew(AreaOf(heap), s0, Snap(heap, mem), ps, MOUNT_BLOCKS)
    requires Aligned(private) && private != 0 && PageOf(private) in ps
    requires Serves(heap.entries[..], TableBlocks(disk)) && (IsFat16(disk) ==> RootAt(disk) <= MAX_INT)
    modifies heap, heap.entries, mem
    ensures heap.Valid() && Spared(AreaOf(heap), s0, Snap(heap, mem), MOUNT_BLOCKS + TableBlocks(disk))
    ensures Keeps(old(heap.live), heap.live) && res == MountResult(disk, old(heap.entries[..]))
    ensures heap.FreeCount() == old(heap.FreeCount()) - TableUsed(disk, old(heap.entries[..]))
    ensures res == 0 ==>
      && v == VolumeOf(disk) && root == RootOf(disk)
      && RootStored(s0.live, heap.live, AreaOf(heap), mem[..], private, dir, disk)
      && (RootSize(disk) > 0 ==> Block(AreaOf(heap), PageOf(dir)) !in old(heap.live))
  {
    ghost var s1, area := Snap(heap, mem), AreaOf(heap);
    v, dir, root := Volume(disk, 0, 0, 0, 0), 0, Root([], 0);
    var stream := new DiskStream(disk, around);
    res := ReadHeader(mem, private, stream);
    ghost var s2, ram := Snap(heap, mem), mem[..];
    GrewAndWritten(area, s0, s1, s2, ps, MOUNT_BLOCKS);
    GrewSpared(area, s0, s2, ps, MOUNT_BLOCKS);
    SparedNot(area, s1);
    ShrinksMore(s0.table, s2.table, MOUNT_BLOCKS, MOUNT_BLOCKS + TableBlocks(disk));
    if res != 0 {
      return;
    }
    PrivateLoaded(area, s0, s2, ram, private, ps, MOUNT_BLOCKS, disk[..HEADER_SIZE]);
    if mem[private + 38] != SIGNATURE {
      res := -EFSNOTUS;
      return;
    }
    var directoryStream := new DiskStream(disk, around);
    var h := HeaderOf(mem[private..private + HEADER_SIZE]);
    res, v, dir, root := ResolveRoot(heap, mem, disk, directoryStream, h, private, s0);
  }

  /** The way out: the stream is closed, and the record freed if mounting failed. */
  method Leave(heap: Heap, private: word, stream: word, res: int)
    requires heap.Valid() && Aligned(private) && Aligned(stream) && PageOf(private) != PageOf(stream)
    requires forall p | p in {PageOf(private), PageOf(stream)} ::
      Block(AreaOf(heap), p) in heap.live && heap.live[Block(AreaOf(heap), p)] == 1
    modifies heap, heap.entries
    ensures heap.Valid() && Shrinks(old(heap.entries[..]), heap.entries[..], 0)
    ensures heap.FreeCount() == old(heap.FreeCount()) + if res < 0 then 2 else 1
    ensures heap.live == old(heap.live) - Closed(AreaOf(heap), private, stream, res)
  {
    ghost var t0, area := heap.entries[..], AreaOf(heap);
    FreeOne(heap, stream, Block(area, PageOf(stream)));
    ghost var t1 := heap.entries[..];
    ShrinksTwice(t0, t0, t1, 0, 0, 0);
    if res < 0 {
      FreeOne(heap, private, Block(area, PageOf(private)));
      ShrinksTwice(t0, t1, heap.entries[..], 0, 0, 0);
    }
  }

  /** The blocks given back on the way out. */
  ghost function Closed(area: Area, private: word, stream: word, res: int): set<int> {
    if res < 0 then {Block(area, PageOf(stream)), Block(area, PageOf(private))} else {Block(area, PageOf(stream))}
  }

  /** Freeing other blocks leaves what was loaded. */
  lemma LoadedBeside(live0: Live, live: Live, area: Area, ram: seq<byte>, ptr: word, bytes: seq<byte>, bs: set<int>)
    requires Loaded(live0, live, area, ram, ptr, bytes) && Block(area, PageOf(ptr)) !in bs
    ensures Loaded(live0, live - bs, area, ram, ptr, bytes)
  {
  }

  /** Record and stream are still there, and were not before. */
  lemma ReadyToLeave(area: Area, a: Snapshot, b: Snapshot, c: Snapshot, ps: set<page>, private: word, stream: word)
    requires Grew(area, a, b, ps, MOUNT_BLOCKS) && Keeps(b.live, c.live)
    requires PageOf(private) in ps && PageOf(stream) in ps
    ensures forall p | p in {PageOf(private), PageOf(stream)} ::
      && Block(area, p) in c.live && c.live[Block(area, p)] == 1
      && Block(area, p) in b.live && Block(area, p) !in a.live
  {
    forall p | p in {PageOf(private), PageOf(stream)}
      ensures Block(area, p) in c.live && c.live[Block(area, p)] == 1
      ensures Block(area, p) in b.live && Block(area, p) !in a.live
    {
      AddedIsLive(a.live, b.live, area, ps, p);
      StillLive(b.live, c.live, Block(area, p));
    }
  }

  lemma RootStays(area: Area, a: Snapshot, b: Snapshot, c: Snapshot, ps: set<page>, ram: seq<byte>, private: word,
                  stream: word, dir: word, disk: seq<byte>)
    requires Grew(area, a, b, ps, MOUNT_BLOCKS) && Keeps(b.live, c.live) && HasRoot(disk)
    requires PageOf(private) in ps && PageOf(stream) in ps && PageOf(private) != PageOf(stream)
    requires RootStored(a.live, c.live, area, ram, private, dir, disk)
    requires RootSize(disk) > 0 ==> Block(area, PageOf(dir)) !in b.live
    ensures RootStored(a.live, c.live - {Block(area, PageOf(stream))}, area, ram, private, dir, disk)
  {
    var s := Block(area, PageOf(stream));
    ReadyToLeave(area, a, b, c, ps, private, stream);
    LoadedBeside(a.live, c.live, area, ram, private, disk[..HEADER_SIZE], {s});
    if RootSize(disk) > 0 {
      LoadedBeside(a.live, c.live, area, ram, dir, RootOf(disk).raw, {s});
    }
  }

  /** `fat16_resolve`. The root directory in memory is the one on the disk, and the volume what the header
      says, exactly if the disk has the signature and all of the directory, and memory for it is had. Nothing
      that was there is touched; a failure leaves the streams of the private record behind, and the table. */
  method Resolve(heap: Heap, mem: array<byte>, disk: seq<byte>, around: Around)
    returns (res: int, m: Option<Mounted>, ghost private: word, ghost dir: word, ghost t: Table)
    requires heap.Valid() && mem.Length == ADDRESS_SPACE && |disk| <= MAX_INT && CanMount(heap.entries[..], disk)
    modifies heap, heap.entries, mem
    ensures heap.Valid() && Thinned(old(heap.entries[..]), t, MOUNT_BLOCKS, MOUNT_BLOCKS)
    ensures Spared(AreaOf(heap), old(Snap(heap, mem)), Snap(heap, mem), MOUNT_BLOCKS + TableBlocks(disk))
    ensures res == MountResult(disk, t) && heap.FreeCount() == old(heap.FreeCount()) - MountUsed(disk, t)
    ensures res == 0 <==> m.Some?
    ensures res == 0 ==>
      && MountedFrom(disk, m.value)
      && fresh(m.value.disk) && fresh(m.value.disk.fatStream) && fresh(m.value.disk.clusterStream)
      && m.value.disk.clusterStream.around == around
      && RootStored(old(heap.live), heap.live, AreaOf(heap), mem[..], private, dir, disk)
  {
    ghost var s0, area := Snap(heap, mem), AreaOf(heap);
    var record, stream;
    ghost var ps;
    record, stream, ps := NewPrivate(heap, mem);
    ghost var s1 := Snap(heap, mem);
    private, t := record, s1.table;
    GrewSpared(area, s0, s1, ps, MOUNT_BLOCKS);
    StillServes(area, s0, s1, MOUNT_BLOCKS, MOUNT_BLOCKS + TableBlocks(disk), TableBlocks(disk));
    var v, table, root;
    res, v, table, root := ResolveHeader(heap, mem, disk, around, record, s0, ps);
    dir := table;
    ghost var s2 := Snap(heap, mem);
    ReadyToLeave(area, s0, s1, s2, ps, record, stream);
    Leave(heap, record, stream, res);
    SparedAndFreed(area, s0, s2, Snap(heap, mem), MOUNT_BLOCKS + TableBlocks(disk), Closed(area, record, stream, res));
    m := None;
    if res == 0 {
      RootStays(area, s0, s1, s2, ps, mem[..], record, stream, dir, disk);
      var d := new Disk(v, around);
      m := Some(Mounted(d, root));
    }
  }

  // ---------------------------------------------------------------- from the disk to a process

  /** What was loaded since `live0` stays while a process is made, as it is no task. */
  lemma LoadedWhileMade(live0: Live, area: Area, t0: Table, a: Snapshot, b: Snapshot, tasks: seq<page>, p: page,
                        ram: seq<byte>, after: seq<byte>, ptr: word, bytes: seq<byte>)
    requires |a.words| == MEMORY_WORDS && Kept(area, Linking(a, Last(tasks), p), b)
    requires Recorded(t0, live0) && TasksLive(live0, area, tasks) && Loaded(live0, a.live, area, ram, ptr, bytes)
    requires a.words == AsWords(ram) && b.words == AsWords(after) && |after| == ADDRESS_SPACE
    ensures Loaded(live0, b.live, area, after, ptr, bytes)
  {
    NotPageZero(ptr, |bytes|);
    TasksBeside(t0, live0, area, tasks, PagesAt(ptr, |bytes|));
    StoredBeside(area, a, b, Last(tasks), p, ram, after, ptr, bytes);
  }

  /** So the root directory stays in memory. */
  lemma RootWhileMade(live0: Live, area: Area, t0: Table, a: Snapshot, b: Snapshot, tasks: seq<page>, p: page,
                      ram: seq<byte>, after: seq<byte>, private: word, dir: word, disk: seq<byte>)
    requires |a.words| == MEMORY_WORDS && Recorded(t0, live0) && TasksLive(live0, area, tasks) && HasRoot(disk)
    requires Kept(area, a, b) || Kept(area, Linking(a, Last(tasks), p), b)
    requires RootStored(live0, a.live, area, ram, private, dir, disk)
    requires a.words == AsWords(ram) && b.words == AsWords(after) && |after| == ADDRESS_SPACE
    ensures RootStored(live0, b.live, area, after, private, dir, disk)
  {
    if Kept(area, a, b) {
      StaysLoaded(live0, area, a, b, ram, after, private, disk[..HEADER_SIZE]);
      if RootSize(disk) > 0 {
        StaysLoaded(live0, area, a, b, ram, after, dir, RootOf(disk).raw);
      }
    } else {
      LoadedWhileMade(live0, area, t0, a, b, tasks, p, ram, after, private, disk[..HEADER_SIZE]);
      if RootSize(disk) > 0 {
        LoadedWhileMade(live0, area, t0, a, b, tasks, p, ram, after, dir, RootOf(disk).raw);
      }
    }
  }

  lemma UntouchedTwice(live: Live, area: Area, tasks: seq<page>, slots: seq<Process?>, w: seq<word>, w1: seq<word>,
                       w2: seq<word>)
    requires AllRun(live, area, w, tasks, slots) && AllUntouched(w, w1, slots) && AllUntouched(w1, w2, slots)
    ensures AllUntouched(w, w2, slots)
  {
    assert Keeps(live, live);
    forall i: nat | i < |slots| && slots[i] != null
      ensures Untouched(w, w2, slots[i])
    {
      RunsOf(live, area, w, tasks, slots, i);
      AliveSame(live, live, area, w, w1, Running(w, slots[i]));
      assert SpaceOf(w1, slots[i]) == SpaceOf(w, slots[i]);
    }
  }

  /** `process_load` from a disk that was mounted after `t0` and `live0`: a process that was made sees the
      bytes that the chain on the disk has for the entry found in the directory on the disk. */
  method LoadMounted(heap: Heap, mem: array<byte>, disk: seq<byte>, files: FileTable, m: Mounted, list: TaskList,
                     processes: ProcessTable, filename: CString, ghost named: set<nat>, ghost name: CString,
                     ghost q: Quote, ghost t0: Table, ghost live0: Live, ghost private: word, ghost dir: word)
    returns (res: int, process: Process?, ghost b: Bill, ghost data: Table, ghost stack: Table)
    requires heap.Valid() && BelowTop(heap) && mem.Length == ADDRESS_SPACE && |files.slots| == MAX_DESCRIPTORS
    requires list.Valid(AsWords(mem[..])) && TasksLive(heap.live, AreaOf(heap), list.tasks)
    requires m.disk.Valid() && |processes.slots| == MAX_PROCESSES && MountedFrom(disk, m)
    requires Asks(m.root, filename, named, name) && Quoted(q, m.root, filename, named) && CanLoad(heap.entries[..], q)
    requires AllRun(heap.live, AreaOf(heap), AsWords(mem[..]), list.tasks, processes.slots)
    requires Recorded(t0, live0) && TasksLive(live0, AreaOf(heap), list.tasks)
    requires RootStored(live0, heap.live, AreaOf(heap), mem[..], private, dir, disk)
    modifies heap, heap.entries, mem, files, m.disk.fatStream, m.disk.clusterStream, list, processes
    ensures heap.Valid() && list.Valid(AsWords(mem[..])) && TasksLive(heap.live, AreaOf(heap), list.tasks)
    ensures AllRun(heap.live, AreaOf(heap), AsWords(mem[..]), list.tasks, processes.slots)
    ensures AllUntouched(AsWords(old(mem[..])), AsWords(mem[..]), old(processes.slots))
    ensures RootStored(live0, heap.live, AreaOf(heap), mem[..], private, dir, disk)
    ensures null !in old(processes.slots) ==> res == -EISTKN
    ensures null in old(processes.slots) ==>
      && Asked(b, q, old(heap.entries[..]), data, stack) && res == SlotResult(b, old(heap.entries[..]), stack)
      && (HasRun(old(heap.entries[..]), PROCESS_BLOCKS) ==> Billed(b, m, filename, named, old(files.slots), data))
    ensures HasRun(old(heap.entries[..]), ProcessCost(q)) ==> (res == 0 <==> null in old(processes.slots) && b.loads)
    ensures res != 0 ==> processes.slots == old(processes.slots)
    ensures res == 0 ==>
      && process != null && process.id < MAX_PROCESSES && old(processes.slots)[process.id] == null
      && processes.slots == old(processes.slots)[process.id := process] && FileOn(disk, named).Some?
      && Shows(mem[..], Running(AsWords(mem[..]), process).chunk, FileOn(disk, named).value)
  {
    ghost var s1, ram, area, tasks := Snap(heap, mem), mem[..], AreaOf(heap), list.tasks;
    ghost var slots, fds := processes.slots, files.slots;
    ghost var chunk;
    res, process, chunk, b, data, stack :=
      LoadBeside(heap, mem, files, m, list, processes, filename, named, name, q);
    RootWhileMade(live0, area, t0, s1, Snap(heap, mem), tasks, if res == 0 then PageOf(process.task) else 0, ram,
                  mem[..], private, dir, disk);
    FileIsOnDisk(disk, m, named);
    if null in slots {
      SlotResultIs(b, q, m, filename, named, fds, s1.table, data, stack);
    }
  }

  /** The blocks that mounting a disk and loading a program from it ask for. */
  function BootCost(disk: seq<byte>, q: Quote): nat {
    MOUNT_BLOCKS + TableBlocks(disk) + ProcessCost(q)
  }

  lemma RoomAfterMount(t0: Table, t: Table, disk: seq<byte>, q: Quote)
    requires HasRun(t0, BootCost(disk, q)) && Shrinks(t0, t, MOUNT_BLOCKS + TableBlocks(disk))
    ensures HasRun(t, ProcessCost(q)) && CanLoad(t, q)
  {
    ShrinksTo(t0, t, MOUNT_BLOCKS + TableBlocks(disk), BootCost(disk, q));
    RunCanLoad(t, q);
  }

  /** With so long a run the table is had. */
  lemma TableIsHad(t0: Table, t: Table, disk: seq<byte>, q: Quote)
    requires HasRun(t0, BootCost(disk, q)) && Thinned(t0, t, MOUNT_BLOCKS, MOUNT_BLOCKS)
    requires IsFat16(disk) && RootSize(disk) > 0
    ensures MountResult(disk, t) == 0 <==> HasRoot(disk)
  {
    ShrinksTo(t0, t, MOUNT_BLOCKS, BootCost(disk, q));
    ShorterRun(t, BootCost(disk, q) - MOUNT_BLOCKS, TableBlocks(disk));
  }

  /** There is a file to load on the disk, and a descriptor slot to open it in. */
  ghost predicate Holds(disk: seq<byte>, filename: CString, named: set<nat>, fds: seq<word>) {
    && HasRoot(disk) && Opens(RootOf(disk), filename, named) && FreeSlot(fds, 0) + 1 < MAX_DESCRIPTORS
    && FileOn(disk, named).Some? && FileOn(disk, named).value != []
  }

  lemma HoldsIff(disk: seq<byte>, m: Mounted, filename: CString, named: set<nat>, fds: seq<word>)
    requires MountedFrom(disk, m) && m.disk.Valid()
    ensures Loads(m, filename, named, fds) <==> Holds(disk, filename, named, fds)
  {
    FileIsOnDisk(disk, m, named);
  }

  /** `fat16_resolve`, and then `process_load` of a path on the disk: with one long free run, a process is made
      exactly if a process slot is free and the disk holds a file by that path. */
  method MountAndLoad(heap: Heap, mem: array<byte>, disk: seq<byte>, around: Around, files: FileTable, list: TaskList,
                      processes: ProcessTable, filename: CString, ghost named: set<nat>, ghost name: CString,
                      ghost q: Quote)
    returns (mounted: int, m: Option<Mounted>, res: int, process: Process?, ghost private: word, ghost dir: word,
             ghost t: Table)
    requires heap.Valid() && BelowTop(heap) && mem.Length == ADDRESS_SPACE && |files.slots| == MAX_DESCRIPTORS
    requires list.Valid(AsWords(mem[..])) && TasksLive(heap.live, AreaOf(heap), list.tasks)
    requires AllRun(heap.live, AreaOf(heap), AsWords(mem[..]), list.tasks, processes.slots)
    requires |processes.slots| == MAX_PROCESSES && |disk| <= MAX_INT && CanMount(heap.entries[..], disk)
    requires HasRoot(disk) ==>
      && VolumeOf(disk).Valid() && Asks(RootOf(disk), filename, named, name)
      && Quoted(q, RootOf(disk), filename, named)
    requires HasRun(heap.entries[..], BootCost(disk, q))
    modifies heap, heap.entries, mem, files, list, processes
    ensures heap.Valid() && list.Valid(AsWords(mem[..])) && TasksLive(heap.live, AreaOf(heap), list.tasks)
    ensures AllRun(heap.live, AreaOf(heap), AsWords(mem[..]), list.tasks, processes.slots)
    ensures AllUntouched(AsWords(old(mem[..])), AsWords(mem[..]), old(processes.slots))
    ensures mounted == MountResult(disk, t) && Thinned(old(heap.entries[..]), t, MOUNT_BLOCKS, MOUNT_BLOCKS)
    ensures IsFat16(disk) && RootSize(disk) > 0 ==> mounted == if HasRoot(disk) then 0 else -EIO
    ensures mounted == 0 <==> m.Some?
    ensures mounted == 0 ==>
      MountedFrom(disk, m.value) && RootStored(old(heap.live), heap.live, AreaOf(heap), mem[..], private, dir, disk)
    ensures res == 0 <==> null in old(processes.slots) && Holds(disk, filename, named, old(files.slots))
    ensures res != 0 ==> processes.slots == old(processes.slots)
    ensures res == 0 ==>
      && process != null && process.id < MAX_PROCESSES && old(processes.slots)[process.id] == null
      && processes.slots == old(processes.slots)[process.id := process] && FileOn(disk, named).Some?
      && Shows(mem[..], Running(AsWords(mem[..]), process).chunk, FileOn(disk, named).value)
  {
    ghost var s0, area, tasks, slots := Snap(heap, mem), AreaOf(heap), list.tasks, processes.slots;
    ghost var fds := files.slots;
    mounted, m, private, dir, t := Resolve(heap, mem, disk, around);
    ghost var s1 := Snap(heap, mem);
    if IsFat16(disk) && RootSize(disk) > 0 {
      TableIsHad(s0.table, t, disk, q);
    }
    ListKept(area, s0, s1, list);
    FailedLoadIsolates(area, s0, s1, tasks, slots);
    res, process := mounted, null;
    if m.None? {
      return;
    }
    HoldsIff(disk, m.value, filename, named, fds);
    RoomAfterMount(s0.table, s1.table, disk, q);
    ghost var b, data, stack;
    res, process, b, data, stack := LoadMounted(heap, mem, disk, files, m.value, list, processes, filename, named, name,
                                                q, s0.table, s0.live, private, dir);
    UntouchedTwice(s0.live, area, tasks, slots, s0.words, s1.words, AsWords(mem[..]));
    if null in slots {
      ShorterRun(s1.table, ProcessCost(q), PROCESS_BLOCKS);
      BillIs(b, q, m.value, filename, named, fds, data);
    }
  }
}
