/** Open files: descriptors in heap blocks, from the path to the directory entry. */
module Files {
  import opened Words
  import opened HeapTable
  import opened Heap
  import opened Kheap
  import opened PageTables
  import opened Paging
  import opened Growth
  import opened Paths
  import opened PathParser
  import opened Streamer
  import opened Pieces
  import opened Division
  import opened Fat16
  import opened Lookup

  const MAX_DESCRIPTORS := 512
  const FAT_DESCRIPTOR_SIZE := 8
  const DESCRIPTOR_SIZE := 16

  /** The root directory: its table as read at mount, and how many entries to look at. */
  datatype Root = Root(raw: seq<byte>, total: int)

  datatype Mounted = Mounted(disk: Disk, root: Root)

  /** The list of a parsed path survives whatever spares the live blocks. */
  lemma {:induction false} ListSurvives(l: Shape, t: Table, live: Live, area: Area, ram: seq<byte>, after: seq<byte>,
                                        next: word)
    requires Recorded(t, live) && l.Owned(live, area) && OnlyVacant(live, area, AsWords(ram), AsWords(after))
    requires l.ListAt(ram, next) && |after| == ADDRESS_SPACE
    ensures l.ListAt(after, next)
  {
    match l
    case Root(_) =>
    case More(init, p, q, s) =>
      LivePageKept(t, live, area, AsWords(ram), AsWords(after), p);
      LivePageKept(t, live, area, AsWords(ram), AsWords(after), q);
      PartKept(ram, after, p, next, q, s);
      ListSurvives(init, t, live, area, ram, after, p * PAGE_SIZE);
  }

  lemma {:induction false} TextIs(ram: seq<byte>, at: nat, n: nat, s: seq<byte>)
    requires |s| < n && at + n <= |ram| && 0 !in s
    requires (forall k | at <= k < at + |s| :: ram[k] == s[k - at]) && ram[at + |s|] == 0
    ensures TextOf(ram[at..at + n]) == s
    decreases |s|
  {
    if s != [] {
      TextIs(ram, at + 1, n - 1, s[1..]);
      assert ram[at..at + n][1..] == ram[at + 1..at + 1 + (n - 1)];
    }
  }

  /** Follows a `path_part`'s pointers: its string, and the next part. */
  method ReadPart(mem: array<byte>, part: word, ghost next: word, ghost q: page, ghost s: seq<byte>)
    returns (name: CString, nextPart: word)
    requires mem.Length == ADDRESS_SPACE && Aligned(part) && PartAt(mem[..], PageOf(part), next, q, s) && 0 !in s
    ensures name == s && nextPart == next
  {
    WordsOfPage(part, 0);
    WordsOfPage(part, 1);
    var str := LoadWord(mem, part);
    nextPart := LoadWord(mem, part + 4);
    TextIs(mem[..], q * PAGE_SIZE, MAX_PATH, s);
    assert mem[str..str + MAX_PATH] == mem[..][q * PAGE_SIZE..q * PAGE_SIZE + MAX_PATH];
    name := TextOf(mem[str..str + MAX_PATH]);
  }

  lemma {:induction false} FirstPart(l: Shape, ram: seq<byte>, next: word)
    requires l.More? && l.ListAt(ram, next)
    ensures l.Parts() != [] && l.Count() == |l.Parts()|
    ensures var m := l.Take(1);
      && m.More? && l.First() == m.node * PAGE_SIZE && m.part == l.Parts()[0]
      && PartAt(ram, m.node, l.Address(1, next), m.buf, m.part)
      && (l.Address(1, 0) == 0 <==> |l.Parts()| == 1)
  {
    if l.init.More? {
      FirstPart(l.init, ram, l.node * PAGE_SIZE);
    }
  }

  /** A FAT descriptor in page `d` at position `pos`, for the item in `f` with the entry in `c`. */
  ghost predicate DescriptorAt(ram: seq<byte>, d: page, f: page, c: page, pos: word, item: seq<byte>) {
    && |ram| == ADDRESS_SPACE && d != f && d != c && f != c
    && AsWords(ram)[d * ENTRIES] == f * PAGE_SIZE && AsWords(ram)[d * ENTRIES + 1] == pos && ItemAt(ram, f, c, item)
  }

  lemma ItemKept(ram: seq<byte>, after: seq<byte>, f: page, c: page, item: seq<byte>)
    requires ItemAt(ram, f, c, item) && |after| == ADDRESS_SPACE
    requires SamePage(AsWords(ram), AsWords(after), f) && SamePage(AsWords(ram), AsWords(after), c)
    ensures ItemAt(after, f, c, item)
  {
    KeptBytes(ram, after, c, ITEM_SIZE);
  }

  lemma DescriptorKept(ram: seq<byte>, after: seq<byte>, d: page, f: page, c: page, pos: word, item: seq<byte>)
    requires DescriptorAt(ram, d, f, c, pos, item) && |after| == ADDRESS_SPACE
    requires SamePage(AsWords(ram), AsWords(after), d)
    requires SamePage(AsWords(ram), AsWords(after), f) && SamePage(AsWords(ram), AsWords(after), c)
    ensures DescriptorAt(after, d, f, c, pos, item)
  {
    ItemKept(ram, after, f, c, item);
  }

  /** Fills in a descriptor. */
  method FillDescriptor(mem: array<byte>, desc: word, fItem: word, ghost c: page, ghost item: seq<byte>)
    requires mem.Length == ADDRESS_SPACE && Aligned(desc) && Aligned(fItem)
    requires ItemAt(mem[..], PageOf(fItem), c, item) && PageOf(desc) != PageOf(fItem) && PageOf(desc) != c
    requires PageOf(fItem) != c
    modifies mem
    ensures DescriptorAt(mem[..], PageOf(desc), PageOf(fItem), c, 0, item)
    ensures SameOutside(AsWords(old(mem[..])), AsWords(mem[..]), {PageOf(desc)})
  {
    ghost var ram := mem[..];
    SetPair(mem, desc, fItem, 0);
    ItemKept(ram, mem[..], PageOf(fItem), c, item);
  }

  /** The first part of a parsed path: its name, and whether there is another. */
  method FirstName(mem: array<byte>, first: word, ghost l: Shape) returns (name: CString, next: word)
    requires mem.Length == ADDRESS_SPACE && l.More? && first == l.First() && Aligned(first) && l.ListAt(mem[..], 0)
    requires l.Parts() != [] ==> 0 !in l.Parts()[0]
    ensures l.Parts() != [] && name == l.Parts()[0] && (next == 0 <==> |l.Parts()| == 1)
  {
    FirstPart(l, mem[..], 0);
    ghost var part := l.Take(1);
    name, next := ReadPart(mem, first, l.Address(1, 0), part.buf, part.part);
  }

  /** A fresh descriptor, and then the name to look for. */
  method NewDescriptorFor(heap: Heap, mem: array<byte>, first: word, ghost l: Shape)
    returns (desc: word, name: CString, next: word)
    requires heap.Valid() && mem.Length == ADDRESS_SPACE && l.More? && first == l.First() && Aligned(first)
    requires l.ListAt(mem[..], 0) && l.Owned(heap.live, AreaOf(heap)) && l.Parts() != [] && 0 !in l.Parts()[0]
    requires heap.FreeCount() >= 1
    modifies heap, heap.entries, mem
    ensures heap.Valid() && desc != 0 && Aligned(desc)
    ensures Grew(AreaOf(heap), old(Snap(heap, mem)), Snap(heap, mem), {PageOf(desc)}, 1)
    ensures name == l.Parts()[0] && (next == 0 <==> |l.Parts()| == 1)
  {
    ghost var live, t, ram := heap.live, heap.entries[..], mem[..];
    desc := NewBlock(heap, mem, FAT_DESCRIPTOR_SIZE);
    ListSurvives(l, t, live, AreaOf(heap), ram, mem[..], 0);
    name, next := FirstName(mem, first, l);
  }

  /** The allocations of `fat16_open`: a descriptor, and what the lookup of the first part's name leaves. */
  method LookUp(heap: Heap, mem: array<byte>, m: Mounted, first: word, ghost l: Shape, ghost named: set<nat>)
    returns (desc: word, next: word, fItem: word, ghost c: page, ghost all: set<page>)
    requires heap.Valid() && mem.Length == ADDRESS_SPACE && l.More? && first == l.First() && Aligned(first)
    requires l.ListAt(mem[..], 0) && l.Owned(heap.live, AreaOf(heap)) && l.Parts() != [] && 0 !in l.Parts()[0]
    requires Names(named, m.root.raw, Rounds(m.root.total), l.Parts()[0])
    requires heap.FreeCount() >= 1 + 2 * CountOf(named, Rounds(m.root.total))
    modifies heap, heap.entries, mem
    ensures heap.Valid()
    ensures Grew(AreaOf(heap), old(Snap(heap, mem)), Snap(heap, mem), all, 1 + 2 * CountOf(named, Rounds(m.root.total)))
    ensures FoundItem(mem[..], m.root.raw, LastOf(named, Rounds(m.root.total)), fItem, c, all)
    ensures next == 0 <==> |l.Parts()| == 1
    ensures desc != 0 && Aligned(desc) && PageOf(desc) in all
    ensures fItem != 0 ==> PageOf(desc) != PageOf(fItem) && PageOf(desc) != c
  {
    ghost var s0 := Snap(heap, mem);
    var name;
    desc, name, next := NewDescriptorFor(heap, mem, first, l);
    ghost var s1, d := Snap(heap, mem), PageOf(desc);
    ghost var ps;
    fItem, c, ps := FindItem(heap, mem, m.root.raw, m.root.total, name, named);
    all := {d} + ps;
    GrewTwice(AreaOf(heap), s0, s1, Snap(heap, mem), {d}, ps, 1, 2 * CountOf(named, Rounds(m.root.total)), all,
              1 + 2 * CountOf(named, Rounds(m.root.total)));
  }

  /** `desc` is a descriptor among the blocks `all` for the entry `i`. */
  ghost predicate Described(ram: seq<byte>, m: Mounted, i: int, desc: word, f: page, c: page, all: set<page>) {
    && desc != 0 && Aligned(desc) && {PageOf(desc), f, c} <= all && 0 <= i && (i + 1) * ITEM_SIZE <= |m.root.raw|
    && DescriptorAt(ram, PageOf(desc), f, c, 0, ItemOf(m.root.raw, i))
  }

  /** `fat16_open` of a path whose parts are at `first`: a descriptor for the named entry of the root
      directory. A path with more than one part is refused, as every entry found counts as a file. */
  method Fat16Open(heap: Heap, mem: array<byte>, m: Mounted, first: word, ghost l: Shape, ghost named: set<nat>)
    returns (desc: word, ghost f: page, ghost c: page, ghost all: set<page>)
    requires heap.Valid() && mem.Length == ADDRESS_SPACE && l.More? && first == l.First() && Aligned(first)
    requires l.ListAt(mem[..], 0) && l.Owned(heap.live, AreaOf(heap)) && l.Parts() != [] && 0 !in l.Parts()[0]
    requires Names(named, m.root.raw, Rounds(m.root.total), l.Parts()[0])
    requires heap.FreeCount() >= 1 + 2 * CountOf(named, Rounds(m.root.total))
    modifies heap, heap.entries, mem
    ensures heap.Valid()
    ensures Grew(AreaOf(heap), old(Snap(heap, mem)), Snap(heap, mem), all, 1 + 2 * CountOf(named, Rounds(m.root.total)))
    ensures var found := LastOf(named, Rounds(m.root.total));
      if found < 0 || |l.Parts()| > 1 then desc == 0 else Described(mem[..], m, found, desc, f, c, all)
  {
    ghost var s0, n := Snap(heap, mem), 1 + 2 * CountOf(named, Rounds(m.root.total));
    var next, fItem;
    desc, next, fItem, c, all := LookUp(heap, mem, m, first, l, named);
    f := PageOf(fItem);
    if fItem == 0 || next != 0 {
      desc := 0;
      return;
    }
    ghost var s1 := Snap(heap, mem);
    FillDescriptor(mem, desc, fItem, c, ItemOf(m.root.raw, LastOf(named, Rounds(m.root.total))));
    GrewAndWritten(AreaOf(heap), s0, s1, Snap(heap, mem), all, n);
  }

  /** How many components a path has, if it is accepted at all. */
  function PartCount(filename: CString): nat {
    if Accepted(filename) then |Parts(filename[3..])| else 0
  }

  /** The path is a file name in the root directory of drive 0, and an entry has that name. */
  predicate Opens(root: Root, filename: CString, named: set<nat>) {
    PartCount(filename) == 1 && filename[0] == 48 && LastOf(named, Rounds(root.total)) >= 0
  }

  /** `named` says which entries have the name that the path starts with. */
  ghost predicate Asks(root: Root, filename: CString, named: set<nat>, name: CString) {
    PartCount(filename) > 0 ==> Parts(filename[3..])[0] == name && Names(named, root.raw, Rounds(root.total), name)
  }

  /** How many blocks it takes to open a file, at most. */
  function OpenCost(root: Root, filename: CString, named: set<nat>): nat {
    3 + 2 * PartCount(filename) + 2 * CountOf(named, Rounds(root.total))
  }

  /** How many blocks looking up a path takes: the parsed path, and, if there is something to look for on
      drive 0, a FAT descriptor and two blocks for every match. */
  function LookupUsed(root: Root, filename: CString, named: set<nat>): nat {
    if !Accepted(filename) then 0
    else 1 + 2 * PartCount(filename) +
         (if PartCount(filename) > 0 && filename[0] == 48 then 1 + 2 * CountOf(named, Rounds(root.total)) else 0)
  }

  /** How many blocks `fopen` takes, whether it succeeds or not: one more for the descriptor if it does. */
  function OpenUsed(root: Root, filename: CString, named: set<nat>, slots: seq<word>): nat {
    LookupUsed(root, filename, named) +
    (if Opens(root, filename, named) && FreeSlot(slots, 0) < MAX_DESCRIPTORS then 1 else 0)
  }

  lemma {:induction false} FirstIsAligned(l: Shape)
    ensures l.First() % PAGE_SIZE == 0
  {
    if l.More? {
      FirstIsAligned(l.init);
    }
  }

  lemma ParsedList(heap: Heap, live0: Live, ram: seq<byte>, l: Shape, drive: word)
    requires Parsed(live0, heap.live, AreaOf(heap), ram, l, drive)
    ensures l.Owned(heap.live, AreaOf(heap)) && l.ListAt(ram, 0) && l.First() % PAGE_SIZE == 0
    ensures l.First() == 0 <==> l.Parts() == []
  {
    AddedIsOwned(live0, heap.live, AreaOf(heap), l.All(), l);
    l.BlockCount();
    BeforeFirst(AreaOf(heap), l);
    l.NullEndsIt(ram, 0, 0);
    FirstIsAligned(l);
  }

  /** Follows the root's pointers: the drive, and the first part. */
  method ReadRoot(mem: array<byte>, root: word, ghost l: Shape, ghost drive: word) returns (driveNumber: word,
                  first: word)
    requires mem.Length == ADDRESS_SPACE && root == l.RootPage() * PAGE_SIZE
    requires RootAt(mem[..], l.RootPage(), drive, l.First())
    ensures driveNumber == drive && first == l.First()
  {
    WordsOfPage(root, 0);
    WordsOfPage(root, 1);
    driveNumber := LoadWord(mem, root);
    first := LoadWord(mem, root + 4);
  }

  /** What `fopen` does with a parsed path. */
  method OpenParsed(heap: Heap, mem: array<byte>, m: Mounted, root: word, ghost l: Shape, ghost live0: Live,
                    ghost drive: word, ghost named: set<nat>, ghost name: CString)
    returns (desc: word, ghost f: page, ghost c: page, ghost all: set<page>, ghost used: nat)
    requires heap.Valid() && mem.Length == ADDRESS_SPACE && root == l.RootPage() * PAGE_SIZE
    requires Parsed(live0, heap.live, AreaOf(heap), mem[..], l, drive)
    requires l.Parts() != [] ==> l.Parts()[0] == name && Names(named, m.root.raw, Rounds(m.root.total), name)
    requires heap.FreeCount() >= 1 + 2 * CountOf(named, Rounds(m.root.total))
    modifies heap, heap.entries, mem
    ensures heap.Valid()
    ensures used == if l.Parts() != [] && drive == 0 then 1 + 2 * CountOf(named, Rounds(m.root.total)) else 0
    ensures Grew(AreaOf(heap), old(Snap(heap, mem)), Snap(heap, mem), all, used)
    ensures var found := LastOf(named, Rounds(m.root.total));
      if |l.Parts()| == 1 && drive == 0 && found >= 0 then Described(mem[..], m, found, desc, f, c, all) else desc == 0
  {
    GrewNot(AreaOf(heap), Snap(heap, mem));
    ParsedList(heap, live0, mem[..], l, drive);
    desc, f, c, all, used := 0, 0, 0, {}, 0;
    var driveNumber, first := ReadRoot(mem, root, l, drive);
    if first == 0 || driveNumber != 0 {
      return;
    }
    desc, f, c, all := Fat16Open(heap, mem, m, first, l, named);
    used := 1 + 2 * CountOf(named, Rounds(m.root.total));
  }

  /** From the path to a FAT descriptor: what `fopen` does before it takes a slot. The parsed path is
      never freed. */
  method OpenItem(heap: Heap, mem: array<byte>, m: Mounted, filename: CString, ghost named: set<nat>,
                  ghost name: CString)
    returns (desc: word, ghost f: page, ghost c: page, ghost all: set<page>, ghost used: nat)
    requires heap.Valid() && mem.Length == ADDRESS_SPACE && Asks(m.root, filename, named, name)
    requires heap.FreeCount() >= OpenCost(m.root, filename, named)
    modifies heap, heap.entries, mem
    ensures heap.Valid() && used == LookupUsed(m.root, filename, named) < OpenCost(m.root, filename, named)
    ensures Grew(AreaOf(heap), old(Snap(heap, mem)), Snap(heap, mem), all, used)
    ensures if Opens(m.root, filename, named)
      then Described(mem[..], m, LastOf(named, Rounds(m.root.total)), desc, f, c, all) else desc == 0
  {
    ghost var s0 := Snap(heap, mem);
    var root;
    ghost var l;
    root, l := Parse(heap, mem, filename);
    if root == 0 {
      assert Snap(heap, mem) == s0;
      GrewNot(AreaOf(heap), s0);
      desc, f, c, all, used := 0, 0, 0, {}, 0;
      return;
    }
    ghost var s1, parse := Snap(heap, mem), 1 + 2 * |Parts(filename[3..])|;
    assert Grew(AreaOf(heap), s0, s1, l.All(), parse);
    PartsHaveNoZero(filename[3..]);
    ghost var ps, n;
    desc, f, c, ps, n := OpenParsed(heap, mem, m, root, l, s0.live, filename[0] - 48, named, name);
    all, used := l.All() + ps, parse + n;
    GrewTwice(AreaOf(heap), s0, s1, Snap(heap, mem), l.All(), ps, parse, n, all, used);
  }

  // ---------------------------------------------------------------- open files

  /** The blocks of an open file, its descriptor, its FAT descriptor, its item and its entry, and the
      position in it. */
  datatype Handle = Handle(e: page, d: page, f: page, c: page, pos: word)
  {
    function All(): set<page> {
      {e, d, f, c}
    }
  }

  /** File `fd` is open on a directory entry. */
  ghost predicate OpenAt(ram: seq<byte>, fds: seq<word>, fd: int, h: Handle, item: seq<byte>) {
    && 0 < fd <= |fds| == MAX_DESCRIPTORS && fds[fd - 1] == h.e * PAGE_SIZE && h.e != 0
    && h.e != h.d && h.e != h.f && h.e != h.c && DescriptorAt(ram, h.d, h.f, h.c, h.pos, item)
    && AsWords(ram)[h.e * ENTRIES] == fd && AsWords(ram)[h.e * ENTRIES + 2] == h.d * PAGE_SIZE
  }

  lemma OpenKept(ram: seq<byte>, after: seq<byte>, fds: seq<word>, fd: int, h: Handle, item: seq<byte>)
    requires OpenAt(ram, fds, fd, h, item) && |after| == ADDRESS_SPACE
    requires forall p | p in h.All() :: SamePage(AsWords(ram), AsWords(after), p)
    ensures OpenAt(after, fds, fd, h, item)
  {
    assert h.e in h.All() && h.d in h.All() && h.f in h.All() && h.c in h.All();
    DescriptorKept(ram, after, h.d, h.f, h.c, h.pos, item);
  }

  /** The kernel's descriptor table: the address of a descriptor in each slot, or 0. */
  class FileTable {
    var slots: seq<word>

    constructor ()
      ensures slots == seq(MAX_DESCRIPTORS, _ => 0)
    {
      slots := seq(MAX_DESCRIPTORS, _ => 0);
    }
  }

  /** The first free slot of the descriptor table, or its size. */
  function FreeSlot(fds: seq<word>, from: nat): (i: nat)
    requires from <= |fds|
    ensures from <= i <= |fds| && (i < |fds| ==> fds[i] == 0) && forall k | from <= k < i :: fds[k] != 0
    decreases |fds| - from
  {
    if from == |fds| || fds[from] == 0 then from else FreeSlot(fds, from + 1)
  }

  /** A fresh file descriptor with its index and private pointer. */
  method FreshDescriptor(heap: Heap, mem: array<byte>, index: word, private: word, ghost f: page, ghost c: page,
                         ghost item: seq<byte>)
    returns (desc: word)
    requires heap.Valid() && mem.Length == ADDRESS_SPACE && Aligned(private) && heap.FreeCount() > 0
    requires DescriptorAt(mem[..], PageOf(private), f, c, 0, item)
    requires Block(AreaOf(heap), PageOf(private)) in heap.live
    requires Block(AreaOf(heap), f) in heap.live && Block(AreaOf(heap), c) in heap.live
    modifies heap, heap.entries, mem
    ensures heap.Valid() && Aligned(desc) && desc != 0
    ensures var e, d, w := PageOf(desc), PageOf(private), AsWords(mem[..]);
      && e != d && e != f && e != c && DescriptorAt(mem[..], d, f, c, 0, item)
      && w[e * ENTRIES] == index && w[e * ENTRIES + 2] == private
    ensures Grew(AreaOf(heap), old(Snap(heap, mem)), Snap(heap, mem), {PageOf(desc)}, 1)
  {
    ghost var s0, ram0, area, d := Snap(heap, mem), mem[..], AreaOf(heap), PageOf(private);
    desc := NewBlock(heap, mem, DESCRIPTOR_SIZE);
    ghost var s1, e := Snap(heap, mem), PageOf(desc);
    SetIndexAndPrivate(mem, desc, index, private);
    GrewAndWritten(area, s0, s1, Snap(heap, mem), {e}, 1);
    AddedIsLive(s0.live, s1.live, area, {e}, e);
    LivePageKept(s0.table, s0.live, area, s0.words, AsWords(mem[..]), d);
    LivePageKept(s0.table, s0.live, area, s0.words, AsWords(mem[..]), f);
    LivePageKept(s0.table, s0.live, area, s0.words, AsWords(mem[..]), c);
    DescriptorKept(ram0, mem[..], d, f, c, 0, item);
  }

  /** `file_new_descriptor` and the stores of `fopen` that follow it. */
  method NewDescriptor(heap: Heap, mem: array<byte>, files: FileTable, private: word, ghost f: page, ghost c: page,
                       ghost item: seq<byte>)
    returns (fd: int, ghost e: page)
    requires heap.Valid() && mem.Length == ADDRESS_SPACE && |files.slots| == MAX_DESCRIPTORS && Aligned(private)
    requires heap.FreeCount() > 0 && DescriptorAt(mem[..], PageOf(private), f, c, 0, item)
    requires Block(AreaOf(heap), PageOf(private)) in heap.live
    requires Block(AreaOf(heap), f) in heap.live && Block(AreaOf(heap), c) in heap.live
    modifies heap, heap.entries, mem, files
    ensures heap.Valid()
    ensures var i := FreeSlot(old(files.slots), 0);
      if i == MAX_DESCRIPTORS
      then fd == -ENOMEM && files.slots == old(files.slots) && Snap(heap, mem) == old(Snap(heap, mem))
      else && fd == i + 1 && files.slots == old(files.slots)[i := e * PAGE_SIZE]
           && OpenAt(mem[..], files.slots, fd, Handle(e, PageOf(private), f, c, 0), item)
           && Grew(AreaOf(heap), old(Snap(heap, mem)), Snap(heap, mem), {e}, 1)
  {
    e := 0;
    for i := 0 to MAX_DESCRIPTORS
      invariant FreeSlot(files.slots, 0) == FreeSlot(files.slots, i)
      invariant Snap(heap, mem) == old(Snap(heap, mem)) && heap.Valid() && heap.FreeCount() == old(heap.FreeCount())
      invariant files.slots == old(files.slots)
    {
      if files.slots[i] == 0 {
        var desc := FreshDescriptor(heap, mem, i + 1, private, f, c, item);
        e := PageOf(desc);
        files.slots := files.slots[i := desc];
        fd := i + 1;
        return;
      }
    }
    fd := -ENOMEM;
  }

  method SetIndexAndPrivate(mem: array<byte>, desc: word, index: word, private: word)
    requires mem.Length == ADDRESS_SPACE && Aligned(desc)
    modifies mem
    ensures AsWords(mem[..])[PageOf(desc) * ENTRIES] == index && AsWords(mem[..])[PageOf(desc) * ENTRIES + 2] == private
    ensures SameOutside(AsWords(old(mem[..])), AsWords(mem[..]), {PageOf(desc)})
  {
    ghost var p, w := PageOf(desc), AsWords(mem[..]);
    WordsOfPage(desc, 0);
    WordsOfPage(desc, 2);
    StoreWord(mem, desc, index);
    StoreWord(mem, desc + 8, private);
    assert forall q: page | q != p :: SamePage(w, AsWords(mem[..]), q);
  }

  lemma AllLive(live0: Live, live: Live, area: Area, all: set<page>, ps: set<page>)
    requires Added(live0, live, area, all) && ps <= all
    ensures forall p | p in ps :: Block(area, p) in live
  {
    forall p | p in ps
      ensures Block(area, p) in live
    {
      AddedIsLive(live0, live, area, all, p);
    }
  }

  /** `fopen` once there is a FAT descriptor: a slot for it, if one is free. */
  method OpenSlot(heap: Heap, mem: array<byte>, files: FileTable, desc: word, ghost f: page, ghost c: page,
                  ghost item: seq<byte>, ghost s0: Snapshot, ghost before: set<page>, ghost n: nat)
    returns (fd: int, ghost h: Handle, ghost all: set<page>, ghost used: nat)
    requires heap.Valid() && mem.Length == ADDRESS_SPACE && |files.slots| == MAX_DESCRIPTORS && heap.FreeCount() > 0
    requires Grew(AreaOf(heap), s0, Snap(heap, mem), before, n) && {PageOf(desc), f, c} <= before
    requires Aligned(desc) && DescriptorAt(mem[..], PageOf(desc), f, c, 0, item)
    modifies heap, heap.entries, mem, files
    ensures heap.Valid() && Grew(AreaOf(heap), s0, Snap(heap, mem), all, used)
    ensures var i := FreeSlot(old(files.slots), 0);
      if i < MAX_DESCRIPTORS then
        && fd == i + 1 && files.slots == old(files.slots)[i := h.e * PAGE_SIZE] && h.All() <= all && h.pos == 0
        && OpenAt(mem[..], files.slots, fd, h, item) && used == n + 1
      else fd == 0 && files.slots == old(files.slots) && used == n
  {
    ghost var s1, area := Snap(heap, mem), AreaOf(heap);
    ghost var e;
    AllLive(s0.live, s1.live, area, before, {PageOf(desc), f, c});
    fd, e := NewDescriptor(heap, mem, files, desc, f, c, item);
    h, all, used := Handle(e, PageOf(desc), f, c, 0), before, n;
    if fd < 0 {
      fd := 0;
    } else {
      GrewTwice(area, s0, s1, Snap(heap, mem), before, {e}, n, 1, before + {e}, n + 1);
      all, used := before + {e}, n + 1;
    }
  }

  /** `fopen(filename, "r")`. */
  method Fopen(heap: Heap, mem: array<byte>, files: FileTable, m: Mounted, filename: CString, ghost named: set<nat>,
               ghost name: CString)
    returns (fd: int, ghost h: Handle, ghost all: set<page>, ghost used: nat)
    requires heap.Valid() && mem.Length == ADDRESS_SPACE && |files.slots| == MAX_DESCRIPTORS
    requires Asks(m.root, filename, named, name) && heap.FreeCount() >= OpenCost(m.root, filename, named)
    modifies heap, heap.entries, mem, files
    ensures heap.Valid()
    ensures used == OpenUsed(m.root, filename, named, old(files.slots)) <= OpenCost(m.root, filename, named)
    ensures Grew(AreaOf(heap), old(Snap(heap, mem)), Snap(heap, mem), all, used)
    ensures var i := FreeSlot(old(files.slots), 0);
      if Opens(m.root, filename, named) && i < MAX_DESCRIPTORS then
        && fd == i + 1 && files.slots == old(files.slots)[i := h.e * PAGE_SIZE] && h.All() <= all && h.pos == 0
        && (LastOf(named, Rounds(m.root.total)) + 1) * ITEM_SIZE <= |m.root.raw|
        && OpenAt(mem[..], files.slots, fd, h, ItemOf(m.root.raw, LastOf(named, Rounds(m.root.total))))
      else fd == 0 && files.slots == old(files.slots)
  {
    ghost var s0 := Snap(heap, mem);
    ghost var f, c;
    var desc;
    desc, f, c, all, used := OpenItem(heap, mem, m, filename, named, name);
    h := Handle(0, PageOf(desc), f, c, 0);
    if desc == 0 {
      return 0, h, all, used;
    }
    ghost var item := ItemOf(m.root.raw, LastOf(named, Rounds(m.root.total)));
    fd, h, all, used := OpenSlot(heap, mem, files, desc, f, c, item, s0, all, used);
  }

  /** `file_get_descriptor`: the last slot, though it can be taken, is out of reach. */
  method GetDescriptor(files: FileTable, fd: int) returns (desc: word)
    requires |files.slots| == MAX_DESCRIPTORS
    ensures desc == if 0 < fd < MAX_DESCRIPTORS then files.slots[fd - 1] else 0
  {
    if fd <= 0 || fd >= MAX_DESCRIPTORS {
      return 0;
    }
    desc := files.slots[fd - 1];
  }

  /** The pointers from an open file to its entry. */
  method Follow(mem: array<byte>, desc: word, ghost slots: seq<word>, ghost fd: int, ghost h: Handle,
                ghost item: seq<byte>)
    returns (private: word, fItem: word, clone: word)
    requires mem.Length == ADDRESS_SPACE && OpenAt(mem[..], slots, fd, h, item) && desc == h.e * PAGE_SIZE
    ensures private == h.d * PAGE_SIZE && fItem == h.f * PAGE_SIZE && clone == h.c * PAGE_SIZE
    ensures mem[..][clone..clone + ITEM_SIZE] == item
  {
    WordsOfPage(desc, 2);
    private := LoadWord(mem, desc + 8);
    WordsOfPage(private, 0);
    fItem := LoadWord(mem, private);
    WordsOfPage(fItem, 0);
    clone := LoadWord(mem, fItem);
  }

  /** A descriptor that can be had: one that is open, and not in the slot that is out of reach. */
  predicate Reachable(slots: seq<word>, fd: int)
    requires |slots| == MAX_DESCRIPTORS
  {
    0 < fd < MAX_DESCRIPTORS && slots[fd - 1] != 0
  }

  /** If `fd` can be had, it is open: by the handle `h`, for the entry `item`. */
  ghost predicate Refers(ram: seq<byte>, slots: seq<word>, fd: int, h: Handle, item: seq<byte>) {
    |slots| == MAX_DESCRIPTORS && (Reachable(slots, fd) ==> OpenAt(ram, slots, fd, h, item))
  }

  const READ_ONLY := 1     // the attribute bit, and the flag of `fstat`
  const SEEK_SET := 0
  const SEEK_CUR := 1
  const SEEK_END := 2
  const EUNIMP := 7

  method Fstat(mem: array<byte>, files: FileTable, fd: int, ghost h: Handle, ghost item: seq<byte>)
    returns (res: int, filesize: word, flags: nat)
    requires mem.Length == ADDRESS_SPACE && Refers(mem[..], files.slots, fd, h, item)
    ensures if Reachable(files.slots, fd)
      then res == 0 && filesize == FileSize(item) && flags == item[ATTRIBUTE] % 2 * READ_ONLY
      else res == -EIO
  {
    var desc := GetDescriptor(files, fd);
    if desc == 0 {
      return -EIO, 0, 0;
    }
    var private, fItem, clone := Follow(mem, desc, files.slots, fd, h, item);
    res, filesize := 0, FromDigits(mem[clone + 28], mem[clone + 29], mem[clone + 30], mem[clone + 31]);
    flags := if mem[clone + ATTRIBUTE] % 2 != 0 then READ_ONLY else 0;
  }

  /** `fread`: items one after the other from the descriptor's position, which stays where it is. */
  method Fread(mem: array<byte>, files: FileTable, m: Mounted, fd: int, ptr: word, size: word, nmemb: word,
               ghost h: Handle, ghost item: seq<byte>)
    returns (res: int)
    requires mem.Length == ADDRESS_SPACE && Refers(mem[..], files.slots, fd, h, item) && m.disk.Valid()
    requires ptr + Times(nmemb, size) <= ADDRESS_SPACE && h.pos + Times(nmemb, size) <= MAX_INT
    modifies mem, m.disk.fatStream, m.disk.clusterStream
    ensures SameBeside(old(mem[..]), mem[..], ptr, Times(nmemb, size))
    ensures size == 0 || nmemb == 0 || !Reachable(files.slots, fd) ==> res == -EINVARG && mem[..] == old(mem[..])
    ensures size > 0 && nmemb > 0 && Reachable(files.slots, fd) ==>
      var f := m.disk.volume.Reads(m.disk.clusterStream.around, FirstCluster(item));
      Outcome(res, nmemb, Items(f, m.disk.volume.clusterBytes, h.pos, size, nmemb), Times(nmemb, size), mem[..], ptr)
  {
    if size == 0 || nmemb == 0 || fd < 1 {
      return -EINVARG;
    }
    var desc := GetDescriptor(files, fd);
    if desc == 0 {
      return -EINVARG;
    }
    var cluster, pos := ClusterAndPosition(mem, files, fd, desc, h, item);
    ghost var f := m.disk.volume.Reads(m.disk.clusterStream.around, cluster);
    res := m.disk.Read(cluster, pos, size, nmemb, mem, ptr, f);
  }

  /** Follows the pointers from an open file to its entry and its position. */
  method ClusterAndPosition(mem: array<byte>, files: FileTable, fd: int, desc: word, ghost h: Handle,
                            ghost item: seq<byte>)
    returns (cluster: nat, pos: word)
    requires mem.Length == ADDRESS_SPACE && OpenAt(mem[..], files.slots, fd, h, item) && desc == h.e * PAGE_SIZE
    ensures cluster == FirstCluster(item) && pos == h.pos
  {
    var private, fItem, clone := Follow(mem, desc, files.slots, fd, h, item);
    var high: nat := mem[clone + 20] as int + 0x100 * mem[clone + 21] as int;
    var low: nat := mem[clone + 26] as int + 0x100 * mem[clone + 27] as int;
    cluster := Or(high, low);
    WordsOfPage(private, 1);
    pos := LoadWord(mem, private + 4);
  }

  /** What `fseek` answers, and the position it leaves. */
  function Sought(pos: word, offset: word, whence: nat, size: word): (int, word) {
    if offset >= size then (-EIO, pos)
    else if whence == SEEK_SET then (0, offset)
    else if whence == SEEK_END then (-EUNIMP, pos)
    else if whence == SEEK_CUR then (0, Wrap(pos + offset))
    else (-EINVARG, pos)
  }

  /** A position that was set, with whence 0, is inside the file and is the offset; one that was moved, with
      whence 1, can be outside, but is the sum. For any other whence, or offset, it stays. */
  lemma SoughtIs(pos: word, offset: word, whence: nat, size: word)
    ensures Sought(pos, offset, whence, size).0 == 0 <==> offset < size && whence <= 1
    ensures Sought(pos, offset, whence, size).0 == 0 && whence == 0 ==>
        Sought(pos, offset, whence, size).1 == offset < size
    ensures Sought(pos, offset, whence, size).0 == 0 && whence == 1 ==>
        Sought(pos, offset, whence, size).1 == (pos + offset) % 0x1_0000_0000
    ensures Sought(pos, offset, whence, size).0 != 0 ==> Sought(pos, offset, whence, size).1 == pos
  {
  }

  /** `fseek`: an offset beyond the size is refused, for a position relative to the current one too. */
  method Fseek(mem: array<byte>, files: FileTable, fd: int, offset: word, whence: nat, ghost h: Handle,
               ghost item: seq<byte>)
    returns (res: int, ghost after: Handle)
    requires mem.Length == ADDRESS_SPACE && Refers(mem[..], files.slots, fd, h, item)
    modifies mem
    ensures !Reachable(files.slots, fd) ==> res == -EIO && after == h && mem[..] == old(mem[..])
    ensures Reachable(files.slots, fd) ==>
      && (res, after.pos) == Sought(h.pos, offset, whence, FileSize(item)) && after == h.(pos := after.pos)
    ensures Refers(mem[..], files.slots, fd, after, item)
    ensures Reachable(files.slots, fd) ==> SameOutside(AsWords(old(mem[..])), AsWords(mem[..]), {h.d})
  {
    res, after := 0, h;
    var desc := GetDescriptor(files, fd);
    if desc == 0 {
      return -EIO, after;
    }
    var private, fItem, clone := Follow(mem, desc, files.slots, fd, h, item);
    var size := FromDigits(mem[clone + 28], mem[clone + 29], mem[clone + 30], mem[clone + 31]);
    if offset >= size {
      return -EIO, after;
    }
    WordsOfPage(private, 1);
    var pos := LoadWord(mem, private + 4);
    if whence == SEEK_SET {
      SetPosition(mem, files, fd, private, offset, h, item);
      after := h.(pos := offset);
    } else if whence == SEEK_END {
      res := -EUNIMP;
    } else if whence == SEEK_CUR {
      SetPosition(mem, files, fd, private, Wrap(pos + offset), h, item);
      after := h.(pos := Wrap(pos + offset));
    } else {
      res := -EINVARG;
    }
  }

  /** `fseek` and then `fread`: with whence 0 from the offset on, with 1 from so far behind the position. */
  method SeekAndRead(mem: array<byte>, files: FileTable, m: Mounted, fd: int, offset: word, whence: nat, ptr: word,
                     size: word, nmemb: word, ghost h: Handle, ghost item: seq<byte>)
    returns (res: int)
    requires mem.Length == ADDRESS_SPACE && Refers(mem[..], files.slots, fd, h, item) && m.disk.Valid()
    requires Reachable(files.slots, fd) && offset < FileSize(item) && whence <= 1 && size > 0 && nmemb > 0
    requires ptr + Times(nmemb, size) <= ADDRESS_SPACE
    requires (if whence == 0 then offset else Wrap(h.pos + offset)) + Times(nmemb, size) <= MAX_INT
    modifies mem, m.disk.fatStream, m.disk.clusterStream
    ensures var f := m.disk.volume.Reads(m.disk.clusterStream.around, FirstCluster(item));
      var from := if whence == 0 then offset else Wrap(h.pos + offset);
      Outcome(res, nmemb, Items(f, m.disk.volume.clusterBytes, from, size, nmemb), Times(nmemb, size), mem[..], ptr)
  {
    ghost var after;
    res, after := Fseek(mem, files, fd, offset, whence, h, item);
    res := Fread(mem, files, m, fd, ptr, size, nmemb, after, item);
  }

  method SetPosition(mem: array<byte>, files: FileTable, fd: int, private: word, pos: word, ghost h: Handle,
                     ghost item: seq<byte>)
    requires mem.Length == ADDRESS_SPACE && OpenAt(mem[..], files.slots, fd, h, item) && private == h.d * PAGE_SIZE
    modifies mem
    ensures OpenAt(mem[..], files.slots, fd, h.(pos := pos), item)
    ensures SameOutside(AsWords(old(mem[..])), AsWords(mem[..]), {h.d})
  {
    ghost var ram := mem[..];
    SetLink(mem, private, pos);
    ItemKept(ram, mem[..], h.f, h.c, item);
  }

  /** `kfree` of a one-block allocation. */
  method FreeOne(heap: Heap, p: word, ghost b: int)
    requires heap.Valid() && Aligned(p) && b == Block(AreaOf(heap), PageOf(p)) && b in heap.live && heap.live[b] == 1
    modifies heap, heap.entries
    ensures heap.Valid() && heap.live == old(heap.live) - {b}
    ensures heap.FreeCount() == old(heap.FreeCount()) + 1 && Shrinks(old(heap.entries[..]), heap.entries[..], 0)
  {
    FreePage(heap, p);
  }

  /** `fat16_close`: frees the entry, the item and the FAT descriptor. */
  method Fat16Close(heap: Heap, private: word, fItem: word, clone: word, ghost d: int, ghost f: int, ghost c: int)
    requires heap.Valid() && Aligned(private) && Aligned(fItem) && Aligned(clone) && d != f && d != c && f != c
    requires d == Block(AreaOf(heap), PageOf(private)) && d in heap.live && heap.live[d] == 1
    requires f == Block(AreaOf(heap), PageOf(fItem)) && f in heap.live && heap.live[f] == 1
    requires c == Block(AreaOf(heap), PageOf(clone)) && c in heap.live && heap.live[c] == 1
    modifies heap, heap.entries
    ensures heap.Valid() && heap.live == old(heap.live) - {c} - {f} - {d}
    ensures heap.FreeCount() == old(heap.FreeCount()) + 3 && Shrinks(old(heap.entries[..]), heap.entries[..], 0)
  {
    ghost var t0 := heap.entries[..];
    FreeOne(heap, clone, c);
    ghost var t1 := heap.entries[..];
    FreeOne(heap, fItem, f);
    ghost var t2 := heap.entries[..];
    ShrinksTwice(t0, t1, t2, 0, 0, 0);
    FreeOne(heap, private, d);
    ShrinksTwice(t0, t2, heap.entries[..], 0, 0, 0);
  }

  /** `file_free_descriptor`: empties the slot that the descriptor's index names, and frees it. */
  method FreeDescriptor(heap: Heap, mem: array<byte>, files: FileTable, ghost fd: int, desc: word, ghost e: int)
    requires heap.Valid() && mem.Length == ADDRESS_SPACE && 0 < fd <= |files.slots| && Aligned(desc)
    requires AsWords(mem[..])[PageOf(desc) * ENTRIES] == fd
    requires e == Block(AreaOf(heap), PageOf(desc)) && e in heap.live && heap.live[e] == 1
    modifies heap, heap.entries, files
    ensures heap.Valid() && heap.live == old(heap.live) - {e} && files.slots == old(files.slots)[fd - 1 := 0]
    ensures heap.FreeCount() == old(heap.FreeCount()) + 1 && Shrinks(old(heap.entries[..]), heap.entries[..], 0)
  {
    WordsOfPage(desc, 0);
    var index := LoadWord(mem, desc);
    files.slots := files.slots[index - 1 := 0];
    FreeOne(heap, desc, e);
  }

  /** `fclose`: frees the entry, the item and both descriptors, and empties the slot. */
  method Fclose(heap: Heap, mem: array<byte>, files: FileTable, fd: int, ghost h: Handle, ghost item: seq<byte>)
    returns (res: int)
    requires heap.Valid() && mem.Length == ADDRESS_SPACE && Refers(mem[..], files.slots, fd, h, item)
    requires Reachable(files.slots, fd) ==> forall p | p in h.All() ::
      Block(AreaOf(heap), p) in heap.live && heap.live[Block(AreaOf(heap), p)] == 1
    modifies heap, heap.entries, files
    ensures heap.Valid() && Shrinks(old(heap.entries[..]), heap.entries[..], 0)
    ensures heap.FreeCount() == old(heap.FreeCount()) + if Reachable(old(files.slots), fd) then 4 else 0
    ensures if Reachable(old(files.slots), fd)
      then && res == 0 && heap.live == old(heap.live) - BlocksOf(AreaOf(heap), h.All())
           && files.slots == old(files.slots)[fd - 1 := 0]
      else res == -EIO && heap.live == old(heap.live) && files.slots == old(files.slots)
  {
    ghost var t0, live, area := heap.entries[..], heap.live, AreaOf(heap);
    NoShrink(t0, 0);
    var desc := GetDescriptor(files, fd);
    if desc == 0 {
      return -EIO;
    }
    var private, fItem, clone := Follow(mem, desc, files.slots, fd, h, item);
    HandleFreed(live, area, h);
    Fat16Close(heap, private, fItem, clone, Block(area, h.d), Block(area, h.f), Block(area, h.c));
    ghost var t1 := heap.entries[..];
    FreeDescriptor(heap, mem, files, fd, desc, Block(area, h.e));
    ShrinksTwice(t0, t1, heap.entries[..], 0, 0, 0);
    res := 0;
  }

  lemma HandleFreed(live: Live, area: Area, h: Handle)
    requires forall p | p in h.All() :: Block(area, p) in live && live[Block(area, p)] == 1
    ensures forall b | b in [Block(area, h.c), Block(area, h.f), Block(area, h.d), Block(area, h.e)] ::
        b in live && live[b] == 1
    ensures live - {Block(area, h.c)} - {Block(area, h.f)} - {Block(area, h.d)} - {Block(area, h.e)}
         == live - BlocksOf(area, h.All())
  {
    assert h.e in h.All() && h.d in h.All() && h.f in h.All() && h.c in h.All();
    assert BlocksOf(area, h.All()) == {Block(area, h.c), Block(area, h.f), Block(area, h.d), Block(area, h.e)};
  }
}
