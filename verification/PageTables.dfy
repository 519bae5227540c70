/** Two-level page tables as words in physical memory, and what editing them does to the mapping.
    Memory is a sequence of words here, and pages are known by their numbers. */
module PageTables {
  import opened Words

  const ENTRIES := 1024
  const PAGES := 0x10_0000
  const SPAN := 0x40_0000  // bytes of address space per table
  const MEMORY_WORDS := 0x4000_0000

  const IS_PRESENT := 1
  const IS_WRITABLE := 2
  const ACCESS_FROM_ALL := 4

  type page = p: int | 0 <= p < PAGES

  predicate Aligned(a: int) {
    a % PAGE_SIZE == 0
  }

  /** The page that holds address `a`. */
  function PageOf(a: word): page {
    a / PAGE_SIZE
  }

  /** Whole pages for so many bytes. */
  function PagesFor(size: nat): nat {
    (size + (PAGE_SIZE - 1)) / PAGE_SIZE
  }

  /** Page `p`'s index into the directory, and into the table found there. */
  function DirectoryIndex(p: page): (i: nat)
    ensures i < ENTRIES
  {
    p / ENTRIES
  }

  function TableIndex(p: page): (i: nat)
    ensures i < ENTRIES
  {
    p % ENTRIES
  }

  /** The page of table `i` of directory `d`: the directory word without its flag bits. */
  function TablePage(w: seq<word>, d: page, i: nat): page
    requires |w| == MEMORY_WORDS && i < ENTRIES
  {
    PageOf(w[d * ENTRIES + i])
  }

  /** The index of the word that maps virtual page `v`. */
  function Slot(w: seq<word>, d: page, v: page): (a: nat)
    requires |w| == MEMORY_WORDS
    ensures a < MEMORY_WORDS
  {
    TablePage(w, d, DirectoryIndex(v)) * ENTRIES + TableIndex(v)
  }

  function Entry(w: seq<word>, d: page, v: page): word
    requires |w| == MEMORY_WORDS
  {
    w[Slot(w, d, v)]
  }

  // Intel SDM Vol. 3A, section 4.3: bits 0, 1 and 2 of a directory word and of a table's entry.

  predicate Present(e: word) {
    e % 2 == 1
  }

  predicate Writable(e: word) {
    e / 2 % 2 == 1
  }

  predicate ForUser(e: word) {
    e / 2 / 2 % 2 == 1
  }

  /** The directory's word for its table `i`. */
  function DirectoryEntry(w: seq<word>, d: page, i: nat): word
    requires |w| == MEMORY_WORDS && i < ENTRIES
  {
    w[d * ENTRIES + i]
  }

  /** Section 4.6.1: what a program may read, by both levels. */
  predicate UserReads(w: seq<word>, d: page, u: page)
    requires |w| == MEMORY_WORDS
  {
    var above, e := DirectoryEntry(w, d, DirectoryIndex(u)), Entry(w, d, u);
    Present(above) && ForUser(above) && Present(e) && ForUser(e)
  }

  /** And what it may write. */
  predicate UserWrites(w: seq<word>, d: page, u: page)
    requires |w| == MEMORY_WORDS
  {
    UserReads(w, d, u) && Writable(DirectoryEntry(w, d, DirectoryIndex(u))) && Writable(Entry(w, d, u))
  }

  /** The directory's words allow what `flags` do, and writing besides. */
  ghost predicate Grants(w: seq<word>, d: page, flags: word)
    requires |w| == MEMORY_WORDS
  {
    forall i | 0 <= i < ENTRIES ::
      var e := DirectoryEntry(w, d, i);
      (Present(e) <==> Present(flags)) && (ForUser(e) <==> ForUser(flags)) && Writable(e)
  }

  /** If they do, what a program may do is decided by the flags and by the table's entry alone. */
  lemma EntryDecides(w: seq<word>, d: page, flags: word, u: page)
    requires |w| == MEMORY_WORDS && Grants(w, d, flags)
    ensures var e := Entry(w, d, u);
      && (UserReads(w, d, u) <==> Present(flags) && ForUser(flags) && Present(e) && ForUser(e))
      && (UserWrites(w, d, u) <==> UserReads(w, d, u) && Writable(e))
  {
    assert Writable(DirectoryEntry(w, d, DirectoryIndex(u)));
  }

  lemma GrantsKept(w: seq<word>, after: seq<word>, d: page, flags: word)
    requires |w| == |after| == MEMORY_WORDS && SamePage(w, after, d) && Grants(w, d, flags)
    ensures Grants(after, d, flags)
  {
    forall i | 0 <= i < ENTRIES
      ensures DirectoryEntry(after, d, i) == DirectoryEntry(w, d, i)
    {
    }
  }

  /** The tables are distinct pages, none of them the directory itself. */
  ghost predicate Built(w: seq<word>, d: page) {
    && |w| == MEMORY_WORDS
    && (forall i | 0 <= i < ENTRIES :: TablePage(w, d, i) != d)
    && (forall i, j | 0 <= i < j < ENTRIES :: TablePage(w, d, i) != TablePage(w, d, j))
  }

  function TablePages(w: seq<word>, d: page): set<page>
    requires |w| == MEMORY_WORDS
  {
    set i | 0 <= i < ENTRIES :: TablePage(w, d, i)
  }

  ghost predicate SamePage(w: seq<word>, after: seq<word>, p: page)
    requires |w| == |after| == MEMORY_WORDS
  {
    forall k | p * ENTRIES <= k < p * ENTRIES + ENTRIES :: after[k] == w[k]
  }

  /** The two memories agree outside the pages `ps`. */
  ghost predicate SameOutside(w: seq<word>, after: seq<word>, ps: set<page>) {
    |w| == |after| == MEMORY_WORDS && forall p: page | p !in ps :: SamePage(w, after, p)
  }

  lemma SameOutsideBoth(a: seq<word>, b: seq<word>, c: seq<word>, ps: set<page>, qs: set<page>, all: set<page>)
    requires SameOutside(a, b, ps) && SameOutside(b, c, qs) && ps <= all && qs <= all
    ensures SameOutside(a, c, all)
  {
    forall p: page | p !in all
      ensures SamePage(a, c, p)
    {
      assert SamePage(a, b, p) && SamePage(b, c, p);
    }
  }

  /** Writing inside one page leaves the words of every other page alone. */
  lemma WritingInPage(ram: seq<byte>, p: page, xs: seq<byte>)
    requires |ram| == ADDRESS_SPACE && |xs| <= PAGE_SIZE
    ensures SameOutside(AsWords(ram), AsWords(Splice(ram, p * PAGE_SIZE, xs)), {p})
  {
    var after := Splice(ram, p * PAGE_SIZE, xs);
    forall q: page | q != p
      ensures SamePage(AsWords(ram), AsWords(after), q)
    {
      forall k | q * ENTRIES <= k < q * ENTRIES + ENTRIES
        ensures AsWords(after)[k] == AsWords(ram)[k]
      {
        SameBytesSameWord(ram, after, k);
      }
    }
  }

  /** The first `n` bytes of a page whose words are unchanged. */
  lemma KeptBytes(ram: seq<byte>, after: seq<byte>, p: page, n: nat)
    requires |ram| == |after| == ADDRESS_SPACE && n <= PAGE_SIZE && SamePage(AsWords(ram), AsWords(after), p)
    ensures after[p * PAGE_SIZE..p * PAGE_SIZE + n] == ram[p * PAGE_SIZE..p * PAGE_SIZE + n]
    ensures forall k | p * PAGE_SIZE <= k < p * PAGE_SIZE + n :: after[k] == ram[k]
  {
    forall k | p * PAGE_SIZE <= k < p * PAGE_SIZE + n
      ensures after[k] == ram[k]
    {
      assert AsWords(after)[k / 4] == AsWords(ram)[k / 4];
      SameWordSameBytes(ram, after, k / 4);
    }
  }

  /** `after` differs from `w` at most inside the tables of `d`, and has the same tables. */
  ghost predicate OnlyTablesChanged(w: seq<word>, after: seq<word>, d: page)
    requires |w| == MEMORY_WORDS
  {
    SameOutside(w, after, TablePages(w, d)) && SamePage(w, after, d)
  }

  lemma SameTables(w: seq<word>, after: seq<word>, d: page)
    requires |w| == |after| == MEMORY_WORDS && SamePage(w, after, d)
    ensures forall i | 0 <= i < ENTRIES :: TablePage(after, d, i) == TablePage(w, d, i)
    ensures TablePages(after, d) == TablePages(w, d)
    ensures Built(w, d) <==> Built(after, d)
  {
    assert forall i | 0 <= i < ENTRIES :: TablePage(after, d, i) == TablePage(w, d, i);
  }

  function SetEntry(w: seq<word>, d: page, v: page, val: word): (r: seq<word>)
    requires |w| == MEMORY_WORDS
    ensures |r| == |w|
  {
    w[Slot(w, d, v) := val]
  }

  /** Different pages are mapped by different words, and none of them is a directory word. */
  lemma SlotsDiffer(w: seq<word>, d: page, u: page, v: page)
    requires Built(w, d)
    ensures Slot(w, d, u) == Slot(w, d, v) <==> u == v
    ensures Slot(w, d, v) / ENTRIES == TablePage(w, d, DirectoryIndex(v)) != d
  {
  }

  lemma SetEntryKeepsTables(w: seq<word>, d: page, v: page, val: word)
    requires Built(w, d)
    ensures var after := SetEntry(w, d, v, val);
            Built(after, d) && OnlyTablesChanged(w, after, d)
  {
    var after := SetEntry(w, d, v, val);
    var table := TablePage(w, d, DirectoryIndex(v));
    assert table in TablePages(w, d) && table != d;
    forall p: page | p != table
      ensures SamePage(w, after, p)
    {
    }
    SameTables(w, after, d);
  }

  /** Storing an entry changes the mapping of one page and nothing else: no directory word,
      no table address, no other page. */
  lemma SetEntryEffect(w: seq<word>, d: page, v: page, val: word, u: page)
    requires Built(w, d)
    ensures Entry(SetEntry(w, d, v, val), d, u) == if u == v then val else Entry(w, d, u)
  {
    SetEntryKeepsTables(w, d, v, val);
    SameTables(w, SetEntry(w, d, v, val), d);
    SlotsDiffer(w, d, u, v);
  }

  lemma TablesChangedTransitive(a: seq<word>, b: seq<word>, c: seq<word>, d: page)
    requires |a| == MEMORY_WORDS && OnlyTablesChanged(a, b, d) && OnlyTablesChanged(b, c, d)
    ensures OnlyTablesChanged(a, c, d)
  {
    SameTables(a, b, d);
    SameOutsideBoth(a, b, c, TablePages(a, d), TablePages(a, d), TablePages(a, d));
  }

  // ---------------------------------------------------------------- mapping ranges

  /** The page after `p`, around the end of the address space. */
  function Next(p: page): page {
    if p + 1 == PAGES then 0 else p + 1
  }

  /** How many pages `u` lies behind `v`, around the end of the address space. */
  function Behind(u: page, v: page): page {
    if u >= v then u - v else u - v + PAGES
  }

  function Plus(p: page, n: page): page {
    if p + n < PAGES then p + n else p + n - PAGES
  }

  /** The entry for physical page `p`. */
  function EntryFor(p: page, flags: word): word {
    OrWord(p * PAGE_SIZE, flags)
  }

  /** A page's number leaves the low bits to the flags. */
  lemma EntryFlags(p: page, flags: word)
    ensures var e := EntryFor(p, flags);
      (Present(e) <==> Present(flags)) && (Writable(e) <==> Writable(flags)) && (ForUser(e) <==> ForUser(flags))
  {
    var x := p * PAGE_SIZE;
    assert x / 2 == p * 2048 && x / 2 / 2 == p * 1024;
    OrWordIsOr(x, flags);
    OrFlags(x, flags);
  }

  /** `count` pages from `v` mapped to `p` onwards. */
  function MapRange(w: seq<word>, d: page, v: page, p: page, count: nat, flags: word): (r: seq<word>)
    requires |w| == MEMORY_WORDS
    ensures |r| == |w|
    decreases count
  {
    if count == 0 then w
    else MapRange(SetEntry(w, d, v, EntryFor(p, flags)), d, Next(v), Next(p), count - 1, flags)
  }

  lemma {:induction false} MapRangeKeepsTables(w: seq<word>, d: page, v: page, p: page, count: nat, flags: word)
    requires Built(w, d)
    ensures var after := MapRange(w, d, v, p, count, flags);
            Built(after, d) && OnlyTablesChanged(w, after, d)
    decreases count
  {
    if count > 0 {
      var step := SetEntry(w, d, v, EntryFor(p, flags));
      SetEntryKeepsTables(w, d, v, EntryFor(p, flags));
      MapRangeKeepsTables(step, d, Next(v), Next(p), count - 1, flags);
      TablesChangedTransitive(w, step, MapRange(w, d, v, p, count, flags), d);
    }
  }

  /** What page `u` maps to once `count` pages from `v` map to `p` onwards, if it mapped to `before`. */
  function Remapped(before: word, v: page, p: page, count: nat, flags: word, u: page): word {
    if Behind(u, v) < count then EntryFor(Plus(p, Behind(u, v)), flags) else before
  }

  lemma RemapInSteps(before: word, step: word, v: page, p: page, count: nat, flags: word, u: page)
    requires 0 < count && step == if u == v then EntryFor(p, flags) else before
    ensures Remapped(step, Next(v), Next(p), count - 1, flags, u) == Remapped(before, v, p, count, flags, u)
  {
    assert u != v ==> Plus(Next(p), Behind(u, Next(v))) == Plus(p, Behind(u, v));
  }

  /** Page `k` of the range maps to page `k` of the physical range and every other page keeps its
      entry. Either range may wrap around the end of memory, more than once. */
  lemma {:induction false} MapRangeEffect(w: seq<word>, d: page, v: page, p: page, count: nat, flags: word, u: page)
    requires Built(w, d)
    ensures Entry(MapRange(w, d, v, p, count, flags), d, u) == Remapped(Entry(w, d, u), v, p, count, flags, u)
    decreases count
  {
    if count > 0 {
      var e := EntryFor(p, flags);
      var step := SetEntry(w, d, v, e);
      assert Built(step, d) by {
        SetEntryKeepsTables(w, d, v, e);
      }
      assert Entry(step, d, u) == if u == v then e else Entry(w, d, u) by {
        SetEntryEffect(w, d, v, e, u);
      }
      RemapInSteps(Entry(w, d, u), Entry(step, d, u), v, p, count, flags, u);
      MapRangeEffect(step, d, Next(v), Next(p), count - 1, flags, u);
    }
  }

  /** The arguments `paging_map_to` accepts. */
  predicate MapToAccepts(virt: word, phys: word, physEnd: word) {
    Aligned(virt) && Aligned(phys) && Aligned(physEnd) && phys <= physEnd
  }

  // ---------------------------------------------------------------- any sequence of edits

  datatype Edit =
    | Set(virt: word, val: word)
    | Map(virt: word, phys: word, flags: word)
    | Range(virt: word, phys: word, count: int, flags: word)
    | To(virt: word, phys: word, physEnd: word, flags: word)

  /** Whether an edit's addresses are accepted. A range is refused at its first page. */
  predicate Accepts(e: Edit) {
    match e
    case Set(virt, _) => Aligned(virt)
    case Map(virt, phys, _) => Aligned(virt) && Aligned(phys)
    case Range(virt, phys, count, _) => count <= 0 || (Aligned(virt) && Aligned(phys))
    case To(virt, phys, physEnd, _) => MapToAccepts(virt, phys, physEnd)
  }

  function Apply(w: seq<word>, d: page, e: Edit): (r: seq<word>)
    requires |w| == MEMORY_WORDS
    ensures |r| == |w|
  {
    if !Accepts(e) then w else
    match e
    case Set(virt, val) => SetEntry(w, d, PageOf(virt), val)
    case Map(virt, phys, flags) => MapRange(w, d, PageOf(virt), PageOf(phys), 1, flags)
    case Range(virt, phys, count, flags) => MapRange(w, d, PageOf(virt), PageOf(phys), Rounds(count), flags)
    case To(virt, phys, physEnd, flags) =>
      MapRange(w, d, PageOf(virt), PageOf(phys), (physEnd - phys) / PAGE_SIZE, flags)
  }

  function ApplyAll(w: seq<word>, d: page, es: seq<Edit>): (r: seq<word>)
    requires |w| == MEMORY_WORDS
    ensures |r| == |w|
  {
    if es == [] then w else Apply(ApplyAll(w, d, es[..|es| - 1]), d, es[|es| - 1])
  }

  lemma PagesUpTo(phys: word, physEnd: word, n: page)
    requires Aligned(phys) && Aligned(physEnd) && phys <= physEnd
    ensures n < (physEnd - phys) / PAGE_SIZE <==> n * PAGE_SIZE < physEnd - phys
    ensures n * PAGE_SIZE < physEnd - phys ==> Plus(PageOf(phys), n) * PAGE_SIZE == phys + n * PAGE_SIZE
  {
    var a, b := PageOf(phys), PageOf(physEnd);
    assert phys == a * PAGE_SIZE && physEnd == b * PAGE_SIZE;
  }

  /** Mapping up to `physEnd`: accepted, exactly the pages of `phys .. physEnd` appear at `virt` and
      every other page keeps its entry; rejected, nothing changes. */
  lemma MapToEffect(w: seq<word>, d: page, virt: word, phys: word, physEnd: word, flags: word, u: page)
    requires Built(w, d)
    ensures var after := Apply(w, d, To(virt, phys, physEnd, flags));
      && (!MapToAccepts(virt, phys, physEnd) ==> after == w)
      && (MapToAccepts(virt, phys, physEnd) ==>
            var n := Behind(u, PageOf(virt));
            Entry(after, d, u) == if n * PAGE_SIZE < physEnd - phys then OrWord(phys + n * PAGE_SIZE, flags)
                                  else Entry(w, d, u))
  {
    if MapToAccepts(virt, phys, physEnd) {
      PagesUpTo(phys, physEnd, Behind(u, PageOf(virt)));
      MapRangeEffect(w, d, PageOf(virt), PageOf(phys), (physEnd - phys) / PAGE_SIZE, flags, u);
    }
  }

  lemma EditKeepsTables(w: seq<word>, d: page, e: Edit)
    requires Built(w, d)
    ensures Built(Apply(w, d, e), d) && OnlyTablesChanged(w, Apply(w, d, e), d)
  {
    if Accepts(e) {
      match e {
        case Set(virt, val) => SetEntryKeepsTables(w, d, PageOf(virt), val);
        case Map(virt, phys, flags) => MapRangeKeepsTables(w, d, PageOf(virt), PageOf(phys), 1, flags);
        case Range(virt, phys, count, flags) =>
          MapRangeKeepsTables(w, d, PageOf(virt), PageOf(phys), Rounds(count), flags);
        case To(virt, phys, physEnd, flags) =>
          MapRangeKeepsTables(w, d, PageOf(virt), PageOf(phys), (physEnd - phys) / PAGE_SIZE, flags);
      }
    }
  }

  /** No sequence of edits, accepted or rejected, moves a table or writes outside the tables. */
  lemma {:induction false} EditsKeepTables(w: seq<word>, d: page, es: seq<Edit>)
    requires Built(w, d)
    ensures Built(ApplyAll(w, d, es), d) && OnlyTablesChanged(w, ApplyAll(w, d, es), d)
  {
    if es != [] {
      EditsKeepTables(w, d, es[..|es| - 1]);
      var before := ApplyAll(w, d, es[..|es| - 1]);
      EditKeepsTables(before, d, es[|es| - 1]);
      TablesChangedTransitive(w, before, ApplyAll(w, d, es), d);
    }
  }

  /** What page `u` maps to after an edit, if it mapped to `before`: what the edit asks for. */
  function Edited(before: word, e: Edit, u: page): word {
    if !Accepts(e) then before else
    match e
    case Set(virt, val) => if u == PageOf(virt) then val else before
    case Map(virt, phys, flags) => if u == PageOf(virt) then OrWord(phys, flags) else before
    case Range(virt, phys, count, flags) => Remapped(before, PageOf(virt), PageOf(phys), Rounds(count), flags, u)
    case To(virt, phys, physEnd, flags) =>
      Remapped(before, PageOf(virt), PageOf(phys), (physEnd - phys) / PAGE_SIZE, flags, u)
  }

  function EditedAll(before: word, es: seq<Edit>, u: page): word {
    if es == [] then before else Edited(EditedAll(before, es[..|es| - 1], u), es[|es| - 1], u)
  }

  lemma EditEffect(w: seq<word>, d: page, e: Edit, u: page)
    requires Built(w, d)
    ensures Entry(Apply(w, d, e), d, u) == Edited(Entry(w, d, u), e, u)
  {
    if Accepts(e) {
      match e {
        case Set(virt, val) => SetEntryEffect(w, d, PageOf(virt), val, u);
        case Map(virt, phys, flags) =>
          MapRangeEffect(w, d, PageOf(virt), PageOf(phys), 1, flags, u);
          assert phys == PageOf(phys) * PAGE_SIZE;
        case Range(virt, phys, count, flags) =>
          MapRangeEffect(w, d, PageOf(virt), PageOf(phys), Rounds(count), flags, u);
        case To(virt, phys, physEnd, flags) =>
          MapRangeEffect(w, d, PageOf(virt), PageOf(phys), (physEnd - phys) / PAGE_SIZE, flags, u);
      }
    }
  }

  /** Editing tables in memory refines editing a mapping from pages to entries, over any sequence. */
  lemma {:induction false} EditsRefine(w: seq<word>, d: page, es: seq<Edit>, u: page)
    requires Built(w, d)
    ensures Entry(ApplyAll(w, d, es), d, u) == EditedAll(Entry(w, d, u), es, u)
  {
    if es != [] {
      var before := ApplyAll(w, d, es[..|es| - 1]);
      EditsRefine(w, d, es[..|es| - 1], u);
      EditsKeepTables(w, d, es[..|es| - 1]);
      EditEffect(before, d, es[|es| - 1], u);
    }
  }

  // ---------------------------------------------------------------- directories behind a chunk

  /** The chunk structure in page `c` holds the address of a built directory and is none of its tables. */
  ghost predicate ChunkOk(w: seq<word>, c: page) {
    && |w| == MEMORY_WORDS
    && Aligned(w[c * ENTRIES]) && Built(w, PageOf(w[c * ENTRIES]))
    && c !in TablePages(w, PageOf(w[c * ENTRIES]))
  }

  lemma ChunkKept(w: seq<word>, after: seq<word>, c: page)
    requires ChunkOk(w, c)
    requires OnlyTablesChanged(w, after, PageOf(w[c * ENTRIES]))
    ensures after[c * ENTRIES] == w[c * ENTRIES] && ChunkOk(after, c)
    ensures TablePages(after, PageOf(w[c * ENTRIES])) == TablePages(w, PageOf(w[c * ENTRIES]))
  {
    assert SamePage(w, after, c);
    SameTables(w, after, PageOf(w[c * ENTRIES]));
  }

  /** The pages of a directory: the chunk structure, the directory and its tables. */
  function Footprint(w: seq<word>, c: page): set<page>
    requires |w| == MEMORY_WORDS
  {
    {c, PageOf(w[c * ENTRIES])} + TablePages(w, PageOf(w[c * ENTRIES]))
  }

  /** A directory is what its pages hold. */
  lemma ChunkSame(w: seq<word>, after: seq<word>, c: page)
    requires ChunkOk(w, c) && |after| == MEMORY_WORDS && forall p | p in Footprint(w, c) :: SamePage(w, after, p)
    ensures ChunkOk(after, c) && after[c * ENTRIES] == w[c * ENTRIES] && Footprint(after, c) == Footprint(w, c)
    ensures var d := PageOf(w[c * ENTRIES]);
      && TablePages(after, d) == TablePages(w, d) && (forall u: page :: Entry(after, d, u) == Entry(w, d, u))
      && forall flags: word | Grants(w, d, flags) :: Grants(after, d, flags)
  {
    var d := PageOf(w[c * ENTRIES]);
    assert SamePage(w, after, c) && SamePage(w, after, d);
    SameTables(w, after, d);
    forall flags: word | Grants(w, d, flags)
      ensures Grants(after, d, flags)
    {
      GrantsKept(w, after, d, flags);
    }
    forall u: page
      ensures Entry(after, d, u) == Entry(w, d, u)
    {
      assert TablePage(w, d, DirectoryIndex(u)) in TablePages(w, d);
      assert SamePage(w, after, TablePage(w, d, DirectoryIndex(u)));
    }
  }

  /** Writing one page apart from a directory changes nothing of it. */
  lemma ChunkApart(w: seq<word>, after: seq<word>, c: page, t: page)
    requires ChunkOk(w, c) && SameOutside(w, after, {t}) && t !in Footprint(w, c)
    ensures ChunkOk(after, c) && after[c * ENTRIES] == w[c * ENTRIES] && Footprint(after, c) == Footprint(w, c)
    ensures var d := PageOf(w[c * ENTRIES]);
      && TablePages(after, d) == TablePages(w, d) && (forall u: page :: Entry(after, d, u) == Entry(w, d, u))
      && forall flags: word | Grants(w, d, flags) :: Grants(after, d, flags)
  {
    ChunkSame(w, after, c);
  }

  /** The directory word for the table in page `p`. */
  function DirectoryWord(p: page, flags: word): word {
    OrWord(EntryFor(p, flags), IS_WRITABLE)
  }

  /** The table's page is recovered from under the flags. */
  lemma DirectoryWordPage(p: page, flags: word)
    requires flags < PAGE_SIZE
    ensures PageOf(DirectoryWord(p, flags)) == p
  {
    OrKeepsPage(p * PAGE_SIZE, flags);
    OrWordIsOr(p * PAGE_SIZE, flags);
    OrKeepsPage(EntryFor(p, flags), IS_WRITABLE);
    OrWordIsOr(EntryFor(p, flags), IS_WRITABLE);
  }

  /** It is writable, and otherwise allows what the flags do. */
  lemma DirectoryWordGrants(p: page, flags: word)
    ensures var e := DirectoryWord(p, flags);
      (Present(e) <==> Present(flags)) && (ForUser(e) <==> ForUser(flags)) && Writable(e)
  {
    EntryFlags(p, flags);
    OrWordIsOr(EntryFor(p, flags), IS_WRITABLE);
    OrFlags(EntryFor(p, flags), IS_WRITABLE);
  }

  /** The first `n` words of page `p` are those of the `i`-th table of an identity mapping. */
  ghost predicate Filled(w: seq<word>, p: page, i: nat, n: nat, flags: word)
    requires |w| == MEMORY_WORDS && i < ENTRIES && n <= ENTRIES
  {
    n == 0 ||
    (Filled(w, p, i, n - 1, flags) && w[p * ENTRIES + n - 1] == EntryFor(i * ENTRIES + n - 1, flags))
  }

  lemma {:induction false} FilledAt(w: seq<word>, p: page, i: nat, n: nat, flags: word, k: nat)
    requires |w| == MEMORY_WORDS && i < ENTRIES && k < n <= ENTRIES && Filled(w, p, i, n, flags)
    ensures w[p * ENTRIES + k] == EntryFor(i * ENTRIES + k, flags)
  {
    if k < n - 1 {
      FilledAt(w, p, i, n - 1, flags, k);
    }
  }

  lemma {:induction false} FilledKept(w: seq<word>, after: seq<word>, p: page, i: nat, n: nat, flags: word)
    requires |w| == |after| == MEMORY_WORDS && i < ENTRIES && n <= ENTRIES && Filled(w, p, i, n, flags)
    requires forall k | p * ENTRIES <= k < p * ENTRIES + n :: after[k] == w[k]
    ensures Filled(after, p, i, n, flags)
  {
    if n > 0 {
      FilledKept(w, after, p, i, n - 1, flags);
    }
  }

  /** A directory whose words point to distinct filled tables is built, and is the identity. */
  lemma FilledIsIdentity(w: seq<word>, d: page, tables: seq<page>, flags: word)
    requires |w| == MEMORY_WORDS && |tables| == ENTRIES && flags < PAGE_SIZE
    requires forall i | 0 <= i < ENTRIES ::
        && tables[i] != d && w[d * ENTRIES + i] == DirectoryWord(tables[i], flags)
        && Filled(w, tables[i], i, ENTRIES, flags)
    requires forall i, j | 0 <= i < j < ENTRIES :: tables[i] != tables[j]
    ensures Built(w, d) && Identity(w, d, flags)
    ensures forall i | 0 <= i < ENTRIES :: TablePage(w, d, i) == tables[i]
  {
    forall i | 0 <= i < ENTRIES
      ensures TablePage(w, d, i) == tables[i]
    {
      DirectoryWordPage(tables[i], flags);
    }
    forall i | 0 <= i < ENTRIES
      ensures var e := DirectoryEntry(w, d, i);
        (Present(e) <==> Present(flags)) && (ForUser(e) <==> ForUser(flags)) && Writable(e)
    {
      DirectoryWordGrants(tables[i], flags);
    }
    forall u: page
      ensures Entry(w, d, u) == EntryFor(u, flags)
    {
      FilledAt(w, tables[DirectoryIndex(u)], DirectoryIndex(u), ENTRIES, flags, TableIndex(u));
    }
  }

  /** Every page maps to itself, with `flags`, and the directory does not stand in their way. */
  ghost predicate Identity(w: seq<word>, d: page, flags: word)
    requires |w| == MEMORY_WORDS
  {
    Grants(w, d, flags) && forall u: page :: Entry(w, d, u) == EntryFor(u, flags)
  }

  /** After any edits the directory still allows what it did, so that the edited entry decides. */
  lemma EditsPermit(w: seq<word>, d: page, flags: word, edits: seq<Edit>, u: page)
    requires Built(w, d) && Identity(w, d, flags)
    ensures var after, e := ApplyAll(w, d, edits), EditedAll(EntryFor(u, flags), edits, u);
      && (UserReads(after, d, u) <==> Present(flags) && ForUser(flags) && Present(e) && ForUser(e))
      && (UserWrites(after, d, u) <==> UserReads(after, d, u) && Writable(e))
  {
    EditsRefine(w, d, edits, u);
    EditsKeepTables(w, d, edits);
    GrantsKept(w, ApplyAll(w, d, edits), d, flags);
    EntryDecides(ApplyAll(w, d, edits), d, flags, u);
  }
}
