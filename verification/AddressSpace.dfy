/** The address space of a program: where the page tables of its task take an address. */
module AddressSpace {
  import opened Words
  import opened PageTables
  import opened Paging

  const PROGRAM_START := 0x40_0000
  const STACK_SIZE := 0x4000
  const STACK_TOP := 0x3f_f000
  const STACK_BOTTOM := 0x3f_b000
  const IDENTITY_FLAGS: word := IS_PRESENT + ACCESS_FROM_ALL
  const PROGRAM_FLAGS: word := IDENTITY_FLAGS + IS_WRITABLE

  /** The physical address that directory `d` takes `a` to. */
  function Translate(w: seq<word>, d: page, a: word): word
    requires |w| == MEMORY_WORDS
  {
    PageOf(Entry(w, d, PageOf(a))) * PAGE_SIZE + a % PAGE_SIZE
  }

  /** The byte that address `a` shows through directory `d`. */
  function Peek(ram: seq<byte>, d: page, a: word): byte
    requires |ram| == ADDRESS_SPACE
  {
    ram[Translate(AsWords(ram), d, a)]
  }

  /** `paging_align_address`. */
  function AlignAddress(a: word): word {
    if a % PAGE_SIZE == 0 then a else Wrap(a + PAGE_SIZE - a % PAGE_SIZE)
  }

  /** The two edits that lay out a program's address space. */
  function MapBinary(ptr: word, size: word): Edit {
    To(PROGRAM_START, ptr, AlignAddress(Wrap(ptr + size)), PROGRAM_FLAGS)
  }

  function MapStack(stack: word): Edit {
    To(STACK_BOTTOM, stack, AlignAddress(Wrap(stack + STACK_SIZE)), PROGRAM_FLAGS)
  }

  function LaidOut(w: seq<word>, d: page, ptr: word, size: word, stack: word): (r: seq<word>)
    requires |w| == MEMORY_WORDS
    ensures |r| == |w|
  {
    Apply(Apply(w, d, MapBinary(ptr, size)), d, MapStack(stack))
  }

  /** `process_map_memory`. The results of the two mappings are not looked at. */
  method MapMemory(mem: array<byte>, chunk: word, ptr: word, size: word, stack: word)
    requires ChunkAt(mem[..], chunk)
    modifies mem
    ensures ChunkAt(mem[..], chunk) && DirectoryOf(mem[..], chunk) == DirectoryOf(old(mem[..]), chunk)
    ensures AsWords(mem[..]) == LaidOut(AsWords(old(mem[..])), DirectoryOf(old(mem[..]), chunk), ptr, size, stack)
  {
    ghost var w0, d, c := AsWords(mem[..]), DirectoryOf(mem[..], chunk), PageOf(chunk);
    var _ := PagingMapTo(mem, chunk, PROGRAM_START, ptr, AlignAddress(Wrap(ptr + size)), PROGRAM_FLAGS);
    ghost var w1 := AsWords(mem[..]);
    EditKeepsTables(w0, d, MapBinary(ptr, size));
    ChunkKept(w0, w1, c);
    var _ := PagingMapTo(mem, chunk, STACK_BOTTOM, stack, AlignAddress(Wrap(stack + STACK_SIZE)), PROGRAM_FLAGS);
    EditKeepsTables(w1, d, MapStack(stack));
    ChunkKept(w1, AsWords(mem[..]), c);
  }

  lemma RoundedUp(n: nat, r: nat)
    requires r < PAGE_SIZE
    ensures PagesFor(n * PAGE_SIZE + r) == if r == 0 then n else n + 1
    ensures n * PAGE_SIZE + r <= 0xFFFFF000 ==>
        AlignAddress(n * PAGE_SIZE + r) == (if r == 0 then n else n + 1) * PAGE_SIZE
  {
    assert (n * PAGE_SIZE + r) % PAGE_SIZE == r;
  }

  lemma AlignedEnd(a: word, size: nat)
    requires Aligned(a) && a + size <= 0xFFFFF000
    ensures var end := AlignAddress(Wrap(a + size)); Aligned(end) && end == a + PagesFor(size) * PAGE_SIZE
  {
    var m, n, r := PageOf(a), size / PAGE_SIZE, size % PAGE_SIZE;
    assert a == m * PAGE_SIZE && size == n * PAGE_SIZE + r && a + size == (m + n) * PAGE_SIZE + r;
    RoundedUp(n, r);
    RoundedUp(m + n, r);
  }

  /** The memory of a program starts at page boundaries, ends before the last page, and is at most 2 GB. */
  predicate Placed(ptr: word, size: word, stack: word) {
    && Aligned(ptr) && Aligned(stack) && size <= 0x8000_0000
    && ptr + size <= 0xFFFFF000 && stack + STACK_SIZE <= 0xFFFFF000
  }

  /** What the laid-out directory maps page `u` to. */
  function ProgramEntry(ptr: word, size: word, stack: word, u: page): word
    requires Placed(ptr, size, stack)
  {
    if PageOf(PROGRAM_START) <= u < PageOf(PROGRAM_START) + PagesFor(size)
    then EntryFor(PageOf(ptr) + u - PageOf(PROGRAM_START), PROGRAM_FLAGS)
    else if PageOf(STACK_BOTTOM) <= u < PageOf(STACK_TOP)
    then EntryFor(PageOf(stack) + u - PageOf(STACK_BOTTOM), PROGRAM_FLAGS)
    else EntryFor(u, IDENTITY_FLAGS)
  }

  /** The pages at which a process finds its program and its stack. */
  predicate OwnRange(size: nat, u: page) {
    || PageOf(PROGRAM_START) <= u < PageOf(PROGRAM_START) + PagesFor(size)
    || PageOf(STACK_BOTTOM) <= u < PageOf(STACK_TOP)
  }

  /** A page keeps the entry that `task_init` gave it, which leads to the page itself, exactly if it is none of
      those. */
  lemma EntryKeptIff(ptr: word, size: word, stack: word, u: page)
    requires Placed(ptr, size, stack)
    ensures ProgramEntry(ptr, size, stack, u) == EntryFor(u, IDENTITY_FLAGS) <==> !OwnRange(size, u)
  {
    EntryFlags(u, IDENTITY_FLAGS);
    if PageOf(PROGRAM_START) <= u < PageOf(PROGRAM_START) + PagesFor(size) {
      EntryFlags(PageOf(ptr) + u - PageOf(PROGRAM_START), PROGRAM_FLAGS);
    } else if PageOf(STACK_BOTTOM) <= u < PageOf(STACK_TOP) {
      EntryFlags(PageOf(stack) + u - PageOf(STACK_BOTTOM), PROGRAM_FLAGS);
    }
  }

  /** The end of the stack that the processor takes for the kernel when it interrupts a process. */
  const KERNEL_STACK_TOP := 0x60_0000

  /** A process's directory leaves the kernel its stack, down to page `bottom`, exactly if the program ends
      below that page. */
  lemma KernelStackKeptIff(ptr: word, size: word, stack: word, bottom: page)
    requires Placed(ptr, size, stack) && PageOf(PROGRAM_START) <= bottom < PageOf(KERNEL_STACK_TOP)
    ensures (forall u: page | bottom <= u < PageOf(KERNEL_STACK_TOP) ::
               ProgramEntry(ptr, size, stack, u) == EntryFor(u, IDENTITY_FLAGS)) <==>
            PROGRAM_START + size <= bottom * PAGE_SIZE
  {
    forall u: page | bottom <= u < PageOf(KERNEL_STACK_TOP)
      ensures ProgramEntry(ptr, size, stack, u) == EntryFor(u, IDENTITY_FLAGS) <==> !OwnRange(size, u)
    {
      EntryKeptIff(ptr, size, stack, u);
    }
    assert OwnRange(size, bottom) <==> PROGRAM_START + size > bottom * PAGE_SIZE;
  }

  lemma BinaryEntry(w: seq<word>, d: page, ptr: word, size: word, stack: word, u: page)
    requires Built(w, d) && Placed(ptr, size, stack)
    ensures Entry(Apply(w, d, MapBinary(ptr, size)), d, u) ==
            if PageOf(PROGRAM_START) <= u < PageOf(PROGRAM_START) + PagesFor(size)
            then EntryFor(PageOf(ptr) + u - PageOf(PROGRAM_START), PROGRAM_FLAGS) else Entry(w, d, u)
  {
    AlignedEnd(ptr, size);
    MapToEffect(w, d, PROGRAM_START, ptr, AlignAddress(Wrap(ptr + size)), PROGRAM_FLAGS, u);
  }

  lemma StackEntry(w: seq<word>, d: page, ptr: word, size: word, stack: word, u: page)
    requires Built(w, d) && Placed(ptr, size, stack)
    ensures Entry(Apply(w, d, MapStack(stack)), d, u) ==
            if PageOf(STACK_BOTTOM) <= u < PageOf(STACK_TOP)
            then EntryFor(PageOf(stack) + u - PageOf(STACK_BOTTOM), PROGRAM_FLAGS) else Entry(w, d, u)
  {
    AlignedEnd(stack, STACK_SIZE);
    MapToEffect(w, d, STACK_BOTTOM, stack, AlignAddress(Wrap(stack + STACK_SIZE)), PROGRAM_FLAGS, u);
  }

  /** Laid out over the identity, a directory shows the program, its stack, and everything else as before. */
  lemma LaidOutEntries(w: seq<word>, d: page, ptr: word, size: word, stack: word, u: page)
    requires Built(w, d) && Identity(w, d, IDENTITY_FLAGS) && Placed(ptr, size, stack)
    ensures Entry(LaidOut(w, d, ptr, size, stack), d, u) == ProgramEntry(ptr, size, stack, u)
  {
    EditKeepsTables(w, d, MapBinary(ptr, size));
    BinaryEntry(w, d, ptr, size, stack, u);
    StackEntry(Apply(w, d, MapBinary(ptr, size)), d, ptr, size, stack, u);
  }

  lemma EntryForPage(p: page, flags: word)
    requires flags < PAGE_SIZE
    ensures PageOf(EntryFor(p, flags)) == p
  {
    OrKeepsPage(p * PAGE_SIZE, flags);
    OrWordIsOr(p * PAGE_SIZE, flags);
  }

  lemma PageAddress(base: word, start: word, a: word)
    requires Aligned(base) && Aligned(start) && start <= a && base + (a - start) < ADDRESS_SPACE
    ensures PageOf(start) <= PageOf(a) && PageOf(base) + PageOf(a) - PageOf(start) < PAGES
    ensures (PageOf(base) + PageOf(a) - PageOf(start)) * PAGE_SIZE + a % PAGE_SIZE == base + (a - start)
  {
  }

  lemma PageBelow(start: word, size: nat, a: word)
    requires Aligned(start) && start <= a < start + size
    ensures PageOf(a) < PageOf(start) + PagesFor(size)
  {
  }

  /** Where a mapped page takes an address. */
  lemma MappedAddress(w: seq<word>, d: page, base: word, start: word, a: word)
    requires |w| == MEMORY_WORDS && Aligned(base) && Aligned(start) && start <= a && base + (a - start) < ADDRESS_SPACE
    requires PageOf(start) <= PageOf(a) && PageOf(base) + PageOf(a) - PageOf(start) < PAGES
    requires Entry(w, d, PageOf(a)) == EntryFor(PageOf(base) + PageOf(a) - PageOf(start), PROGRAM_FLAGS)
    ensures Translate(w, d, a) == base + (a - start)
  {
    PageAddress(base, start, a);
    EntryForPage(PageOf(base) + PageOf(a) - PageOf(start), PROGRAM_FLAGS);
  }

  /** Every page maps to what a process's directory maps it to. */
  ghost predicate ProgramEntries(w: seq<word>, d: page, ptr: word, size: word, stack: word) {
    && |w| == MEMORY_WORDS && Placed(ptr, size, stack)
    && Grants(w, d, IDENTITY_FLAGS) && forall u: page :: Entry(w, d, u) == ProgramEntry(ptr, size, stack, u)
  }

  /** A program may read everything there, and write its own pages. */
  lemma ProgramIsOpen(w: seq<word>, d: page, ptr: word, size: word, stack: word, a: word)
    requires ProgramEntries(w, d, ptr, size, stack)
    ensures UserReads(w, d, PageOf(a)) && (UserWrites(w, d, PageOf(a)) <==> OwnRange(size, PageOf(a)))
  {
    var u := PageOf(a);
    EntryDecides(w, d, IDENTITY_FLAGS, u);
    assert Entry(w, d, u) == ProgramEntry(ptr, size, stack, u);
    if PageOf(PROGRAM_START) <= u < PageOf(PROGRAM_START) + PagesFor(size) {
      EntryFlags(PageOf(ptr) + u - PageOf(PROGRAM_START), PROGRAM_FLAGS);
    } else if PageOf(STACK_BOTTOM) <= u < PageOf(STACK_TOP) {
      EntryFlags(PageOf(stack) + u - PageOf(STACK_BOTTOM), PROGRAM_FLAGS);
    } else {
      EntryFlags(u, IDENTITY_FLAGS);
    }
  }

  /** So the directory takes the addresses of the program and of its stack to theirs. */
  lemma EntriesTranslate(w: seq<word>, d: page, ptr: word, size: word, stack: word, a: word)
    requires ProgramEntries(w, d, ptr, size, stack)
    ensures PROGRAM_START <= a < PROGRAM_START + size ==> Translate(w, d, a) == ptr + (a - PROGRAM_START)
    ensures STACK_BOTTOM <= a < STACK_TOP ==> Translate(w, d, a) == stack + (a - STACK_BOTTOM)
  {
    if PROGRAM_START <= a < PROGRAM_START + size {
      PageBelow(PROGRAM_START, size, a);
      PageAddress(ptr, PROGRAM_START, a);
      MappedAddress(w, d, ptr, PROGRAM_START, a);
    }
    if STACK_BOTTOM <= a < STACK_TOP {
      PageAddress(stack, STACK_BOTTOM, a);
      MappedAddress(w, d, stack, STACK_BOTTOM, a);
    }
  }

  /** What a process sees through the directory behind `chunk`: `bytes` from 0x400000 on, zeros on the
      stack, and every other page where it was, with the flags of `task_init`. */
  ghost predicate Shows(ram: seq<byte>, chunk: word, bytes: seq<byte>) {
    && |ram| == ADDRESS_SPACE
    && var w, d := AsWords(ram), DirectoryOf(ram, chunk);
       && (forall a: word | PROGRAM_START <= a < PROGRAM_START + |bytes| ::
             ram[Translate(w, d, a)] == bytes[a - PROGRAM_START])
       && (forall a: word | STACK_BOTTOM <= a < STACK_TOP :: ram[Translate(w, d, a)] == 0)
       && (forall u: page | !(PageOf(PROGRAM_START) <= u < PageOf(PROGRAM_START) + PagesFor(|bytes|)) &&
                            !(PageOf(STACK_BOTTOM) <= u < PageOf(STACK_TOP)) ::
             Entry(w, d, u) == EntryFor(u, IDENTITY_FLAGS))
  }

  /** Such a directory shows what lies at `ptr` and at `stack`. */
  lemma EntriesShow(ram: seq<byte>, chunk: word, ptr: word, stack: word, bytes: seq<byte>)
    requires |ram| == ADDRESS_SPACE && |bytes| < ADDRESS_SPACE
    requires ProgramEntries(AsWords(ram), DirectoryOf(ram, chunk), ptr, |bytes|, stack)
    requires ram[ptr..ptr + |bytes|] == bytes && ram[stack..stack + STACK_SIZE] == Zeros(STACK_SIZE)
    ensures Shows(ram, chunk, bytes)
  {
    var w, d := AsWords(ram), DirectoryOf(ram, chunk);
    forall a: word | PROGRAM_START <= a < PROGRAM_START + |bytes|
      ensures ram[Translate(w, d, a)] == bytes[a - PROGRAM_START]
    {
      EntriesTranslate(w, d, ptr, |bytes|, stack, a);
      assert ram[ptr..ptr + |bytes|][a - PROGRAM_START] == ram[ptr + (a - PROGRAM_START)];
    }
    forall a: word | STACK_BOTTOM <= a < STACK_TOP
      ensures ram[Translate(w, d, a)] == 0
    {
      EntriesTranslate(w, d, ptr, |bytes|, stack, a);
      assert ram[stack..stack + STACK_SIZE][a - STACK_BOTTOM] == ram[stack + (a - STACK_BOTTOM)];
    }
  }

  /** Laying out a fresh directory leads there. */
  lemma LaidOutProgram(w: seq<word>, d: page, ptr: word, size: word, stack: word)
    requires Built(w, d) && Identity(w, d, IDENTITY_FLAGS) && Placed(ptr, size, stack)
    ensures ProgramEntries(LaidOut(w, d, ptr, size, stack), d, ptr, size, stack)
  {
    var w1 := Apply(w, d, MapBinary(ptr, size));
    EditKeepsTables(w, d, MapBinary(ptr, size));
    EditKeepsTables(w1, d, MapStack(stack));
    GrantsKept(w, w1, d, IDENTITY_FLAGS);
    GrantsKept(w1, LaidOut(w, d, ptr, size, stack), d, IDENTITY_FLAGS);
    forall u: page
      ensures Entry(LaidOut(w, d, ptr, size, stack), d, u) == ProgramEntry(ptr, size, stack, u)
    {
      LaidOutEntries(w, d, ptr, size, stack, u);
    }
  }
}
