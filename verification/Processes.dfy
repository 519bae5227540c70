/** Processes: a program loaded from a file, with a stack and a task whose address space shows both. */
module Processes {
  import opened Words
  import opened HeapTable
  import opened Heap
  import opened Kheap
  import opened PageTables
  import opened Paging
  import opened Growth
  import opened Paths
  import opened Files
  import opened Loading
  import opened AddressSpace
  import opened Tasks
  import opened TaskLife

  const EISTKN := 8
  const MAX_PROCESSES := 12
  const PROCESS_SIZE := 5256

  class Process {
    const address: word
    const id: nat
    const filename: CString
    const ptr: word
    const size: word
    const stack: word
    const task: word

    constructor (address: word, id: nat, filename: CString, ptr: word, size: word, stack: word, task: word)
      ensures this.address == address && this.id == id && this.filename == filename && this.ptr == ptr
      ensures this.size == size && this.stack == stack && this.task == task
    {
      this.address, this.id, this.filename, this.ptr := address, id, filename, ptr;
      this.size, this.stack, this.task := size, stack, task;
    }
  }

  class ProcessTable {
    var slots: seq<Process?>

    constructor ()
      ensures slots == seq(MAX_PROCESSES, _ => null)
    {
      slots := seq(MAX_PROCESSES, _ => null);
    }
  }

  // ---------------------------------------------------------------- a process's address space

  /** What a directory is laid out for: `size` bytes of program at `ptr`, and a stack. */
  datatype Program = Program(chunk: word, ptr: word, size: word, stack: word) {
    /** The pages that the program and its stack are stored in. */
    function Body(): set<page> {
      PagesAt(ptr, size) + PagesAt(stack, STACK_SIZE)
    }

    /** With the pages of the directory, the whole address space. */
    function Space(w: seq<word>): set<page>
      requires |w| == MEMORY_WORDS
    {
      Footprint(w, PageOf(chunk)) + Body()
    }

    function Directory(w: seq<word>): page
      requires |w| == MEMORY_WORDS
    {
      PageOf(w[PageOf(chunk) * ENTRIES])
    }
  }

  /** Program, stack and directory are live blocks, apart from one another, and the directory maps the
      other two. Folded. */
  ghost predicate Alive(live: Live, area: Area, w: seq<word>, g: Program) {
    forall k: nat | Unfolded(OfProcess, k) ::
      && |w| == MEMORY_WORDS && Aligned(g.chunk) && Owned(live, area, w, PageOf(g.chunk))
      && Held(live, area, g.ptr, g.size) && Held(live, area, g.stack, STACK_SIZE)
      && Footprint(w, PageOf(g.chunk)) !! g.Body() && PagesAt(g.ptr, g.size) !! PagesAt(g.stack, STACK_SIZE)
      && ProgramEntries(w, g.Directory(w), g.ptr, g.size, g.stack)
  }

  lemma AliveIs(live: Live, area: Area, w: seq<word>, g: Program)
    requires Alive(live, area, w, g)
    ensures |w| == MEMORY_WORDS && Aligned(g.chunk) && Owned(live, area, w, PageOf(g.chunk))
    ensures Held(live, area, g.ptr, g.size) && Held(live, area, g.stack, STACK_SIZE)
    ensures Footprint(w, PageOf(g.chunk)) !! g.Body() && PagesAt(g.ptr, g.size) !! PagesAt(g.stack, STACK_SIZE)
    ensures ProgramEntries(w, g.Directory(w), g.ptr, g.size, g.stack)
  {
    assert Unfolded(OfProcess, 0);
  }

  /** A process sees its program and its stack. */
  lemma AliveShows(live: Live, area: Area, ram: seq<byte>, g: Program, bytes: seq<byte>)
    requires |ram| == ADDRESS_SPACE && Alive(live, area, AsWords(ram), g) && g.size == |bytes|
    requires Stored(live, area, ram, g.ptr, bytes) && Stored(live, area, ram, g.stack, Zeros(STACK_SIZE))
    ensures Shows(ram, g.chunk, bytes)
  {
    AliveIs(live, area, AsWords(ram), g);
    EntriesShow(ram, g.chunk, g.ptr, g.stack, bytes);
  }

  /** It lives on while none of it is freed and no page of its directory is written. */
  lemma AliveSame(live: Live, after: Live, area: Area, w: seq<word>, w1: seq<word>, g: Program)
    requires Alive(live, area, w, g) && Keeps(live, after) && |w| == |w1| == MEMORY_WORDS
    requires forall p | p in Footprint(w, PageOf(g.chunk)) :: SamePage(w, w1, p)
    ensures Alive(after, area, w1, g) && g.Space(w1) == g.Space(w)
  {
    AliveIs(live, area, w, g);
    ChunkSame(w, w1, PageOf(g.chunk));
    StillLive(live, after, Block(area, PageOf(g.ptr)));
    StillLive(live, after, Block(area, PageOf(g.stack)));
    forall p | p in Footprint(w, PageOf(g.chunk))
      ensures Block(area, p) in after
    {
      StillLive(live, after, Block(area, p));
    }
  }

  /** No page of its space is vacant. */
  lemma SpaceTaken(t: Table, live: Live, area: Area, w: seq<word>, g: Program, p: page)
    requires Recorded(t, live) && |w| == MEMORY_WORDS && Alive(live, area, w, g) && p in g.Space(w)
    ensures !Vacant(live, area, p)
  {
    AliveIs(live, area, w, g);
    if p in PagesAt(g.ptr, g.size) {
      HeldTaken(live, area, g.ptr, g.size, p);
    } else if p in PagesAt(g.stack, STACK_SIZE) {
      HeldTaken(live, area, g.stack, STACK_SIZE, p);
    } else {
      LiveIsTaken(t, live, area, p);
    }
  }

  lemma BytesSame(ram: seq<byte>, after: seq<byte>, ptr: word, n: nat)
    requires |ram| == |after| == ADDRESS_SPACE && Aligned(ptr) && ptr + n <= ADDRESS_SPACE
    requires forall p | p in PagesAt(ptr, n) :: SamePage(AsWords(ram), AsWords(after), p)
    ensures after[ptr..ptr + n] == ram[ptr..ptr + n]
  {
    forall k | ptr <= k < ptr + n
      ensures after[k] == ram[k]
    {
      var p: page := k / PAGE_SIZE;
      assert Within(p, ptr, n) && p in PagesAt(ptr, n) && SamePage(AsWords(ram), AsWords(after), p);
      assert AsWords(after)[k / 4] == AsWords(ram)[k / 4];
      SameWordSameBytes(ram, after, k / 4);
    }
  }

  lemma StoredSame(live: Live, after: Live, area: Area, ram: seq<byte>, ram1: seq<byte>, ptr: word, bytes: seq<byte>)
    requires Stored(live, area, ram, ptr, bytes) && Keeps(live, after) && |ram1| == ADDRESS_SPACE
    requires forall p | p in PagesAt(ptr, |bytes|) :: SamePage(AsWords(ram), AsWords(ram1), p)
    ensures Stored(after, area, ram1, ptr, bytes)
  {
    StillLive(live, after, Block(area, PageOf(ptr)));
    BytesSame(ram, ram1, ptr, |bytes|);
  }

  lemma LiveIsTaken(t: Table, live: Live, area: Area, p: page)
    requires Recorded(t, live) && Block(area, p) in live
    ensures !Vacant(live, area, p)
  {
    assert Unfolded(OfTable, 0);
  }

  /** The heap ends before the last page of memory. */
  predicate BelowTop(heap: Heap) {
    heap.saddr + heap.entries.Length * BLOCK_SIZE < ADDRESS_SPACE
  }

  lemma StoredIsPlaced(heap: Heap, ram: seq<byte>, ptr: word, bytes: seq<byte>)
    requires heap.Valid() && BelowTop(heap) && Stored(heap.live, AreaOf(heap), ram, ptr, bytes)
    ensures |bytes| <= 0x8000_0000 && ptr + |bytes| <= 0xFFFFF000
  {
    assert Unfolded(OfTable, 0);
    var s := Block(AreaOf(heap), PageOf(ptr));
    assert s + heap.live[s] <= heap.entries.Length;
  }

  lemma BothPlaced(heap: Heap, ram: seq<byte>, ptr: word, stack: word, bytes: seq<byte>)
    requires heap.Valid() && BelowTop(heap) && Stored(heap.live, AreaOf(heap), ram, ptr, bytes)
    requires Stored(heap.live, AreaOf(heap), ram, stack, Zeros(STACK_SIZE))
    ensures |bytes| <= MAX_INT + 1 && Placed(ptr, |bytes|, stack)
  {
    StoredIsPlaced(heap, ram, ptr, bytes);
    StoredIsPlaced(heap, ram, stack, Zeros(STACK_SIZE));
  }

  // ---------------------------------------------------------------- making one

  /** Mapping a program into a new directory writes its tables, which were vacant before. */
  lemma MappingSpares(live: Live, area: Area, before: seq<byte>, after: seq<byte>, chunk: word, ptr: word, size: word,
                      stack: word)
    requires ChunkAt(before, chunk) && |after| == ADDRESS_SPACE
    requires AsWords(after) == LaidOut(AsWords(before), DirectoryOf(before, chunk), ptr, size, stack)
    ensures SameOutside(AsWords(before), AsWords(after), TablePages(AsWords(before), DirectoryOf(before, chunk)))
    ensures OnlyTablesChanged(AsWords(before), AsWords(after), DirectoryOf(before, chunk))
    ensures AllVacant(live, area, Footprint(AsWords(before), PageOf(chunk))) ==>
        OnlyVacant(live, area, AsWords(before), AsWords(after))
  {
    var w, d := AsWords(before), DirectoryOf(before, chunk);
    var w1 := Apply(w, d, MapBinary(ptr, size));
    EditKeepsTables(w, d, MapBinary(ptr, size));
    EditKeepsTables(w1, d, MapStack(stack));
    TablesChangedTransitive(w, w1, AsWords(after), d);
    if AllVacant(live, area, Footprint(w, PageOf(chunk))) {
      assert Unfolded(OfVacant, 0);
      VacantWritten(live, area, w, AsWords(after), TablePages(w, d));
    }
  }

  /** What a call that makes a process's task has done: the list has one more task, whose directory has its
      own vacant pages; all else that was live is as it was, but for the last task's link. */
  ghost predicate TaskMade(area: Area, list: TaskList, a: Snapshot, b: Snapshot, tasks: seq<page>, task: word,
                           chunk: word, process: word)
    reads list
    requires |a.words| == MEMORY_WORDS
  {
    && |b.words| == MEMORY_WORDS && Aligned(task) && task != 0 && list.tasks == tasks + [PageOf(task)]
    && list.Valid(b.words) && TasksLive(b.live, area, list.tasks)
    && TaskAt(b.words, PageOf(task), chunk, process)
    && Kept(area, Linking(a, Last(tasks), PageOf(task)), b)
    && (BothWays(a.words, tasks) ==> BothWays(b.words, list.tasks))
    && Vacant(a.live, area, PageOf(task))
    && AllVacant(a.live, area, Footprint(b.words, PageOf(chunk)))
    && forall p | p in list.tasks :: p !in Footprint(b.words, PageOf(chunk))
  }

  /** What is stored beside the list's tasks stays while a task is made. */
  lemma StoredBeside(area: Area, a: Snapshot, b: Snapshot, tail: page, p: page, ram: seq<byte>, ram1: seq<byte>,
                     ptr: word, bytes: seq<byte>)
    requires |a.words| == MEMORY_WORDS && Kept(area, Linking(a, tail, p), b) && tail !in PagesAt(ptr, |bytes|)
    requires a.words == AsWords(ram) && b.words == AsWords(ram1) && |ram1| == ADDRESS_SPACE
    requires Stored(a.live, area, ram, ptr, bytes)
    ensures Stored(b.live, area, ram1, ptr, bytes)
  {
    assert Unfolded(OfWrites, 0);
    forall q | q in PagesAt(ptr, |bytes|)
      ensures SamePage(a.words, b.words, q)
    {
      HeldTaken(a.live, area, ptr, |bytes|, q);
      assert SamePage(Linking(a, tail, p).words, b.words, q);
    }
    StoredSame(a.live, b.live, area, ram, ram1, ptr, bytes);
  }

  /** What is stored stays while only tables are written that were vacant when it was stored. */
  lemma StoredBesideTables(live0: Live, live: Live, area: Area, ram0: seq<byte>, ram: seq<byte>, ram1: seq<byte>,
                           ptr: word, bytes: seq<byte>, c: page)
    requires Stored(live0, area, ram0, ptr, bytes) && Stored(live, area, ram, ptr, bytes) && |ram1| == ADDRESS_SPACE
    requires ChunkOk(AsWords(ram), c) && AllVacant(live0, area, Footprint(AsWords(ram), c))
    requires OnlyTablesChanged(AsWords(ram), AsWords(ram1), PageOf(AsWords(ram)[c * ENTRIES]))
    ensures Stored(live, area, ram1, ptr, bytes)
  {
    assert Unfolded(OfVacant, 0);
    forall q | q in PagesAt(ptr, |bytes|)
      ensures SamePage(AsWords(ram), AsWords(ram1), q)
    {
      HeldTaken(live0, area, ptr, |bytes|, q);
    }
    assert Keeps(live, live);
    StoredSame(live, live, area, ram, ram1, ptr, bytes);
  }

  /** Pages that were vacant while something was allocated are not its pages. */
  lemma VacantApart(live: Live, area: Area, ptr: word, n: nat, ps: set<page>)
    requires Held(live, area, ptr, n) && AllVacant(live, area, ps)
    ensures ps !! PagesAt(ptr, n)
  {
    assert Unfolded(OfVacant, 0);
    forall p | p in ps
      ensures p !in PagesAt(ptr, n)
    {
      VacantIsBeside(live, area, ptr, n, p);
    }
  }

  /** A new directory with the two mappings in it is a process's. */
  lemma MappedIsAlive(live: Live, area: Area, w: seq<word>, after: seq<word>, g: Program)
    requires Aligned(g.chunk) && Owned(live, area, w, PageOf(g.chunk)) && Identity(w, g.Directory(w), IDENTITY_FLAGS)
    requires Placed(g.ptr, g.size, g.stack) && after == LaidOut(w, g.Directory(w), g.ptr, g.size, g.stack)
    requires OnlyTablesChanged(w, after, g.Directory(w))
    requires Held(live, area, g.ptr, g.size) && Held(live, area, g.stack, STACK_SIZE)
    requires Footprint(w, PageOf(g.chunk)) !! g.Body() && PagesAt(g.ptr, g.size) !! PagesAt(g.stack, STACK_SIZE)
    ensures Alive(live, area, after, g) && Footprint(after, PageOf(g.chunk)) == Footprint(w, PageOf(g.chunk))
  {
    ChunkKept(w, after, PageOf(g.chunk));
    LaidOutProgram(w, g.Directory(w), g.ptr, g.size, g.stack);
  }

  /** Mapping a new task's directory leaves everything that `TaskMade` says. */
  lemma StillMade(area: Area, list: TaskList, a: Snapshot, b: Snapshot, c: Snapshot, tasks: seq<page>, task: word,
                  g: Program, process: word)
    requires |a.words| == |c.words| == MEMORY_WORDS && TaskMade(area, list, a, b, tasks, task, g.chunk, process)
    requires c.live == b.live && c.table == b.table
    requires Footprint(c.words, PageOf(g.chunk)) == Footprint(b.words, PageOf(g.chunk))
    requires OnlyTablesChanged(b.words, c.words, g.Directory(b.words)) && OnlyVacant(a.live, area, b.words, c.words)
    ensures TaskMade(area, list, a, c, tasks, task, g.chunk, process)
  {
    forall p | p in list.tasks
      ensures SamePage(b.words, c.words, p)
    {
    }
    ValidKept(b.words, c.words, list.tasks, list.head, list.tail, list.current);
    assert PageOf(task) in list.tasks;
    OnlyVacantTwice(a.live, area, Linking(a, Last(tasks), PageOf(task)).words, b.words, c.words);
  }

  lemma NewIsVacant(t: Table, live0: Live, live: Live, area: Area, p: page, ps: set<page>)
    requires Recorded(t, live) && |t| == area.size && Added(live0, live, area, {p} + ps)
    ensures Vacant(live0, area, p) && AllVacant(live0, area, ps)
  {
    forall q | q in {p} + ps
      ensures Vacant(live0, area, q)
    {
      AddedIsVacant(t, live0, live, area, {p} + ps, q);
    }
  }

  /** Making a task leaves program and stack alone. */
  lemma BothBeside(area: Area, a: Snapshot, b: Snapshot, tail: page, p: page, ram: seq<byte>, ram1: seq<byte>,
                   ptr: word, stack: word, bytes: seq<byte>)
    requires |a.words| == MEMORY_WORDS && Kept(area, Linking(a, tail, p), b) && Vacant(a.live, area, p)
    requires tail !in PagesAt(ptr, |bytes|) && tail !in PagesAt(stack, STACK_SIZE)
    requires a.words == AsWords(ram) && b.words == AsWords(ram1) && |ram1| == ADDRESS_SPACE
    requires Stored(a.live, area, ram, ptr, bytes) && Stored(a.live, area, ram, stack, Zeros(STACK_SIZE))
    ensures Stored(b.live, area, ram1, ptr, bytes) && Stored(b.live, area, ram1, stack, Zeros(STACK_SIZE))
    ensures p !in PagesAt(ptr, |bytes|) && p !in PagesAt(stack, STACK_SIZE)
  {
    StoredBeside(area, a, b, tail, p, ram, ram1, ptr, bytes);
    StoredBeside(area, a, b, tail, p, ram, ram1, stack, Zeros(STACK_SIZE));
    VacantIsBeside(a.live, area, ptr, |bytes|, p);
    VacantIsBeside(a.live, area, stack, STACK_SIZE, p);
  }

  /** `task_new` for a program: program and stack are not touched. */
  method NewTaskBeside(heap: Heap, mem: array<byte>, list: TaskList, process: word, ghost ptr: word, ghost stack: word,
                       ghost bytes: seq<byte>)
    returns (task: word, ghost chunk: word)
    requires heap.Valid() && mem.Length == ADDRESS_SPACE && heap.FreeCount() >= ENTRIES + 3
    requires list.Valid(AsWords(mem[..])) && TasksLive(heap.live, AreaOf(heap), list.tasks)
    requires Stored(heap.live, AreaOf(heap), mem[..], ptr, bytes)
    requires Stored(heap.live, AreaOf(heap), mem[..], stack, Zeros(STACK_SIZE))
    requires Last(list.tasks) !in PagesAt(ptr, |bytes|) && Last(list.tasks) !in PagesAt(stack, STACK_SIZE)
    modifies heap, heap.entries, mem, list
    ensures heap.Valid() && heap.FreeCount() == old(heap.FreeCount()) - (ENTRIES + 3)
    ensures TaskMade(AreaOf(heap), list, old(Snap(heap, mem)), Snap(heap, mem), old(list.tasks), task, chunk, process)
    ensures ChunkAt(mem[..], chunk) && Identity(AsWords(mem[..]), DirectoryOf(mem[..], chunk), IDENTITY_FLAGS)
    ensures Owned(heap.live, AreaOf(heap), AsWords(mem[..]), PageOf(chunk))
    ensures Stored(heap.live, AreaOf(heap), mem[..], ptr, bytes)
    ensures Stored(heap.live, AreaOf(heap), mem[..], stack, Zeros(STACK_SIZE))
    ensures PageOf(task) !in PagesAt(ptr, |bytes|) && PageOf(task) !in PagesAt(stack, STACK_SIZE)
  {
    ghost var a, ram0, area, tasks := Snap(heap, mem), mem[..], AreaOf(heap), list.tasks;
    task, chunk := NewTask(heap, mem, list, process);
    ghost var s1, p := Snap(heap, mem), PageOf(task);
    NewTaskIsOwned(a.live, heap.live, area, s1.words, p, PageOf(chunk), {p} + Footprint(s1.words, PageOf(chunk)));
    NewIsVacant(s1.table, a.live, s1.live, area, p, Footprint(s1.words, PageOf(chunk)));
    BothBeside(area, a, s1, Last(tasks), p, ram0, mem[..], ptr, stack, bytes);
  }

  /** The two mappings into a directory whose pages were vacant when program and stack were stored. */
  method MapProgram(heap: Heap, mem: array<byte>, g: Program, ghost bytes: seq<byte>, ghost live0: Live,
                    ghost ram0: seq<byte>)
    requires heap.Valid() && mem.Length == ADDRESS_SPACE && g.size == |bytes| && Placed(g.ptr, g.size, g.stack)
    requires ChunkAt(mem[..], g.chunk) && Identity(AsWords(mem[..]), DirectoryOf(mem[..], g.chunk), IDENTITY_FLAGS)
    requires Owned(heap.live, AreaOf(heap), AsWords(mem[..]), PageOf(g.chunk))
    requires AllVacant(live0, AreaOf(heap), Footprint(AsWords(mem[..]), PageOf(g.chunk)))
    requires PagesAt(g.ptr, g.size) !! PagesAt(g.stack, STACK_SIZE)
    requires Stored(live0, AreaOf(heap), ram0, g.ptr, bytes)
    requires Stored(live0, AreaOf(heap), ram0, g.stack, Zeros(STACK_SIZE))
    requires Stored(heap.live, AreaOf(heap), mem[..], g.ptr, bytes)
    requires Stored(heap.live, AreaOf(heap), mem[..], g.stack, Zeros(STACK_SIZE))
    modifies mem
    ensures Alive(heap.live, AreaOf(heap), AsWords(mem[..]), g)
    ensures Stored(heap.live, AreaOf(heap), mem[..], g.ptr, bytes)
    ensures Stored(heap.live, AreaOf(heap), mem[..], g.stack, Zeros(STACK_SIZE))
    ensures Footprint(AsWords(mem[..]), PageOf(g.chunk)) == Footprint(AsWords(old(mem[..])), PageOf(g.chunk))
    ensures OnlyTablesChanged(AsWords(old(mem[..])), AsWords(mem[..]), g.Directory(AsWords(old(mem[..]))))
    ensures OnlyVacant(live0, AreaOf(heap), AsWords(old(mem[..])), AsWords(mem[..]))
  {
    ghost var area, ram1, c := AreaOf(heap), mem[..], PageOf(g.chunk);
    VacantApart(live0, area, g.ptr, g.size, Footprint(AsWords(ram1), c));
    VacantApart(live0, area, g.stack, STACK_SIZE, Footprint(AsWords(ram1), c));
    MapMemory(mem, g.chunk, g.ptr, g.size, g.stack);
    MappingSpares(live0, area, ram1, mem[..], g.chunk, g.ptr, g.size, g.stack);
    StoredBesideTables(live0, heap.live, area, ram0, ram1, mem[..], g.ptr, bytes, c);
    StoredBesideTables(live0, heap.live, area, ram0, ram1, mem[..], g.stack, Zeros(STACK_SIZE), c);
    MappedIsAlive(heap.live, area, AsWords(ram1), AsWords(mem[..]), g);
  }

  /** A task for a loaded program and its stack: from `task_new` to `process_map_memory`. */
  method NewProgramTask(heap: Heap, mem: array<byte>, list: TaskList, process: word, ptr: word, size: word, stack: word,
                        ghost bytes: seq<byte>)
    returns (task: word, ghost chunk: word)
    requires heap.Valid() && BelowTop(heap) && mem.Length == ADDRESS_SPACE && size == |bytes|
    requires list.Valid(AsWords(mem[..])) && TasksLive(heap.live, AreaOf(heap), list.tasks)
    requires heap.FreeCount() >= ENTRIES + 3
    requires Stored(heap.live, AreaOf(heap), mem[..], ptr, bytes)
    requires Stored(heap.live, AreaOf(heap), mem[..], stack, Zeros(STACK_SIZE))
    requires Last(list.tasks) !in PagesAt(ptr, |bytes|) && Last(list.tasks) !in PagesAt(stack, STACK_SIZE)
    requires PagesAt(ptr, size) !! PagesAt(stack, STACK_SIZE)
    modifies heap, heap.entries, mem, list
    ensures heap.Valid() && heap.FreeCount() == old(heap.FreeCount()) - (ENTRIES + 3)
    ensures TaskMade(AreaOf(heap), list, old(Snap(heap, mem)), Snap(heap, mem), old(list.tasks), task, chunk, process)
    ensures Alive(heap.live, AreaOf(heap), AsWords(mem[..]), Program(chunk, ptr, size, stack))
    ensures Stored(heap.live, AreaOf(heap), mem[..], ptr, bytes)
    ensures Stored(heap.live, AreaOf(heap), mem[..], stack, Zeros(STACK_SIZE))
    ensures PageOf(task) !in PagesAt(ptr, |bytes|) && PageOf(task) !in PagesAt(stack, STACK_SIZE)
  {
    ghost var s0, ram0, tasks := Snap(heap, mem), mem[..], list.tasks;
    BothPlaced(heap, ram0, ptr, stack, bytes);
    task, chunk := NewTaskBeside(heap, mem, list, process, ptr, stack, bytes);
    ghost var s1 := Snap(heap, mem);
    var directory := LoadField(mem, task, DIRECTORY);
    var g := Program(directory, ptr, size, stack);
    assert g.chunk == chunk;
    MapProgram(heap, mem, g, bytes, s0.live, ram0);
    StillMade(AreaOf(heap), list, s0, s1, Snap(heap, mem), tasks, task, g, process);
  }

  /** What was done since `b` was done since `a`, if nothing live at `a` was touched in between. */
  lemma MadeEarlier(area: Area, list: TaskList, a: Snapshot, b: Snapshot, c: Snapshot, tasks: seq<page>, task: word,
                    chunk: word, process: word)
    requires |a.words| == |b.words| == MEMORY_WORDS && Kept(area, a, b) && Recorded(a.table, a.live)
    requires TasksLive(a.live, area, tasks) && TaskMade(area, list, b, c, tasks, task, chunk, process)
    ensures TaskMade(area, list, a, c, tasks, task, chunk, process)
  {
    var p, link := PageOf(task), Address(PageOf(task));
    TasksKept(a.table, a.live, area, a.words, b.words, tasks);
    LinksKept(a.words, b.words, tasks);
    LinkedFirst(a.live, area, a.words, b.words, Last(tasks), link);
    KeptTwice(area, Linking(a, Last(tasks), p), Linking(b, Last(tasks), p), c);
    KeepsUnused(a.live, b.live, Block(area, p));
    VacantBefore(a.live, b.live, area, Footprint(c.words, PageOf(chunk)));
  }

  /** No task is in pages that are vacant. */
  lemma TasksBeside(t: Table, live: Live, area: Area, tasks: seq<page>, ps: set<page>)
    requires Recorded(t, live) && TasksLive(live, area, tasks) && AllVacant(live, area, ps) && 0 !in ps
    ensures Last(tasks) !in ps && forall p | p in tasks :: p !in ps
  {
    assert Unfolded(OfVacant, 0);
    forall p | p in tasks
      ensures p !in ps
    {
      LiveIsTaken(t, live, area, p);
    }
    assert tasks != [] ==> Last(tasks) in tasks;
  }

  lemma NotPageZero(ptr: word, n: nat)
    requires Aligned(ptr) && ptr != 0
    ensures 0 !in PagesAt(ptr, n)
  {
    assert PageOf(ptr) > 0;
  }

  // ---------------------------------------------------------------- loading

  /** The blocks a process takes besides its binary: its own two, four of stack, a task and a directory. */
  const PROCESS_BLOCKS := 2
  const STACK_BLOCKS := 4
  const TASK_BLOCKS := ENTRIES + 3

  /** The blocks that making a process asks for in all. */
  function ProcessCost(q: Quote): nat {
    PROCESS_BLOCKS + q.open + q.file + STACK_BLOCKS + TASK_BLOCKS
  }

  /** Every request that the program makes is served, or is one whose refusal it checks: for the process, the
      file's contents and the stack. One free run of `ProcessCost` blocks is enough. So is a taken last block,
      if the requests of one block, which are not checked, find one: enough are free for everything, or for
      opening the file and not for its contents. */
  ghost predicate CanLoad(t: Table, q: Quote) {
    && Serves(t, ProcessCost(q)) && FreeBlocks(t, |t|) >= PROCESS_BLOCKS + q.open
    && (FreeBlocks(t, |t|) >= ProcessCost(q) || FreeBlocks(t, |t|) < q.file)
  }

  lemma RunCanLoad(t: Table, q: Quote)
    requires HasRun(t, ProcessCost(q))
    ensures CanLoad(t, q)
  {
    RoomCounts(t, ProcessCost(q));
  }

  /** What loading a program for a free slot answers: `t0` is the block table before, and `stack` when memory
      for the stack is asked for. */
  ghost function SlotResult(b: Bill, t0: Table, stack: Table): int {
    if !HasRun(t0, PROCESS_BLOCKS) then -ENOMEM
    else if b.result != 0 then b.result
    else if !HasRun(stack, STACK_BLOCKS) then -ENOMEM
    else 0
  }

  /** How many blocks are taken then. A process that could not be made loses its own two, and those of the
      file's contents if they were had. */
  ghost function SlotUsed(b: Bill, t0: Table, stack: Table): int {
    if !HasRun(t0, PROCESS_BLOCKS) then 0
    else PROCESS_BLOCKS + b.used + if SlotResult(b, t0, stack) == 0 then STACK_BLOCKS + TASK_BLOCKS else 0
  }

  /** What has been taken when memory is asked for: for the file's contents, and for the stack. */
  ghost predicate Asked(b: Bill, q: Quote, t0: Table, data: Table, stack: Table) {
    HasRun(t0, PROCESS_BLOCKS) ==>
      && Thinned(t0, data, PROCESS_BLOCKS + b.ahead, PROCESS_BLOCKS + q.open)
      && Thinned(t0, stack, PROCESS_BLOCKS + b.used, PROCESS_BLOCKS + q.open + q.file)
  }

  lemma OneRunServes(t0: Table, data: Table, stack: Table, open: nat, file: nat)
    requires HasRun(t0, PROCESS_BLOCKS + open + file + STACK_BLOCKS + TASK_BLOCKS)
    ensures HasRun(t0, PROCESS_BLOCKS)
    ensures Shrinks(t0, data, PROCESS_BLOCKS + open) ==> HasRun(data, file)
    ensures Shrinks(t0, stack, PROCESS_BLOCKS + open + file) ==> HasRun(stack, STACK_BLOCKS)
  {
    var cost := PROCESS_BLOCKS + open + file + STACK_BLOCKS + TASK_BLOCKS;
    ShorterRun(t0, cost, PROCESS_BLOCKS);
    if Shrinks(t0, data, PROCESS_BLOCKS + open) {
      ShrinksTo(t0, data, PROCESS_BLOCKS + open, cost);
      ShorterRun(data, file + STACK_BLOCKS + TASK_BLOCKS, file);
    }
    if Shrinks(t0, stack, PROCESS_BLOCKS + open + file) {
      ShrinksTo(t0, stack, PROCESS_BLOCKS + open + file, cost);
      ShorterRun(stack, STACK_BLOCKS + TASK_BLOCKS, STACK_BLOCKS);
    }
  }

  /** It succeeds exactly if the file can be loaded and all three requests are served; so, in one long run,
      exactly if the file can be loaded. */
  lemma SlotResultIs(b: Bill, q: Quote, m: Mounted, filename: CString, named: set<nat>, slots: seq<word>, t0: Table,
                     data: Table, stack: Table)
    requires HasRun(t0, PROCESS_BLOCKS) ==> Billed(b, m, filename, named, slots, data)
    requires Quoted(q, m.root, filename, named) && Asked(b, q, t0, data, stack)
    ensures SlotResult(b, t0, stack) == 0 <==>
            HasRun(t0, PROCESS_BLOCKS) && b.loads && HasRun(data, q.file) && HasRun(stack, STACK_BLOCKS)
    ensures HasRun(t0, ProcessCost(q)) ==> (SlotResult(b, t0, stack) == 0 <==> b.loads)
  {
    if HasRun(t0, PROCESS_BLOCKS) {
      BillIs(b, q, m, filename, named, slots, data);
    }
    if HasRun(t0, ProcessCost(q)) {
      OneRunServes(t0, data, stack, q.open, q.file);
    }
  }

  /** The `strncpy` of the name into the process. */
  function Shortened(filename: CString): (r: CString)
    ensures r <= filename && |r| < 108 && (|r| < |filename| ==> |r| == 107)
  {
    if |filename| < MAX_PATH then filename else filename[..MAX_PATH - 1]
  }

  /** The process block is the first to be taken. */
  lemma AskedNext(area: Area, a: Snapshot, s1: Snapshot, c: Snapshot, data: Table, b: Bill, q: Quote, room: nat)
    requires Spared(area, a, s1, PROCESS_BLOCKS) && Thinned(a.table, s1.table, PROCESS_BLOCKS, PROCESS_BLOCKS)
    requires Thinned(s1.table, data, b.ahead, q.open) && Thinned(s1.table, c.table, b.used, q.open + q.file)
    requires Spared(area, s1, c, q.open + q.file) && Serves(s1.table, q.open + q.file + room)
    requires Recorded(s1.table, s1.live) && Recorded(c.table, c.live) && |s1.table| == |c.table|
    ensures Kept(area, a, c) && Serves(c.table, room) && Asked(b, q, a.table, data, c.table)
  {
    StillServes(area, s1, c, q.open + q.file, q.open + q.file + room, room);
    ThinnedTwice(a.table, s1.table, data, PROCESS_BLOCKS, b.ahead, q.open);
    ThinnedTwice(a.table, s1.table, c.table, PROCESS_BLOCKS, b.used, q.open + q.file);
    KeptTwice(area, a, s1, c);
  }

  /** The process block and then the file. */
  method LoadIntoProcess(heap: Heap, mem: array<byte>, files: FileTable, m: Mounted, filename: CString,
                         ghost named: set<nat>, ghost name: CString, ghost q: Quote, ghost room: nat)
    returns (res: int, process: word, ptr: word, size: word, ghost data: Table, ghost b: Bill)
    requires heap.Valid() && mem.Length == ADDRESS_SPACE && |files.slots| == MAX_DESCRIPTORS && m.disk.Valid()
    requires Asks(m.root, filename, named, name) && Quoted(q, m.root, filename, named)
    requires CanAsk(heap.entries[..], PROCESS_BLOCKS + q.open, PROCESS_BLOCKS + q.open + q.file + room)
    modifies heap, heap.entries, mem, files, m.disk.fatStream, m.disk.clusterStream
    ensures heap.Valid() && Kept(AreaOf(heap), old(Snap(heap, mem)), Snap(heap, mem)) && Serves(heap.entries[..], room)
    ensures Asked(b, q, old(heap.entries[..]), data, heap.entries[..])
    ensures process == 0 <==> !HasRun(old(heap.entries[..]), PROCESS_BLOCKS)
    ensures process == 0 ==>
      res == -ENOMEM && Snap(heap, mem) == old(Snap(heap, mem)) && files.slots == old(files.slots)
    ensures process != 0 ==>
      && Billed(b, m, filename, named, old(files.slots), data) && res == b.result
      && SlotsAfter(m.root, filename, named, old(files.slots), files.slots)
    ensures res == 0 ==>
      && process != 0 && FileOf(m, named).Some? && size == |FileOf(m, named).value|
      && Loaded(old(heap.live), heap.live, AreaOf(heap), mem[..], ptr, FileOf(m, named).value)
  {
    ghost var s0, area, n := Snap(heap, mem), AreaOf(heap), q.open + q.file;
    SparedNot(area, s0);
    data, b := s0.table, Bill(false, 0, 0, 0);
    ServesLess(s0.table, PROCESS_BLOCKS + n + room, PROCESS_BLOCKS);
    process := NewBlocks(heap, mem, PROCESS_SIZE);
    if process == 0 {
      ServesLess(s0.table, PROCESS_BLOCKS + n + room, room);
      return -ENOMEM, process, 0, 0, data, b;
    }
    ghost var s1 := Snap(heap, mem);
    StillServes(area, s0, s1, PROCESS_BLOCKS, PROCESS_BLOCKS + n + room, n + room);
    ServesLess(s1.table, n + room, n);
    res, ptr, size, data, b := LoadBinary(heap, mem, files, m, filename, named, name, q);
    ghost var s2 := Snap(heap, mem);
    AskedNext(area, s0, s1, s2, data, b, q, room);
    if res == 0 {
      LoadedEarlier(area, s0, s1, heap.live, mem[..], ptr, FileOf(m, named).value);
    }
  }

  lemma LoadedEarlier(area: Area, a: Snapshot, b: Snapshot, live: Live, ram: seq<byte>, ptr: word, bytes: seq<byte>)
    requires Kept(area, a, b) && Loaded(b.live, live, area, ram, ptr, bytes)
    ensures Loaded(a.live, live, area, ram, ptr, bytes)
  {
    var s := Block(area, PageOf(ptr));
    if s in a.live {
      StillLive(a.live, b.live, s);
    }
    VacantBefore(a.live, b.live, area, PagesAt(ptr, |bytes|));
  }

  /** The stack and, if there is memory for it, the task. */
  method LoadStackAndTask(heap: Heap, mem: array<byte>, list: TaskList, process: word, ptr: word, size: word,
                          ghost bytes: seq<byte>)
    returns (stack: word, task: word, ghost chunk: word)
    requires heap.Valid() && BelowTop(heap) && mem.Length == ADDRESS_SPACE && size == |bytes|
    requires list.Valid(AsWords(mem[..])) && TasksLive(heap.live, AreaOf(heap), list.tasks)
    requires Serves(heap.entries[..], STACK_BLOCKS)
    requires HasRun(heap.entries[..], STACK_BLOCKS) ==> heap.FreeCount() >= STACK_BLOCKS + TASK_BLOCKS
    requires Stored(heap.live, AreaOf(heap), mem[..], ptr, bytes) && Last(list.tasks) !in PagesAt(ptr, |bytes|)
    modifies heap, heap.entries, mem, list
    ensures heap.Valid() && (stack == 0 <==> !HasRun(old(heap.entries[..]), STACK_BLOCKS))
    ensures stack == 0 ==> Snap(heap, mem) == old(Snap(heap, mem)) && unchanged(list)
    ensures stack != 0 ==>
      && heap.FreeCount() == old(heap.FreeCount()) - (STACK_BLOCKS + TASK_BLOCKS)
      && TaskMade(AreaOf(heap), list, old(Snap(heap, mem)), Snap(heap, mem), old(list.tasks), task, chunk, process)
      && Alive(heap.live, AreaOf(heap), AsWords(mem[..]), Program(chunk, ptr, size, stack))
      && Stored(heap.live, AreaOf(heap), mem[..], ptr, bytes)
      && Stored(heap.live, AreaOf(heap), mem[..], stack, Zeros(STACK_SIZE))
      && AllVacant(old(heap.live), AreaOf(heap), PagesAt(stack, STACK_SIZE))
      && PageOf(task) !in PagesAt(ptr, |bytes|) && PageOf(task) !in PagesAt(stack, STACK_SIZE) && Aligned(stack)
  {
    ghost var s0, ram0, area, tasks := Snap(heap, mem), mem[..], AreaOf(heap), list.tasks;
    stack := NewBlocks(heap, mem, STACK_SIZE);
    if stack == 0 {
      return stack, 0, 0;
    }
    ghost var s1 := Snap(heap, mem);
    assert mem[..][stack..stack + STACK_SIZE] == Zeros(STACK_SIZE);
    StoredKept(area, s0, s1, ram0, mem[..], ptr, bytes);
    VacantApart(s0.live, area, ptr, size, PagesAt(stack, STACK_SIZE));
    NotPageZero(stack, STACK_SIZE);
    TasksBeside(s0.table, s0.live, area, tasks, PagesAt(stack, STACK_SIZE));
    ListKept(area, s0, s1, list);
    task, chunk := NewProgramTask(heap, mem, list, process, ptr, size, stack, bytes);
    MadeEarlier(area, list, s0, s1, Snap(heap, mem), tasks, task, chunk, process);
  }

  /** A chain is as sound as it was while no live block is touched. */
  lemma ChainKept(area: Area, a: Snapshot, b: Snapshot, tasks: seq<page>, head: word, tail: word, current: word)
    requires Kept(area, a, b) && Recorded(a.table, a.live) && |a.words| == MEMORY_WORDS
    requires ChainAt(a.words, tasks, head, tail, current) && PrevsAligned(a.words, tasks)
    requires TasksLive(a.live, area, tasks)
    ensures |b.words| == MEMORY_WORDS && ChainAt(b.words, tasks, head, tail, current) && PrevsAligned(b.words, tasks)
    ensures TasksLive(b.live, area, tasks) && (BothWays(a.words, tasks) ==> BothWays(b.words, tasks))
  {
    TasksKept(a.table, a.live, area, a.words, b.words, tasks);
    ValidKept(a.words, b.words, tasks, head, tail, current);
    forall p | p in tasks
      ensures Block(area, p) in b.live && b.live[Block(area, p)] == 1
    {
      StillLive(a.live, b.live, Block(area, p));
    }
  }

  /** So is the list. */
  lemma ListKept(area: Area, a: Snapshot, b: Snapshot, list: TaskList)
    requires Kept(area, a, b) && Recorded(a.table, a.live) && |a.words| == MEMORY_WORDS && list.Valid(a.words)
    requires TasksLive(a.live, area, list.tasks)
    ensures |b.words| == MEMORY_WORDS && list.Valid(b.words) && TasksLive(b.live, area, list.tasks)
    ensures BothWays(a.words, list.tasks) ==> BothWays(b.words, list.tasks)
  {
    ChainKept(area, a, b, list.tasks, list.head, list.tail, list.current);
  }

  /** What the directory of a process is laid out for. */
  function ProgramOf(process: Process, chunk: word): Program {
    Program(chunk, process.ptr, process.size, process.stack)
  }

  /** A process that was made since `a`, in blocks that were vacant then. */
  ghost predicate ProcessMade(area: Area, list: TaskList, a: Snapshot, b: Snapshot, tasks: seq<page>, process: Process,
                              chunk: word)
    reads list
    requires |a.words| == |b.words| == MEMORY_WORDS
  {
    var g := ProgramOf(process, chunk);
    && TaskMade(area, list, a, b, tasks, process.task, chunk, process.address)
    && Alive(b.live, area, b.words, g) && AllVacant(a.live, area, g.Space(b.words))
    && PageOf(process.task) !in g.Space(b.words)
  }

  lemma SpaceIsVacant(live: Live, area: Area, w: seq<word>, g: Program)
    requires |w| == MEMORY_WORDS && AllVacant(live, area, Footprint(w, PageOf(g.chunk)))
    requires AllVacant(live, area, PagesAt(g.ptr, g.size)) && AllVacant(live, area, PagesAt(g.stack, STACK_SIZE))
    ensures AllVacant(live, area, g.Space(w))
  {
    assert Unfolded(OfVacant, 0);
  }

  /** The rest of `process_load_for_slot`, once the file is loaded. */
  method FinishProcess(heap: Heap, mem: array<byte>, list: TaskList, processes: ProcessTable, address: word, slot: nat,
                       filename: CString, ptr: word, size: word, ghost bytes: seq<byte>, ghost a: Snapshot)
    returns (process: Process?, ghost chunk: word)
    requires heap.Valid() && BelowTop(heap) && mem.Length == ADDRESS_SPACE && size == |bytes|
    requires |a.words| == MEMORY_WORDS && Recorded(a.table, a.live) && list.Valid(a.words)
    requires TasksLive(a.live, AreaOf(heap), list.tasks) && Kept(AreaOf(heap), a, Snap(heap, mem))
    requires Serves(heap.entries[..], STACK_BLOCKS)
    requires HasRun(heap.entries[..], STACK_BLOCKS) ==> heap.FreeCount() >= STACK_BLOCKS + TASK_BLOCKS
    requires Loaded(a.live, heap.live, AreaOf(heap), mem[..], ptr, bytes)
    requires slot < |processes.slots|
    modifies heap, heap.entries, mem, list, processes
    ensures heap.Valid() && (process == null <==> !HasRun(old(heap.entries[..]), STACK_BLOCKS))
    ensures process == null ==> Snap(heap, mem) == old(Snap(heap, mem)) && unchanged(list) && unchanged(processes)
    ensures process != null ==>
      && heap.FreeCount() == old(heap.FreeCount()) - (STACK_BLOCKS + TASK_BLOCKS)
      && fresh(process) && process.id == slot && process.filename == Shortened(filename)
      && ProcessMade(AreaOf(heap), list, a, Snap(heap, mem), old(list.tasks), process, chunk)
      && process.size == |bytes| && Shows(mem[..], chunk, bytes)
      && processes.slots == old(processes.slots)[slot := process]
  {
    ghost var s1, area, tasks := Snap(heap, mem), AreaOf(heap), list.tasks;
    NotPageZero(ptr, |bytes|);
    TasksBeside(a.table, a.live, area, tasks, PagesAt(ptr, |bytes|));
    ListKept(area, a, s1, list);
    var stack, task;
    stack, task, chunk := LoadStackAndTask(heap, mem, list, address, ptr, size, bytes);
    if stack == 0 {
      return null, chunk;
    }
    MadeEarlier(area, list, a, s1, Snap(heap, mem), tasks, task, chunk, address);
    VacantBefore(a.live, s1.live, area, PagesAt(stack, STACK_SIZE));
    SpaceIsVacant(a.live, area, AsWords(mem[..]), Program(chunk, ptr, size, stack));
    AliveShows(heap.live, area, mem[..], Program(chunk, ptr, size, stack), bytes);
    process := new Process(address, slot, Shortened(filename), ptr, size, stack, task);
    processes.slots := processes.slots[slot := process];
  }

  /** When the stack is had, so is the task: enough blocks were free for everything. */
  lemma TaskIsHad(b: Bill, q: Quote, m: Mounted, filename: CString, named: set<nat>, slots: seq<word>, t0: Table,
                  data: Table, stack: Table)
    requires Billed(b, m, filename, named, slots, data) && Quoted(q, m.root, filename, named)
    requires CanLoad(t0, q) && Asked(b, q, t0, data, stack) && HasRun(t0, PROCESS_BLOCKS) && b.result == 0
    ensures FreeBlocks(stack, |stack|) >= STACK_BLOCKS + TASK_BLOCKS
  {
    BillIs(b, q, m, filename, named, slots, data);
    RoomCounts(data, q.file);
  }

  /** `process_load_for_slot` for a free slot. It succeeds exactly if the file can be loaded and its three
      checked requests for memory are served. Then there is a process that sees the file's bytes at 0x400000,
      zeros on its stack and all else where it was, in pages of the heap that were vacant. Nothing that was
      allocated before has been freed or written to, but for the link of the task that was the last. If it
      fails not even that was written. */
  method LoadForSlot(heap: Heap, mem: array<byte>, files: FileTable, m: Mounted, list: TaskList,
                     processes: ProcessTable, slot: nat, filename: CString, ghost named: set<nat>, ghost name: CString,
                     ghost q: Quote)
    returns (res: int, process: Process?, ghost chunk: word, ghost b: Bill, ghost data: Table, ghost stack: Table)
    requires heap.Valid() && BelowTop(heap) && mem.Length == ADDRESS_SPACE && |files.slots| == MAX_DESCRIPTORS
    requires list.Valid(AsWords(mem[..])) && TasksLive(heap.live, AreaOf(heap), list.tasks)
    requires m.disk.Valid() && slot < |processes.slots| && processes.slots[slot] == null
    requires Asks(m.root, filename, named, name) && Quoted(q, m.root, filename, named) && CanLoad(heap.entries[..], q)
    modifies heap, heap.entries, mem, files, m.disk.fatStream, m.disk.clusterStream, list, processes
    ensures heap.Valid() && Asked(b, q, old(heap.entries[..]), data, stack)
    ensures res == SlotResult(b, old(heap.entries[..]), stack)
    ensures heap.FreeCount() == old(heap.FreeCount()) - SlotUsed(b, old(heap.entries[..]), stack)
    ensures if HasRun(old(heap.entries[..]), PROCESS_BLOCKS)
            then && Billed(b, m, filename, named, old(files.slots), data)
                 && SlotsAfter(m.root, filename, named, old(files.slots), files.slots)
            else files.slots == old(files.slots)
    ensures res != 0 ==>
      && process == null && processes.slots == old(processes.slots) && unchanged(list)
      && list.Valid(AsWords(mem[..])) && TasksLive(heap.live, AreaOf(heap), list.tasks)
      && Kept(AreaOf(heap), old(Snap(heap, mem)), Snap(heap, mem))
    ensures res == 0 ==>
      && process != null && processes.slots == old(processes.slots)[slot := process] && process.id == slot
      && process.filename == Shortened(filename)
      && FileOf(m, named).Some? && process.size == |FileOf(m, named).value|
      && Shows(mem[..], chunk, FileOf(m, named).value)
      && ProcessMade(AreaOf(heap), list, old(Snap(heap, mem)), Snap(heap, mem), old(list.tasks), process, chunk)
  {
    ghost var s0, area, slots := Snap(heap, mem), AreaOf(heap), files.slots;
    var address, ptr, size;
    res, address, ptr, size, data, b :=
      LoadIntoProcess(heap, mem, files, m, filename, named, name, q, STACK_BLOCKS + TASK_BLOCKS);
    ghost var s1 := Snap(heap, mem);
    process, chunk, stack := null, 0, s1.table;
    ListKept(area, s0, s1, list);
    if res != 0 {
      return;
    }
    TaskIsHad(b, q, m, filename, named, slots, s0.table, data, stack);
    ServesLess(stack, STACK_BLOCKS + TASK_BLOCKS, STACK_BLOCKS);
    process, chunk :=
      FinishProcess(heap, mem, list, processes, address, slot, filename, ptr, size, FileOf(m, named).value, s0);
    if process == null {
      res := -ENOMEM;
    }
  }

  /** `process_get_free_slot`. */
  method GetFreeSlot(processes: ProcessTable) returns (slot: int)
    requires |processes.slots| == MAX_PROCESSES
    ensures slot == -EISTKN <==> null !in processes.slots
    ensures slot != -EISTKN ==>
      && 0 <= slot < MAX_PROCESSES && processes.slots[slot] == null
      && forall k | 0 <= k < slot :: processes.slots[k] != null
  {
    for i := 0 to MAX_PROCESSES
      invariant forall k | 0 <= k < i :: processes.slots[k] != null
    {
      if processes.slots[i] == null {
        return i;
      }
    }
    slot := -EISTKN;
  }

  /** `process_load`: into the first free slot. */
  method Load(heap: Heap, mem: array<byte>, files: FileTable, m: Mounted, list: TaskList, processes: ProcessTable,
              filename: CString, ghost named: set<nat>, ghost name: CString, ghost q: Quote)
    returns (res: int, process: Process?, ghost chunk: word, ghost b: Bill, ghost data: Table, ghost stack: Table)
    requires heap.Valid() && BelowTop(heap) && mem.Length == ADDRESS_SPACE && |files.slots| == MAX_DESCRIPTORS
    requires list.Valid(AsWords(mem[..])) && TasksLive(heap.live, AreaOf(heap), list.tasks)
    requires m.disk.Valid() && |processes.slots| == MAX_PROCESSES
    requires Asks(m.root, filename, named, name) && Quoted(q, m.root, filename, named) && CanLoad(heap.entries[..], q)
    modifies heap, heap.entries, mem, files, m.disk.fatStream, m.disk.clusterStream, list, processes
    ensures heap.Valid()
    ensures null !in old(processes.slots) ==>
      && res == -EISTKN && mem[..] == old(mem[..]) && heap.live == old(heap.live)
      && heap.entries[..] == old(heap.entries[..]) && files.slots == old(files.slots)
    ensures null in old(processes.slots) ==>
      && Asked(b, q, old(heap.entries[..]), data, stack) && res == SlotResult(b, old(heap.entries[..]), stack)
      && heap.FreeCount() == old(heap.FreeCount()) - SlotUsed(b, old(heap.entries[..]), stack)
      && if HasRun(old(heap.entries[..]), PROCESS_BLOCKS)
         then && Billed(b, m, filename, named, old(files.slots), data)
              && SlotsAfter(m.root, filename, named, old(files.slots), files.slots)
         else files.slots == old(files.slots)
    ensures res != 0 ==>
      && process == null && processes.slots == old(processes.slots) && unchanged(list)
      && list.Valid(AsWords(mem[..])) && TasksLive(heap.live, AreaOf(heap), list.tasks)
      && Kept(AreaOf(heap), old(Snap(heap, mem)), Snap(heap, mem))
    ensures res == 0 ==>
      && process != null && process.id < MAX_PROCESSES && old(processes.slots)[process.id] == null
      && (forall k | 0 <= k < process.id :: old(processes.slots)[k] != null)
      && processes.slots == old(processes.slots)[process.id := process]
      && FileOf(m, named).Some? && process.size == |FileOf(m, named).value|
      && Shows(mem[..], chunk, FileOf(m, named).value)
      && ProcessMade(AreaOf(heap), list, old(Snap(heap, mem)), Snap(heap, mem), old(list.tasks), process, chunk)
  {
    SparedNot(AreaOf(heap), Snap(heap, mem));
    var slot := GetFreeSlot(processes);
    if slot < 0 {
      return -EISTKN, null, 0, Bill(false, 0, 0, 0), [], [];
    }
    assert processes.slots[slot] in processes.slots;
    res, process, chunk, b, data, stack :=
      LoadForSlot(heap, mem, files, m, list, processes, slot, filename, named, name, q);
  }
}
