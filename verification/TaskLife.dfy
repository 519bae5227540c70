/** Tasks in heap blocks: made with a directory of their own and a place in the list, and freed. */
module TaskLife {
  import opened Words
  import opened HeapTable
  import opened Heap
  import opened Kheap
  import opened PageTables
  import opened Paging
  import opened Growth
  import opened AddressSpace
  import opened Tasks

  const USER_CODE: word := 0x1b
  const USER_DATA: word := 0x23

  /** The tasks of the list are live blocks. */
  ghost predicate TasksLive(live: Live, area: Area, tasks: seq<page>) {
    forall p | p in tasks :: Block(area, p) in live && live[Block(area, p)] == 1
  }

  /** What `task_init` makes of the task in page `p`. */
  ghost predicate TaskAt(w: seq<word>, p: page, chunk: word, process: word) {
    && |w| == MEMORY_WORDS
    && Field(w, p, DIRECTORY) == chunk && Field(w, p, PROCESS) == process
    && Field(w, p, IP) == PROGRAM_START && Field(w, p, ESP) == STACK_TOP
    && Field(w, p, CS) == USER_CODE && Field(w, p, SS) == USER_DATA
  }

  /** The registers a task starts with. */
  method InitRegisters(mem: array<byte>, task: word)
    requires mem.Length == ADDRESS_SPACE && Aligned(task)
    modifies mem
    ensures var w, p := AsWords(mem[..]), PageOf(task);
      && Field(w, p, IP) == PROGRAM_START && Field(w, p, ESP) == STACK_TOP
      && Field(w, p, CS) == USER_CODE && Field(w, p, SS) == USER_DATA
    ensures forall k: nat | k < ENTRIES && k !in {IP, SS, CS, ESP} ::
        Field(AsWords(mem[..]), PageOf(task), k) == Field(AsWords(old(mem[..])), PageOf(task), k)
    ensures SameOutside(AsWords(old(mem[..])), AsWords(mem[..]), {PageOf(task)})
  {
    StoreField(mem, task, IP, PROGRAM_START);
    StoreField(mem, task, SS, USER_DATA);
    StoreField(mem, task, CS, USER_CODE);
    StoreField(mem, task, ESP, STACK_TOP);
  }

  /** The stores of `task_init`. */
  method InitTask(mem: array<byte>, task: word, chunk: word, process: word)
    requires mem.Length == ADDRESS_SPACE && Aligned(task)
    modifies mem
    ensures TaskAt(AsWords(mem[..]), PageOf(task), chunk, process)
    ensures forall k: nat | k == NEXT || k == PREV ::
        Field(AsWords(mem[..]), PageOf(task), k) == Field(AsWords(old(mem[..])), PageOf(task), k)
    ensures SameOutside(AsWords(old(mem[..])), AsWords(mem[..]), {PageOf(task)})
  {
    ghost var w, p := AsWords(mem[..]), PageOf(task);
    StoreField(mem, task, DIRECTORY, chunk);
    ghost var w1 := AsWords(mem[..]);
    InitRegisters(mem, task);
    SameOutsideBoth(w, w1, AsWords(mem[..]), {p}, {p}, {p});
    ghost var w2 := AsWords(mem[..]);
    StoreField(mem, task, PROCESS, process);
    SameOutsideBoth(w, w2, AsWords(mem[..]), {p}, {p}, {p});
  }

  /** A zeroed block for a task. */
  method TaskBlock(heap: Heap, mem: array<byte>) returns (task: word)
    requires heap.Valid() && mem.Length == ADDRESS_SPACE && heap.FreeCount() > 0
    modifies heap, heap.entries, mem
    ensures heap.Valid() && Aligned(task) && task != 0
    ensures Field(AsWords(mem[..]), PageOf(task), NEXT) == 0 && Field(AsWords(mem[..]), PageOf(task), PREV) == 0
    ensures Grew(AreaOf(heap), old(Snap(heap, mem)), Snap(heap, mem), {PageOf(task)}, 1)
  {
    task := NewBlock(heap, mem, TASK_SIZE);
    AddressOf(task);
    assert forall k | task <= k < task + TASK_SIZE :: mem[..][k] == mem[task..task + TASK_SIZE][k - task];
    ZeroWords(mem[..], PageOf(task), TASK_SIZE / 4);
  }

  /** The task's block and its directory. */
  method TaskAndDirectory(heap: Heap, mem: array<byte>, process: word) returns (task: word, chunk: word)
    requires heap.Valid() && mem.Length == ADDRESS_SPACE && heap.FreeCount() >= ENTRIES + 3
    modifies heap, heap.entries, mem
    ensures heap.Valid() && heap.FreeCount() == old(heap.FreeCount()) - (ENTRIES + 3)
    ensures Aligned(task) && task != 0 && TaskAt(AsWords(mem[..]), PageOf(task), chunk, process)
    ensures Field(AsWords(mem[..]), PageOf(task), NEXT) == 0 && Field(AsWords(mem[..]), PageOf(task), PREV) == 0
    ensures ChunkAt(mem[..], chunk) && Identity(AsWords(mem[..]), DirectoryOf(mem[..], chunk), IDENTITY_FLAGS)
    ensures var ps := Footprint(AsWords(mem[..]), PageOf(chunk));
      PageOf(task) !in ps && Added(old(heap.live), heap.live, AreaOf(heap), {PageOf(task)} + ps)
    ensures OnlyVacant(old(heap.live), AreaOf(heap), AsWords(old(mem[..])), AsWords(mem[..]))
  {
    ghost var s0, area := Snap(heap, mem), AreaOf(heap);
    task := TaskBlock(heap, mem);
    ghost var s1, p := Snap(heap, mem), PageOf(task);
    chunk := PagingNew4Gb(heap, mem, IDENTITY_FLAGS);
    ghost var s2, ps := Snap(heap, mem), Footprint(AsWords(mem[..]), PageOf(chunk));
    AddedBoth(s0.live, s1.live, s2.live, area, {p}, ps);
    LivePageApart(s1.live, s2.live, area, {p}, ps, s0.live, s1.words, s2.words, p);
    InitTask(mem, task, chunk, process);
    ChunkApart(s2.words, AsWords(mem[..]), PageOf(chunk), p);
    SameOutsideBoth(s1.words, s2.words, AsWords(mem[..]), ps, {p}, {p} + ps);
    assert {p} + ps + {} == {p} + ps;
    AddedWritesVacant(heap.entries[..], s0.live, heap.live, area, {p} + ps, {}, s1.words, AsWords(mem[..]));
    OnlyVacantTwice(s0.live, area, s0.words, s1.words, AsWords(mem[..]));
  }

  lemma LivePageApart(live1: Live, live2: Live, area: Area, qs: set<page>, ps: set<page>, live0: Live, w: seq<word>,
                      after: seq<word>, p: page)
    requires Added(live0, live1, area, qs) && Added(live1, live2, area, ps) && p in qs && SameOutside(w, after, ps)
    ensures p !in ps && SamePage(w, after, p)
  {
    AddedBoth(live0, live1, live2, area, qs, ps);
  }

  /** `a`, but with the task in page `p` linked behind the one in page `tail`, if there is one. */
  function Linking(a: Snapshot, tail: page, p: page): Snapshot
    requires |a.words| == MEMORY_WORDS
  {
    if tail == 0 then a else a.(words := WithField(a.words, tail, NEXT, Address(p)))
  }

  /** Whatever is written to vacant pages, a link can be thought of as stored before it. */
  lemma LinkedFirst(live: Live, area: Area, w: seq<word>, after: seq<word>, tail: page, link: word)
    requires OnlyVacant(live, area, w, after) && |w| == MEMORY_WORDS
    ensures |after| == MEMORY_WORDS
    ensures OnlyVacant(live, area, WithField(w, tail, NEXT, link), WithField(after, tail, NEXT, link))
  {
    assert Unfolded(OfWrites, 0);
    var w1, after1 := WithField(w, tail, NEXT, link), WithField(after, tail, NEXT, link);
    forall p: page | !Vacant(live, area, p)
      ensures SamePage(w1, after1, p)
    {
      assert SamePage(w, after, p);
    }
  }

  lemma PrevIsVacant(live: Live, area: Area, w: seq<word>, p: page, prev: word)
    requires |w| == MEMORY_WORDS && Vacant(live, area, p)
    ensures OnlyVacant(live, area, w, WithField(w, p, PREV, prev))
  {
    forall q: page | !Vacant(live, area, q)
      ensures SamePage(w, WithField(w, p, PREV, prev), q)
    {
    }
  }

  /** An insertion, seen from before the new task was allocated. */
  lemma InsertedKept(area: Area, a: Snapshot, live: Live, w: seq<word>, tail: page, p: page, table: Table)
    requires |a.words| == MEMORY_WORDS && Keeps(a.live, live) && OnlyVacant(a.live, area, a.words, w)
    requires Vacant(a.live, area, p)
    requires |w| == MEMORY_WORDS
    ensures Kept(area, Linking(a, tail, p), Snapshot(live, Inserted(w, tail, p), table))
  {
    if tail != 0 {
      LinkedFirst(a.live, area, a.words, w, tail, Address(p));
      var w1 := WithField(w, tail, NEXT, Address(p));
      PrevIsVacant(a.live, area, w1, p, Address(tail));
      OnlyVacantTwice(a.live, area, Linking(a, tail, p).words, w1, Inserted(w, tail, p));
    }
  }

  /** The list's tasks keep their words if only vacant pages were written. */
  lemma TasksKept(t: Table, live: Live, area: Area, w: seq<word>, after: seq<word>, tasks: seq<page>)
    requires Recorded(t, live) && OnlyVacant(live, area, w, after) && TasksLive(live, area, tasks)
    ensures |w| == |after| == MEMORY_WORDS && forall p | p in tasks :: SamePage(w, after, p)
  {
    assert Unfolded(OfWrites, 0);
    forall p | p in tasks
      ensures SamePage(w, after, p)
    {
      LivePageKept(t, live, area, w, after, p);
    }
  }

  lemma OneMoreLive(live0: Live, live: Live, area: Area, tasks: seq<page>, p: page, ps: set<page>)
    requires TasksLive(live0, area, tasks) && Added(live0, live, area, {p} + ps)
    ensures p !in tasks && TasksLive(live, area, tasks + [p]) && forall q | q in tasks :: q !in {p} + ps
    ensures Keeps(live0, live)
  {
    assert Unfolded(OfBlocks, 0);
    assert p in {p} + ps;
  }

  /** Inserting a task leaves directories that neither it nor the last task is a page of. */
  lemma InsertedChunk(w: seq<word>, tail: page, p: page, chunk: word, process: word)
    requires |w| == MEMORY_WORDS && ChunkOk(w, PageOf(chunk)) && TaskAt(w, p, chunk, process)
    requires p !in Footprint(w, PageOf(chunk)) && (tail != 0 ==> tail !in Footprint(w, PageOf(chunk))) && tail != p
    ensures var after := Inserted(w, tail, p);
      && TaskAt(after, p, chunk, process)
      && ChunkOk(after, PageOf(chunk)) && Footprint(after, PageOf(chunk)) == Footprint(w, PageOf(chunk))
      && PageOf(after[PageOf(chunk) * ENTRIES]) == PageOf(w[PageOf(chunk) * ENTRIES])
      && forall flags: word | Identity(w, PageOf(w[PageOf(chunk) * ENTRIES]), flags) ::
           Identity(after, PageOf(w[PageOf(chunk) * ENTRIES]), flags)
  {
    var after := Inserted(w, tail, p);
    forall q | q in Footprint(w, PageOf(chunk))
      ensures SamePage(w, after, q)
    {
    }
    ChunkSame(w, after, PageOf(chunk));
  }

  /** The list before the insertion, and what the insertion will have kept. */
  lemma ReadyToInsert(area: Area, a: Snapshot, t: Table, live: Live, w: seq<word>, tasks: seq<page>, head: word,
                      tail: word, current: word, p: page, ps: set<page>)
    requires |a.words| == |w| == MEMORY_WORDS && Recorded(a.table, a.live) && Recorded(t, live) && |t| == area.size
    requires ChainAt(a.words, tasks, head, tail, current) && PrevsAligned(a.words, tasks)
    requires TasksLive(a.live, area, tasks)
    requires OnlyVacant(a.live, area, a.words, w) && Added(a.live, live, area, {p} + ps) && p != 0 && p !in ps
    ensures ChainAt(w, tasks, head, tail, current) && PrevsAligned(w, tasks)
    ensures BothWays(a.words, tasks) ==> BothWays(w, tasks)
    ensures p !in tasks && Last(tasks) != p && TasksLive(live, area, tasks + [p])
    ensures (forall q | q in tasks + [p] :: q !in ps) && (Last(tasks) != 0 ==> Last(tasks) !in ps)
    ensures (Last(tasks) == 0 <==> tasks == [])
    ensures Kept(area, Linking(a, Last(tasks), p), Snapshot(live, Inserted(w, Last(tasks), p), t))
  {
    OneMoreLive(a.live, live, area, tasks, p, ps);
    TasksKept(a.table, a.live, area, a.words, w, tasks);
    ValidKept(a.words, w, tasks, head, tail, current);
    AddedIsVacant(t, a.live, live, area, {p} + ps, p);
    EndsOf(w, tasks, head, tail, current);
    AtLonger(tasks, p, |tasks|);
    assert tasks != [] ==> Last(tasks) in tasks;
    InsertedKept(area, a, live, w, Last(tasks), p, t);
  }

  /** The end of `task_new`: a task that was allocated since `a` takes its place in the list. */
  method InsertTask(heap: Heap, mem: array<byte>, list: TaskList, task: word, ghost chunk: word, ghost process: word,
                    ghost a: Snapshot, ghost ps: set<page>)
    requires heap.Valid() && mem.Length == ADDRESS_SPACE && |a.words| == MEMORY_WORDS && Recorded(a.table, a.live)
    requires list.Valid(a.words) && TasksLive(a.live, AreaOf(heap), list.tasks)
    requires Aligned(task) && task != 0 && TaskAt(AsWords(mem[..]), PageOf(task), chunk, process)
    requires Field(AsWords(mem[..]), PageOf(task), NEXT) == 0 && Field(AsWords(mem[..]), PageOf(task), PREV) == 0
    requires ChunkAt(mem[..], chunk) && ps == Footprint(AsWords(mem[..]), PageOf(chunk))
    requires PageOf(task) !in ps && Added(a.live, heap.live, AreaOf(heap), {PageOf(task)} + ps)
    requires OnlyVacant(a.live, AreaOf(heap), a.words, AsWords(mem[..]))
    modifies mem, list
    ensures list.Valid(AsWords(mem[..])) && TasksLive(heap.live, AreaOf(heap), list.tasks)
    ensures list.tasks == old(list.tasks) + [PageOf(task)]
    ensures old(BothWays(a.words, list.tasks)) ==> BothWays(AsWords(mem[..]), list.tasks)
    ensures Field(AsWords(mem[..]), PageOf(task), PREV) == Address(Last(old(list.tasks)))
    ensures TaskAt(AsWords(mem[..]), PageOf(task), chunk, process) && ChunkAt(mem[..], chunk)
    ensures DirectoryOf(mem[..], chunk) == DirectoryOf(old(mem[..]), chunk)
    ensures var d := DirectoryOf(mem[..], chunk);
      forall flags: word | Identity(AsWords(old(mem[..])), d, flags) :: Identity(AsWords(mem[..]), d, flags)
    ensures ps == Footprint(AsWords(mem[..]), PageOf(chunk)) && forall p | p in list.tasks :: p !in ps
    ensures Kept(AreaOf(heap), Linking(a, Last(old(list.tasks)), PageOf(task)), Snap(heap, mem))
  {
    ghost var w, p, tasks := AsWords(mem[..]), PageOf(task), list.tasks;
    ReadyToInsert(AreaOf(heap), a, heap.entries[..], heap.live, w, tasks, list.head, list.tail, list.current, p, ps);
    InsertedChunk(w, Last(tasks), p, chunk, process);
    FieldsInserted(w, Last(tasks), p, p);
    list.Insert(mem, task);
  }

  /** `task_new`: a task block, a directory that maps all memory to itself, and a place in the list. */
  method NewTask(heap: Heap, mem: array<byte>, list: TaskList, process: word) returns (task: word, ghost chunk: word)
    requires heap.Valid() && mem.Length == ADDRESS_SPACE && heap.FreeCount() >= ENTRIES + 3
    requires list.Valid(AsWords(mem[..])) && TasksLive(heap.live, AreaOf(heap), list.tasks)
    modifies heap, heap.entries, mem, list
    ensures heap.Valid() && heap.FreeCount() == old(heap.FreeCount()) - (ENTRIES + 3)
    ensures list.Valid(AsWords(mem[..])) && TasksLive(heap.live, AreaOf(heap), list.tasks)
    ensures Aligned(task) && task != 0 && list.tasks == old(list.tasks) + [PageOf(task)]
    ensures old(BothWays(AsWords(mem[..]), list.tasks)) ==> BothWays(AsWords(mem[..]), list.tasks)
    ensures Field(AsWords(mem[..]), PageOf(task), PREV) == Address(Last(old(list.tasks)))
    ensures TaskAt(AsWords(mem[..]), PageOf(task), chunk, process) && ChunkAt(mem[..], chunk)
    ensures Identity(AsWords(mem[..]), DirectoryOf(mem[..], chunk), IDENTITY_FLAGS)
    ensures var ps := Footprint(AsWords(mem[..]), PageOf(chunk));
      && PageOf(task) !in ps && Added(old(heap.live), heap.live, AreaOf(heap), {PageOf(task)} + ps)
      && forall p | p in list.tasks :: p !in ps
    ensures Kept(AreaOf(heap), Linking(old(Snap(heap, mem)), Last(old(list.tasks)), PageOf(task)), Snap(heap, mem))
  {
    ghost var a := Snap(heap, mem);
    var directory;
    task, directory := TaskAndDirectory(heap, mem, process);
    chunk := directory;
    InsertTask(heap, mem, list, task, chunk, process, a, Footprint(AsWords(mem[..]), PageOf(chunk)));
  }

  lemma OneMoreBlock(live: Live, area: Area, qs: set<page>, p: page, ps: set<page>)
    requires ps == {p} + qs && p !in qs && Block(area, p) in live
    ensures Block(area, p) in live - BlocksOf(area, qs)
    ensures live - BlocksOf(area, qs) - {Block(area, p)} == live - BlocksOf(area, ps)
  {
    assert BlocksOf(area, ps) == BlocksOf(area, qs) + {Block(area, p)};
  }

  /** The directory of a task, freed. */
  method FreeDirectory(heap: Heap, mem: array<byte>, task: word, ghost chunk: word)
    requires heap.Valid() && mem.Length == ADDRESS_SPACE && Aligned(task) && Aligned(chunk)
    requires Field(AsWords(mem[..]), PageOf(task), DIRECTORY) == chunk
    requires Owned(heap.live, AreaOf(heap), AsWords(mem[..]), PageOf(chunk))
    modifies heap, heap.entries
    ensures heap.Valid()
    ensures heap.live == old(heap.live) - BlocksOf(AreaOf(heap), Footprint(AsWords(mem[..]), PageOf(chunk)))
  {
    var directory := LoadField(mem, task, DIRECTORY);
    PagingFree4Gb(heap, mem, directory);
  }

  /** `task_free`: frees the directory and the task's block, and takes the task out of the list. What that
      does to the list, and to a block that a stale link points to, is said by `Leaves` and `Bypassed`. */
  method FreeTask(heap: Heap, mem: array<byte>, list: TaskList, task: word, ghost i: nat, ghost ps: set<page>)
    requires heap.Valid() && mem.Length == ADDRESS_SPACE && list.Valid(AsWords(mem[..]))
    requires i < |list.tasks| && task == Address(list.tasks[i]) && TasksLive(heap.live, AreaOf(heap), list.tasks)
    requires var w := AsWords(mem[..]); var c := PageOf(Field(w, PageOf(task), DIRECTORY));
      && Aligned(Field(w, PageOf(task), DIRECTORY)) && Owned(heap.live, AreaOf(heap), w, c)
      && (forall p | p in list.tasks :: p !in Footprint(w, c)) && ps == {PageOf(task)} + Footprint(w, c)
    modifies heap, heap.entries, mem, list
    ensures heap.Valid() && heap.live == old(heap.live) - BlocksOf(AreaOf(heap), ps)
    ensures AsWords(mem[..]) == Bypassed(AsWords(old(mem[..])), old(list.tasks), i)
    ensures list.tasks == Without(old(list.tasks), i)
    ensures list.Chained(AsWords(mem[..])) <==> Leaves(AsWords(old(mem[..])), old(list.tasks), i)
    ensures list.Chained(AsWords(mem[..])) ==> list.Valid(AsWords(mem[..]))
  {
    ghost var chunk := Field(AsWords(mem[..]), PageOf(task), DIRECTORY);
    assert list.tasks[i] in list.tasks;
    OneMoreBlock(heap.live, AreaOf(heap), Footprint(AsWords(mem[..]), PageOf(chunk)), PageOf(task), ps);
    FreeDirectory(heap, mem, task, chunk);
    list.Remove(mem, task, i);
    FreePage(heap, task);
  }

  /** Page `p` belongs to an allocation. */
  ghost predicate InUse(live: Live, area: Area, p: page) {
    0 <= Block(area, p) < area.size && !Unused(live, Block(area, p))
  }

  /** Freeing a task changes a page of some allocation other than the task before it exactly if the task's
      link back is stale, to a page that is in use, and the word there is another. */
  lemma StrayWriteIff(live: Live, area: Area, w: seq<word>, tasks: seq<page>, i: nat)
    requires |w| == MEMORY_WORDS && i < |tasks|
    ensures var q := Prev(w, tasks, i);
      (exists p: page :: p != At(tasks, i - 1) && InUse(live, area, p) && !SamePage(w, Bypassed(w, tasks, i), p)) <==>
      q != 0 && q != At(tasks, i - 1) && InUse(live, area, q) && Field(w, q, NEXT) != Field(w, tasks[i], NEXT)
  {
    var q, after := Prev(w, tasks, i), Bypassed(w, tasks, i);
    if q != 0 && Field(w, q, NEXT) != Field(w, tasks[i], NEXT) {
      assert after[q * ENTRIES + NEXT] != w[q * ENTRIES + NEXT];
      assert !SamePage(w, after, q);
    }
    forall p: page | q == 0 || p != q || Field(w, q, NEXT) == Field(w, tasks[i], NEXT)
      ensures SamePage(w, after, p)
    {
    }
  }

  lemma NewTaskIsOwned(live0: Live, live: Live, area: Area, w: seq<word>, a: page, c: page, ps: set<page>)
    requires ChunkOk(w, c) && ps == {a} + Footprint(w, c) && Added(live0, live, area, ps)
    ensures Owned(live, area, w, c) && Block(area, a) in live && live - BlocksOf(area, ps) == live0
  {
    AddedRemoved(live0, live, area, ps);
    AddedIsLive(live0, live, area, ps, a);
    forall p | p in Footprint(w, c)
      ensures Block(area, p) in live
    {
      AddedIsLive(live0, live, area, ps, p);
    }
  }

  /** Editing a directory leaves the tasks that are not pages of it. */
  lemma EditsSpareTasks(w: seq<word>, after: seq<word>, c: page, edits: seq<Edit>, tasks: seq<page>)
    requires ChunkOk(w, c) && after == ApplyAll(w, PageOf(w[c * ENTRIES]), edits)
    requires forall p | p in tasks :: p !in Footprint(w, c)
    ensures forall p | p in tasks :: SamePage(w, after, p)
  {
    EditsKeepTables(w, PageOf(w[c * ENTRIES]), edits);
  }

  /** The address space of the last task, edited in any way. */
  method EditTask(heap: Heap, mem: array<byte>, list: TaskList, task: word, edits: seq<Edit>, ghost tasks: seq<page>,
                  ghost chunk: word)
    requires heap.Valid() && mem.Length == ADDRESS_SPACE && list.Valid(AsWords(mem[..]))
    requires Aligned(task) && list.tasks == tasks + [PageOf(task)]
    requires Field(AsWords(mem[..]), PageOf(task), PREV) == Address(Last(tasks))
    requires Field(AsWords(mem[..]), PageOf(task), DIRECTORY) == chunk && Aligned(chunk)
    requires Owned(heap.live, AreaOf(heap), AsWords(mem[..]), PageOf(chunk))
    requires forall p | p in list.tasks :: p !in Footprint(AsWords(mem[..]), PageOf(chunk))
    modifies mem
    ensures list.Valid(AsWords(mem[..])) && Leaves(AsWords(mem[..]), list.tasks, |tasks|)
    ensures Field(AsWords(mem[..]), PageOf(task), DIRECTORY) == chunk
    ensures Owned(heap.live, AreaOf(heap), AsWords(mem[..]), PageOf(chunk))
    ensures Footprint(AsWords(mem[..]), PageOf(chunk)) == Footprint(AsWords(old(mem[..])), PageOf(chunk))
  {
    ghost var w, c, p := AsWords(mem[..]), PageOf(chunk), PageOf(task);
    var directory := LoadField(mem, task, DIRECTORY);
    ApplyEdits(mem, directory, edits, heap.live, AreaOf(heap));
    EditsSpareTasks(w, AsWords(mem[..]), c, edits, list.tasks);
    ValidKept(w, AsWords(mem[..]), list.tasks, list.head, list.tail, list.current);
    assert p in list.tasks;
    LastLeaves(w, AsWords(mem[..]), tasks, p);
  }

  /** A task made, and its address space edited in any way. */
  method EditedTask(heap: Heap, mem: array<byte>, list: TaskList, process: word, edits: seq<Edit>)
    returns (task: word, ghost chunk: word, ghost ps: set<page>)
    requires heap.Valid() && mem.Length == ADDRESS_SPACE && heap.FreeCount() >= ENTRIES + 3
    requires list.Valid(AsWords(mem[..])) && TasksLive(heap.live, AreaOf(heap), list.tasks)
    modifies heap, heap.entries, mem, list
    ensures heap.Valid() && list.Valid(AsWords(mem[..])) && TasksLive(heap.live, AreaOf(heap), list.tasks)
    ensures Aligned(task) && list.tasks == old(list.tasks) + [PageOf(task)]
    ensures Leaves(AsWords(mem[..]), list.tasks, |old(list.tasks)|)
    ensures Field(AsWords(mem[..]), PageOf(task), DIRECTORY) == chunk && Aligned(chunk)
    ensures Owned(heap.live, AreaOf(heap), AsWords(mem[..]), PageOf(chunk))
    ensures ps == {PageOf(task)} + Footprint(AsWords(mem[..]), PageOf(chunk))
    ensures forall p | p in list.tasks :: p !in Footprint(AsWords(mem[..]), PageOf(chunk))
    ensures heap.live - BlocksOf(AreaOf(heap), ps) == old(heap.live)
  {
    ghost var live, tasks := heap.live, list.tasks;
    task, chunk := NewTask(heap, mem, list, process);
    ghost var w, c, p := AsWords(mem[..]), PageOf(chunk), PageOf(task);
    ps := {p} + Footprint(w, c);
    NewTaskIsOwned(live, heap.live, AreaOf(heap), w, p, c, ps);
    EditTask(heap, mem, list, task, edits, tasks, chunk);
  }

  /** A task made, its address space edited in any way, and the task freed: the list and the heap's
      block table are what they were. */
  method TaskLifeCycle(heap: Heap, mem: array<byte>, list: TaskList, process: word, edits: seq<Edit>)
    requires heap.Valid() && mem.Length == ADDRESS_SPACE && heap.FreeCount() >= ENTRIES + 3
    requires list.Valid(AsWords(mem[..])) && TasksLive(heap.live, AreaOf(heap), list.tasks)
    modifies heap, heap.entries, mem, list
    ensures heap.Valid() && heap.live == old(heap.live) && heap.entries[..] == old(heap.entries[..])
    ensures list.Valid(AsWords(mem[..])) && list.tasks == old(list.tasks)
  {
    ghost var table, live, n := heap.entries[..], heap.live, |list.tasks|;
    var task;
    ghost var chunk, ps;
    task, chunk, ps := EditedTask(heap, mem, list, process, edits);
    AddressOf(task);
    FreeTask(heap, mem, list, task, n, ps);
    assert heap.live == live;
    TableIsDetermined(heap.entries[..], table, live);
  }

  lemma LastLeaves(w: seq<word>, after: seq<word>, tasks: seq<page>, p: page)
    requires |w| == |after| == MEMORY_WORDS && Field(w, p, PREV) == Address(Last(tasks)) && SamePage(w, after, p)
    ensures Field(after, p, DIRECTORY) == Field(w, p, DIRECTORY)
    ensures Leaves(after, tasks + [p], |tasks|) && Without(tasks + [p], |tasks|) == tasks
  {
    assert Field(after, p, PREV) == Field(w, p, PREV);
  }
}
