/** Processes beside one another: loading one and running another leaves the rest alone. */
module Isolation {
  import opened Words
  import opened HeapTable
  import opened Heap
  import opened Kheap
  import opened PageTables
  import opened Paging
  import opened Growth
  import opened Paths
  import opened Files
  import opened Loading
  import opened AddressSpace
  import opened Tasks
  import opened TaskLife
  import opened Processes

  /** The address space that the processor uses for a process, found through its task. */
  function Running(w: seq<word>, process: Process): Program
    requires |w| == MEMORY_WORDS
  {
    ProgramOf(process, Field(w, PageOf(process.task), DIRECTORY))
  }

  /** Its pages. */
  function SpaceOf(w: seq<word>, process: Process): set<page>
    requires |w| == MEMORY_WORDS
  {
    Running(w, process).Space(w)
  }

  ghost predicate Runs(live: Live, area: Area, w: seq<word>, tasks: seq<page>, process: Process)
    requires |w| == MEMORY_WORDS
  {
    && Aligned(process.task) && PageOf(process.task) in tasks && Alive(live, area, w, Running(w, process))
    && forall p | p in tasks :: p !in SpaceOf(w, process)
  }

  /** Every process in the table has an address space and a task, and shares no page with another process
      or with a task. Folded. */
  ghost predicate AllRun(live: Live, area: Area, w: seq<word>, tasks: seq<page>, slots: seq<Process?>) {
    forall k: nat | Unfolded(OfSystem, k) ::
      && |w| == MEMORY_WORDS
      && (forall i | 0 <= i < |slots| && slots[i] != null :: Runs(live, area, w, tasks, slots[i]))
      && (forall i, j | 0 <= i < j < |slots| && slots[i] != null && slots[j] != null ::
            SpaceOf(w, slots[i]) !! SpaceOf(w, slots[j]))
  }

  lemma RunsOf(live: Live, area: Area, w: seq<word>, tasks: seq<page>, slots: seq<Process?>, i: nat)
    requires AllRun(live, area, w, tasks, slots) && i < |slots| && slots[i] != null
    ensures |w| == MEMORY_WORDS && Runs(live, area, w, tasks, slots[i])
  {
    assert Unfolded(OfSystem, 0);
  }

  lemma SpacesApart(live: Live, area: Area, w: seq<word>, tasks: seq<page>, slots: seq<Process?>, i: nat, j: nat)
    requires AllRun(live, area, w, tasks, slots) && i < |slots| && j < |slots| && i != j
    requires slots[i] != null && slots[j] != null
    ensures |w| == MEMORY_WORDS && SpaceOf(w, slots[i]) !! SpaceOf(w, slots[j])
  {
    assert Unfolded(OfSystem, 0);
    assert i < j ==> SpaceOf(w, slots[i]) !! SpaceOf(w, slots[j]);
    assert j < i ==> SpaceOf(w, slots[j]) !! SpaceOf(w, slots[i]);
  }

  /** A process runs on if nothing of it is freed, and neither its directory nor its task's link to that is
      written. */
  lemma RunsSame(live: Live, after: Live, area: Area, w: seq<word>, w1: seq<word>, tasks: seq<page>, tasks1: seq<page>,
                 process: Process)
    requires |w| == |w1| == MEMORY_WORDS && Runs(live, area, w, tasks, process) && Keeps(live, after)
    requires forall p | p in Footprint(w, PageOf(Running(w, process).chunk)) :: SamePage(w, w1, p)
    requires Running(w1, process) == Running(w, process)
    requires PageOf(process.task) in tasks1 && forall p | p in tasks1 :: p !in SpaceOf(w, process)
    ensures Runs(after, area, w1, tasks1, process) && SpaceOf(w1, process) == SpaceOf(w, process)
  {
    AliveSame(live, after, area, w, w1, Running(w, process));
  }

  /** If each process runs on where it is, they all do. */
  lemma AllRunSame(live: Live, after: Live, area: Area, w: seq<word>, w1: seq<word>, tasks: seq<page>,
                   tasks1: seq<page>, slots: seq<Process?>)
    requires AllRun(live, area, w, tasks, slots) && |w| == |w1| == MEMORY_WORDS
    requires forall i | 0 <= i < |slots| && slots[i] != null ::
        Runs(after, area, w1, tasks1, slots[i]) && SpaceOf(w1, slots[i]) == SpaceOf(w, slots[i])
    ensures AllRun(after, area, w1, tasks1, slots)
  {
    forall i, j | 0 <= i < j < |slots| && slots[i] != null && slots[j] != null
      ensures SpaceOf(w1, slots[i]) !! SpaceOf(w1, slots[j])
    {
      SpacesApart(live, area, w, tasks, slots, i, j);
    }
  }

  // ---------------------------------------------------------------- loading

  /** Nothing that is live is written but for the last task's link, if at all: no page of a process that
      runs. */
  lemma SpaceSpared(area: Area, a: Snapshot, linked: Snapshot, b: Snapshot, tasks: seq<page>, p: page, process: Process)
    requires |a.words| == |b.words| == MEMORY_WORDS && Recorded(a.table, a.live) && TasksLive(a.live, area, tasks)
    requires Runs(a.live, area, a.words, tasks, process) && (linked == a || linked == Linking(a, Last(tasks), p))
    requires Kept(area, linked, b)
    ensures forall q | q in SpaceOf(a.words, process) :: SamePage(a.words, b.words, q)
    ensures Running(b.words, process) == Running(a.words, process)
  {
    var task := PageOf(process.task);
    assert Unfolded(OfWrites, 0);
    assert Last(tasks) in tasks;
    forall q | q in SpaceOf(a.words, process)
      ensures SamePage(a.words, b.words, q)
    {
      SpaceTaken(a.table, a.live, area, a.words, Running(a.words, process), q);
      assert SamePage(linked.words, b.words, q) && q != Last(tasks);
      assert SamePage(a.words, linked.words, q);
    }
    LiveIsTaken(a.table, a.live, area, task);
    assert SamePage(linked.words, b.words, task);
    assert Field(b.words, task, DIRECTORY) == Field(linked.words, task, DIRECTORY) == Field(a.words, task, DIRECTORY);
  }

  /** What happens to a process that runs while another is loaded: nothing. */
  ghost predicate Untouched(w: seq<word>, w1: seq<word>, process: Process) {
    && |w| == |w1| == MEMORY_WORDS && Running(w1, process) == Running(w, process)
    && forall p | p in SpaceOf(w, process) :: SamePage(w, w1, p)
  }

  ghost predicate AllUntouched(w: seq<word>, w1: seq<word>, slots: seq<Process?>) {
    forall i | 0 <= i < |slots| && slots[i] != null :: Untouched(w, w1, slots[i])
  }

  /** The processes run on, beside at most a new task whose page was vacant. */
  lemma AllRunBeside(area: Area, a: Snapshot, linked: Snapshot, b: Snapshot, tasks: seq<page>, p: page,
                     tasks1: seq<page>, slots: seq<Process?>)
    requires |a.words| == |b.words| == MEMORY_WORDS && Recorded(a.table, a.live) && TasksLive(a.live, area, tasks)
    requires AllRun(a.live, area, a.words, tasks, slots) && Kept(area, linked, b)
    requires linked == a || linked == Linking(a, Last(tasks), p)
    requires tasks1 == tasks || (tasks1 == tasks + [p] && Vacant(a.live, area, p))
    ensures AllRun(b.live, area, b.words, tasks1, slots) && AllUntouched(a.words, b.words, slots)
  {
    forall i | 0 <= i < |slots| && slots[i] != null
      ensures Runs(b.live, area, b.words, tasks1, slots[i]) && Untouched(a.words, b.words, slots[i])
      ensures SpaceOf(b.words, slots[i]) == SpaceOf(a.words, slots[i])
    {
      RunsOf(a.live, area, a.words, tasks, slots, i);
      SpaceSpared(area, a, linked, b, tasks, p, slots[i]);
      if p in SpaceOf(a.words, slots[i]) {
        SpaceTaken(a.table, a.live, area, a.words, Running(a.words, slots[i]), p);
      }
      RunsSame(a.live, b.live, area, a.words, b.words, tasks, tasks1, slots[i]);
    }
    AllRunSame(a.live, b.live, area, a.words, b.words, tasks, tasks1, slots);
  }

  /** A failed load leaves the processes as they are. */
  lemma FailedLoadIsolates(area: Area, a: Snapshot, b: Snapshot, tasks: seq<page>, slots: seq<Process?>)
    requires |a.words| == |b.words| == MEMORY_WORDS && Recorded(a.table, a.live) && TasksLive(a.live, area, tasks)
    requires AllRun(a.live, area, a.words, tasks, slots) && Kept(area, a, b)
    ensures AllRun(b.live, area, b.words, tasks, slots) && AllUntouched(a.words, b.words, slots)
  {
    AllRunBeside(area, a, a, b, tasks, 0, tasks, slots);
  }

  /** A process has joined the others since `a`: its task is behind theirs, it runs in pages that were vacant,
      and nothing that was live has been freed or written to but for the last task's link. */
  ghost predicate Joined(area: Area, a: Snapshot, b: Snapshot, tasks: seq<page>, tasks1: seq<page>, process: Process)
    requires |a.words| == |b.words| == MEMORY_WORDS
  {
    && tasks1 == tasks + [PageOf(process.task)] && Vacant(a.live, area, PageOf(process.task))
    && Kept(area, Linking(a, Last(tasks), PageOf(process.task)), b)
    && Runs(b.live, area, b.words, tasks1, process) && AllVacant(a.live, area, SpaceOf(b.words, process))
  }

  /** One that was made has. */
  lemma MadeRuns(area: Area, list: TaskList, a: Snapshot, b: Snapshot, tasks: seq<page>, process: Process, chunk: word)
    requires |a.words| == |b.words| == MEMORY_WORDS && Recorded(a.table, a.live) && TasksLive(a.live, area, tasks)
    requires ProcessMade(area, list, a, b, tasks, process, chunk)
    ensures Running(b.words, process) == ProgramOf(process, chunk)
    ensures Joined(area, a, b, tasks, list.tasks, process)
  {
    assert Unfolded(OfVacant, 0);
    forall p | p in list.tasks
      ensures p !in SpaceOf(b.words, process)
    {
      if p in tasks {
        LiveIsTaken(a.table, a.live, area, p);
      }
    }
  }

  /** Then it runs beside those that did, and they are untouched. */
  lemma JoinedIsolates(area: Area, a: Snapshot, b: Snapshot, tasks: seq<page>, tasks1: seq<page>, slots: seq<Process?>,
                       slot: nat, process: Process)
    requires |a.words| == |b.words| == MEMORY_WORDS && Recorded(a.table, a.live) && TasksLive(a.live, area, tasks)
    requires AllRun(a.live, area, a.words, tasks, slots) && slot < |slots| && slots[slot] == null
    requires Joined(area, a, b, tasks, tasks1, process)
    ensures AllRun(b.live, area, b.words, tasks1, slots[slot := process]) && AllUntouched(a.words, b.words, slots)
  {
    var p, all := PageOf(process.task), slots[slot := process];
    AllRunBeside(area, a, Linking(a, Last(tasks), p), b, tasks, p, tasks1, slots);
    forall i | 0 <= i < |all| && all[i] != null
      ensures Runs(b.live, area, b.words, tasks1, all[i])
      ensures i != slot ==> SpaceOf(b.words, all[i]) !! SpaceOf(b.words, process)
    {
      if i != slot {
        RunsOf(b.live, area, b.words, tasks1, slots, i);
        RunsOf(a.live, area, a.words, tasks, slots, i);
        NewSpaceApart(a.table, a.live, area, a.words, b.words, slots[i], Running(b.words, process));
      }
    }
    forall i, j | 0 <= i < j < |all| && all[i] != null && all[j] != null
      ensures SpaceOf(b.words, all[i]) !! SpaceOf(b.words, all[j])
    {
      if i != slot && j != slot {
        SpacesApart(b.live, area, b.words, tasks1, slots, i, j);
      }
    }
  }

  /** A process that was loaded runs beside those that did, and they are untouched. */
  lemma LoadIsolates(area: Area, list: TaskList, a: Snapshot, b: Snapshot, tasks: seq<page>, slots: seq<Process?>,
                     slot: nat, process: Process, chunk: word)
    requires |a.words| == |b.words| == MEMORY_WORDS && Recorded(a.table, a.live) && TasksLive(a.live, area, tasks)
    requires AllRun(a.live, area, a.words, tasks, slots) && slot < |slots| && slots[slot] == null
    requires ProcessMade(area, list, a, b, tasks, process, chunk)
    ensures AllRun(b.live, area, b.words, list.tasks, slots[slot := process])
    ensures AllUntouched(a.words, b.words, slots) && Running(b.words, process) == ProgramOf(process, chunk)
    ensures Joined(area, a, b, tasks, list.tasks, process)
  {
    MadeRuns(area, list, a, b, tasks, process, chunk);
    JoinedIsolates(area, a, b, tasks, list.tasks, slots, slot, process);
  }

  lemma NewSpaceApart(t: Table, live: Live, area: Area, w: seq<word>, w1: seq<word>, process: Process, g: Program)
    requires |w| == MEMORY_WORDS && Recorded(t, live) && Alive(live, area, w, Running(w, process))
    requires Untouched(w, w1, process) && AllVacant(live, area, g.Space(w1))
    ensures SpaceOf(w1, process) !! g.Space(w1)
  {
    assert Unfolded(OfVacant, 0);
    AliveIs(live, area, w, Running(w, process));
    ChunkSame(w, w1, PageOf(Running(w, process).chunk));
    forall p | p in SpaceOf(w1, process)
      ensures p !in g.Space(w1)
    {
      SpaceTaken(t, live, area, w, Running(w, process), p);
    }
  }

  lemma ShownIsStored(ram: seq<byte>, g: Program, bytes: seq<byte>)
    requires |ram| == ADDRESS_SPACE && Shows(ram, g.chunk, bytes) && g.size == |bytes|
    requires ProgramEntries(AsWords(ram), g.Directory(AsWords(ram)), g.ptr, g.size, g.stack)
    ensures ram[g.ptr..g.ptr + g.size] == bytes && ram[g.stack..g.stack + STACK_SIZE] == Zeros(STACK_SIZE)
  {
    var w, d := AsWords(ram), DirectoryOf(ram, g.chunk);
    assert d == g.Directory(w);
    forall k | g.ptr <= k < g.ptr + g.size
      ensures ram[k] == bytes[k - g.ptr]
    {
      var a: word := PROGRAM_START + (k - g.ptr);
      EntriesTranslate(w, d, g.ptr, g.size, g.stack, a);
      assert ram[Translate(w, d, a)] == bytes[a - PROGRAM_START];
    }
    forall k | g.stack <= k < g.stack + STACK_SIZE
      ensures ram[k] == 0
    {
      var a: word := STACK_BOTTOM + (k - g.stack);
      EntriesTranslate(w, d, g.ptr, g.size, g.stack, a);
      assert ram[Translate(w, d, a)] == 0;
    }
  }

  /** An untouched process sees what it saw. */
  lemma StillShows(live: Live, area: Area, ram: seq<byte>, ram1: seq<byte>, process: Process, bytes: seq<byte>)
    requires |ram| == |ram1| == ADDRESS_SPACE && Untouched(AsWords(ram), AsWords(ram1), process)
    requires Alive(live, area, AsWords(ram), Running(AsWords(ram), process)) && process.size == |bytes|
    requires Shows(ram, Running(AsWords(ram), process).chunk, bytes)
    ensures Shows(ram1, Running(AsWords(ram1), process).chunk, bytes)
  {
    var w, g := AsWords(ram), Running(AsWords(ram), process);
    AliveIs(live, area, w, g);
    ShownIsStored(ram, g, bytes);
    ChunkSame(w, AsWords(ram1), PageOf(g.chunk));
    BytesSame(ram, ram1, g.ptr, g.size);
    BytesSame(ram, ram1, g.stack, STACK_SIZE);
    EntriesShow(ram1, g.chunk, g.ptr, g.stack, bytes);
  }

  /** `process_load` while processes run: whether it succeeds or not they all run on, untouched, and the new
      one runs beside them. */
  method LoadBeside(heap: Heap, mem: array<byte>, files: FileTable, m: Mounted, list: TaskList, processes: ProcessTable,
                    filename: CString, ghost named: set<nat>, ghost name: CString, ghost q: Quote)
    returns (res: int, process: Process?, ghost chunk: word, ghost b: Bill, ghost data: Table, ghost stack: Table)
    requires heap.Valid() && BelowTop(heap) && mem.Length == ADDRESS_SPACE && |files.slots| == MAX_DESCRIPTORS
    requires list.Valid(AsWords(mem[..])) && TasksLive(heap.live, AreaOf(heap), list.tasks)
    requires m.disk.Valid() && |processes.slots| == MAX_PROCESSES
    requires Asks(m.root, filename, named, name) && Quoted(q, m.root, filename, named) && CanLoad(heap.entries[..], q)
    requires AllRun(heap.live, AreaOf(heap), AsWords(mem[..]), list.tasks, processes.slots)
    modifies heap, heap.entries, mem, files, m.disk.fatStream, m.disk.clusterStream, list, processes
    ensures heap.Valid() && list.Valid(AsWords(mem[..])) && TasksLive(heap.live, AreaOf(heap), list.tasks)
    ensures null !in old(processes.slots) ==> res == -EISTKN
    ensures null in old(processes.slots) ==>
      && Asked(b, q, old(heap.entries[..]), data, stack) && res == SlotResult(b, old(heap.entries[..]), stack)
      && (HasRun(old(heap.entries[..]), PROCESS_BLOCKS) ==> Billed(b, m, filename, named, old(files.slots), data))
    ensures AllRun(heap.live, AreaOf(heap), AsWords(mem[..]), list.tasks, processes.slots)
    ensures AllUntouched(AsWords(old(mem[..])), AsWords(mem[..]), old(processes.slots))
    ensures res != 0 ==>
      && processes.slots == old(processes.slots) && unchanged(list)
      && Kept(AreaOf(heap), old(Snap(heap, mem)), Snap(heap, mem))
    ensures res == 0 ==>
      && process != null && process.id < MAX_PROCESSES && old(processes.slots)[process.id] == null
      && Joined(AreaOf(heap), old(Snap(heap, mem)), Snap(heap, mem), old(list.tasks), list.tasks, process)
      && processes.slots == old(processes.slots)[process.id := process]
      && FileOf(m, named).Some? && Shows(mem[..], Running(AsWords(mem[..]), process).chunk, FileOf(m, named).value)
  {
    ghost var s0, area, tasks, slots := Snap(heap, mem), AreaOf(heap), list.tasks, processes.slots;
    res, process, chunk, b, data, stack := Load(heap, mem, files, m, list, processes, filename, named, name, q);
    if res == 0 {
      LoadIsolates(area, list, s0, Snap(heap, mem), tasks, slots, process.id, process, chunk);
    } else {
      FailedLoadIsolates(area, s0, Snap(heap, mem), tasks, slots);
    }
  }

  // ---------------------------------------------------------------- running

  /** The pages that hold a process's program and stack. */
  function BodyOf(process: Process): set<page> {
    PagesAt(process.ptr, process.size) + PagesAt(process.stack, STACK_SIZE)
  }

  /** What a process can store to is its program and its stack. It can read everything. */
  lemma StoresStayInside(w: seq<word>, g: Program, a: word)
    requires |w| == MEMORY_WORDS && ProgramEntries(w, g.Directory(w), g.ptr, g.size, g.stack)
    ensures UserWrites(w, g.Directory(w), PageOf(a)) <==> OwnRange(g.size, PageOf(a))
    ensures UserWrites(w, g.Directory(w), PageOf(a)) ==> PageOf(Translate(w, g.Directory(w), a)) in g.Body()
    ensures UserReads(w, g.Directory(w), PageOf(a))
  {
    var u, e := PageOf(a), Entry(w, g.Directory(w), PageOf(a));
    ProgramIsOpen(w, g.Directory(w), g.ptr, g.size, g.stack, a);
    assert e == ProgramEntry(g.ptr, g.size, g.stack, u);
    if Within(u, PROGRAM_START, g.size) {
      EntryForPage(PageOf(g.ptr) + u - PageOf(PROGRAM_START), PROGRAM_FLAGS);
      assert Within(PageOf(e), g.ptr, g.size);
    } else if PageOf(STACK_BOTTOM) <= u < PageOf(STACK_TOP) {
      EntryForPage(PageOf(g.stack) + u - PageOf(STACK_BOTTOM), PROGRAM_FLAGS);
      assert Within(PageOf(e), g.stack, STACK_SIZE);
    }
  }

  /** A store by a program that runs in `g`. Where it may not write, the processor stops it. */
  function UserStore(ram: seq<byte>, g: Program, a: word, value: byte): (r: seq<byte>)
    requires |ram| == ADDRESS_SPACE
    ensures |r| == ADDRESS_SPACE
  {
    var w := AsWords(ram);
    if UserWrites(w, g.Directory(w), PageOf(a)) then ram[Translate(w, g.Directory(w), a) := value] else ram
  }

  lemma ByteStored(ram: seq<byte>, after: seq<byte>, at: word, value: byte)
    requires |ram| == ADDRESS_SPACE && after == ram[at := value]
    ensures SameOutside(AsWords(ram), AsWords(after), {PageOf(at)})
  {
    forall q: page | q != PageOf(at)
      ensures SamePage(AsWords(ram), AsWords(after), q)
    {
      forall k | q * ENTRIES <= k < q * ENTRIES + ENTRIES
        ensures AsWords(after)[k] == AsWords(ram)[k]
      {
        SameBytesSameWord(ram, after, k);
      }
    }
  }

  /** It changes no other page. */
  lemma UserStoreInBody(ram: seq<byte>, g: Program, a: word, value: byte)
    requires |ram| == ADDRESS_SPACE
    requires ProgramEntries(AsWords(ram), g.Directory(AsWords(ram)), g.ptr, g.size, g.stack)
    ensures SameOutside(AsWords(ram), AsWords(UserStore(ram, g, a, value)), g.Body())
  {
    StoresStayInside(AsWords(ram), g, a);
    var at := Translate(AsWords(ram), g.Directory(AsWords(ram)), a);
    ByteStored(ram, ram[at := value], at, value);
  }

  datatype Store = Store(slot: nat, at: word, value: byte)

  /** The process in a slot stores a byte. */
  function StoreBy(ram: seq<byte>, slots: seq<Process?>, s: Store): (r: seq<byte>)
    requires |ram| == ADDRESS_SPACE
    ensures |r| == ADDRESS_SPACE
  {
    if s.slot < |slots| && slots[s.slot] != null
    then UserStore(ram, Running(AsWords(ram), slots[s.slot]), s.at, s.value) else ram
  }

  /** Any interleaving of what the processes store. */
  function Stores(ram: seq<byte>, slots: seq<Process?>, run: seq<Store>): (r: seq<byte>)
    requires |ram| == ADDRESS_SPACE
    ensures |r| == ADDRESS_SPACE
  {
    if run == [] then ram else StoreBy(Stores(ram, slots, run[..|run| - 1]), slots, run[|run| - 1])
  }

  /** What one of them stores. */
  function Own(run: seq<Store>, j: nat): seq<Store> {
    if run == [] then []
    else Own(run[..|run| - 1], j) + if run[|run| - 1].slot == j then [run[|run| - 1]] else []
  }

  /** The processes have the same address spaces. */
  ghost predicate SpacesSame(w: seq<word>, w1: seq<word>, slots: seq<Process?>) {
    && |w| == |w1| == MEMORY_WORDS
    && forall i | 0 <= i < |slots| && slots[i] != null ::
         Running(w1, slots[i]) == Running(w, slots[i]) && SpaceOf(w1, slots[i]) == SpaceOf(w, slots[i])
  }

  /** A process's own pages are not those of another's directory, nor of a task. */
  lemma BodyApart(live: Live, area: Area, w: seq<word>, tasks: seq<page>, slots: seq<Process?>, i: nat, j: nat)
    requires AllRun(live, area, w, tasks, slots) && i < |slots| && j < |slots|
    requires slots[i] != null && slots[j] != null
    ensures |w| == MEMORY_WORDS && Running(w, slots[i]).Body() !! Footprint(w, PageOf(Running(w, slots[j]).chunk))
    ensures PageOf(slots[j].task) !in Running(w, slots[i]).Body()
    ensures ProgramEntries(w, Running(w, slots[i]).Directory(w), slots[i].ptr, slots[i].size, slots[i].stack)
  {
    RunsOf(live, area, w, tasks, slots, i);
    RunsOf(live, area, w, tasks, slots, j);
    AliveIs(live, area, w, Running(w, slots[i]));
    if i != j {
      SpacesApart(live, area, w, tasks, slots, i, j);
    }
  }

  /** A store leaves every address space where it is, and writes only to the pages of the process's program
      and stack. */
  lemma StoreKeeps(live: Live, area: Area, ram: seq<byte>, tasks: seq<page>, slots: seq<Process?>, s: Store)
    requires |ram| == ADDRESS_SPACE && AllRun(live, area, AsWords(ram), tasks, slots)
    requires s.slot < |slots| && slots[s.slot] != null
    ensures var w, w1 := AsWords(ram), AsWords(StoreBy(ram, slots, s));
      && AllRun(live, area, w1, tasks, slots) && SpacesSame(w, w1, slots)
      && SameOutside(w, w1, Running(w, slots[s.slot]).Body())
  {
    var w, w1, g := AsWords(ram), AsWords(StoreBy(ram, slots, s)), Running(AsWords(ram), slots[s.slot]);
    BodyApart(live, area, w, tasks, slots, s.slot, s.slot);
    UserStoreInBody(ram, g, s.at, s.value);
    assert Keeps(live, live);
    forall j | 0 <= j < |slots| && slots[j] != null
      ensures Runs(live, area, w1, tasks, slots[j])
      ensures Running(w1, slots[j]) == Running(w, slots[j]) && SpaceOf(w1, slots[j]) == SpaceOf(w, slots[j])
    {
      BodyApart(live, area, w, tasks, slots, s.slot, j);
      RunsOf(live, area, w, tasks, slots, j);
      assert SamePage(w, w1, PageOf(slots[j].task));
      assert Field(w1, PageOf(slots[j].task), DIRECTORY) == Field(w, PageOf(slots[j].task), DIRECTORY);
      RunsSame(live, live, area, w, w1, tasks, tasks, slots[j]);
    }
    AllRunSame(live, live, area, w, w1, tasks, tasks, slots);
  }

  /** However the processes' stores interleave, they all run on in the same address spaces. */
  lemma {:induction false} StoresKeep(live: Live, area: Area, ram: seq<byte>, tasks: seq<page>, slots: seq<Process?>,
                                      run: seq<Store>)
    requires |ram| == ADDRESS_SPACE && AllRun(live, area, AsWords(ram), tasks, slots)
    ensures var w1 := AsWords(Stores(ram, slots, run));
      AllRun(live, area, w1, tasks, slots) && SpacesSame(AsWords(ram), w1, slots)
  {
    if run != [] {
      var s, before := run[|run| - 1], Stores(ram, slots, run[..|run| - 1]);
      StoresKeep(live, area, ram, tasks, slots, run[..|run| - 1]);
      if s.slot < |slots| && slots[s.slot] != null {
        StoreKeeps(live, area, before, tasks, slots, s);
      }
    }
  }

  /** And no page is written that is not some process's program or stack: not the kernel's, not a task, not
      a page table. */
  lemma {:induction false} StoresSpare(live: Live, area: Area, ram: seq<byte>, tasks: seq<page>, slots: seq<Process?>,
                                       run: seq<Store>, p: page)
    requires |ram| == ADDRESS_SPACE && AllRun(live, area, AsWords(ram), tasks, slots)
    requires forall i | 0 <= i < |slots| && slots[i] != null :: p !in Running(AsWords(ram), slots[i]).Body()
    ensures SamePage(AsWords(ram), AsWords(Stores(ram, slots, run)), p)
  {
    if run != [] {
      var s, before := run[|run| - 1], Stores(ram, slots, run[..|run| - 1]);
      StoresSpare(live, area, ram, tasks, slots, run[..|run| - 1], p);
      StoresKeep(live, area, ram, tasks, slots, run[..|run| - 1]);
      if s.slot < |slots| && slots[s.slot] != null {
        StoreKeeps(live, area, before, tasks, slots, s);
      }
    }
  }

  /** So the task list stays sound, and the next process can be loaded. */
  lemma StoresKeepList(live: Live, area: Area, ram: seq<byte>, list: TaskList, slots: seq<Process?>, run: seq<Store>)
    requires |ram| == ADDRESS_SPACE && AllRun(live, area, AsWords(ram), list.tasks, slots) && list.Valid(AsWords(ram))
    ensures list.Valid(AsWords(Stores(ram, slots, run)))
  {
    var w, w1 := AsWords(ram), AsWords(Stores(ram, slots, run));
    forall p | p in list.tasks
      ensures SamePage(w, w1, p)
    {
      forall i | 0 <= i < |slots| && slots[i] != null
        ensures p !in Running(w, slots[i]).Body()
      {
        RunsOf(live, area, w, list.tasks, slots, i);
      }
      StoresSpare(live, area, ram, list.tasks, slots, run, p);
    }
    ValidKept(w, w1, list.tasks, list.head, list.tail, list.current);
  }

  /** Two memories that agree on a directory and on a page still do after the same store. */
  lemma UserStoreAlike(ram: seq<byte>, other: seq<byte>, g: Program, a: word, value: byte, p: page)
    requires |ram| == |other| == ADDRESS_SPACE && ChunkOk(AsWords(ram), PageOf(g.chunk))
    requires forall q | q in Footprint(AsWords(ram), PageOf(g.chunk)) :: SamePage(AsWords(ram), AsWords(other), q)
    requires SamePage(AsWords(ram), AsWords(other), p)
    ensures SamePage(AsWords(UserStore(ram, g, a, value)), AsWords(UserStore(other, g, a, value)), p)
  {
    var after, after1 := UserStore(ram, g, a, value), UserStore(other, g, a, value);
    ChunkSame(AsWords(ram), AsWords(other), PageOf(g.chunk));
    forall k | p * ENTRIES <= k < p * ENTRIES + ENTRIES
      ensures AsWords(after1)[k] == AsWords(after)[k]
    {
      SameWordSameBytes(ram, other, k);
      SameBytesSameWord(after, after1, k);
    }
  }

  /** However the processes' stores interleave, the memory of each is what its own stores make of it. */
  lemma {:induction false} OwnStoresOnly(live: Live, area: Area, ram: seq<byte>, tasks: seq<page>, slots: seq<Process?>,
                                         run: seq<Store>, j: nat)
    requires |ram| == ADDRESS_SPACE && AllRun(live, area, AsWords(ram), tasks, slots) && j < |slots| && slots[j] != null
    ensures forall p | p in SpaceOf(AsWords(ram), slots[j]) ::
        SamePage(AsWords(Stores(ram, slots, Own(run, j))), AsWords(Stores(ram, slots, run)), p)
  {
    if run != [] {
      var r, s := run[..|run| - 1], run[|run| - 1];
      OwnStoresOnly(live, area, ram, tasks, slots, r, j);
      StoresKeep(live, area, ram, tasks, slots, r);
      StoresKeep(live, area, ram, tasks, slots, Own(r, j));
      OneMoreStore(live, area, Stores(ram, slots, Own(r, j)), Stores(ram, slots, r), tasks, slots, s, j);
      if s.slot == j {
        assert Own(run, j)[..|Own(run, j)| - 1] == Own(r, j);
      } else {
        assert Own(run, j) == Own(r, j);
      }
    }
  }

  /** The step of that: a store by process `j` itself, which happens in both runs, or by another. */
  lemma OneMoreStore(live: Live, area: Area, alone: seq<byte>, ram: seq<byte>, tasks: seq<page>, slots: seq<Process?>,
                     s: Store, j: nat)
    requires |alone| == |ram| == ADDRESS_SPACE && j < |slots| && slots[j] != null
    requires AllRun(live, area, AsWords(alone), tasks, slots) && AllRun(live, area, AsWords(ram), tasks, slots)
    requires SpacesSame(AsWords(alone), AsWords(ram), slots)
    requires forall p | p in SpaceOf(AsWords(alone), slots[j]) :: SamePage(AsWords(alone), AsWords(ram), p)
    ensures forall p | p in SpaceOf(AsWords(alone), slots[j]) ::
        SamePage(AsWords(if s.slot == j then StoreBy(alone, slots, s) else alone), AsWords(StoreBy(ram, slots, s)), p)
  {
    var g := Running(AsWords(alone), slots[j]);
    if s.slot == j {
      RunsOf(live, area, AsWords(alone), tasks, slots, j);
      AliveIs(live, area, AsWords(alone), g);
      forall p | p in g.Space(AsWords(alone))
        ensures SamePage(AsWords(StoreBy(alone, slots, s)), AsWords(StoreBy(ram, slots, s)), p)
      {
        UserStoreAlike(alone, ram, g, s.at, s.value, p);
      }
    } else if s.slot < |slots| && slots[s.slot] != null {
      StoreKeeps(live, area, ram, tasks, slots, s);
      SpacesApart(live, area, AsWords(ram), tasks, slots, s.slot, j);
      forall p | p in SpaceOf(AsWords(alone), slots[j])
        ensures SamePage(AsWords(alone), AsWords(StoreBy(ram, slots, s)), p)
      {
        assert SamePage(AsWords(ram), AsWords(StoreBy(ram, slots, s)), p);
      }
    }
  }
}
