/** Copying a string out of a process that runs beside others. */
module CopyBeside {
  import opened Words
  import opened HeapTable
  import opened Heap
  import opened Kheap
  import opened PageTables
  import opened Paging
  import opened Growth
  import opened AddressSpace
  import opened Tasks
  import opened TaskLife
  import opened Processes
  import opened Isolation
  import opened CopyString

  /** The string at `a`, up to its terminator or `n` characters, is in the process's own ranges, at no
      address of page `t`. */
  ghost predicate InOwnRange(ram: seq<byte>, g: Program, a: word, n: nat, t: page)
    requires |ram| == ADDRESS_SPACE
    decreases n
  {
    n == 0 ||
    ( && OwnRange(g.size, PageOf(a)) && PageOf(a) != t
      && (Peek(ram, g.Directory(AsWords(ram)), a) == 0 || InOwnRange(ram, g, Wrap(a + 1), n - 1, t)))
  }

  /** Such a string is apart from the page tables and from a block that is not the process's. */
  lemma {:induction false} OwnStringApart(ram: seq<byte>, g: Program, a: word, n: nat, t: page, ps: set<page>)
    requires |ram| == ADDRESS_SPACE && InOwnRange(ram, g, a, n, t) && ps !! g.Body()
    requires ProgramEntries(AsWords(ram), g.Directory(AsWords(ram)), g.ptr, g.size, g.stack)
    ensures SourceApart(ram, g.Directory(AsWords(ram)), a, n, t, ps)
    decreases n
  {
    if n > 0 {
      StoresStayInside(AsWords(ram), g, a);
      if Peek(ram, g.Directory(AsWords(ram)), a) != 0 {
        OwnStringApart(ram, g, Wrap(a + 1), n - 1, t, ps);
      }
    }
  }

  function Pages(tasks: seq<page>): set<page> {
    set p | p in tasks
  }

  /** The place is in no page of a process or of a task. */
  ghost predicate Aside(w: seq<word>, tasks: seq<page>, slots: seq<Process?>, phys: word, n: nat)
    requires |w| == MEMORY_WORDS
  {
    && Beside(phys, n, Pages(tasks))
    && forall i | 0 <= i < |slots| && slots[i] != null :: Beside(phys, n, SpaceOf(w, slots[i]))
  }

  /** A page that the copy does not go to. */
  lemma PageSpared(ram: seq<byte>, after: seq<byte>, phys: word, s: seq<byte>, t: page, n: nat, ps: set<page>, p: page)
    requires |ram| == ADDRESS_SPACE && DeliveredTo(ram, after, phys, s, t) && |s| < n && Beside(phys, n, ps)
    requires p in ps && p != t
    ensures SamePage(AsWords(ram), AsWords(after), p)
  {
    forall k | p * ENTRIES <= k < p * ENTRIES + ENTRIES
      ensures AsWords(after)[k] == AsWords(ram)[k]
    {
      SameBytesSameWord(ram, after, k);
    }
  }

  /** So processes and tasks are left alone. */
  lemma CopySpares(table: Table, live: Live, area: Area, ram: seq<byte>, after: seq<byte>, tasks: seq<page>,
                   slots: seq<Process?>, phys: word, s: seq<byte>, t: page, n: nat)
    requires |ram| == |after| == ADDRESS_SPACE && Recorded(table, live) && TasksLive(live, area, tasks)
    requires AllRun(live, area, AsWords(ram), tasks, slots) && Vacant(live, area, t)
    requires Aside(AsWords(ram), tasks, slots, phys, n) && |s| < n && DeliveredTo(ram, after, phys, s, t)
    ensures AllRun(live, area, AsWords(after), tasks, slots) && AllUntouched(AsWords(ram), AsWords(after), slots)
    ensures forall p | p in tasks :: SamePage(AsWords(ram), AsWords(after), p)
  {
    var w, w1 := AsWords(ram), AsWords(after);
    forall p | p in tasks
      ensures SamePage(w, w1, p)
    {
      LiveIsTaken(table, live, area, p);
      PageSpared(ram, after, phys, s, t, n, Pages(tasks), p);
    }
    assert Keeps(live, live);
    forall i | 0 <= i < |slots| && slots[i] != null
      ensures Runs(live, area, w1, tasks, slots[i]) && Untouched(w, w1, slots[i])
      ensures SpaceOf(w1, slots[i]) == SpaceOf(w, slots[i])
    {
      RunsOf(live, area, w, tasks, slots, i);
      forall p | p in SpaceOf(w, slots[i])
        ensures SamePage(w, w1, p)
      {
        SpaceTaken(table, live, area, w, Running(w, slots[i]), p);
        PageSpared(ram, after, phys, s, t, n, SpaceOf(w, slots[i]), p);
      }
      assert Field(w1, PageOf(slots[i].task), DIRECTORY) == Field(w, PageOf(slots[i].task), DIRECTORY);
      RunsSame(live, live, area, w, w1, tasks, tasks, slots[i]);
    }
    AllRunSame(live, live, area, w, w1, tasks, tasks, slots);
  }

  lemma PlaceBeside(w: seq<word>, tasks: seq<page>, slots: seq<Process?>, i: nat, phys: word, n: nat, t: page)
    requires |w| == MEMORY_WORDS && Aside(w, tasks, slots, phys, n) && Beside(phys, n, {t})
    requires i < |slots| && slots[i] != null
    ensures Beside(phys, n, Footprint(w, PageOf(Running(w, slots[i]).chunk)) + {t})
  {
    assert Beside(phys, n, SpaceOf(w, slots[i])) && t in {t};
    forall p | p in Footprint(w, PageOf(Running(w, slots[i]).chunk))
      ensures (p + 1) * PAGE_SIZE <= phys || phys + n <= p * PAGE_SIZE
    {
      assert p in SpaceOf(w, slots[i]);
    }
  }

  lemma OwnSource(table: Table, live: Live, area: Area, ram: seq<byte>, tasks: seq<page>, slots: seq<Process?>, i: nat,
                  a: word, n: nat, t: page)
    requires |ram| == ADDRESS_SPACE && AllRun(live, area, AsWords(ram), tasks, slots) && Recorded(table, live)
    requires i < |slots| && slots[i] != null && Vacant(live, area, t)
    requires InOwnRange(ram, Running(AsWords(ram), slots[i]), a, n, t)
    ensures var d := DirectoryOf(ram, Running(AsWords(ram), slots[i]).chunk);
      SourceApart(ram, d, a, n, t, Busy(AsWords(ram), d, t))
  {
    var g := Running(AsWords(ram), slots[i]);
    RunsOf(live, area, AsWords(ram), tasks, slots, i);
    AliveIs(live, area, AsWords(ram), g);
    if t in g.Space(AsWords(ram)) {
      SpaceTaken(table, live, area, AsWords(ram), g, t);
    }
    OwnStringApart(ram, g, a, n, t, Busy(AsWords(ram), DirectoryOf(ram, g.chunk), t));
  }

  /** What `copy_string_from_task` asks for is met by a process's own string and a clear place. */
  lemma MayCopyOwn(heap: Heap, ram: seq<byte>, list: TaskList, slots: seq<Process?>, i: nat, virt: word, phys: word,
                   max: nat, t: page)
    requires heap.Valid() && |ram| == ADDRESS_SPACE && max > 0 && i < |slots| && slots[i] != null
    requires AllRun(heap.live, AreaOf(heap), AsWords(ram), list.tasks, slots)
    requires StartBlock(heap.entries[..], 1) >= 0 && t == AreaOf(heap).first + StartBlock(heap.entries[..], 1)
    requires InOwnRange(ram, Running(AsWords(ram), slots[i]), virt, max - 1, t)
    requires Aside(AsWords(ram), list.tasks, slots, phys, max) && Beside(phys, max, {t})
    ensures MayCopy(heap, ram, Running(AsWords(ram), slots[i]).chunk, virt, phys, max, t)
  {
    FirstFreeIsUnused(heap.entries[..], heap.live);
    OwnSource(heap.entries[..], heap.live, AreaOf(heap), ram, list.tasks, slots, i, virt, max - 1, t);
    PlaceBeside(AsWords(ram), list.tasks, slots, i, phys, max, t);
  }

  /** `copy_string_from_task` for a process that runs beside others: its own string arrives, and all
      processes run on untouched. */
  method CopyFromProcess(heap: Heap, mem: array<byte>, list: TaskList, processes: ProcessTable, process: Process,
                         virt: word, phys: word, max: nat, ghost i: nat, ghost t: page)
    returns (res: int)
    requires heap.Valid() && mem.Length == ADDRESS_SPACE && list.Valid(AsWords(mem[..])) && 0 < max
    requires TasksLive(heap.live, AreaOf(heap), list.tasks) && i < |processes.slots| && processes.slots[i] == process
    requires AllRun(heap.live, AreaOf(heap), AsWords(mem[..]), list.tasks, processes.slots)
    requires max < PAGE_SIZE && StartBlock(heap.entries[..], 1) >= 0 ==>
      && t == AreaOf(heap).first + StartBlock(heap.entries[..], 1)
      && InOwnRange(mem[..], Running(AsWords(mem[..]), process), virt, max - 1, t)
      && Aside(AsWords(mem[..]), list.tasks, processes.slots, phys, max) && Beside(phys, max, {t})
    modifies heap, heap.entries, mem
    ensures heap.Valid() && heap.live == old(heap.live) && heap.entries[..] == old(heap.entries[..])
    ensures res == if max >= PAGE_SIZE then -EINVARG
      else if StartBlock(old(heap.entries[..]), 1) < 0 then -ENOMEM else 0
    ensures res != 0 ==> mem[..] == old(mem[..])
    ensures res == 0 ==>
      var ram := old(mem[..]); var g := Running(AsWords(ram), process);
      && DeliveredTo(ram, mem[..], phys, Seen(ram, g.Directory(AsWords(ram)), virt, max - 1), t)
      && Vacant(heap.live, AreaOf(heap), t)
    ensures AllRun(heap.live, AreaOf(heap), AsWords(mem[..]), list.tasks, processes.slots)
    ensures AllUntouched(AsWords(old(mem[..])), AsWords(mem[..]), processes.slots) && list.Valid(AsWords(mem[..]))
  {
    ghost var table, live, ram, area := heap.entries[..], heap.live, mem[..], AreaOf(heap);
    ghost var g := Running(AsWords(ram), process);
    RunsOf(live, area, AsWords(ram), list.tasks, processes.slots, i);
    AliveIs(live, area, AsWords(ram), g);
    if max < PAGE_SIZE && StartBlock(table, 1) >= 0 {
      MayCopyOwn(heap, ram, list, processes.slots, i, virt, phys, max, t);
    }
    var chunk := LoadField(mem, process.task, DIRECTORY);
    res := CopyStringFromTask(heap, mem, chunk, virt, phys, max, t);
    if res == 0 {
      CopySpares(table, live, area, ram, mem[..], list.tasks, processes.slots, phys,
                 Seen(ram, g.Directory(AsWords(ram)), virt, max - 1), t, max);
      ValidKept(AsWords(ram), AsWords(mem[..]), list.tasks, list.head, list.tail, list.current);
    }
  }
}
