/** Whole runs: loads, turns of processes, task switches and copies in any order. */
module Histories {
  import opened Words
  import opened HeapTable
  import opened Heap
  import opened Kheap
  import opened PageTables
  import opened Growth
  import opened Paths
  import opened Files
  import opened Loading
  import opened AddressSpace
  import opened Tasks
  import opened TaskLife
  import opened Processes
  import opened Isolation
  import opened Interference
  import opened CopyString
  import opened CopyBeside

  /** The heap, memory, the task list and the processes. */
  datatype Machine = Machine(live: Live, table: Table, ram: seq<byte>, tasks: seq<page>, head: word, tail: word,
                             current: word, slots: seq<Process?>)
  {
    function Words(): seq<word> {
      AsWords(ram)
    }

    function Shot(): Snapshot {
      Snapshot(live, AsWords(ram), table)
    }
  }

  ghost function MachineOf(heap: Heap, mem: array<byte>, list: TaskList, processes: ProcessTable): Machine
    reads heap, heap.entries, mem, list, processes
  {
    Machine(heap.live, heap.entries[..], mem[..], list.tasks, list.head, list.tail, list.current, processes.slots)
  }

  /** What can happen: a process is made in a slot, or a load fails; a process takes a turn; the current task
      changes to the next; a string of at most `n` bytes with its end is copied to `to` through page `t`. */
  datatype Event =
    | Made(slot: nat, process: Process) | Failed | Turn(slot: nat, action: Action) | Switch
    | Copied(to: word, n: nat, text: seq<byte>, t: page)

  ghost predicate Chained(a: Machine)
    requires |a.ram| == ADDRESS_SPACE
  {
    ChainAt(a.Words(), a.tasks, a.head, a.tail, a.current) && PrevsAligned(a.Words(), a.tasks)
  }

  /** The heap's table records the allocations, the tasks among them are chained, and the processes run
      beside one another. */
  ghost predicate Sound(area: Area, a: Machine) {
    && |a.ram| == ADDRESS_SPACE && Recorded(a.table, a.live) && TasksLive(a.live, area, a.tasks) && Chained(a)
    && AllRun(a.live, area, a.Words(), a.tasks, a.slots)
  }

  ghost predicate Step(area: Area, a: Machine, e: Event, b: Machine)
    requires |a.ram| == |b.ram| == ADDRESS_SPACE
  {
    match e
    case Made(i, p) =>
      && i < |a.slots| && a.slots[i] == null && b.slots == a.slots[i := p] && Recorded(b.table, b.live)
      && Joined(area, a.Shot(), b.Shot(), a.tasks, b.tasks, p) && TasksLive(b.live, area, b.tasks) && Chained(b)
    case Failed =>
      && b == a.(live := b.live, table := b.table, ram := b.ram) && Recorded(b.table, b.live)
      && Kept(area, a.Shot(), b.Shot())
    case Turn(i, action) =>
      b == if i < |a.slots| && a.slots[i] != null then a.(ram := Act(a.ram, a.slots[i], action).0) else a
    case Switch =>
      a.tasks != [] && b == a.(current := NextTask(a.Words(), a.head, a.current))
    case Copied(to, n, text, t) =>
      && b == a.(ram := b.ram) && |text| < n && Aside(a.Words(), a.tasks, a.slots, to, n)
      && Vacant(a.live, area, t) && DeliveredTo(a.ram, b.ram, to, text, t)
  }

  // ---------------------------------------------------------------- the kernel's calls are such steps

  /** `process_load`. */
  method LoadNext(heap: Heap, mem: array<byte>, files: FileTable, m: Mounted, list: TaskList, processes: ProcessTable,
                  filename: CString, ghost named: set<nat>, ghost name: CString, ghost q: Quote)
    returns (res: int, ghost e: Event)
    requires heap.Valid() && BelowTop(heap) && mem.Length == ADDRESS_SPACE && |files.slots| == MAX_DESCRIPTORS
    requires Sound(AreaOf(heap), MachineOf(heap, mem, list, processes))
    requires m.disk.Valid() && |processes.slots| == MAX_PROCESSES
    requires Asks(m.root, filename, named, name) && Quoted(q, m.root, filename, named) && CanLoad(heap.entries[..], q)
    modifies heap, heap.entries, mem, files, m.disk.fatStream, m.disk.clusterStream, list, processes
    ensures heap.Valid() && (res == 0 <==> e.Made?) && (res != 0 <==> e.Failed?)
    ensures Step(AreaOf(heap), old(MachineOf(heap, mem, list, processes)), e, MachineOf(heap, mem, list, processes))
  {
    var process;
    ghost var chunk, b, data, stack;
    res, process, chunk, b, data, stack :=
      LoadBeside(heap, mem, files, m, list, processes, filename, named, name, q);
    e := if res == 0 then Made(process.id, process) else Failed;
  }

  /** `copy_string_from_task`, for a string of the process's own. */
  method CopyNext(heap: Heap, mem: array<byte>, list: TaskList, processes: ProcessTable, process: Process, virt: word,
                  phys: word, max: nat, ghost i: nat, ghost t: page)
    returns (res: int, ghost e: Event)
    requires heap.Valid() && mem.Length == ADDRESS_SPACE && 0 < max
    requires Sound(AreaOf(heap), MachineOf(heap, mem, list, processes))
    requires i < |processes.slots| && processes.slots[i] == process
    requires max < PAGE_SIZE && StartBlock(heap.entries[..], 1) >= 0 ==>
      && t == AreaOf(heap).first + StartBlock(heap.entries[..], 1)
      && InOwnRange(mem[..], Running(AsWords(mem[..]), process), virt, max - 1, t)
      && Aside(AsWords(mem[..]), list.tasks, processes.slots, phys, max) && Beside(phys, max, {t})
    modifies heap, heap.entries, mem
    ensures heap.Valid() && (res == 0 <==> e.Copied?) && (res != 0 <==> e.Failed?)
    ensures Step(AreaOf(heap), old(MachineOf(heap, mem, list, processes)), e, MachineOf(heap, mem, list, processes))
  {
    ghost var g := Running(AsWords(mem[..]), process);
    ghost var text := Seen(mem[..], g.Directory(AsWords(mem[..])), virt, max - 1);
    SparedNot(AreaOf(heap), Snap(heap, mem));
    res := CopyFromProcess(heap, mem, list, processes, process, virt, phys, max, i, t);
    e := if res == 0 then Copied(phys, max, text, t) else Failed;
  }

  /** `task_switch` to the next task. */
  method SwitchNext(heap: Heap, mem: array<byte>, list: TaskList, processes: ProcessTable)
    requires mem.Length == ADDRESS_SPACE && list.tasks != []
    requires Sound(AreaOf(heap), MachineOf(heap, mem, list, processes))
    modifies list`current
    ensures var before := old(MachineOf(heap, mem, list, processes));
      Step(AreaOf(heap), before, Switch, MachineOf(heap, mem, list, processes))
  {
    list.SwitchOn(mem);
  }

  // ---------------------------------------------------------------- every step keeps the machine sound

  lemma UntouchedSpace(live: Live, area: Area, w: seq<word>, w1: seq<word>, process: Process)
    requires Untouched(w, w1, process) && Alive(live, area, w, Running(w, process))
    ensures SpaceOf(w1, process) == SpaceOf(w, process)
  {
    assert Keeps(live, live);
    AliveSame(live, live, area, w, w1, Running(w, process));
  }

  /** The process in slot `j` is where it was. */
  ghost predicate Stays(a: Machine, b: Machine, j: nat)
    requires |a.ram| == |b.ram| == ADDRESS_SPACE && j < |a.slots| && a.slots[j] != null
  {
    && j < |b.slots| && b.slots[j] == a.slots[j] && Running(b.Words(), a.slots[j]) == Running(a.Words(), a.slots[j])
    && SpaceOf(b.Words(), a.slots[j]) == SpaceOf(a.Words(), a.slots[j])
  }

  /** An event that is not a turn of process `j` does not touch it. */
  predicate Foreign(e: Event, j: nat) {
    e.Turn? ==> e.slot != j
  }

  lemma MadeKeeps(area: Area, a: Machine, e: Event, b: Machine)
    requires Sound(area, a) && |b.ram| == ADDRESS_SPACE && Step(area, a, e, b) && e.Made?
    ensures Sound(area, b) && AllUntouched(a.Words(), b.Words(), a.slots)
  {
    JoinedIsolates(area, a.Shot(), b.Shot(), a.tasks, b.tasks, a.slots, e.slot, e.process);
  }

  lemma FailedKeeps(area: Area, a: Machine, e: Event, b: Machine)
    requires Sound(area, a) && |b.ram| == ADDRESS_SPACE && Step(area, a, e, b) && e.Failed?
    ensures Sound(area, b) && AllUntouched(a.Words(), b.Words(), a.slots)
  {
    ChainKept(area, a.Shot(), b.Shot(), a.tasks, a.head, a.tail, a.current);
    FailedLoadIsolates(area, a.Shot(), b.Shot(), a.tasks, a.slots);
  }

  lemma CopiedKeeps(area: Area, a: Machine, e: Event, b: Machine)
    requires Sound(area, a) && |b.ram| == ADDRESS_SPACE && Step(area, a, e, b) && e.Copied?
    ensures Sound(area, b) && AllUntouched(a.Words(), b.Words(), a.slots)
  {
    CopySpares(a.table, a.live, area, a.ram, b.ram, a.tasks, a.slots, e.to, e.text, e.t, e.n);
    ValidKept(a.Words(), b.Words(), a.tasks, a.head, a.tail, a.current);
  }

  lemma SwitchKeeps(area: Area, a: Machine, e: Event, b: Machine)
    requires Sound(area, a) && |b.ram| == ADDRESS_SPACE && Step(area, a, e, b) && e.Switch?
    ensures Sound(area, b)
  {
    var c := CurrentAt(a.Words(), a.tasks, a.head, a.tail, a.current);
    EndsOf(a.Words(), a.tasks, a.head, a.tail, a.current);
    LinksAt(a.Words(), a.tasks, c);
    if c + 1 < |a.tasks| {
      DistinctAt(a.tasks, c + 1, c + 1);
    }
    OtherCurrent(a.Words(), a.tasks, a.head, a.tail, a.current, if c + 1 < |a.tasks| then c + 1 else 0);
  }

  /** A turn writes at most to the process's own program and stack. */
  lemma TurnKeeps(area: Area, a: Machine, e: Event, b: Machine)
    requires Sound(area, a) && |b.ram| == ADDRESS_SPACE && Step(area, a, e, b) && e.Turn?
    ensures Sound(area, b) && SpacesSame(a.Words(), b.Words(), a.slots)
    ensures forall j | 0 <= j < |a.slots| && a.slots[j] != null && j != e.slot ::
        Untouched(a.Words(), b.Words(), a.slots[j])
  {
    if e.slot < |a.slots| && a.slots[e.slot] != null {
      ActKeeps(a.live, area, a.ram, a.tasks, a.slots, e.slot, e.action);
      forall p | p in a.tasks
        ensures SamePage(a.Words(), b.Words(), p)
      {
        RunsOf(a.live, area, a.Words(), a.tasks, a.slots, e.slot);
      }
      ValidKept(a.Words(), b.Words(), a.tasks, a.head, a.tail, a.current);
      forall j | 0 <= j < |a.slots| && a.slots[j] != null && j != e.slot
        ensures Untouched(a.Words(), b.Words(), a.slots[j])
      {
        SpacesApart(a.live, area, a.Words(), a.tasks, a.slots, e.slot, j);
      }
    }
  }

  /** What another's event leaves as it is. */
  lemma ForeignSpares(area: Area, a: Machine, e: Event, b: Machine, j: nat)
    requires Sound(area, a) && |b.ram| == ADDRESS_SPACE && Step(area, a, e, b) && Foreign(e, j)
    requires j < |a.slots| && a.slots[j] != null
    ensures Untouched(a.Words(), b.Words(), a.slots[j])
  {
    match e
    case Made(_, _) => MadeKeeps(area, a, e, b);
    case Failed => FailedKeeps(area, a, e, b);
    case Turn(_, _) => TurnKeeps(area, a, e, b);
    case Switch =>
    case Copied(_, _, _, _) => CopiedKeeps(area, a, e, b);
  }

  /** Whatever happens, the machine stays sound. */
  lemma StepKeeps(area: Area, a: Machine, e: Event, b: Machine)
    requires Sound(area, a) && |b.ram| == ADDRESS_SPACE && Step(area, a, e, b)
    ensures Sound(area, b)
  {
    match e
    case Made(_, _) => MadeKeeps(area, a, e, b);
    case Failed => FailedKeeps(area, a, e, b);
    case Turn(_, _) => TurnKeeps(area, a, e, b);
    case Switch => SwitchKeeps(area, a, e, b);
    case Copied(_, _, _, _) => CopiedKeeps(area, a, e, b);
  }

  /** And every process stays where it is. */
  lemma StepStays(area: Area, a: Machine, e: Event, b: Machine, j: nat)
    requires Sound(area, a) && |b.ram| == ADDRESS_SPACE && Step(area, a, e, b)
    requires j < |a.slots| && a.slots[j] != null
    ensures Stays(a, b, j)
  {
    if Foreign(e, j) {
      ForeignSpares(area, a, e, b, j);
      RunsOf(a.live, area, a.Words(), a.tasks, a.slots, j);
      UntouchedSpace(a.live, area, a.Words(), b.Words(), a.slots[j]);
    } else {
      TurnKeeps(area, a, e, b);
    }
  }

  // ---------------------------------------------------------------- whole runs

  /** The machine goes through `trace` while `events` happen. */
  ghost predicate Run(area: Area, trace: seq<Machine>, events: seq<Event>) {
    && |trace| == |events| + 1 && (forall k | 0 <= k < |trace| :: |trace[k].ram| == ADDRESS_SPACE)
    && forall k | 0 <= k < |events| :: Step(area, trace[k], events[k], trace[k + 1])
  }

  lemma OneStepLess(area: Area, trace: seq<Machine>, events: seq<Event>)
    requires Run(area, trace, events) && events != []
    ensures var n := |events| - 1;
      && Run(area, trace[..n + 1], events[..n]) && trace[..n + 1][n] == trace[n]
      && Step(area, trace[n], events[n], trace[n + 1])
  {
  }

  /** Loads, turns, switches and copies in any order keep the machine sound: the processes run beside one
      another, the tasks are chained, and the next load or copy can be made. */
  lemma {:induction false} EveryRun(area: Area, trace: seq<Machine>, events: seq<Event>)
    requires Run(area, trace, events) && Sound(area, trace[0])
    ensures Sound(area, trace[|events|])
  {
    if events != [] {
      var n := |events| - 1;
      OneStepLess(area, trace, events);
      EveryRun(area, trace[..n + 1], events[..n]);
      StepKeeps(area, trace[n], events[n], trace[n + 1]);
    }
  }

  /** A process is in its slot and in its pages as long as the machine runs. */
  lemma {:induction false} EveryRunStays(area: Area, trace: seq<Machine>, events: seq<Event>, j: nat)
    requires Run(area, trace, events) && Sound(area, trace[0]) && j < |trace[0].slots| && trace[0].slots[j] != null
    ensures Stays(trace[0], trace[|events|], j)
  {
    if events != [] {
      var n := |events| - 1;
      OneStepLess(area, trace, events);
      EveryRun(area, trace[..n + 1], events[..n]);
      EveryRunStays(area, trace[..n + 1], events[..n], j);
      StepStays(area, trace[n], events[n], trace[n + 1], j);
    }
  }

  /** What a process did. */
  function OwnActions(events: seq<Event>, j: nat): seq<Action> {
    if events == [] then [] else
    var before, e := OwnActions(events[..|events| - 1], j), events[|events| - 1];
    if Foreign(e, j) then before else if e.Turn? then before + [e.action] else before
  }

  /** Memory after it did that, and nothing else happened. */
  function Replay(ram: seq<byte>, process: Process, actions: seq<Action>): (r: seq<byte>)
    requires |ram| == ADDRESS_SPACE
    ensures |r| == ADDRESS_SPACE
  {
    if actions == [] then ram
    else Act(Replay(ram, process, actions[..|actions| - 1]), process, actions[|actions| - 1]).0
  }

  lemma {:induction false} ReplayKeeps(area: Area, a: Machine, j: nat, actions: seq<Action>)
    requires Sound(area, a) && j < |a.slots| && a.slots[j] != null
    ensures var w1 := AsWords(Replay(a.ram, a.slots[j], actions));
      AllRun(a.live, area, w1, a.tasks, a.slots) && SpacesSame(a.Words(), w1, a.slots)
  {
    if actions != [] {
      var before := actions[..|actions| - 1];
      ReplayKeeps(area, a, j, before);
      ActKeeps(a.live, area, Replay(a.ram, a.slots[j], before), a.tasks, a.slots, j, actions[|actions| - 1]);
    }
  }

  /** The process reads nothing, or from its own program or stack. */
  predicate AtHome(process: Process, action: Action) {
    action.Read? ==> OwnRange(process.size, PageOf(action.at))
  }

  lemma ByteAlike(ram: seq<byte>, other: seq<byte>, at: word)
    requires |ram| == |other| == ADDRESS_SPACE && SamePage(AsWords(ram), AsWords(other), PageOf(at))
    ensures other[at] == ram[at]
  {
    assert AsWords(other)[at / 4] == AsWords(ram)[at / 4];
    SameWordSameBytes(ram, other, at / 4);
  }

  /** In two memories that agree on a process's pages it finds the same at home. */
  lemma FindsAlike(live: Live, area: Area, ram: seq<byte>, other: seq<byte>, process: Process, at: word)
    requires |ram| == |other| == ADDRESS_SPACE && Alive(live, area, AsWords(ram), Running(AsWords(ram), process))
    requires Running(AsWords(other), process) == Running(AsWords(ram), process)
    requires forall p | p in SpaceOf(AsWords(ram), process) :: SamePage(AsWords(ram), AsWords(other), p)
    requires OwnRange(process.size, PageOf(at))
    ensures Sees(ram, process, at) == Sees(other, process, at)
  {
    var w, g := AsWords(ram), Running(AsWords(ram), process);
    AliveIs(live, area, w, g);
    SamePlace(w, AsWords(other), process, at);
    OwnIsBody(w, g, at);
    ByteAlike(ram, other, Translate(w, g.Directory(w), at));
  }

  /** And does the same to them. */
  lemma ActsAlike(live: Live, area: Area, ram: seq<byte>, other: seq<byte>, process: Process, action: Action)
    requires |ram| == |other| == ADDRESS_SPACE && Alive(live, area, AsWords(ram), Running(AsWords(ram), process))
    requires Running(AsWords(other), process) == Running(AsWords(ram), process)
    requires forall p | p in SpaceOf(AsWords(ram), process) :: SamePage(AsWords(ram), AsWords(other), p)
    ensures forall p | p in SpaceOf(AsWords(ram), process) ::
        SamePage(AsWords(Act(ram, process, action).0), AsWords(Act(other, process, action).0), p)
  {
    var w, g := AsWords(ram), Running(AsWords(ram), process);
    AliveIs(live, area, w, g);
    if action.Write? {
      forall p | p in SpaceOf(w, process)
        ensures SamePage(AsWords(UserStore(ram, g, action.at, action.value)),
                         AsWords(UserStore(other, g, action.at, action.value)), p)
      {
        UserStoreAlike(ram, other, g, action.at, action.value, p);
      }
    }
  }

  /** Whatever else happens, a process's memory is what its own turns make of it. */
  lemma {:induction false} OwnTurnsOnly(area: Area, trace: seq<Machine>, events: seq<Event>, j: nat)
    requires Run(area, trace, events) && Sound(area, trace[0]) && j < |trace[0].slots| && trace[0].slots[j] != null
    ensures var process := trace[0].slots[j];
      forall p | p in SpaceOf(trace[0].Words(), process) ::
        SamePage(AsWords(Replay(trace[0].ram, process, OwnActions(events, j))), trace[|events|].Words(), p)
  {
    if events != [] {
      var n, a, process := |events| - 1, trace[0], trace[0].slots[j];
      var e, before := events[n], OwnActions(events[..n], j);
      OneStepLess(area, trace, events);
      OwnTurnsOnly(area, trace[..n + 1], events[..n], j);
      EveryRun(area, trace[..n + 1], events[..n]);
      EveryRunStays(area, trace[..n + 1], events[..n], j);
      if Foreign(e, j) {
        ForeignSpares(area, trace[n], e, trace[n + 1], j);
      } else {
        ReplayKeeps(area, a, j, before);
        var alone := Replay(a.ram, process, before);
        RunsOf(a.live, area, AsWords(alone), a.tasks, a.slots, j);
        ActsAlike(a.live, area, alone, trace[n].ram, process, e.action);
        assert OwnActions(events, j)[..|before|] == before;
      }
    }
  }

  // ---------------------------------------------------------------- programs

  /** What the process in slot `j` has found. */
  function PastOf(trace: seq<Machine>, events: seq<Event>, j: nat, process: Process): seq<Answer>
    requires |trace| == |events| + 1 && forall k | 0 <= k < |trace| :: |trace[k].ram| == ADDRESS_SPACE
  {
    if events == [] then [] else
    var n := |events| - 1;
    var before := PastOf(trace[..n + 1], events[..n], j, process);
    if Foreign(events[n], j) || !events[n].Turn? then before
    else before + [Act(trace[n].ram, process, events[n].action).1]
  }

  /** It does what its program says. */
  predicate Obeys(trace: seq<Machine>, events: seq<Event>, j: nat, process: Process, code: Code)
    requires |trace| == |events| + 1 && forall k | 0 <= k < |trace| :: |trace[k].ram| == ADDRESS_SPACE
  {
    events != [] ==>
      var n := |events| - 1;
      && Obeys(trace[..n + 1], events[..n], j, process, code)
      && (!Foreign(events[n], j) && events[n].Turn? ==>
            events[n].action == code(PastOf(trace[..n + 1], events[..n], j, process)))
  }

  /** In its first `n` turns alone it reads only from its own program and stack. */
  predicate StaysHome(ram: seq<byte>, process: Process, code: Code, n: nat)
    requires |ram| == ADDRESS_SPACE
  {
    forall m: nat | m < n :: AtHome(process, code(Alone(Solo(ram, []), process, code, m).past))
  }

  /** What a process finds in its next turn is what it finds in memory that only it has changed. */
  lemma FindsAsAlone(area: Area, trace: seq<Machine>, events: seq<Event>, j: nat, action: Action)
    requires Run(area, trace, events) && Sound(area, trace[0]) && j < |trace[0].slots| && trace[0].slots[j] != null
    requires AtHome(trace[0].slots[j], action)
    ensures var process := trace[0].slots[j];
      Act(Replay(trace[0].ram, process, OwnActions(events, j)), process, action).1 ==
      Act(trace[|events|].ram, process, action).1
  {
    var a, process, own := trace[0], trace[0].slots[j], OwnActions(events, j);
    EveryRunStays(area, trace, events, j);
    OwnTurnsOnly(area, trace, events, j);
    ReplayKeeps(area, a, j, own);
    RunsOf(a.live, area, AsWords(Replay(a.ram, process, own)), a.tasks, a.slots, j);
    if action.Read? {
      FindsAlike(a.live, area, Replay(a.ram, process, own), trace[|events|].ram, process, action.at);
    }
  }

  lemma {:induction false} FindsTheSame(area: Area, trace: seq<Machine>, events: seq<Event>, j: nat, code: Code)
    requires Run(area, trace, events) && Sound(area, trace[0]) && j < |trace[0].slots| && trace[0].slots[j] != null
    requires Obeys(trace, events, j, trace[0].slots[j], code)
    requires StaysHome(trace[0].ram, trace[0].slots[j], code, |OwnActions(events, j)|)
    ensures var process := trace[0].slots[j];
      Alone(Solo(trace[0].ram, []), process, code, |OwnActions(events, j)|) ==
      Solo(Replay(trace[0].ram, process, OwnActions(events, j)), PastOf(trace, events, j, process))
  {
    if events != [] {
      var n := |events| - 1;
      var before := OwnActions(events[..n], j);
      OneStepLess(area, trace, events);
      FindsTheSame(area, trace[..n + 1], events[..n], j, code);
      if !Foreign(events[n], j) {
        FindsAsAlone(area, trace[..n + 1], events[..n], j, events[n].action);
        assert OwnActions(events, j)[..|before|] == before;
      }
    }
  }

  /** A program that reads only from its own program and stack runs as if alone, whatever else is loaded, runs
      and is copied meanwhile: it finds what it would have found, and its memory holds the same. */
  lemma LivesAlone(area: Area, trace: seq<Machine>, events: seq<Event>, j: nat, code: Code)
    requires Run(area, trace, events) && Sound(area, trace[0]) && j < |trace[0].slots| && trace[0].slots[j] != null
    requires Obeys(trace, events, j, trace[0].slots[j], code)
    requires StaysHome(trace[0].ram, trace[0].slots[j], code, |OwnActions(events, j)|)
    ensures var process := trace[0].slots[j];
      var y := Alone(Solo(trace[0].ram, []), process, code, |OwnActions(events, j)|);
      && y.past == PastOf(trace, events, j, process)
      && forall p | p in SpaceOf(trace[0].Words(), process) :: SamePage(AsWords(y.ram), trace[|events|].Words(), p)
  {
    OwnTurnsOnly(area, trace, events, j);
    FindsTheSame(area, trace, events, j, code);
  }
}
