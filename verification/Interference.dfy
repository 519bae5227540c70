/** What processes can notice of one another: programs that load as well as store. */
module Interference {
  import opened Words
  import opened HeapTable
  import opened Kheap
  import opened PageTables
  import opened Growth
  import opened AddressSpace
  import opened Processes
  import opened Isolation

  /** The byte that a process finds at an address. */
  function Sees(ram: seq<byte>, process: Process, a: word): byte
    requires |ram| == ADDRESS_SPACE
  {
    Peek(ram, Running(AsWords(ram), process).Directory(AsWords(ram)), a)
  }

  /** The address is neither in the process's program nor in its stack, but another process's program or
      stack is kept there. */
  ghost predicate Exposed(slots: seq<Process?>, i: nat, a: word)
    requires i < |slots| && slots[i] != null
  {
    !OwnRange(slots[i].size, PageOf(a)) && InOthers(slots, i, PageOf(a))
  }

  ghost predicate InOthers(slots: seq<Process?>, i: nat, p: page) {
    exists j | 0 <= j < |slots| && j != i && slots[j] != null :: p in BodyOf(slots[j])
  }

  /** Outside its own ranges a process finds memory as it is. */
  lemma ElsewhereIsThere(w: seq<word>, g: Program, a: word)
    requires |w| == MEMORY_WORDS && ProgramEntries(w, g.Directory(w), g.ptr, g.size, g.stack)
    requires !OwnRange(g.size, PageOf(a))
    ensures Translate(w, g.Directory(w), a) == a
  {
    assert Entry(w, g.Directory(w), PageOf(a)) == ProgramEntry(g.ptr, g.size, g.stack, PageOf(a));
    EntryForPage(PageOf(a), IDENTITY_FLAGS);
  }

  /** Inside, its own pages. */
  lemma OwnIsBody(w: seq<word>, g: Program, a: word)
    requires |w| == MEMORY_WORDS && ProgramEntries(w, g.Directory(w), g.ptr, g.size, g.stack)
    requires OwnRange(g.size, PageOf(a))
    ensures PageOf(Translate(w, g.Directory(w), a)) in g.Body()
  {
    StoresStayInside(w, g, a);
  }

  /** Every byte of a process's program and stack can be stored to, from some address. */
  lemma BodyReached(w: seq<word>, g: Program, at: word) returns (b: word)
    requires |w| == MEMORY_WORDS && ProgramEntries(w, g.Directory(w), g.ptr, g.size, g.stack) && PageOf(at) in g.Body()
    ensures UserWrites(w, g.Directory(w), PageOf(b)) && Translate(w, g.Directory(w), b) == at
    ensures PageOf(at) in PagesAt(g.ptr, g.size) ==> b == PROGRAM_START + (at - g.ptr)
  {
    var base, start := g.stack, STACK_BOTTOM;
    if PageOf(at) in PagesAt(g.ptr, g.size) {
      base, start := g.ptr, PROGRAM_START;
    }
    b := start + (at - base);
    PageAddress(base, start, b);
    PageAddress(start, base, at);
    assert Entry(w, g.Directory(w), PageOf(b)) == ProgramEntry(g.ptr, g.size, g.stack, PageOf(b));
    MappedAddress(w, g.Directory(w), base, start, b);
    StoresStayInside(w, g, b);
  }

  /** A process whose directory is unchanged finds its addresses where they were. */
  lemma SamePlace(w: seq<word>, w1: seq<word>, process: Process, a: word)
    requires |w| == |w1| == MEMORY_WORDS && Running(w1, process) == Running(w, process)
    requires ChunkOk(w, PageOf(Running(w, process).chunk))
    requires forall p | p in Footprint(w, PageOf(Running(w, process).chunk)) :: SamePage(w, w1, p)
    ensures var g := Running(w, process); Translate(w1, g.Directory(w1), a) == Translate(w, g.Directory(w), a)
  {
    ChunkSame(w, w1, PageOf(Running(w, process).chunk));
  }

  /** After a store by another process, a process finds its addresses where they were, and a byte is
      changed only in the other's program and stack. */
  lemma OthersStore(live: Live, area: Area, ram: seq<byte>, tasks: seq<page>, slots: seq<Process?>, i: nat, s: Store,
                    a: word)
    requires |ram| == ADDRESS_SPACE && AllRun(live, area, AsWords(ram), tasks, slots) && i < |slots| && slots[i] != null
    requires s.slot < |slots| && slots[s.slot] != null && s.slot != i
    ensures var w, w1, g := AsWords(ram), AsWords(StoreBy(ram, slots, s)), Running(AsWords(ram), slots[i]);
      && Running(w1, slots[i]) == g && Translate(w1, g.Directory(w1), a) == Translate(w, g.Directory(w), a)
    ensures forall at: word :: StoreBy(ram, slots, s)[at] != ram[at] ==> PageOf(at) in BodyOf(slots[s.slot])
  {
    var after := StoreBy(ram, slots, s);
    StoreKeeps(live, area, ram, tasks, slots, s);
    BodyApart(live, area, AsWords(ram), tasks, slots, s.slot, i);
    RunsOf(live, area, AsWords(ram), tasks, slots, i);
    AliveIs(live, area, AsWords(ram), Running(AsWords(ram), slots[i]));
    SamePlace(AsWords(ram), AsWords(after), slots[i], a);
    forall at: word | PageOf(at) !in BodyOf(slots[s.slot])
      ensures after[at] == ram[at]
    {
      assert SamePage(AsWords(ram), AsWords(after), PageOf(at));
      assert AsWords(after)[at / 4] == AsWords(ram)[at / 4];
      SameWordSameBytes(ram, after, at / 4);
    }
  }

  /** A process can store to any byte of its program and its stack. */
  lemma BodyStored(live: Live, area: Area, ram: seq<byte>, tasks: seq<page>, slots: seq<Process?>, j: nat, at: word,
                   v: byte)
    returns (b: word)
    requires |ram| == ADDRESS_SPACE && AllRun(live, area, AsWords(ram), tasks, slots)
    requires j < |slots| && slots[j] != null && PageOf(at) in BodyOf(slots[j])
    ensures StoreBy(ram, slots, Store(j, b, v)) == ram[at := v]
    ensures PageOf(at) in PagesAt(slots[j].ptr, slots[j].size) ==> b == PROGRAM_START + (at - slots[j].ptr)
  {
    BodyApart(live, area, AsWords(ram), tasks, slots, j, j);
    b := BodyReached(AsWords(ram), Running(AsWords(ram), slots[j]), at);
  }

  /** What a process stores at an address outside the reader's ranges, the reader finds. */
  lemma SeesOthersByte(live: Live, area: Area, ram: seq<byte>, tasks: seq<page>, slots: seq<Process?>, i: nat, j: nat,
                       at: word, v: byte)
    returns (b: word)
    requires |ram| == ADDRESS_SPACE && AllRun(live, area, AsWords(ram), tasks, slots) && i < |slots| && j < |slots|
    requires slots[i] != null && slots[j] != null && i != j
    requires !OwnRange(slots[i].size, PageOf(at)) && PageOf(at) in BodyOf(slots[j])
    ensures StoreBy(ram, slots, Store(j, b, v)) == ram[at := v]
    ensures Sees(ram[at := v], slots[i], at) == v && Sees(ram, slots[i], at) == ram[at]
    ensures PageOf(at) in PagesAt(slots[j].ptr, slots[j].size) ==> b == PROGRAM_START + (at - slots[j].ptr)
  {
    b := BodyStored(live, area, ram, tasks, slots, j, at, v);
    BodyApart(live, area, AsWords(ram), tasks, slots, i, i);
    ElsewhereIsThere(AsWords(ram), Running(AsWords(ram), slots[i]), at);
    OthersStore(live, area, ram, tasks, slots, i, Store(j, b, v), at);
  }

  /** So a process that stores to the start of its program is noticed by every process that does not have
      something of its own at that physical address. */
  lemma SeesOthersProgram(live: Live, area: Area, ram: seq<byte>, tasks: seq<page>, slots: seq<Process?>, i: nat,
                          j: nat, v: byte)
    requires |ram| == ADDRESS_SPACE && AllRun(live, area, AsWords(ram), tasks, slots) && i < |slots| && j < |slots|
    requires slots[i] != null && slots[j] != null && i != j && slots[j].size > 0
    requires !OwnRange(slots[i].size, PageOf(slots[j].ptr))
    ensures Sees(StoreBy(ram, slots, Store(j, PROGRAM_START, v)), slots[i], slots[j].ptr) == v
  {
    assert Within(PageOf(slots[j].ptr), slots[j].ptr, slots[j].size);
    var b := SeesOthersByte(live, area, ram, tasks, slots, i, j, slots[j].ptr, v);
  }

  /** Another byte. */
  function Other(v: byte): (r: byte)
    ensures r != v
  {
    if v == 0 then 1 else 0
  }

  /** A store by another process can change the byte that a process finds at an address exactly if the
      address is exposed. */
  lemma SeesAnothersStoreIff(live: Live, area: Area, ram: seq<byte>, tasks: seq<page>, slots: seq<Process?>, i: nat,
                             a: word)
    requires |ram| == ADDRESS_SPACE && AllRun(live, area, AsWords(ram), tasks, slots) && i < |slots| && slots[i] != null
    ensures (exists s: Store | s.slot != i :: Sees(StoreBy(ram, slots, s), slots[i], a) != Sees(ram, slots[i], a)) <==>
            Exposed(slots, i, a)
  {
    if Exposed(slots, i, a) {
      var j :| 0 <= j < |slots| && j != i && slots[j] != null && PageOf(a) in BodyOf(slots[j]);
      var b := SeesOthersByte(live, area, ram, tasks, slots, i, j, a, Other(ram[a]));
      assert Store(j, b, Other(ram[a])).slot != i;
    } else {
      forall s: Store | s.slot != i
        ensures Sees(StoreBy(ram, slots, s), slots[i], a) == Sees(ram, slots[i], a)
      {
        if s.slot < |slots| && slots[s.slot] != null {
          NotExposedStays(live, area, ram, tasks, slots, i, s, a);
        }
      }
    }
  }

  lemma NotExposedStays(live: Live, area: Area, ram: seq<byte>, tasks: seq<page>, slots: seq<Process?>, i: nat,
                        s: Store, a: word)
    requires |ram| == ADDRESS_SPACE && AllRun(live, area, AsWords(ram), tasks, slots) && i < |slots| && slots[i] != null
    requires s.slot < |slots| && slots[s.slot] != null && s.slot != i && !Exposed(slots, i, a)
    ensures Sees(StoreBy(ram, slots, s), slots[i], a) == Sees(ram, slots[i], a)
  {
    var w, g := AsWords(ram), Running(AsWords(ram), slots[i]);
    OthersStore(live, area, ram, tasks, slots, i, s, a);
    BodyApart(live, area, w, tasks, slots, i, i);
    if OwnRange(g.size, PageOf(a)) {
      OwnIsBody(w, g, a);
      SpacesApart(live, area, w, tasks, slots, i, s.slot);
    } else {
      ElsewhereIsThere(w, g, a);
    }
  }

  // ---------------------------------------------------------------- programs

  datatype Action = Read(at: word) | Write(at: word, value: byte) | Idle

  datatype Answer = Byte(value: byte) | Nothing

  /** A program: what it does next follows from what it has found so far. */
  type Code = seq<Answer> -> Action

  /** A process that takes turns: memory, and what it has found. */
  datatype Solo = Solo(ram: seq<byte>, past: seq<Answer>)

  /** Memory, and what the process in each slot has found. */
  datatype World = World(ram: seq<byte>, pasts: seq<seq<Answer>>)

  function Act(ram: seq<byte>, process: Process, action: Action): (r: (seq<byte>, Answer))
    requires |ram| == ADDRESS_SPACE
    ensures |r.0| == ADDRESS_SPACE
  {
    match action
    case Read(a) => (ram, Byte(Sees(ram, process, a)))
    case Write(a, v) => (UserStore(ram, Running(AsWords(ram), process), a, v), Nothing)
    case Idle => (ram, Nothing)
  }

  function SoloTurn(x: Solo, process: Process, code: Code): (r: Solo)
    requires |x.ram| == ADDRESS_SPACE
    ensures |r.ram| == ADDRESS_SPACE
  {
    var (ram, answer) := Act(x.ram, process, code(x.past));
    Solo(ram, x.past + [answer])
  }

  /** `n` turns of one process, and none of any other. */
  function Alone(x: Solo, process: Process, code: Code, n: nat): (r: Solo)
    requires |x.ram| == ADDRESS_SPACE
    ensures |r.ram| == ADDRESS_SPACE
  {
    if n == 0 then x else SoloTurn(Alone(x, process, code, n - 1), process, code)
  }

  function View(x: World, j: nat): Solo
    requires j < |x.pasts|
  {
    Solo(x.ram, x.pasts[j])
  }

  /** A turn of the process in slot `i`. */
  function Turn(x: World, slots: seq<Process?>, codes: seq<Code>, i: nat): (r: World)
    requires |x.ram| == ADDRESS_SPACE && |x.pasts| == |slots| == |codes|
    ensures |r.ram| == ADDRESS_SPACE && |r.pasts| == |slots|
  {
    if i < |slots| && slots[i] != null then
      var y := SoloTurn(View(x, i), slots[i], codes[i]);
      World(y.ram, x.pasts[i := y.past])
    else x
  }

  /** Turns in any order. */
  function Turns(x: World, slots: seq<Process?>, codes: seq<Code>, schedule: seq<nat>): (r: World)
    requires |x.ram| == ADDRESS_SPACE && |x.pasts| == |slots| == |codes|
    ensures |r.ram| == ADDRESS_SPACE && |r.pasts| == |slots|
  {
    if schedule == [] then x
    else Turn(Turns(x, slots, codes, schedule[..|schedule| - 1]), slots, codes, schedule[|schedule| - 1])
  }

  /** How many of them are slot `j`'s. */
  function CountOf(schedule: seq<nat>, j: nat): nat {
    if schedule == [] then 0
    else CountOf(schedule[..|schedule| - 1], j) + if schedule[|schedule| - 1] == j then 1 else 0
  }

  /** In its first `n` turns alone, process `j` reads no exposed address. */
  ghost predicate KeepsOff(x: Solo, slots: seq<Process?>, j: nat, code: Code, n: nat)
    requires |x.ram| == ADDRESS_SPACE && j < |slots| && slots[j] != null
  {
    forall m: nat | m < n :: !ReadsExposed(slots, j, code(Alone(x, slots[j], code, m).past))
  }

  ghost predicate ReadsExposed(slots: seq<Process?>, j: nat, action: Action)
    requires j < |slots| && slots[j] != null
  {
    action.Read? && Exposed(slots, j, action.at)
  }

  /** The shared run is, for process `j`, the run alone: it has found the same, and memory is the same but
      for the programs and stacks of others. Folded. */
  ghost predicate Follows(live: Live, area: Area, tasks: seq<page>, slots: seq<Process?>, j: nat, x: World, y: Solo) {
    forall k: nat | Unfolded(OfTurns, k) ::
      && |x.ram| == |y.ram| == ADDRESS_SPACE && |x.pasts| == |slots| && j < |slots| && slots[j] != null
      && x.pasts[j] == y.past && SpacesSame(AsWords(y.ram), AsWords(x.ram), slots)
      && AllRun(live, area, AsWords(x.ram), tasks, slots) && AllRun(live, area, AsWords(y.ram), tasks, slots)
      && forall p: page | !InOthers(slots, j, p) :: SamePage(AsWords(y.ram), AsWords(x.ram), p)
  }

  lemma ActKeeps(live: Live, area: Area, ram: seq<byte>, tasks: seq<page>, slots: seq<Process?>, i: nat, action: Action)
    requires |ram| == ADDRESS_SPACE && AllRun(live, area, AsWords(ram), tasks, slots) && i < |slots| && slots[i] != null
    ensures var w, w1 := AsWords(ram), AsWords(Act(ram, slots[i], action).0);
      && AllRun(live, area, w1, tasks, slots) && SpacesSame(w, w1, slots) && SameOutside(w, w1, BodyOf(slots[i]))
  {
    match action
    case Write(a, v) => StoreKeeps(live, area, ram, tasks, slots, Store(i, a, v));
    case Read(_) =>
    case Idle =>
  }

  /** A turn of another process. */
  lemma OthersTurn(live: Live, area: Area, tasks: seq<page>, slots: seq<Process?>, codes: seq<Code>, j: nat, i: nat,
                   x: World, y: Solo)
    requires Follows(live, area, tasks, slots, j, x, y) && i != j && |codes| == |slots| == |x.pasts|
    requires |x.ram| == ADDRESS_SPACE
    ensures Follows(live, area, tasks, slots, j, Turn(x, slots, codes, i), y)
  {
    assert Unfolded(OfTurns, 0);
    if i < |slots| && slots[i] != null {
      var w1 := AsWords(Turn(x, slots, codes, i).ram);
      ActKeeps(live, area, x.ram, tasks, slots, i, codes[i](x.pasts[i]));
      forall p: page | !InOthers(slots, j, p)
        ensures SamePage(AsWords(y.ram), w1, p)
      {
        assert p !in BodyOf(slots[i]);
        assert SamePage(AsWords(x.ram), w1, p);
      }
    }
  }

  /** Nothing of a process's address space is in another's program or stack. */
  lemma OwnSpace(live: Live, area: Area, w: seq<word>, tasks: seq<page>, slots: seq<Process?>, j: nat)
    requires AllRun(live, area, w, tasks, slots) && j < |slots| && slots[j] != null
    ensures |w| == MEMORY_WORDS && forall p | p in SpaceOf(w, slots[j]) :: !InOthers(slots, j, p)
  {
    RunsOf(live, area, w, tasks, slots, j);
    forall p, i | p in SpaceOf(w, slots[j]) && 0 <= i < |slots| && i != j && slots[i] != null
      ensures p !in BodyOf(slots[i])
    {
      SpacesApart(live, area, w, tasks, slots, i, j);
    }
  }

  /** An address that is not exposed leads to a page that is not another's. */
  lemma NotExposedPlace(live: Live, area: Area, w: seq<word>, tasks: seq<page>, slots: seq<Process?>, j: nat, a: word)
    requires AllRun(live, area, w, tasks, slots) && j < |slots| && slots[j] != null && !Exposed(slots, j, a)
    ensures |w| == MEMORY_WORDS
    ensures var g := Running(w, slots[j]); !InOthers(slots, j, PageOf(Translate(w, g.Directory(w), a)))
  {
    RunsOf(live, area, w, tasks, slots, j);
    AliveIs(live, area, w, Running(w, slots[j]));
    OwnSpace(live, area, w, tasks, slots, j);
    if OwnRange(slots[j].size, PageOf(a)) {
      OwnIsBody(w, Running(w, slots[j]), a);
    } else {
      ElsewhereIsThere(w, Running(w, slots[j]), a);
    }
  }

  /** The same action in both memories. */
  lemma ActAlike(live: Live, area: Area, tasks: seq<page>, slots: seq<Process?>, j: nat, ram: seq<byte>,
                 other: seq<byte>, action: Action)
    requires |ram| == |other| == ADDRESS_SPACE && j < |slots| && slots[j] != null
    requires AllRun(live, area, AsWords(ram), tasks, slots) && SpacesSame(AsWords(ram), AsWords(other), slots)
    requires forall p: page | !InOthers(slots, j, p) :: SamePage(AsWords(ram), AsWords(other), p)
    requires !ReadsExposed(slots, j, action)
    ensures var (after, answer), (after1, answer1) := Act(ram, slots[j], action), Act(other, slots[j], action);
      answer == answer1 && forall p: page | !InOthers(slots, j, p) :: SamePage(AsWords(after), AsWords(after1), p)
  {
    var w, g := AsWords(ram), Running(AsWords(ram), slots[j]);
    RunsOf(live, area, w, tasks, slots, j);
    AliveIs(live, area, w, g);
    OwnSpace(live, area, w, tasks, slots, j);
    match action
    case Read(a) =>
      SamePlace(w, AsWords(other), slots[j], a);
      NotExposedPlace(live, area, w, tasks, slots, j, a);
      var at := Translate(w, g.Directory(w), a);
      assert SamePage(w, AsWords(other), PageOf(at));
      assert AsWords(other)[at / 4] == w[at / 4];
      SameWordSameBytes(ram, other, at / 4);
    case Write(a, v) =>
      forall p: page | !InOthers(slots, j, p)
        ensures SamePage(AsWords(UserStore(ram, g, a, v)), AsWords(UserStore(other, g, a, v)), p)
      {
        UserStoreAlike(ram, other, g, a, v, p);
      }
    case Idle =>
  }

  /** A turn of the process itself. */
  lemma OwnTurn(live: Live, area: Area, tasks: seq<page>, slots: seq<Process?>, codes: seq<Code>, j: nat, code: Code,
                x: World, y: Solo)
    requires Follows(live, area, tasks, slots, j, x, y) && |codes| == |slots| == |x.pasts| && j < |slots|
    requires codes[j] == code && slots[j] != null && |x.ram| == |y.ram| == ADDRESS_SPACE
    requires !ReadsExposed(slots, j, code(y.past))
    ensures Follows(live, area, tasks, slots, j, Turn(x, slots, codes, j), SoloTurn(y, slots[j], code))
  {
    assert Unfolded(OfTurns, 0);
    var action := code(y.past);
    ActAlike(live, area, tasks, slots, j, y.ram, x.ram, action);
    ActKeeps(live, area, y.ram, tasks, slots, j, action);
    ActKeeps(live, area, x.ram, tasks, slots, j, action);
  }

  lemma Starts(live: Live, area: Area, tasks: seq<page>, slots: seq<Process?>, j: nat, x: World)
    requires |x.ram| == ADDRESS_SPACE && |x.pasts| == |slots| && j < |slots| && slots[j] != null
    requires AllRun(live, area, AsWords(x.ram), tasks, slots)
    ensures Follows(live, area, tasks, slots, j, x, View(x, j))
  {
  }

  /** While process `j` keeps off exposed addresses, it runs as if alone. */
  lemma {:induction false} FollowsAll(live: Live, area: Area, tasks: seq<page>, slots: seq<Process?>, codes: seq<Code>,
                                      j: nat, code: Code, x: World, schedule: seq<nat>)
    requires |x.ram| == ADDRESS_SPACE && |x.pasts| == |slots| == |codes| && j < |slots| && slots[j] != null
    requires AllRun(live, area, AsWords(x.ram), tasks, slots) && codes[j] == code
    requires KeepsOff(View(x, j), slots, j, code, CountOf(schedule, j))
    ensures Follows(live, area, tasks, slots, j, Turns(x, slots, codes, schedule),
                    Alone(View(x, j), slots[j], code, CountOf(schedule, j)))
  {
    if schedule == [] {
      Starts(live, area, tasks, slots, j, x);
    } else {
      var r, i := schedule[..|schedule| - 1], schedule[|schedule| - 1];
      FollowsAll(live, area, tasks, slots, codes, j, code, x, r);
      var shared, alone := Turns(x, slots, codes, r), Alone(View(x, j), slots[j], code, CountOf(r, j));
      if i == j {
        OwnTurn(live, area, tasks, slots, codes, j, code, shared, alone);
      } else {
        OthersTurn(live, area, tasks, slots, codes, j, i, shared, alone);
      }
    }
  }

  /** Whatever programs the other processes run, and in whatever order turns are taken: when process `j` has
      had up to `n` turns, it has found what it would have found alone, and its memory holds the same. */
  ghost predicate AsIfAlone(x: World, slots: seq<Process?>, j: nat, code: Code, n: nat)
    requires |x.ram| == ADDRESS_SPACE && |x.pasts| == |slots| && j < |slots| && slots[j] != null
  {
    forall codes: seq<Code>, schedule: seq<nat> |
      |codes| == |slots| && codes[j] == code && CountOf(schedule, j) <= n ::
      LikeAlone(Turns(x, slots, codes, schedule), Alone(View(x, j), slots[j], code, CountOf(schedule, j)), slots, j,
                AsWords(x.ram))
  }

  ghost predicate LikeAlone(x: World, y: Solo, slots: seq<Process?>, j: nat, w: seq<word>)
    requires |x.ram| == |y.ram| == ADDRESS_SPACE && |w| == MEMORY_WORDS && j < |slots| == |x.pasts| && slots[j] != null
  {
    x.pasts[j] == y.past && forall p | p in SpaceOf(w, slots[j]) :: SamePage(AsWords(y.ram), AsWords(x.ram), p)
  }

  lemma KeepsOffEarlier(x: Solo, slots: seq<Process?>, j: nat, code: Code, m: nat, n: nat)
    requires |x.ram| == ADDRESS_SPACE && j < |slots| && slots[j] != null && KeepsOff(x, slots, j, code, n) && m <= n
    ensures KeepsOff(x, slots, j, code, m)
  {
  }

  lemma AsIfAloneIf(live: Live, area: Area, tasks: seq<page>, slots: seq<Process?>, j: nat, code: Code, x: World,
                    n: nat)
    requires |x.ram| == ADDRESS_SPACE && |x.pasts| == |slots| && j < |slots| && slots[j] != null
    requires AllRun(live, area, AsWords(x.ram), tasks, slots) && KeepsOff(View(x, j), slots, j, code, n)
    ensures AsIfAlone(x, slots, j, code, n)
  {
    forall codes: seq<Code>, schedule: seq<nat> | |codes| == |slots| && codes[j] == code && CountOf(schedule, j) <= n
      ensures LikeAlone(Turns(x, slots, codes, schedule), Alone(View(x, j), slots[j], code, CountOf(schedule, j)),
                        slots, j, AsWords(x.ram))
    {
      KeepsOffEarlier(View(x, j), slots, j, code, CountOf(schedule, j), n);
      FollowsAll(live, area, tasks, slots, codes, j, code, x, schedule);
      OwnSpace(live, area, AsWords(x.ram), tasks, slots, j);
      assert Unfolded(OfTurns, 0);
    }
  }

  /** Process `j`'s turns only. */
  function Only(j: nat, n: nat): (r: seq<nat>)
    ensures |r| == n
  {
    if n == 0 then [] else Only(j, n - 1) + [j]
  }

  lemma {:induction false} OnlyIsAlone(x: World, slots: seq<Process?>, codes: seq<Code>, j: nat, n: nat)
    requires |x.ram| == ADDRESS_SPACE && |x.pasts| == |slots| == |codes| && j < |slots| && slots[j] != null
    ensures CountOf(Only(j, n), j) == n
    ensures View(Turns(x, slots, codes, Only(j, n)), j) == Alone(View(x, j), slots[j], codes[j], n)
    ensures forall i | 0 <= i < |slots| && i != j :: Turns(x, slots, codes, Only(j, n)).pasts[i] == x.pasts[i]
  {
    if n > 0 {
      OnlyIsAlone(x, slots, codes, j, n - 1);
      assert Only(j, n)[..n - 1] == Only(j, n - 1);
    }
  }

  ghost predicate SoloRuns(live: Live, area: Area, tasks: seq<page>, slots: seq<Process?>, x: Solo) {
    |x.ram| == ADDRESS_SPACE && AllRun(live, area, AsWords(x.ram), tasks, slots)
  }

  lemma SoloKeeps(live: Live, area: Area, tasks: seq<page>, slots: seq<Process?>, j: nat, code: Code, x: Solo)
    requires SoloRuns(live, area, tasks, slots, x) && j < |slots| && slots[j] != null
    ensures SoloRuns(live, area, tasks, slots, SoloTurn(x, slots[j], code))
  {
    ActKeeps(live, area, x.ram, tasks, slots, j, code(x.past));
  }

  lemma AloneKeeps(live: Live, area: Area, tasks: seq<page>, slots: seq<Process?>, j: nat, code: Code, x: Solo, n: nat)
    requires SoloRuns(live, area, tasks, slots, x) && j < |slots| && slots[j] != null
    ensures SoloRuns(live, area, tasks, slots, Alone(x, slots[j], code, n))
  {
    var y := x;
    for m := 0 to n
      invariant SoloRuns(live, area, tasks, slots, y) && y == Alone(x, slots[j], code, m)
    {
      SoloKeeps(live, area, tasks, slots, j, code, y);
      y := SoloTurn(y, slots[j], code);
    }
  }

  /** Process `j`'s program, and for all others one that does the same again and again. */
  function Against(slots: seq<Process?>, j: nat, code: Code, action: Action): (codes: seq<Code>)
    ensures |codes| == |slots| && (j < |slots| ==> codes[j] == code)
    ensures forall i | 0 <= i < |slots| && i != j :: codes[i] == (_ => action)
  {
    seq(|slots|, i => if i == j then code else (_ => action))
  }

  /** A turn of `k` that writes, and then one of `j` that reads: it finds another byte than alone. */
  lemma TwoTurns(live: Live, area: Area, tasks: seq<page>, slots: seq<Process?>, codes: seq<Code>, j: nat, k: nat,
                 x: World, a: word, b: word, v: byte)
    requires |x.ram| == ADDRESS_SPACE && |x.pasts| == |slots| == |codes| && j < |slots| && k < |slots| && j != k
    requires slots[j] != null && slots[k] != null && AllRun(live, area, AsWords(x.ram), tasks, slots)
    requires codes[k](x.pasts[k]) == Write(b, v) && codes[j](x.pasts[j]) == Read(a)
    requires StoreBy(x.ram, slots, Store(k, b, v)) == x.ram[a := v] && v != x.ram[a]
    requires Sees(x.ram[a := v], slots[j], a) == v && Sees(x.ram, slots[j], a) == x.ram[a]
    ensures Turn(Turn(x, slots, codes, k), slots, codes, j).pasts[j] != SoloTurn(View(x, j), slots[j], codes[j]).past
  {
    var x1 := Turn(x, slots, codes, k);
    assert x1.ram == x.ram[a := v] && x1.pasts[j] == x.pasts[j];
    var last := |x.pasts[j]|;
    assert Turn(x1, slots, codes, j).pasts[j][last] == Byte(v);
    assert SoloTurn(View(x, j), slots[j], codes[j]).past[last] == Byte(x.ram[a]);
  }

  lemma ThenTwo(x: World, slots: seq<Process?>, codes: seq<Code>, r: seq<nat>, j: nat, k: nat)
    returns (schedule: seq<nat>)
    requires |x.ram| == ADDRESS_SPACE && |x.pasts| == |slots| == |codes| && j != k
    ensures Turns(x, slots, codes, schedule) == Turn(Turn(Turns(x, slots, codes, r), slots, codes, k), slots, codes, j)
    ensures CountOf(schedule, j) == CountOf(r, j) + 1
  {
    var s := r + [k];
    schedule := s + [j];
    assert s[..|r|] == r && schedule[..|s|] == s;
  }

  /** A process that reads an exposed address after `m` turns alone can be made to find something else. */
  lemma Noticed(live: Live, area: Area, tasks: seq<page>, slots: seq<Process?>, j: nat, code: Code, x: World, m: nat)
    returns (codes: seq<Code>, schedule: seq<nat>)
    requires |x.ram| == ADDRESS_SPACE && |x.pasts| == |slots| && j < |slots| && slots[j] != null
    requires AllRun(live, area, AsWords(x.ram), tasks, slots)
    requires ReadsExposed(slots, j, code(Alone(View(x, j), slots[j], code, m).past))
    ensures |codes| == |slots| && codes[j] == code && CountOf(schedule, j) == m + 1
    ensures Turns(x, slots, codes, schedule).pasts[j] != Alone(View(x, j), slots[j], code, m + 1).past
  {
    var y := Alone(View(x, j), slots[j], code, m);
    var a := code(y.past).at;
    var v := Other(y.ram[a]);
    var k :| 0 <= k < |slots| && k != j && slots[k] != null && PageOf(a) in BodyOf(slots[k]);
    AloneKeeps(live, area, tasks, slots, j, code, View(x, j), m);
    var b := SeesOthersByte(live, area, y.ram, tasks, slots, j, k, a, v);
    codes := Against(slots, j, code, Write(b, v));
    OnlyIsAlone(x, slots, codes, j, m);
    var x1 := Turns(x, slots, codes, Only(j, m));
    TwoTurns(live, area, tasks, slots, codes, j, k, x1, a, b, v);
    schedule := ThenTwo(x, slots, codes, Only(j, m), j, k);
  }

  /** A process runs as if alone, beside any programs in any order, exactly if alone it reads no address that
      is outside its own ranges and in another's program or stack. */
  lemma AsIfAloneIff(live: Live, area: Area, tasks: seq<page>, slots: seq<Process?>, j: nat, code: Code, x: World,
                     n: nat)
    requires |x.ram| == ADDRESS_SPACE && |x.pasts| == |slots| && j < |slots| && slots[j] != null
    requires AllRun(live, area, AsWords(x.ram), tasks, slots)
    ensures AsIfAlone(x, slots, j, code, n) <==> KeepsOff(View(x, j), slots, j, code, n)
  {
    if KeepsOff(View(x, j), slots, j, code, n) {
      AsIfAloneIf(live, area, tasks, slots, j, code, x, n);
    } else {
      var m: nat :| m < n && ReadsExposed(slots, j, code(Alone(View(x, j), slots[j], code, m).past));
      var codes, schedule := Noticed(live, area, tasks, slots, j, code, x, m);
      assert !LikeAlone(Turns(x, slots, codes, schedule), Alone(View(x, j), slots[j], code, m + 1), slots, j,
                        AsWords(x.ram));
    }
  }
}
