/** The scheduler's list of tasks, linked through words of the tasks' blocks in memory: insertion at the
    tail, removal, and round robin. */
module Tasks {
  import opened Words
  import opened HeapTable
  import opened PageTables
  import opened Paging

  // The words of a task's block.
  const DIRECTORY := 0
  const IP := 8
  const CS := 9
  const ESP := 11
  const SS := 12
  const NEXT := 13
  const PREV := 14
  const PROCESS := 15
  const TASK_SIZE := 64

  /** The `i`-th word of the task in page `p`. */
  function Field(w: seq<word>, p: page, i: nat): word
    requires |w| == MEMORY_WORDS && i < ENTRIES
  {
    w[p * ENTRIES + i]
  }

  /** The memory after a store to such a word. */
  function WithField(w: seq<word>, p: page, i: nat, val: word): (r: seq<word>)
    requires |w| == MEMORY_WORDS && i < ENTRIES
    ensures |r| == MEMORY_WORDS
    ensures forall q: page, j: nat | j < ENTRIES :: Field(r, q, j) == if q == p && j == i then val else Field(w, q, j)
  {
    w[p * ENTRIES + i := val]
  }

  method LoadField(mem: array<byte>, task: word, i: nat) returns (val: word)
    requires mem.Length == ADDRESS_SPACE && Aligned(task) && i < ENTRIES
    ensures val == Field(AsWords(mem[..]), PageOf(task), i)
  {
    WordsOfPage(task, i);
    val := LoadWord(mem, task + 4 * i);
  }

  method StoreField(mem: array<byte>, task: word, i: nat, val: word)
    requires mem.Length == ADDRESS_SPACE && Aligned(task) && i < ENTRIES
    modifies mem
    ensures AsWords(mem[..]) == WithField(AsWords(old(mem[..])), PageOf(task), i, val)
  {
    WordsOfPage(task, i);
    StoreWord(mem, task + 4 * i, val);
  }

  /** The list without its `i`-th element. */
  function Without<T>(s: seq<T>, i: nat): (r: seq<T>)
    requires i < |s|
    ensures |r| == |s| - 1
  {
    s[..i] + s[i + 1..]
  }

  /** The page of the `i`-th task; 0, the page of the null pointer, if there is none. */
  function At(tasks: seq<page>, i: int): page {
    if 0 <= i < |tasks| then tasks[i] else 0
  }

  function Address(p: page): (a: word)
    ensures PageOf(a) == p && Aligned(a) && (a == 0 <==> p == 0)
  {
    p * PAGE_SIZE
  }

  lemma AddressOf(a: word)
    requires Aligned(a)
    ensures Address(PageOf(a)) == a
  {
  }

  /** The tasks are in different pages, and none of them in page 0. Folded. */
  ghost predicate Distinct(tasks: seq<page>) {
    forall k: nat | Unfolded(OfTasks, k) ::
      0 !in tasks && forall i, j | 0 <= i < j < |tasks| :: tasks[i] != tasks[j]
  }

  lemma DistinctAt(tasks: seq<page>, i: nat, j: nat)
    requires Distinct(tasks) && i < |tasks| && j < |tasks|
    ensures tasks[i] == tasks[j] <==> i == j
    ensures tasks[i] != 0
  {
    assert Unfolded(OfTasks, 0);
    assert tasks[i] in tasks;
  }

  /** The forward links: each task to the one behind it, the last to none. Folded, as are the next two. */
  ghost predicate Forward(w: seq<word>, tasks: seq<page>)
    requires |w| == MEMORY_WORDS
  {
    forall k: nat | Unfolded(OfLinks, k) ::
      forall i | 0 <= i < |tasks| :: Field(w, tasks[i], NEXT) == Address(At(tasks, i + 1))
  }

  /** Every backward link is right. */
  ghost predicate BothWays(w: seq<word>, tasks: seq<page>)
    requires |w| == MEMORY_WORDS
  {
    forall k: nat | Unfolded(OfLinks, k) ::
      forall i | 0 <= i < |tasks| :: Field(w, tasks[i], PREV) == Address(At(tasks, i - 1))
  }

  /** Every backward link is the start of a page: of a task, or of what was one and may since have been
      allocated again for anything. */
  ghost predicate PrevsAligned(w: seq<word>, tasks: seq<page>)
    requires |w| == MEMORY_WORDS
  {
    forall k: nat | Unfolded(OfLinks, k) :: forall i | 0 <= i < |tasks| :: Aligned(Field(w, tasks[i], PREV))
  }

  lemma LinksAt(w: seq<word>, tasks: seq<page>, i: nat)
    requires |w| == MEMORY_WORDS && i < |tasks|
    ensures Forward(w, tasks) ==> Field(w, tasks[i], NEXT) == Address(At(tasks, i + 1))
    ensures BothWays(w, tasks) ==> Field(w, tasks[i], PREV) == Address(At(tasks, i - 1))
    ensures PrevsAligned(w, tasks) ==> Aligned(Field(w, tasks[i], PREV))
  {
    assert Unfolded(OfLinks, 0);
  }

  lemma StillDistinct(tasks: seq<page>, i: nat)
    requires i < |tasks| && Distinct(tasks)
    ensures Distinct(Without(tasks, i)) && tasks[i] !in Without(tasks, i)
    ensures forall p | p in Without(tasks, i) :: p in tasks
  {
    assert Unfolded(OfTasks, 0);
  }

  // ---------------------------------------------------------------- what a removal does to the links

  /** The page that the link back of the `i`-th task points to. */
  function Prev(w: seq<word>, tasks: seq<page>, i: nat): page
    requires |w| == MEMORY_WORDS && i < |tasks|
  {
    PageOf(Field(w, tasks[i], PREV))
  }

  /** The memory after the first step of removing the `i`-th task: what its link back points to is linked
      to what is behind it. */
  function Bypassed(w: seq<word>, tasks: seq<page>, i: nat): (r: seq<word>)
    requires |w| == MEMORY_WORDS && i < |tasks|
    ensures |r| == MEMORY_WORDS
  {
    if Prev(w, tasks, i) == 0 then w else WithField(w, Prev(w, tasks, i), NEXT, Field(w, tasks[i], NEXT))
  }

  /** When that leaves the others chained: the link back was right, or the task was the first and its stale
      link, if it has one, points to none of the others. */
  ghost predicate Removable(w: seq<word>, tasks: seq<page>, i: nat)
    requires |w| == MEMORY_WORDS && i < |tasks|
  {
    Prev(w, tasks, i) == At(tasks, i - 1) || (i == 0 && Prev(w, tasks, i) !in Without(tasks, i))
  }

  lemma NextAfter(w: seq<word>, tasks: seq<page>, i: nat, j: nat)
    requires |w| == MEMORY_WORDS && Distinct(tasks) && Forward(w, tasks) && i < |tasks| && j < |tasks|
    ensures Field(Bypassed(w, tasks, i), tasks[j], NEXT) ==
        Address(At(tasks, if tasks[j] == Prev(w, tasks, i) then i + 1 else j + 1))
  {
    LinksAt(w, tasks, i);
    LinksAt(w, tasks, j);
    DistinctAt(tasks, j, j);
  }

  /** In the list without its `i`-th task, the task behind that one is where it was. */
  lemma AtWithout(tasks: seq<page>, i: nat, k: nat)
    requires i < |tasks| && k < |tasks| - 1
    ensures Without(tasks, i)[k] == tasks[if k < i then k else k + 1]
    ensures At(Without(tasks, i), k + 1) == At(tasks, if k + 1 < i then k + 1 else k + 2)
  {
  }

  lemma NextWithout(w: seq<word>, tasks: seq<page>, i: nat, k: nat)
    requires |w| == MEMORY_WORDS && Distinct(tasks) && Forward(w, tasks) && i < |tasks| && k < |tasks| - 1
    requires Removable(w, tasks, i)
    ensures var rest := Without(tasks, i); Field(Bypassed(w, tasks, i), rest[k], NEXT) == Address(At(rest, k + 1))
  {
    var j := if k < i then k else k + 1;
    AtWithout(tasks, i, k);
    NextAfter(w, tasks, i, j);
    if i > 0 {
      DistinctAt(tasks, i - 1, j);
    } else {
      assert Without(tasks, i)[k] in Without(tasks, i);
      DistinctAt(tasks, j, j);
    }
  }

  lemma ChainedWithout(w: seq<word>, tasks: seq<page>, i: nat)
    requires |w| == MEMORY_WORDS && Distinct(tasks) && Forward(w, tasks) && i < |tasks| && Removable(w, tasks, i)
    ensures Forward(Bypassed(w, tasks, i), Without(tasks, i))
  {
    var rest := Without(tasks, i);
    forall k | 0 <= k < |rest|
      ensures Field(Bypassed(w, tasks, i), rest[k], NEXT) == Address(At(rest, k + 1))
    {
      NextWithout(w, tasks, i, k);
    }
  }

  /** The task before it still points to it, or a later one now points past others or to itself. */
  lemma NotChainedWithout(w: seq<word>, tasks: seq<page>, i: nat)
    requires |w| == MEMORY_WORDS && Distinct(tasks) && Forward(w, tasks) && i < |tasks| && !Removable(w, tasks, i)
    ensures !Forward(Bypassed(w, tasks, i), Without(tasks, i))
  {
    var rest, after := Without(tasks, i), Bypassed(w, tasks, i);
    if i > 0 {
      NextAfter(w, tasks, i, i - 1);
      AtWithout2(tasks, i);
      NotForward(after, rest, i - 1);
    } else {
      var k :| 0 <= k < |rest| && rest[k] == Prev(w, tasks, i);
      AtWithout(tasks, i, k);
      NextAfter(w, tasks, i, k + 1);
      LaterDiffer(tasks, k);
      NotForward(after, rest, k);
    }
  }

  lemma NotForward(w: seq<word>, tasks: seq<page>, i: nat)
    requires |w| == MEMORY_WORDS && i < |tasks| && Field(w, tasks[i], NEXT) != Address(At(tasks, i + 1))
    ensures !Forward(w, tasks)
  {
    assert Unfolded(OfLinks, 0);
  }

  lemma AtWithout2(tasks: seq<page>, i: nat)
    requires Distinct(tasks) && 0 < i < |tasks|
    ensures i - 1 < |Without(tasks, i)| && Without(tasks, i)[i - 1] == tasks[i - 1]
    ensures Address(tasks[i]) != Address(At(Without(tasks, i), i))
  {
    AtWithout(tasks, i, i - 1);
    DistinctAt(tasks, i, i);
    if i + 1 < |tasks| {
      DistinctAt(tasks, i, i + 1);
    }
  }

  lemma LaterDiffer(tasks: seq<page>, k: nat)
    requires Distinct(tasks) && k + 1 < |tasks|
    ensures Address(tasks[1]) != Address(At(tasks, k + 2))
  {
    DistinctAt(tasks, 1, 1);
    if k + 2 < |tasks| {
      DistinctAt(tasks, 1, k + 2);
    }
  }

  lemma PrevsStay(w: seq<word>, tasks: seq<page>, i: nat)
    requires |w| == MEMORY_WORDS && i < |tasks| && PrevsAligned(w, tasks)
    ensures PrevsAligned(Bypassed(w, tasks, i), Without(tasks, i))
  {
    assert Unfolded(OfLinks, 0);
    var rest := Without(tasks, i);
    assert forall k | 0 <= k < |rest| :: rest[k] == tasks[if k < i then k else k + 1];
  }

  /** The tasks' own words are all a list depends on. */
  lemma LinksKept(w: seq<word>, after: seq<word>, tasks: seq<page>)
    requires |w| == |after| == MEMORY_WORDS && forall p | p in tasks :: SamePage(w, after, p)
    ensures Forward(w, tasks) ==> Forward(after, tasks)
    ensures PrevsAligned(w, tasks) ==> PrevsAligned(after, tasks)
    ensures BothWays(w, tasks) ==> BothWays(after, tasks)
  {
    assert Unfolded(OfLinks, 0);
    forall i, k: nat | 0 <= i < |tasks| && k < ENTRIES
      ensures Field(after, tasks[i], k) == Field(w, tasks[i], k)
    {
      assert tasks[i] in tasks;
    }
  }

  // ---------------------------------------------------------------- what an insertion does

  /** The memory after the insertion of the task in page `p` behind the one in page `tail`, or into an
      empty list. */
  function Inserted(w: seq<word>, tail: page, p: page): (r: seq<word>)
    requires |w| == MEMORY_WORDS
    ensures |r| == MEMORY_WORDS
  {
    if tail == 0 then w else WithField(WithField(w, tail, NEXT, Address(p)), p, PREV, Address(tail))
  }

  function Last(tasks: seq<page>): page {
    At(tasks, |tasks| - 1)
  }

  lemma OneMoreDistinct(tasks: seq<page>, p: page)
    requires Distinct(tasks) && p !in tasks && p != 0
    ensures Distinct(tasks + [p])
  {
    assert Unfolded(OfTasks, 0);
  }

  /** In the longer list, who is behind and before whom. */
  lemma AtLonger(tasks: seq<page>, p: page, i: nat)
    requires Distinct(tasks) && p !in tasks && p != 0 && i <= |tasks|
    ensures var longer := tasks + [p];
      && longer[i] == (if i < |tasks| then tasks[i] else p)
      && At(longer, i + 1) == (if i + 1 == |tasks| then p else At(tasks, i + 1))
      && At(longer, i - 1) == (if i < |tasks| then At(tasks, i - 1) else Last(tasks))
    ensures i < |tasks| ==> tasks[i] != p && (tasks[i] == Last(tasks) <==> i + 1 == |tasks|)
    ensures p != Last(tasks) && (Last(tasks) == 0 <==> tasks == [])
  {
    var n := |tasks|;
    assert n > 0 ==> tasks[n - 1] in tasks;
    if i < n {
      assert tasks[i] in tasks;
      DistinctAt(tasks, i, n - 1);
    }
    if n > 0 {
      DistinctAt(tasks, n - 1, n - 1);
    }
  }

  lemma InsertedLinks(w: seq<word>, tasks: seq<page>, p: page, i: nat)
    requires |w| == MEMORY_WORDS && Distinct(tasks) && Forward(w, tasks) && p !in tasks && p != 0 && i <= |tasks|
    requires Field(w, p, NEXT) == 0 && Field(w, p, PREV) == 0
    ensures var after, longer := Inserted(w, Last(tasks), p), tasks + [p];
      && Field(after, longer[i], NEXT) == Address(At(longer, i + 1))
      && Field(after, longer[i], PREV) == if i < |tasks| then Field(w, tasks[i], PREV) else Address(Last(tasks))
  {
    AtLonger(tasks, p, i);
    FieldsInserted(w, Last(tasks), p, (tasks + [p])[i]);
    if i < |tasks| {
      LinksAt(w, tasks, i);
    }
  }

  lemma FieldsInserted(w: seq<word>, tail: page, p: page, q: page)
    requires |w| == MEMORY_WORDS && tail != p
    ensures var after := Inserted(w, tail, p);
      && Field(after, q, NEXT) == (if tail != 0 && q == tail then Address(p) else Field(w, q, NEXT))
      && Field(after, q, PREV) == (if tail != 0 && q == p then Address(tail) else Field(w, q, PREV))
  {
  }

  lemma InsertedForward(w: seq<word>, tasks: seq<page>, p: page)
    requires |w| == MEMORY_WORDS && Distinct(tasks) && Forward(w, tasks) && p !in tasks && p != 0
    requires Field(w, p, NEXT) == 0 && Field(w, p, PREV) == 0
    ensures var after, longer := Inserted(w, Last(tasks), p), tasks + [p];
      && Forward(after, longer)
      && (PrevsAligned(w, tasks) ==> PrevsAligned(after, longer)) && (BothWays(w, tasks) ==> BothWays(after, longer))
  {
    assert Unfolded(OfLinks, 0);
    var after, longer := Inserted(w, Last(tasks), p), tasks + [p];
    forall i | 0 <= i < |longer|
      ensures Field(after, longer[i], NEXT) == Address(At(longer, i + 1))
      ensures Field(after, longer[i], PREV) == if i < |tasks| then Field(w, tasks[i], PREV) else Address(Last(tasks))
      ensures At(longer, i - 1) == if i < |tasks| then At(tasks, i - 1) else Last(tasks)
    {
      InsertedLinks(w, tasks, p, i);
      AtLonger(tasks, p, i);
    }
  }

  /** One of the tasks is current, if there is one. */
  ghost predicate CurrentIn(tasks: seq<page>, current: word) {
    Aligned(current) && if tasks == [] then current == 0 else PageOf(current) in tasks
  }

  lemma InsertedEnds(tasks: seq<page>, p: page, current: word)
    requires CurrentIn(tasks, current)
    ensures var longer := tasks + [p];
      && At(longer, 0) == (if tasks == [] then p else At(tasks, 0)) && Last(longer) == p
      && CurrentIn(longer, if tasks == [] then Address(p) else current)
  {
    assert tasks == [] ==> (tasks + [p])[0] == p;
  }

  /** From `head` to `tail` the chain is `tasks`, and one of them is current. Folded. */
  ghost predicate ChainAt(w: seq<word>, tasks: seq<page>, head: word, tail: word, current: word) {
    forall k: nat | Unfolded(OfChain, k) ::
      && |w| == MEMORY_WORDS && Distinct(tasks) && Forward(w, tasks)
      && head == Address(At(tasks, 0)) && tail == Address(Last(tasks)) && CurrentIn(tasks, current)
  }

  lemma EndsOf(w: seq<word>, tasks: seq<page>, head: word, tail: word, current: word)
    requires ChainAt(w, tasks, head, tail, current)
    ensures |w| == MEMORY_WORDS && Distinct(tasks) && Forward(w, tasks)
    ensures head == Address(At(tasks, 0)) && tail == Address(Last(tasks)) && Aligned(tail)
    ensures PageOf(tail) == Last(tasks)
    ensures (head == 0 <==> tasks == []) && (Last(tasks) == 0 <==> tasks == [])
  {
    assert Unfolded(OfChain, 0);
    if tasks != [] {
      DistinctAt(tasks, 0, |tasks| - 1);
      DistinctAt(tasks, |tasks| - 1, 0);
    }
  }

  lemma InsertedChain(w: seq<word>, tasks: seq<page>, head: word, tail: word, current: word, p: page)
    requires ChainAt(w, tasks, head, tail, current) && |w| == MEMORY_WORDS && PrevsAligned(w, tasks)
    requires p !in tasks && p != 0 && Field(w, p, NEXT) == 0 && Field(w, p, PREV) == 0
    ensures var after, longer := Inserted(w, Last(tasks), p), tasks + [p];
      && ChainAt(after, longer, if tasks == [] then Address(p) else head, Address(p),
                 if tasks == [] then Address(p) else current)
      && PrevsAligned(after, longer) && (BothWays(w, tasks) ==> BothWays(after, longer))
  {
    EndsOf(w, tasks, head, tail, current);
    InsertedForward(w, tasks, p);
    OneMoreDistinct(tasks, p);
    assert Unfolded(OfChain, 0);
    InsertedEnds(tasks, p, current);
  }

  /** The two links of an insertion. */
  method Link(mem: array<byte>, tail: word, task: word)
    requires mem.Length == ADDRESS_SPACE && Aligned(tail) && Aligned(task) && tail != 0
    modifies mem
    ensures AsWords(mem[..]) == Inserted(AsWords(old(mem[..])), PageOf(tail), PageOf(task))
  {
    AddressOf(task);
    AddressOf(tail);
    StoreField(mem, tail, NEXT, task);
    StoreField(mem, task, PREV, tail);
  }

  /** The task behind the one at `task`, or the first. */
  function NextTask(w: seq<word>, head: word, task: word): word
    requires |w| == MEMORY_WORDS
  {
    var next := Field(w, PageOf(task), NEXT);
    if next == 0 then head else next
  }

  class TaskList {
    var head: word
    var tail: word
    var current: word
    ghost var tasks: seq<page>

    /** The forward chain from the head is `tasks`, and one of them is current. */
    ghost predicate Chained(w: seq<word>)
      reads this
    {
      ChainAt(w, tasks, head, tail, current)
    }

    ghost predicate Valid(w: seq<word>)
      reads this
    {
      |w| == MEMORY_WORDS && Chained(w) && PrevsAligned(w, tasks)
    }

    constructor ()
      ensures tasks == [] && forall w: seq<word> | |w| == MEMORY_WORDS :: Valid(w) && BothWays(w, tasks)
    {
      head, tail, current, tasks := 0, 0, 0, [];
    }

    /** The end of `task_new`, for a block that is not in the list, whoever had it before. */
    method Insert(mem: array<byte>, task: word)
      requires mem.Length == ADDRESS_SPACE && Valid(AsWords(mem[..]))
      requires Aligned(task) && task != 0 && PageOf(task) !in tasks
      requires var w, p := AsWords(mem[..]), PageOf(task); Field(w, p, NEXT) == 0 && Field(w, p, PREV) == 0
      modifies this, mem
      ensures AsWords(mem[..]) == Inserted(AsWords(old(mem[..])), Last(old(tasks)), PageOf(task))
      ensures Valid(AsWords(mem[..])) && tasks == old(tasks) + [PageOf(task)]
      ensures old(BothWays(AsWords(mem[..]), tasks)) ==> BothWays(AsWords(mem[..]), tasks)
      ensures current == if old(tasks) == [] then task else old(current)
    {
      AddressOf(task);
      EndsOf(AsWords(mem[..]), tasks, head, tail, current);
      InsertedChain(AsWords(mem[..]), tasks, head, tail, current, PageOf(task));
      if head == 0 {
        head, tail, current := task, task, task;
      } else {
        Link(mem, tail, task);
        tail := task;
      }
      tasks := tasks + [PageOf(task)];
    }

    /** The task after the current one, round the end of the list. */
    method GetNext(mem: array<byte>, ghost i: nat) returns (task: word)
      requires mem.Length == ADDRESS_SPACE && Chained(AsWords(mem[..])) && i < |tasks| && current == Address(tasks[i])
      ensures task == Address(tasks[if i + 1 < |tasks| then i + 1 else 0])
      ensures task == NextTask(AsWords(mem[..]), head, current)
    {
      EndsOf(AsWords(mem[..]), tasks, head, tail, current);
      LinksAt(AsWords(mem[..]), tasks, i);
      if i + 1 < |tasks| {
        DistinctAt(tasks, i + 1, i + 1);
      }
      task := LoadField(mem, current, NEXT);
      if task == 0 {
        task := head;
      }
    }

    /** Takes the `i`-th task out. The forward chain is then the others, and if the task was current the
        one after it is, exactly if it was removable, and not the only one with a stale link. The task
        behind it keeps a link to its block. */
    method Remove(mem: array<byte>, task: word, ghost i: nat)
      requires mem.Length == ADDRESS_SPACE && Valid(AsWords(mem[..])) && i < |tasks| && task == Address(tasks[i])
      modifies this, mem
      ensures AsWords(mem[..]) == Bypassed(AsWords(old(mem[..])), old(tasks), i) && tasks == Without(old(tasks), i)
      ensures Chained(AsWords(mem[..])) <==> Leaves(AsWords(old(mem[..])), old(tasks), i)
      ensures Chained(AsWords(mem[..])) ==> Valid(AsWords(mem[..]))
      ensures Chained(AsWords(mem[..])) ==>
          current == if old(current) == task then Address(At(tasks, if i < |tasks| then i else 0)) else old(current)
    {
      ghost var w, before := AsWords(mem[..]), tasks;
      EndsOf(w, before, head, tail, current);
      RemovedChainIff(w, before, i, head, tail, current);
      var next, prev := Unlink(mem, task, i);
      if task == head {
        head := next;
      }
      if task == tail {
        tail := prev;
      }
      if task == current {
        current := if next == 0 then head else next;
      }
      tasks := Without(before, i);
    }

    /** `task->prev->next = task->next`. */
    method Unlink(mem: array<byte>, task: word, ghost i: nat) returns (next: word, prev: word)
      requires mem.Length == ADDRESS_SPACE && Valid(AsWords(mem[..])) && i < |tasks| && task == Address(tasks[i])
      modifies mem
      ensures var w := AsWords(old(mem[..]));
        && AsWords(mem[..]) == Bypassed(w, tasks, i)
        && next == Address(At(tasks, i + 1)) && prev == Address(Prev(w, tasks, i))
    {
      EndsOf(AsWords(mem[..]), tasks, head, tail, current);
      LinksAt(AsWords(mem[..]), tasks, i);
      prev := LoadField(mem, task, PREV);
      next := LoadField(mem, task, NEXT);
      AddressOf(prev);
      if prev != 0 {
        StoreField(mem, prev, NEXT, next);
      }
    }

    /** `task_switch` to the next task. */
    method SwitchOn(mem: array<byte>)
      requires mem.Length == ADDRESS_SPACE && Chained(AsWords(mem[..])) && tasks != []
      modifies this`current
      ensures Chained(AsWords(mem[..])) && current == Switched(AsWords(mem[..]), head, old(current), 1)
    {
      ghost var w, was := AsWords(mem[..]), current;
      ghost var c := CurrentAt(w, tasks, head, tail, current);
      current := GetNext(mem, c);
      OtherCurrent(w, tasks, head, tail, was, if c + 1 < |tasks| then c + 1 else 0);
      assert Switched(w, head, was, 1) == NextTask(w, head, Switched(w, head, was, 0));
    }
  }

  // ---------------------------------------------------------------- round robin

  /** The task that is current after `k` switches. */
  function Switched(w: seq<word>, head: word, current: word, k: nat): word
    requires |w| == MEMORY_WORDS
  {
    if k == 0 then current else NextTask(w, head, Switched(w, head, current, k - 1))
  }

  /** `k` places on from place `c`, round the end. */
  function Around(c: nat, k: nat, n: nat): nat {
    if k == 0 then c else
    var before := Around(c, k - 1, n);
    if before + 1 < n then before + 1 else 0
  }

  lemma {:induction false} AroundPlus(c: nat, k: nat, j: nat, n: nat)
    requires c < n && j <= n
    ensures var x := Around(c, k, n); x < n && Around(c, k + j, n) == if x + j < n then x + j else x + j - n
    decreases k + j
  {
    if j > 0 {
      AroundPlus(c, k, j - 1, n);
    } else if k > 0 {
      AroundPlus(c, k - 1, 0, n);
    }
  }

  /** That is where the links lead. */
  lemma {:induction false} SwitchedIs(w: seq<word>, tasks: seq<page>, head: word, tail: word, current: word, c: nat,
                                      k: nat)
    requires ChainAt(w, tasks, head, tail, current) && c < |tasks| && current == Address(tasks[c])
    ensures |w| == MEMORY_WORDS && Around(c, k, |tasks|) < |tasks|
    ensures Switched(w, head, current, k) == Address(tasks[Around(c, k, |tasks|)])
  {
    EndsOf(w, tasks, head, tail, current);
    AroundPlus(c, k, 0, |tasks|);
    if k > 0 {
      SwitchedIs(w, tasks, head, tail, current, c, k - 1);
      var i := Around(c, k - 1, |tasks|);
      LinksAt(w, tasks, i);
      if i + 1 < |tasks| {
        DistinctAt(tasks, i + 1, i + 1);
      }
    }
  }

  /** The tasks that are current after `k` switches and the next ones, `n` in all. */
  function RoundFrom(w: seq<word>, head: word, current: word, k: nat, n: nat): (r: seq<word>)
    requires |w| == MEMORY_WORDS
    ensures |r| == n && forall j | 0 <= j < n :: r[j] == Switched(w, head, current, k + j)
  {
    seq<word>(n, j requires 0 <= j < n => Switched(w, head, current, k + j))
  }

  /** Of as many switches as there are tasks, after the first `k`, each runs another task, every task is run,
      and the next is the first of them again. */
  ghost predicate EachOnce(w: seq<word>, tasks: seq<page>, head: word, current: word, k: nat)
    requires |w| == MEMORY_WORDS
  {
    var round := RoundFrom(w, head, current, k, |tasks|);
    && (forall p | p in tasks :: Address(p) in round) && (forall i, j | 0 <= i < j < |tasks| :: round[i] != round[j])
    && Switched(w, head, current, k + |tasks|) == Switched(w, head, current, k)
  }

  /** It goes through the list from some place on, round the end. */
  lemma TurnIsRound(w: seq<word>, tasks: seq<page>, head: word, tail: word, current: word, k: nat)
    returns (x: nat)
    requires ChainAt(w, tasks, head, tail, current) && tasks != []
    ensures |w| == MEMORY_WORDS && x < |tasks| && Switched(w, head, current, k) == Address(tasks[x])
    ensures Switched(w, head, current, k + |tasks|) == Address(tasks[x])
    ensures var round := RoundFrom(w, head, current, k, |tasks|);
      forall j | 0 <= j < |tasks| :: round[j] == Address(tasks[if x + j < |tasks| then x + j else x + j - |tasks|])
  {
    var c := CurrentAt(w, tasks, head, tail, current);
    EndsOf(w, tasks, head, tail, current);
    SwitchedIs(w, tasks, head, tail, current, c, k);
    SwitchedIs(w, tasks, head, tail, current, c, k + |tasks|);
    AroundPlus(c, k, |tasks|, |tasks|);
    x := Around(c, k, |tasks|);
    forall j | 0 <= j < |tasks|
      ensures RoundFrom(w, head, current, k, |tasks|)[j] ==
              Address(tasks[if x + j < |tasks| then x + j else x + j - |tasks|])
    {
      SwitchedIs(w, tasks, head, tail, current, c, k + j);
      AroundPlus(c, k, j, |tasks|);
    }
  }

  /** Whichever task is current, and however many switches have been made, the next ones run each once. */
  lemma RoundRobin(w: seq<word>, tasks: seq<page>, head: word, tail: word, current: word, k: nat)
    requires ChainAt(w, tasks, head, tail, current) && tasks != []
    ensures |w| == MEMORY_WORDS && PageOf(Switched(w, head, current, k)) in tasks
    ensures EachOnce(w, tasks, head, current, k)
  {
    var x := TurnIsRound(w, tasks, head, tail, current, k);
    EndsOf(w, tasks, head, tail, current);
    RoundIsAll(tasks, RoundFrom(w, head, current, k, |tasks|), x);
  }

  lemma RoundIsAll(tasks: seq<page>, round: seq<word>, x: nat)
    requires Distinct(tasks) && |round| == |tasks| && x < |tasks|
    requires forall j | 0 <= j < |tasks| ::
      round[j] == Address(tasks[if x + j < |tasks| then x + j else x + j - |tasks|])
    ensures (forall p | p in tasks :: Address(p) in round) && forall i, j | 0 <= i < j < |round| :: round[i] != round[j]
  {
    var n := |tasks|;
    forall p | p in tasks
      ensures Address(p) in round
    {
      var i :| 0 <= i < n && tasks[i] == p;
      assert round[if i >= x then i - x else i - x + n] == Address(p);
    }
    forall i, j | 0 <= i < j < n
      ensures round[i] != round[j]
    {
      DistinctAt(tasks, if x + i < n then x + i else x + i - n, if x + j < n then x + j else x + j - n);
    }
  }

  lemma OtherCurrent(w: seq<word>, tasks: seq<page>, head: word, tail: word, current: word, i: nat)
    requires ChainAt(w, tasks, head, tail, current) && i < |tasks|
    ensures ChainAt(w, tasks, head, tail, Address(tasks[i]))
  {
    assert Unfolded(OfChain, 0);
    assert tasks[i] in tasks;
  }

  /** The `i`-th task can be removed: the others stay chained, and the ends are found. */
  ghost predicate Leaves(w: seq<word>, tasks: seq<page>, i: nat)
    requires |w| == MEMORY_WORDS && i < |tasks|
  {
    Removable(w, tasks, i) && (|tasks| > 1 || Prev(w, tasks, i) == 0)
  }

  /** What a removal makes of the chain's ends and the current task. */
  lemma RemovedChainIff(w: seq<word>, tasks: seq<page>, i: nat, head: word, tail: word, current: word)
    requires ChainAt(w, tasks, head, tail, current) && |w| == MEMORY_WORDS && i < |tasks| && PrevsAligned(w, tasks)
    ensures var task, next, prev := Address(tasks[i]), Address(At(tasks, i + 1)), Address(Prev(w, tasks, i));
      var head1, tail1 := if task == head then next else head, if task == tail then prev else tail;
      var current1 := if task != current then current else if next == 0 then head1 else next;
      && (ChainAt(Bypassed(w, tasks, i), Without(tasks, i), head1, tail1, current1) <==> Leaves(w, tasks, i))
      && PrevsAligned(Bypassed(w, tasks, i), Without(tasks, i))
      && (task == current ==> current1 == Address(At(Without(tasks, i), if i < |tasks| - 1 then i else 0)))
  {
    EndsOf(w, tasks, head, tail, current);
    PrevsStay(w, tasks, i);
    RemovableIff(w, tasks, i);
    EndsWithout(tasks, i);
    StillDistinct(tasks, i);
    var task, next, prev := Address(tasks[i]), Address(At(tasks, i + 1)), Address(Prev(w, tasks, i));
    var head1, tail1 := if task == head then next else head, if task == tail then prev else tail;
    EndsFoundIff(w, tasks, i, head1, tail1);
    assert Unfolded(OfChain, 0);
    CurrentWithout(tasks, i, current, head1, next);
  }

  /** Which task is current after a removal. */
  lemma CurrentWithout(tasks: seq<page>, i: nat, current: word, head: word, next: word)
    requires Distinct(tasks) && i < |tasks| && CurrentIn(tasks, current)
    requires head == Address(if i == 0 then At(tasks, 1) else At(tasks, 0)) && next == Address(At(tasks, i + 1))
    ensures var rest := Without(tasks, i);
      var now := if Address(tasks[i]) != current then current else if next == 0 then head else next;
      CurrentIn(rest, now) && (Address(tasks[i]) == current ==> now == Address(At(rest, if i < |rest| then i else 0)))
  {
    var rest := Without(tasks, i);
    AddressOf(current);
    EndsWithout(tasks, i);
    var c :| 0 <= c < |tasks| && tasks[c] == PageOf(current);
    assert c != i ==> rest[if c < i then c else c - 1] == PageOf(current);
    assert rest != [] ==> rest[0] in rest && (i < |rest| ==> rest[i] in rest);
  }

  lemma RemovableIff(w: seq<word>, tasks: seq<page>, i: nat)
    requires |w| == MEMORY_WORDS && Distinct(tasks) && Forward(w, tasks) && i < |tasks|
    ensures Forward(Bypassed(w, tasks, i), Without(tasks, i)) <==> Removable(w, tasks, i)
  {
    if Removable(w, tasks, i) {
      ChainedWithout(w, tasks, i);
    } else {
      NotChainedWithout(w, tasks, i);
    }
  }

  /** After a removal that leaves the chain whole, head and tail are right unless the only task had a stale
      link. */
  lemma EndsFoundIff(w: seq<word>, tasks: seq<page>, i: nat, head: word, tail: word)
    requires Distinct(tasks) && |w| == MEMORY_WORDS && i < |tasks|
    requires head == Address(if i == 0 then At(tasks, 1) else At(tasks, 0))
    requires tail == Address(if i == |tasks| - 1 then Prev(w, tasks, i) else Last(tasks))
    ensures Removable(w, tasks, i) ==>
        var rest := Without(tasks, i);
        head == Address(At(rest, 0)) && (tail == Address(Last(rest)) <==> |tasks| > 1 || Prev(w, tasks, i) == 0)
  {
    EndsWithout(tasks, i);
  }

  /** The ends of the list without its `i`-th task, and which task is an end. */
  lemma EndsWithout(tasks: seq<page>, i: nat)
    requires Distinct(tasks) && i < |tasks|
    ensures var rest := Without(tasks, i);
      && (Address(tasks[i]) == Address(At(tasks, 0)) <==> i == 0)
      && (Address(tasks[i]) == Address(Last(tasks)) <==> i == |tasks| - 1)
      && At(rest, 0) == (if i == 0 then At(tasks, 1) else At(tasks, 0))
      && Last(rest) == (if i == |tasks| - 1 then At(tasks, i - 1) else Last(tasks))
      && At(rest, i) == At(tasks, i + 1)
      && (At(tasks, i + 1) == 0 <==> i == |tasks| - 1)
  {
    DistinctAt(tasks, i, 0);
    DistinctAt(tasks, i, |tasks| - 1);
    if i + 1 < |tasks| {
      DistinctAt(tasks, i + 1, i);
    }
  }

  // ---------------------------------------------------------------- all histories

  /** A task's block as `task_new` finds it: its words are zero. */
  method ClearTask(mem: array<byte>, task: word)
    requires mem.Length == ADDRESS_SPACE && Aligned(task)
    modifies mem
    ensures SameOutside(AsWords(old(mem[..])), AsWords(mem[..]), {PageOf(task)})
    ensures forall k: nat | k < TASK_SIZE / 4 :: Field(AsWords(mem[..]), PageOf(task), k) == 0
  {
    AddressOf(task);
    WritingInPage(mem[..], PageOf(task), Zeros(TASK_SIZE));
    ZeroFill(mem, PageOf(task) * PAGE_SIZE, TASK_SIZE);
    ZeroWords(mem[..], PageOf(task), TASK_SIZE / 4);
  }

  lemma ZeroWords(ram: seq<byte>, p: page, n: nat)
    requires |ram| == ADDRESS_SPACE && n <= ENTRIES
    requires forall k | p * PAGE_SIZE <= k < p * PAGE_SIZE + 4 * n :: ram[k] == 0
    ensures forall k: nat | k < n :: Field(AsWords(ram), p, k) == 0
  {
    forall k: nat | k < n
      ensures Field(AsWords(ram), p, k) == 0
    {
      ZeroWord(ram, p * ENTRIES + k);
    }
  }

  lemma ZeroWord(ram: seq<byte>, i: nat)
    requires i < |ram| / 4 && forall k | 4 * i <= k < 4 * i + 4 :: ram[k] == 0
    ensures AsWords(ram)[i] == 0
  {
    assert Digits(0) == Zeros(4);
    assert Splice(ram, 4 * i, Zeros(4)) == ram;
    StoredWord(ram, i, 0);
  }

  datatype ListOp = AddTask(task: page) | Drop(i: nat)

  /** A task of the list, and the page that its link back points to. */
  datatype Member = Member(task: page, back: page)

  function TasksOf(ms: seq<Member>): (r: seq<page>)
    ensures |r| == |ms| && forall k | 0 <= k < |ms| :: r[k] == ms[k].task
  {
    seq(|ms|, k requires 0 <= k < |ms| => ms[k].task)
  }

  /** The list after the calls: a link back is to the task that was the last when it was made. A block that
      is in the list is not handed out again; any other may be, whether a task had it before or not. */
  function After(ops: seq<ListOp>): (ms: seq<Member>) {
    if ops == [] then [] else
    var before := After(ops[..|ops| - 1]);
    match ops[|ops| - 1]
    case AddTask(p) => if p == 0 || p in TasksOf(before) then before else before + [Member(p, Last(TasksOf(before)))]
    case Drop(i) => if i < |before| then Without(before, i) else before
  }

  /** The `i`-th task can be dropped: its link back is to the task before it, or it is the first and its link
      is to no other task; the only task must have none. */
  predicate CanDrop(ms: seq<Member>, i: nat)
    requires i < |ms|
  {
    && (ms[i].back == At(TasksOf(ms), i - 1) || (i == 0 && ms[i].back !in Without(TasksOf(ms), i)))
    && (|ms| > 1 || ms[i].back == 0)
  }

  /** Whatever was dropped could be. */
  predicate Sound(ops: seq<ListOp>) {
    ops != [] ==>
      && Sound(ops[..|ops| - 1])
      && var before, op := After(ops[..|ops| - 1]), ops[|ops| - 1];
         op.Drop? && op.i < |before| ==> CanDrop(before, op.i)
  }

  /** Every task has the link back that it was given. */
  ghost predicate Backs(w: seq<word>, ms: seq<Member>)
    requires |w| == MEMORY_WORDS
  {
    forall k | 0 <= k < |ms| :: Field(w, ms[k].task, PREV) == Address(ms[k].back)
  }

  lemma LeavesIff(w: seq<word>, ms: seq<Member>, i: nat)
    requires |w| == MEMORY_WORDS && Backs(w, ms) && i < |ms|
    ensures Leaves(w, TasksOf(ms), i) <==> CanDrop(ms, i)
  {
  }

  lemma OneMember(ms: seq<Member>, p: page, back: page)
    ensures TasksOf(ms + [Member(p, back)]) == TasksOf(ms) + [p]
  {
  }

  lemma OneFewer(ms: seq<Member>, i: nat)
    requires i < |ms|
    ensures TasksOf(Without(ms, i)) == Without(TasksOf(ms), i)
    ensures forall k | 0 <= k < |ms| - 1 :: Without(ms, i)[k] == ms[if k < i then k else k + 1]
  {
  }

  lemma LastIsNot(tasks: seq<page>, p: page)
    requires p !in tasks && p != 0
    ensures Last(tasks) != p
  {
    assert tasks != [] ==> Last(tasks) in tasks;
  }

  method AddOne(mem: array<byte>, list: TaskList, p: page)
    requires mem.Length == ADDRESS_SPACE && list.Valid(AsWords(mem[..])) && p != 0 && p !in list.tasks
    modifies mem, list
    ensures list.Valid(AsWords(mem[..])) && list.tasks == old(list.tasks) + [p]
    ensures old(BothWays(AsWords(mem[..]), list.tasks)) ==> BothWays(AsWords(mem[..]), list.tasks)
    ensures forall q | q in old(list.tasks) :: Field(AsWords(mem[..]), q, PREV) == Field(AsWords(old(mem[..])), q, PREV)
    ensures Field(AsWords(mem[..]), p, PREV) == Address(Last(old(list.tasks)))
  {
    ghost var w, tasks := AsWords(mem[..]), list.tasks;
    ClearTask(mem, Address(p));
    ghost var w1 := AsWords(mem[..]);
    ValidKept(w, w1, tasks, list.head, list.tail, list.current);
    EndsOf(w1, tasks, list.head, list.tail, list.current);
    LastIsNot(tasks, p);
    FieldsInserted(w1, Last(tasks), p, p);
    list.Insert(mem, Address(p));
    forall q | q in tasks
      ensures Field(AsWords(mem[..]), q, PREV) == Field(w, q, PREV)
    {
      AtLonger(tasks, p, |tasks|);
      FieldsInserted(w1, Last(tasks), p, q);
      assert SamePage(w, w1, q);
    }
  }

  /** A new task at the end, as `After` has it. */
  method AddMember(mem: array<byte>, list: TaskList, p: page, ghost ms: seq<Member>)
    requires mem.Length == ADDRESS_SPACE && list.Valid(AsWords(mem[..])) && p != 0 && p !in list.tasks
    requires list.tasks == TasksOf(ms) && Backs(AsWords(mem[..]), ms)
    modifies mem, list
    ensures list.Valid(AsWords(mem[..])) && list.tasks == old(list.tasks) + [p]
    ensures var after := ms + [Member(p, Last(TasksOf(ms)))];
      list.tasks == TasksOf(after) && Backs(AsWords(mem[..]), after)
  {
    AddOne(mem, list, p);
    OneMember(ms, p, Last(TasksOf(ms)));
    assert forall k | 0 <= k < |ms| :: ms[k].task == TasksOf(ms)[k] && ms[k].task in TasksOf(ms);
  }

  /** A task removed: the list is sound exactly if it could be. */
  method DropMember(mem: array<byte>, list: TaskList, task: word, ghost i: nat, ghost ms: seq<Member>)
    requires mem.Length == ADDRESS_SPACE && list.Valid(AsWords(mem[..])) && i < |ms| && task == Address(ms[i].task)
    requires list.tasks == TasksOf(ms) && Backs(AsWords(mem[..]), ms)
    modifies mem, list
    ensures list.Chained(AsWords(mem[..])) <==> CanDrop(ms, i)
    ensures list.Chained(AsWords(mem[..])) ==> list.Valid(AsWords(mem[..]))
    ensures list.tasks == TasksOf(Without(ms, i)) && Backs(AsWords(mem[..]), Without(ms, i))
  {
    LeavesIff(AsWords(mem[..]), ms, i);
    OneFewer(ms, i);
    list.Remove(mem, task, i);
  }

  /** Writing none of a list's tasks. */
  lemma ValidKept(w: seq<word>, after: seq<word>, tasks: seq<page>, head: word, tail: word, current: word)
    requires |w| == |after| == MEMORY_WORDS && ChainAt(w, tasks, head, tail, current) && PrevsAligned(w, tasks)
    requires forall p | p in tasks :: SamePage(w, after, p)
    ensures ChainAt(after, tasks, head, tail, current) && PrevsAligned(after, tasks)
    ensures BothWays(w, tasks) ==> BothWays(after, tasks)
  {
    EndsOf(w, tasks, head, tail, current);
    LinksKept(w, after, tasks);
    assert Unfolded(OfChain, 0);
  }

  /** Whatever tasks are added, in whatever blocks, and removed, in whatever places where they can be: the
      list is sound, and has the links that the calls alone say. */
  method AnyHistory(mem: array<byte>, ops: seq<ListOp>) returns (list: TaskList, tasks: seq<page>)
    requires mem.Length == ADDRESS_SPACE && Sound(ops)
    modifies mem
    ensures fresh(list) && list.Valid(AsWords(mem[..])) && tasks == list.tasks == TasksOf(After(ops))
    ensures Backs(AsWords(mem[..]), After(ops))
    ensures Straight(After(ops)) ==> BothWays(AsWords(mem[..]), tasks)
  {
    list := new TaskList();
    tasks := [];
    for k := 0 to |ops|
      invariant fresh(list) && list.Valid(AsWords(mem[..])) && tasks == list.tasks == TasksOf(After(ops[..k]))
      invariant Backs(AsWords(mem[..]), After(ops[..k]))
    {
      ghost var ms := After(ops[..k]);
      assert ops[..k + 1][..k] == ops[..k];
      SoundPrefix(ops, k + 1);
      match ops[k]
      case AddTask(p) =>
        if p != 0 && p !in tasks {
          AddMember(mem, list, p, ms);
          tasks := tasks + [p];
        }
      case Drop(i) =>
        if i < |tasks| {
          OneFewer(ms, i);
          DropMember(mem, list, Address(tasks[i]), i, ms);
          tasks := Without(tasks, i);
        }
    }
    assert ops[..|ops|] == ops;
    StraightIsBothWays(AsWords(mem[..]), After(ops));
  }

  /** Every link back is to the task before. */
  predicate Straight(ms: seq<Member>) {
    forall k | 0 <= k < |ms| :: ms[k].back == At(TasksOf(ms), k - 1)
  }

  lemma StraightIsBothWays(w: seq<word>, ms: seq<Member>)
    requires |w| == MEMORY_WORDS && Backs(w, ms)
    ensures Straight(ms) ==> BothWays(w, TasksOf(ms))
  {
  }

  lemma {:induction false} SoundPrefix(ops: seq<ListOp>, k: nat)
    requires Sound(ops) && k <= |ops|
    ensures Sound(ops[..k])
  {
    if k == |ops| {
      assert ops[..k] == ops;
    } else {
      SoundPrefix(ops[..|ops| - 1], k);
      assert ops[..|ops| - 1][..k] == ops[..k];
    }
  }

  /** On such a list the switches run every task once in every round. */
  method RoundAfter(mem: array<byte>, ops: seq<ListOp>) returns (list: TaskList)
    requires mem.Length == ADDRESS_SPACE && Sound(ops)
    modifies mem
    ensures list.Chained(AsWords(mem[..])) && list.tasks == TasksOf(After(ops))
    ensures list.tasks != [] ==> forall k: nat :: EachOnce(AsWords(mem[..]), list.tasks, list.head, list.current, k)
  {
    var tasks;
    list, tasks := AnyHistory(mem, ops);
    if tasks != [] {
      forall k: nat
        ensures EachOnce(AsWords(mem[..]), tasks, list.head, list.current, k)
      {
        RoundRobin(AsWords(mem[..]), tasks, list.head, list.tail, list.current, k);
      }
    }
  }

  /** And the next removal leaves it sound exactly if the calls say that it can. */
  method HistoryThenDrop(mem: array<byte>, ops: seq<ListOp>, i: nat) returns (list: TaskList)
    requires mem.Length == ADDRESS_SPACE && Sound(ops) && i < |After(ops)|
    modifies mem
    ensures list.Chained(AsWords(mem[..])) <==> Sound(ops + [Drop(i)])
    ensures list.tasks == TasksOf(After(ops + [Drop(i)]))
  {
    var tasks;
    list, tasks := AnyHistory(mem, ops);
    DropMember(mem, list, Address(tasks[i]), i, After(ops));
    assert (ops + [Drop(i)])[..|ops|] == ops;
  }

  /** Only the last task is ever removed. */
  predicate TailOnly(ops: seq<ListOp>) {
    ops != [] ==>
      && TailOnly(ops[..|ops| - 1])
      && (ops[|ops| - 1].Drop? ==> ops[|ops| - 1].i + 1 >= |After(ops[..|ops| - 1])|)
  }

  lemma SamePrev(tasks: seq<page>, longer: seq<page>, k: nat)
    requires k <= |tasks| <= |longer| && tasks == longer[..|tasks|]
    ensures At(longer, k - 1) == At(tasks, k - 1)
  {
  }

  lemma BackOfLonger(ms: seq<Member>, p: page, k: nat)
    requires Straight(ms) && k <= |ms|
    ensures var after := ms + [Member(p, Last(TasksOf(ms)))]; after[k].back == At(TasksOf(after), k - 1)
  {
    var after := ms + [Member(p, Last(TasksOf(ms)))];
    OneMember(ms, p, Last(TasksOf(ms)));
    SamePrev(TasksOf(ms), TasksOf(after), k);
    assert after[k] == if k < |ms| then ms[k] else Member(p, Last(TasksOf(ms)));
  }

  lemma StraightLonger(ms: seq<Member>, p: page)
    requires Straight(ms)
    ensures Straight(ms + [Member(p, Last(TasksOf(ms)))])
  {
    var after := ms + [Member(p, Last(TasksOf(ms)))];
    forall k | 0 <= k < |after|
      ensures after[k].back == At(TasksOf(after), k - 1)
    {
      BackOfLonger(ms, p, k);
    }
  }

  lemma StraightShorter(ms: seq<Member>)
    requires Straight(ms) && ms != []
    ensures CanDrop(ms, |ms| - 1) && Straight(Without(ms, |ms| - 1))
  {
    var after := Without(ms, |ms| - 1);
    OneFewer(ms, |ms| - 1);
    forall k | 0 <= k < |after|
      ensures after[k].back == At(TasksOf(after), k - 1)
    {
      SamePrev(TasksOf(after), TasksOf(ms), k);
      assert after[k] == ms[k];
    }
  }

  /** Then everything can be, and all links stay right. */
  lemma {:induction false} TailOnlyIsSound(ops: seq<ListOp>)
    requires TailOnly(ops)
    ensures Sound(ops) && Straight(After(ops))
  {
    if ops != [] {
      TailOnlyIsSound(ops[..|ops| - 1]);
      var before := After(ops[..|ops| - 1]);
      match ops[|ops| - 1]
      case AddTask(p) => StraightLonger(before, p);
      case Drop(i) => if before != [] {
        StraightShorter(before);
      }
    }
  }

  /** After a removal from anywhere else, the task behind has a stale link, and can be removed only if it has
      become the first and its link is to no task of the list. */
  lemma NextIsStale(ms: seq<Member>, i: nat)
    requires Straight(ms) && i + 1 < |ms| && CanDrop(ms, i)
    requires forall j, k | 0 <= j < k < |ms| :: ms[j].task != ms[k].task
    requires 0 !in TasksOf(ms)
    ensures var after := Without(ms, i); after[i].back == ms[i].task && after[i].back != At(TasksOf(after), i - 1)
    ensures CanDrop(Without(ms, i), i) <==> i == 0 && |ms| > 2
  {
    OneFewer(ms, i);
    var after := Without(ms, i);
    assert after[i] == ms[i + 1] && ms[i + 1].back == TasksOf(ms)[i];
    assert TasksOf(after) == Without(TasksOf(ms), i);
    assert i > 0 ==> At(TasksOf(after), i - 1) == ms[i - 1].task;
    assert TasksOf(ms)[i] in TasksOf(ms);
  }

  lemma CurrentAt(w: seq<word>, tasks: seq<page>, head: word, tail: word, current: word) returns (c: nat)
    requires ChainAt(w, tasks, head, tail, current) && tasks != []
    ensures c < |tasks| && current == Address(tasks[c])
  {
    assert Unfolded(OfChain, 0);
    AddressOf(current);
    c :| c < |tasks| && tasks[c] == PageOf(current);
  }

  /** Three tasks, and the first of them freed: the one behind it keeps its link back. */
  method FirstOfThree(mem: array<byte>, a: page, b: page, c: page) returns (list: TaskList)
    requires mem.Length == ADDRESS_SPACE && a != 0 && b != 0 && c != 0 && a != b && a != c && b != c
    modifies mem
    ensures fresh(list) && list.Valid(AsWords(mem[..])) && list.tasks == [b, c]
    ensures Field(AsWords(mem[..]), b, PREV) == Address(a)
  {
    list := new TaskList();
    AddOne(mem, list, a);
    AddOne(mem, list, b);
    AddOne(mem, list, c);
    ghost var w, tasks := AsWords(mem[..]), [a, b, c];
    assert list.tasks == tasks && tasks[0] == a && tasks[1] == b && Without(tasks, 0) == [b, c];
    LinksAt(w, tasks, 0);
    LinksAt(w, tasks, 1);
    EndsOf(w, tasks, list.head, list.tail, list.current);
    list.Remove(mem, list.head, 0);
  }

  /** Why a reused block matters: of three tasks the first is freed, and its block is handed out again to a
      new one. The task now first has a stale link to it and can no longer be removed soundly. */
  method ReusedBlock(mem: array<byte>, a: page, b: page, c: page) returns (list: TaskList)
    requires mem.Length == ADDRESS_SPACE && a != 0 && b != 0 && c != 0 && a != b && a != c && b != c
    modifies mem
    ensures list.Valid(AsWords(mem[..])) && list.tasks == [b, c, a]
    ensures !Leaves(AsWords(mem[..]), list.tasks, 0)
  {
    list := FirstOfThree(mem, a, b, c);
    AddOne(mem, list, a);
    assert list.tasks == [b, c, a] && b in [b, c];
    assert Without(list.tasks, 0)[1] == a;
  }
}
