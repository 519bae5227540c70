/** The path parser: a linked list of heap blocks that holds the components of a path. */
module PathParser {
  import opened Words
  import opened HeapTable
  import opened Heap
  import opened Kheap
  import opened PageTables
  import opened Paging
  import opened Growth
  import opened Paths

  const NODE_SIZE := 8  // of a path_root and of a path_part

  /** `s` lies NUL-terminated at the start of page `p`. */
  ghost predicate StringAt(ram: seq<byte>, p: page, s: seq<byte>) {
    && |ram| == ADDRESS_SPACE && |s| < MAX_PATH
    && (forall k | p * PAGE_SIZE <= k < p * PAGE_SIZE + |s| :: ram[k] == s[k - p * PAGE_SIZE])
    && ram[p * PAGE_SIZE + |s|] == 0
  }

  lemma StringKept(ram: seq<byte>, after: seq<byte>, p: page, s: seq<byte>)
    requires StringAt(ram, p, s) && |after| == ADDRESS_SPACE && SamePage(AsWords(ram), AsWords(after), p)
    ensures StringAt(after, p, s)
  {
    KeptBytes(ram, after, p, MAX_PATH);
  }

  lemma PrefixHas(s: seq<byte>, k: nat, i: nat)
    requires i <= |s|
    ensures k < i ==> s[k] in s[..i]
  {
    assert k < i ==> s[..i][k] == s[k];
  }

  lemma LengthIs(s: seq<byte>, i: nat)
    requires i <= |s| && SLASH !in s[..i] && (i == |s| || s[i] == SLASH)
    ensures ComponentLength(s) == i && Component(s) == s[..i]
  {
    PrefixHas(s, ComponentLength(s), i);
    PrefixHas(s, i, ComponentLength(s));
  }

  /** Copies one component, from `path[at..]` to the block at `buf`. */
  method CopyComponent(mem: array<byte>, buf: word, path: CString, at: nat) returns (i: nat)
    requires mem.Length == ADDRESS_SPACE && at <= |path| < at + MAX_PATH && buf + PAGE_SIZE <= ADDRESS_SPACE
    modifies mem
    ensures i == ComponentLength(path[at..])
    ensures mem[..] == Splice(old(mem[..]), buf, Component(path[at..]))
  {
    ghost var s := path[at..];
    i := 0;
    while at + i < |path| && path[at + i] != SLASH
      invariant i <= |s| && SLASH !in s[..i]
      invariant forall k | 0 <= k < mem.Length :: mem[k] == if buf <= k < buf + i then s[k - buf] else old(mem[k])
    {
      mem[buf + i] := path[at + i];
      assert s[..i + 1] == s[..i] + [s[i]];
      i := i + 1;
    }
    LengthIs(s, i);
  }

  lemma CopiedString(ram: seq<byte>, p: page, s: seq<byte>)
    requires |ram| == ADDRESS_SPACE && |s| < MAX_PATH
    ensures StringAt(Splice(Splice(ram, p * PAGE_SIZE, Zeros(MAX_PATH)), p * PAGE_SIZE, s), p, s)
    ensures var cleared := Splice(ram, p * PAGE_SIZE, Zeros(MAX_PATH));
      SameOutside(AsWords(ram), AsWords(Splice(cleared, p * PAGE_SIZE, s)), {p})
  {
    var cleared := Splice(ram, p * PAGE_SIZE, Zeros(MAX_PATH));
    WritingInPage(ram, p, Zeros(MAX_PATH));
    WritingInPage(cleared, p, s);
    SameOutsideBoth(AsWords(ram), AsWords(cleared), AsWords(Splice(cleared, p * PAGE_SIZE, s)), {p}, {p}, {p});
  }

  /** A fresh block with the next component in it. */
  method NewComponent(heap: Heap, mem: array<byte>, path: CString, at: nat) returns (buf: word, i: nat)
    requires heap.Valid() && mem.Length == ADDRESS_SPACE && heap.FreeCount() > 0
    requires at <= |path| < at + MAX_PATH
    modifies heap, heap.entries, mem
    ensures heap.Valid() && Aligned(buf) && buf != 0 && heap.FreeCount() == old(heap.FreeCount()) - 1
    ensures Shrinks(old(heap.entries[..]), heap.entries[..], 1)
    ensures Vacant(old(heap.live), AreaOf(heap), PageOf(buf))
    ensures heap.live == old(heap.live)[Block(AreaOf(heap), PageOf(buf)) := 1]
    ensures i == ComponentLength(path[at..]) && StringAt(mem[..], PageOf(buf), Component(path[at..]))
    ensures SameOutside(AsWords(old(mem[..])), AsWords(mem[..]), {PageOf(buf)})
  {
    ghost var ram, s := mem[..], Component(path[at..]);
    buf := KzallocBlock(heap, mem, MAX_PATH);
    ghost var p := PageOf(buf);
    i := CopyComponent(mem, buf, path, at);
    CopiedString(ram, p, s);
  }

  lemma AfterPart(path: seq<byte>, at: nat, i: nat)
    requires at <= |path| && i == ComponentLength(path[at..])
    ensures at + i <= |path|
    ensures var end := at + i; AfterComponent(path[at..]) == path[if end < |path| then end + 1 else end..]
    ensures at + i < |path| ==> path[at + i] == SLASH
  {
  }

  /** The next component in a block of its own, and the cursor behind it; for an empty component the
      block is given back. */
  method GetPathPart(heap: Heap, mem: array<byte>, path: CString, at: nat) returns (buf: word, next: nat, ghost q: page)
    requires heap.Valid() && mem.Length == ADDRESS_SPACE && heap.FreeCount() > 0
    requires at <= |path| < at + MAX_PATH
    modifies heap, heap.entries, mem
    ensures heap.Valid() && at <= next <= |path| && path[next..] == AfterComponent(path[at..])
    ensures Vacant(old(heap.live), AreaOf(heap), q)
    ensures SameOutside(AsWords(old(mem[..])), AsWords(mem[..]), {q})
    ensures Shrinks(old(heap.entries[..]), heap.entries[..], if ComponentLength(path[at..]) == 0 then 0 else 1)
    ensures if ComponentLength(path[at..]) == 0
      then buf == 0 && heap.live == old(heap.live) && heap.FreeCount() == old(heap.FreeCount())
      else && buf == q * PAGE_SIZE != 0 && heap.live == old(heap.live)[Block(AreaOf(heap), q) := 1]
           && heap.FreeCount() == old(heap.FreeCount()) - 1 && StringAt(mem[..], q, Component(path[at..]))
  {
    ghost var t, live := heap.entries[..], heap.live;
    var i;
    buf, i := NewComponent(heap, mem, path, at);
    q := PageOf(buf);
    AfterPart(path, at, i);
    next := at + i;
    if next < |path| && path[next] == SLASH {
      next := next + 1;
    }
    if i == 0 {
      FreePage(heap, buf);
      NewIsNotLive(t, live, Block(AreaOf(heap), q));
      assert heap.live == live;
      TableIsDetermined(heap.entries[..], t, live);
      NoShrink(t, 0);
      buf := 0;
    }
  }

  // ---------------------------------------------------------------- the list

  /** The `path_part` in page `p` points to the string `s` in page `q`, and to `next`. */
  ghost predicate PartAt(ram: seq<byte>, p: page, next: word, q: page, s: seq<byte>) {
    StringAt(ram, q, s) && p != 0 && AsWords(ram)[p * ENTRIES] == q * PAGE_SIZE && AsWords(ram)[p * ENTRIES + 1] == next
  }

  /** A fresh block that holds `first` and a null pointer: a `path_part` for the string at `first`, or a
      `path_root` for drive `first`. */
  method NewPair(heap: Heap, mem: array<byte>, first: word) returns (part: word)
    requires heap.Valid() && mem.Length == ADDRESS_SPACE && heap.FreeCount() > 0
    modifies heap, heap.entries, mem
    ensures heap.Valid() && Aligned(part) && part != 0 && heap.FreeCount() == old(heap.FreeCount()) - 1
    ensures Shrinks(old(heap.entries[..]), heap.entries[..], 1)
    ensures Vacant(old(heap.live), AreaOf(heap), PageOf(part))
    ensures heap.live == old(heap.live)[Block(AreaOf(heap), PageOf(part)) := 1]
    ensures var w, p := AsWords(mem[..]), PageOf(part); w[p * ENTRIES] == first && w[p * ENTRIES + 1] == 0
    ensures SameOutside(AsWords(old(mem[..])), AsWords(mem[..]), {PageOf(part)})
  {
    part := KzallocBlock(heap, mem, NODE_SIZE);
    ghost var p, w := PageOf(part), AsWords(mem[..]);
    SetPair(mem, part, first, 0);
    SameOutsideBoth(AsWords(old(mem[..])), w, AsWords(mem[..]), {p}, {p}, {p});
  }

  lemma PartKept(ram: seq<byte>, after: seq<byte>, p: page, next: word, q: page, s: seq<byte>)
    requires PartAt(ram, p, next, q, s) && |after| == ADDRESS_SPACE
    requires SamePage(AsWords(ram), AsWords(after), p) && SamePage(AsWords(ram), AsWords(after), q)
    ensures PartAt(after, p, next, q, s)
  {
    StringKept(ram, after, q, s);
  }

  /** One more component, not yet linked to the list. */
  method UnlinkedPart(heap: Heap, mem: array<byte>, path: CString, at: nat)
    returns (part: word, next: nat, ghost q: page)
    requires heap.Valid() && mem.Length == ADDRESS_SPACE && at <= |path| < at + MAX_PATH
    requires heap.FreeCount() > if ComponentLength(path[at..]) == 0 then 0 else 1
    modifies heap, heap.entries, mem
    ensures heap.Valid() && at <= next <= |path| && path[next..] == AfterComponent(path[at..])
    ensures Vacant(old(heap.live), AreaOf(heap), q)
    ensures Shrinks(old(heap.entries[..]), heap.entries[..], if ComponentLength(path[at..]) == 0 then 0 else 2)
    ensures ComponentLength(path[at..]) == 0 ==>
      && part == 0 && heap.live == old(heap.live) && heap.FreeCount() == old(heap.FreeCount())
      && SameOutside(AsWords(old(mem[..])), AsWords(mem[..]), {q})
    ensures var area, p := AreaOf(heap), PageOf(part);
      ComponentLength(path[at..]) > 0 ==>
      && Aligned(part) && part != 0 && p != q && Vacant(old(heap.live), area, p)
      && heap.live == old(heap.live)[Block(area, q) := 1][Block(area, p) := 1]
      && heap.FreeCount() == old(heap.FreeCount()) - 2 && PartAt(mem[..], p, 0, q, Component(path[at..]))
      && SameOutside(AsWords(old(mem[..])), AsWords(mem[..]), {p, q})
  {
    ghost var live, t0 := heap.live, heap.entries[..];
    var buf;
    buf, next, q := GetPathPart(heap, mem, path, at);
    if buf == 0 {
      return 0, next, q;
    }
    ghost var ram, t, live1, area, s := mem[..], heap.entries[..], heap.live, AreaOf(heap), Component(path[at..]);
    part := NewPair(heap, mem, buf);
    ghost var p := PageOf(part);
    NewIsNotLive(t, live1, Block(area, p));
    StringKept(ram, mem[..], q, s);
    assert Vacant(live, area, p) by {
      assert forall r | r in live && r != Block(area, q) :: r in live1 && live1[r] == live[r];
    }
    SameOutsideBoth(AsWords(old(mem[..])), AsWords(ram), AsWords(mem[..]), {q}, {p}, {p, q});
    ShrinksTwice(t0, t, heap.entries[..], 1, 1, 2);
  }

  /** A parsed path: the block of its root and, in order, of each part and its string. */
  datatype Shape = Root(root: page) | More(init: Shape, node: page, buf: page, part: seq<byte>)
  {
    /** All its blocks. */
    function All(): set<page> {
      match this
      case Root(r) => {r}
      case More(l, p, q, _) => l.All() + {q} + {p}
    }

    ghost predicate Distinct() {
      match this
      case Root(_) => true
      case More(l, p, q, _) => p != q && p !in l.All() && q !in l.All() && l.Distinct()
    }

    function Parts(): seq<seq<byte>> {
      match this
      case Root(_) => []
      case More(l, _, _, s) => l.Parts() + [s]
    }

    function RootPage(): (r: page)
      ensures r in All()
    {
      match this
      case Root(r) => r
      case More(l, _, _, _) => l.RootPage()
    }

    /** The addresses of the first and of the last `path_part`, or null. */
    function First(): word {
      match this
      case Root(_) => 0
      case More(l, p, _, _) => if l.Root? then p * PAGE_SIZE else l.First()
    }

    function Last(): word {
      match this
      case Root(_) => 0
      case More(_, p, _, _) => p * PAGE_SIZE
    }

    /** The parts are linked in order; the last one points to `next`. */
    ghost predicate ListAt(ram: seq<byte>, next: word) {
      match this
      case Root(_) => |ram| == ADDRESS_SPACE
      case More(l, p, q, s) => PartAt(ram, p, next, q, s) && l.ListAt(ram, p * PAGE_SIZE)
    }

    function Count(): nat {
      match this
      case Root(_) => 0
      case More(l, _, _, _) => l.Count() + 1
    }

    /** The list of the first `k` parts. */
    function Take(k: nat): (l: Shape)
      requires k <= Count()
      ensures l.Count() == k && l.RootPage() == RootPage()
    {
      if k == Count() then this else init.Take(k)
    }

    /** The address of part `k`, counted from 0, or what follows the last part. */
    function Address(k: nat, next: word): word
      requires k <= Count()
    {
      if k < Count() then Take(k + 1).node * PAGE_SIZE else next
    }

    /** Every block of the list is live. */
    ghost predicate Owned(live: Live, area: Area) {
      match this
      case Root(r) => Block(area, r) in live
      case More(l, p, q, _) => Block(area, p) in live && Block(area, q) in live && l.Owned(live, area)
    }

    /** The first `k + 1` parts are the first `k` and one that is linked to the next. */
    lemma {:induction false} TakeOneMore(ram: seq<byte>, next: word, live: Live, area: Area, k: nat)
      requires k < Count() && ListAt(ram, next) && Distinct() && Owned(live, area)
      ensures var m := Take(k + 1);
        && m.More? && m.init == Take(k) && m.Distinct() && m.Owned(live, area)
        && PartAt(ram, m.node, Address(k + 1, next), m.buf, m.part)
    {
      if k + 1 < Count() {
        init.TakeOneMore(ram, node * PAGE_SIZE, live, area, k);
      }
    }

    lemma {:induction false} NullEndsIt(ram: seq<byte>, next: word, k: nat)
      requires ListAt(ram, next) && k <= Count()
      ensures Address(k, 0) == 0 <==> k == Count()
    {
      if k + 1 < Count() {
        init.NullEndsIt(ram, node * PAGE_SIZE, k);
      }
    }

    /** One block for the root and two for each part. */
    lemma {:induction false} BlockCount()
      requires Distinct()
      ensures |All()| == 1 + 2 * |Parts()| && Count() == |Parts()|
    {
      match this
      case Root(_) =>
      case More(l, p, q, _) =>
        l.BlockCount();
    }

    lemma {:induction false} ListKept(ram: seq<byte>, after: seq<byte>, next: word, ps: set<page>)
      requires ListAt(ram, next) && |after| == ADDRESS_SPACE
      requires SameOutside(AsWords(ram), AsWords(after), ps) && ps !! All() - {RootPage()}
      requires Distinct()
      ensures ListAt(after, next)
    {
      match this
      case Root(_) =>
      case More(l, p, q, s) =>
        assert p in All() && q in All() && p != RootPage() && q != RootPage();
        PartKept(ram, after, p, next, q, s);
        l.ListKept(ram, after, p * PAGE_SIZE, ps);
    }

    /** Setting the last part's link re-links the list. */
    lemma Relinked(ram: seq<byte>, after: seq<byte>, next: word)
      requires More? && ListAt(ram, 0) && Distinct() && |after| == ADDRESS_SPACE
      requires SameOutside(AsWords(ram), AsWords(after), {node})
      requires AsWords(after) == AsWords(ram)[node * ENTRIES + 1 := next]
      ensures ListAt(after, next)
    {
      StringKept(ram, after, buf, part);
      init.ListKept(ram, after, node * PAGE_SIZE, {node});
    }
  }

  /** Stores the second word of the block at `a`: a link to the next part, or a root's first part. */
  method SetLink(mem: array<byte>, a: word, part: word)
    requires mem.Length == ADDRESS_SPACE && Aligned(a)
    modifies mem
    ensures AsWords(mem[..]) == AsWords(old(mem[..]))[PageOf(a) * ENTRIES + 1 := part]
    ensures SameOutside(AsWords(old(mem[..])), AsWords(mem[..]), {PageOf(a)})
  {
    ghost var w := AsWords(mem[..]);
    WordsOfPage(a, 1);
    StoreWord(mem, a + 4, part);
    assert forall q: page | q != PageOf(a) :: SamePage(w, AsWords(mem[..]), q);
  }

  /** What a list under construction owns, and what it holds. */
  ghost predicate Building(live0: Live, live: Live, area: Area, ram: seq<byte>, l: Shape) {
    Added(live0, live, area, l.All()) && l.Distinct() && l.ListAt(ram, 0)
  }

  lemma TwoMorePages(live0: Live, live: Live, area: Area, l: Shape, p: page, q: page, s: seq<byte>)
    requires Added(live0, live, area, l.All()) && p != q && Block(area, p) !in live && Block(area, q) !in live
    ensures p !in l.All() && q !in l.All()
    ensures Added(live0, live[Block(area, q) := 1][Block(area, p) := 1], area, More(l, p, q, s).All())
  {
    OneMorePage(live0, live, area, l.All(), q);
    OneMorePage(live0, live[Block(area, q) := 1], area, l.All() + {q}, p);
  }

  /** `ram1`, with the last part of `l`, if there is one, linked to the part in page `p`. */
  ghost predicate LinkedTo(l: Shape, ram1: seq<byte>, ram: seq<byte>, p: page) {
    if l.Root? then ram == ram1 else
      && |ram| == |ram1| == ADDRESS_SPACE && SameOutside(AsWords(ram1), AsWords(ram), {l.node})
      && AsWords(ram) == AsWords(ram1)[l.node * ENTRIES + 1 := p * PAGE_SIZE]
  }

  /** Links a part behind the last one, if there is one. */
  method LinkBehind(mem: array<byte>, last: word, part: word, ghost l: Shape)
    requires mem.Length == ADDRESS_SPACE && Aligned(part) && last == l.Last() && (last == 0 <==> l.Root?)
    modifies mem
    ensures LinkedTo(l, old(mem[..]), mem[..], PageOf(part))
  {
    if last != 0 {
      assert PageOf(last) == l.node && Aligned(last);
      SetLink(mem, last, part);
    }
  }

  /** A new part, linked behind the last one: every earlier part keeps its string and its place. */
  lemma Appended(l: Shape, before: seq<byte>, ram1: seq<byte>, ram: seq<byte>, p: page, q: page, s: seq<byte>)
    requires l.ListAt(before, 0) && l.Distinct() && p != q && p !in l.All() && q !in l.All()
    requires PartAt(ram1, p, 0, q, s) && SameOutside(AsWords(before), AsWords(ram1), {p, q})
    requires LinkedTo(l, ram1, ram, p)
    ensures More(l, p, q, s).ListAt(ram, 0)
  {
    l.ListKept(before, ram1, 0, {p, q});
    if l.More? {
      PartKept(ram1, ram, p, 0, q, s);
      l.Relinked(ram1, ram, p * PAGE_SIZE);
    }
  }

  lemma AppendedInside(l: Shape, before: seq<byte>, ram1: seq<byte>, ram: seq<byte>, p: page, q: page, s: seq<byte>)
    requires l.Distinct() && p !in l.All() && q !in l.All() && |before| == ADDRESS_SPACE
    requires SameOutside(AsWords(before), AsWords(ram1), {p, q}) && LinkedTo(l, ram1, ram, p)
    ensures SameOutside(AsWords(before), AsWords(ram), More(l, p, q, s).All())
    ensures SamePage(AsWords(before), AsWords(ram), l.RootPage())
  {
    var last := if l.Root? then {} else {l.node};
    assert SameOutside(AsWords(ram1), AsWords(ram), last);
    SameOutsideBoth(AsWords(before), AsWords(ram1), AsWords(ram), {p, q}, last, {p, q} + last);
    assert l.RootPage() !in {p, q} + last;
  }

  lemma BuiltOn(live0: Live, live: Live, area: Area, l: Shape, before: seq<byte>, ram1: seq<byte>, ram: seq<byte>,
                p: page, q: page, s: seq<byte>)
    requires Building(live0, live, area, before, l) && p != q && Block(area, p) !in live && Block(area, q) !in live
    requires PartAt(ram1, p, 0, q, s) && SameOutside(AsWords(before), AsWords(ram1), {p, q})
    requires LinkedTo(l, ram1, ram, p)
    ensures Building(live0, live[Block(area, q) := 1][Block(area, p) := 1], area, ram, More(l, p, q, s))
    ensures SameOutside(AsWords(before), AsWords(ram), More(l, p, q, s).All())
    ensures SamePage(AsWords(before), AsWords(ram), l.RootPage())
  {
    TwoMorePages(live0, live, area, l, p, q, s);
    Appended(l, before, ram1, ram, p, q, s);
    AppendedInside(l, before, ram1, ram, p, q, s);
  }

  /** Reads one component and links it behind the part at `last`, if there is one. An empty component
      leaves the list and the heap as they were; `q` is the block that held the component's text. */
  method ParsePathPart(heap: Heap, mem: array<byte>, last: word, path: CString, at: nat, ghost l: Shape,
                       ghost live0: Live)
    returns (part: word, next: nat, ghost after: Shape, ghost q: page)
    requires heap.Valid() && mem.Length == ADDRESS_SPACE && at <= |path| < at + MAX_PATH
    requires heap.FreeCount() > if ComponentLength(path[at..]) == 0 then 0 else 1
    requires Building(live0, heap.live, AreaOf(heap), mem[..], l)
    requires last == l.Last() && (last == 0 <==> l.Root?)
    modifies heap, heap.entries, mem
    ensures heap.Valid() && at <= next <= |path| && path[next..] == AfterComponent(path[at..])
    ensures Building(live0, heap.live, AreaOf(heap), mem[..], after)
    ensures Vacant(live0, AreaOf(heap), q)
    ensures SameOutside(AsWords(old(mem[..])), AsWords(mem[..]), after.All() + {q})
    ensures SamePage(AsWords(old(mem[..])), AsWords(mem[..]), l.RootPage())
    ensures Shrinks(old(heap.entries[..]), heap.entries[..], if ComponentLength(path[at..]) == 0 then 0 else 2)
    ensures if ComponentLength(path[at..]) == 0
      then part == 0 && after == l && heap.FreeCount() == old(heap.FreeCount())
      else part != 0 && Aligned(part) && after == More(l, PageOf(part), q, Component(path[at..]))
           && heap.FreeCount() == old(heap.FreeCount()) - 2
  {
    ghost var ram0, live, area, t := mem[..], heap.live, AreaOf(heap), heap.entries[..];
    part, next, q := UnlinkedPart(heap, mem, path, at);
    ghost var ram1, p, s := mem[..], PageOf(part), Component(path[at..]);
    NewIsNotLive(t, live, Block(area, q));
    StillUnused(live0, live, area, l.All(), Block(area, q));
    if part == 0 {
      OneMorePage(live0, live, area, l.All(), q);
      l.ListKept(ram0, ram1, 0, {q});
      after := l;
      return;
    }
    NewIsNotLive(t, live, Block(area, p));
    LinkBehind(mem, last, part, l);
    BuiltOn(live0, live, area, l, ram0, ram1, mem[..], p, q, s);
    after := More(l, p, q, s);
  }

  /** The `path_root` in page `p`. */
  ghost predicate RootAt(ram: seq<byte>, p: page, drive: word, first: word) {
    |ram| == ADDRESS_SPACE && AsWords(ram)[p * ENTRIES] == drive && AsWords(ram)[p * ENTRIES + 1] == first
  }

  /** A parsed path: its root with its drive and first part, and its list of parts. */
  ghost predicate Parsed(live0: Live, live: Live, area: Area, ram: seq<byte>, l: Shape, drive: word) {
    Building(live0, live, area, ram, l) && RootAt(ram, l.RootPage(), drive, l.First())
  }

  /** `pathparser_create_root`: a root with no parts yet. */
  method CreateRoot(heap: Heap, mem: array<byte>, drive: word) returns (root: word)
    requires heap.Valid() && mem.Length == ADDRESS_SPACE && heap.FreeCount() > 0
    modifies heap, heap.entries, mem
    ensures heap.Valid() && root != 0 && Aligned(root)
    ensures Parsed(old(heap.live), heap.live, AreaOf(heap), mem[..], Root(PageOf(root)), drive)
    ensures Took(old(heap.live), AreaOf(heap), old(Snap(heap, mem)), Snap(heap, mem), 1)
  {
    ghost var s0, area := Snap(heap, mem), AreaOf(heap);
    root := NewPair(heap, mem, drive);
    NewIsNotLive(s0.table, s0.live, Block(area, PageOf(root)));
    OneMorePage(s0.live, s0.live, area, {}, PageOf(root));
    assert {} + {PageOf(root)} == Root(PageOf(root)).All();
    AddedWritesVacant(heap.entries[..], s0.live, heap.live, area, {PageOf(root)}, {}, s0.words, AsWords(mem[..]));
  }

  lemma FirstSet(l: Shape, ram: seq<byte>, after: seq<byte>, first: word)
    requires l.ListAt(ram, 0) && l.Distinct() && |ram| == |after| == ADDRESS_SPACE
    requires SameOutside(AsWords(ram), AsWords(after), {l.RootPage()})
    requires AsWords(after) == AsWords(ram)[l.RootPage() * ENTRIES + 1 := first]
    ensures l.ListAt(after, 0)
    ensures RootAt(after, l.RootPage(), AsWords(ram)[l.RootPage() * ENTRIES], first)
  {
    l.ListKept(ram, after, 0, {l.RootPage()});
  }

  /** `parts` are the components still ahead at `at`. Folded. */
  ghost predicate Ahead(path: CString, at: nat, parts: seq<seq<byte>>) {
    forall k: nat | Unfolded(OfPath, k) :: at <= |path| && parts == Parts(path[at..])
  }

  lemma OneAhead(path: CString, at: nat, parts: seq<seq<byte>>)
    requires at <= |path| && Ahead(path, at, parts)
    ensures ComponentLength(path[at..]) == 0 <==> parts == []
    ensures parts != [] ==> parts[0] == Component(path[at..])
    ensures forall next | at <= next <= |path| && path[next..] == AfterComponent(path[at..]) ::
        parts != [] ==> at < next && Ahead(path, next, parts[1..])
  {
    assert Unfolded(OfPath, 0);
  }

  /** One call of the part parser: the list with one more part, or the list as it was and no part. The
      root is left as it is. */
  method ParseNext(heap: Heap, mem: array<byte>, last: word, path: CString, at: nat, ghost l0: Shape, ghost live0: Live,
                   ghost drive: word, ghost parts: seq<seq<byte>>)
    returns (part: word, next: nat, ghost l: Shape)
    requires heap.Valid() && mem.Length == ADDRESS_SPACE && at <= |path| < at + MAX_PATH && Ahead(path, at, parts)
    requires heap.FreeCount() > if parts == [] then 0 else 1
    requires last == l0.Last() && (last == 0 <==> l0.Root?)
    requires Parsed(live0, heap.live, AreaOf(heap), mem[..], l0, drive)
    modifies heap, heap.entries, mem
    ensures heap.Valid() && at <= next <= |path| && (part == 0 <==> parts == [])
    ensures part != 0 ==> at < next && Ahead(path, next, parts[1..])
    ensures Building(live0, heap.live, AreaOf(heap), mem[..], l) && RootAt(mem[..], l0.RootPage(), drive, l0.First())
    ensures Took(live0, AreaOf(heap), old(Snap(heap, mem)), Snap(heap, mem), if part == 0 then 0 else 2)
    ensures if part == 0 then l == l0
      else Aligned(part) && l.More? && l.init == l0 && l.node == PageOf(part) && l.part == parts[0]
  {
    ghost var w0 := AsWords(mem[..]);
    ghost var q;
    OneAhead(path, at, parts);
    part, next, l, q := ParsePathPart(heap, mem, last, path, at, l0, live0);
    assert SamePage(w0, AsWords(mem[..]), l0.RootPage());
    AddedWritesVacant(heap.entries[..], live0, heap.live, AreaOf(heap), l.All(), {q}, w0, AsWords(mem[..]));
  }

  /** `path_root->first = first_part`. */
  method SetFirst(heap: Heap, mem: array<byte>, root: word, part: word, ghost l: Shape, ghost live0: Live,
                  ghost drive: word)
    requires heap.Valid() && mem.Length == ADDRESS_SPACE && Aligned(root) && PageOf(root) == l.RootPage()
    requires Building(live0, heap.live, AreaOf(heap), mem[..], l) && RootAt(mem[..], l.RootPage(), drive, 0)
    modifies mem
    ensures l.ListAt(mem[..], 0) && RootAt(mem[..], l.RootPage(), drive, part)
    ensures Took(live0, AreaOf(heap), old(Snap(heap, mem)), Snap(heap, mem), 0)
  {
    ghost var ram := mem[..];
    SetLink(mem, root, part);
    FirstSet(l, ram, mem[..], part);
    assert l.All() + {PageOf(root)} == l.All();
    NoShrink(heap.entries[..], 0);
    AddedIsVacant(heap.entries[..], live0, heap.live, AreaOf(heap), l.All(), PageOf(root));
    AddedWritesVacant(heap.entries[..], live0, heap.live, AreaOf(heap), l.All(), {PageOf(root)}, AsWords(ram),
                      AsWords(mem[..]));
  }

  /** The parts of `l` and those still to come make up `all`. Folded. */
  ghost predicate LeadsTo(l: Shape, todo: seq<seq<byte>>, all: seq<seq<byte>>) {
    forall k: nat | Unfolded(OfPath, k) :: l.Parts() + todo == all
  }

  lemma LeadsOn(l: Shape, before: Shape, todo: seq<seq<byte>>, all: seq<seq<byte>>)
    requires LeadsTo(before, todo, all) && todo != [] && l.More? && l.init == before && l.part == todo[0]
    ensures LeadsTo(l, todo[1..], all)
  {
    assert Unfolded(OfPath, 0);
  }

  lemma LedTo(l: Shape, all: seq<seq<byte>>)
    requires LeadsTo(l, [], all)
    ensures l.Parts() == all
  {
    assert Unfolded(OfPath, 0);
  }

  /** The parser's loop: the rest of the components, linked behind the first. */
  method ParseRest(heap: Heap, mem: array<byte>, first: word, path: CString, from: nat, ghost l0: Shape,
                   ghost live0: Live, ghost drive: word, ghost rest: seq<seq<byte>>)
    returns (ghost l: Shape)
    requires heap.Valid() && mem.Length == ADDRESS_SPACE && from <= |path| < from + MAX_PATH
    requires Ahead(path, from, rest) && heap.FreeCount() > 2 * |rest|
    requires l0.More? && first != 0 && first == l0.Last()
    requires Parsed(live0, heap.live, AreaOf(heap), mem[..], l0, drive)
    modifies heap, heap.entries, mem
    ensures heap.Valid() && Parsed(live0, heap.live, AreaOf(heap), mem[..], l, drive) && l.RootPage() == l0.RootPage()
    ensures l.Parts() == l0.Parts() + rest
    ensures Took(live0, AreaOf(heap), old(Snap(heap, mem)), Snap(heap, mem), 2 * |rest|)
  {
    var part, at := first, from;
    l := l0;
    ghost var area, s0, s, todo, used: nat := AreaOf(heap), Snap(heap, mem), Snap(heap, mem), rest, 0;
    ghost var all := l0.Parts() + rest;
    TookNothing(live0, area, s0, 0);
    while part != 0
      invariant from <= at <= |path| && heap.Valid() && l.RootPage() == l0.RootPage()
      invariant if part == 0 then todo == [] else Ahead(path, at, todo)
      invariant LeadsTo(l, todo, all) && used + 2 * |todo| == 2 * |rest|
      invariant Parsed(live0, heap.live, area, mem[..], l, drive) && l.More? && (part != 0 ==> part == l.Last())
      invariant s == Snap(heap, mem) && Took(live0, area, s0, s, if part == 0 then 2 * |rest| else used)
      decreases |path| - at, part
    {
      ghost var before := l;
      part, at, l := ParseNext(heap, mem, part, path, at, l, live0, drive, todo);
      if part != 0 {
        LeadsOn(l, before, todo, all);
        TookTwice(live0, area, s0, s, Snap(heap, mem), used, 2, used + 2);
        todo, used := todo[1..], used + 2;
      } else {
        TookTwice(live0, area, s0, s, Snap(heap, mem), used, 0, 2 * |rest|);
      }
      s := Snap(heap, mem);
    }
    LedTo(l, all);
  }

  /** The first component: a root with its first part, or a root alone. */
  method ParseFirst(heap: Heap, mem: array<byte>, root: word, path: CString, from: nat, ghost live0: Live,
                    ghost drive: word, ghost parts: seq<seq<byte>>)
    returns (part: word, at: nat, ghost l: Shape)
    requires heap.Valid() && mem.Length == ADDRESS_SPACE && from <= |path| < from + MAX_PATH && Aligned(root)
    requires Ahead(path, from, parts) && heap.FreeCount() > if parts == [] then 0 else 1
    requires Parsed(live0, heap.live, AreaOf(heap), mem[..], Root(PageOf(root)), drive)
    modifies heap, heap.entries, mem
    ensures heap.Valid() && from <= at <= |path| && (part == 0 <==> parts == [])
    ensures part != 0 ==> Ahead(path, at, parts[1..])
    ensures Parsed(live0, heap.live, AreaOf(heap), mem[..], l, drive) && l.RootPage() == PageOf(root)
    ensures Took(live0, AreaOf(heap), old(Snap(heap, mem)), Snap(heap, mem), if part == 0 then 0 else 2)
    ensures if part == 0 then l.Root? else l.More? && l.Last() == part && l.Parts() == [parts[0]]
  {
    ghost var s0 := Snap(heap, mem);
    part, at, l := ParseNext(heap, mem, 0, path, from, Root(PageOf(root)), live0, drive, parts);
    if part != 0 {
      ghost var s1 := Snap(heap, mem);
      SetFirst(heap, mem, root, part, l, live0, drive);
      TookTwice(live0, AreaOf(heap), s0, s1, Snap(heap, mem), 2, 0, 2);
    }
  }

  /** All the components, behind a fresh root. */
  method ParseParts(heap: Heap, mem: array<byte>, root: word, path: CString, from: nat, ghost live0: Live,
                    ghost drive: word, ghost parts: seq<seq<byte>>)
    returns (ghost l: Shape)
    requires heap.Valid() && mem.Length == ADDRESS_SPACE && from <= |path| < from + MAX_PATH && Aligned(root)
    requires Ahead(path, from, parts) && heap.FreeCount() > 2 * |parts|
    requires Parsed(live0, heap.live, AreaOf(heap), mem[..], Root(PageOf(root)), drive)
    modifies heap, heap.entries, mem
    ensures heap.Valid() && Parsed(live0, heap.live, AreaOf(heap), mem[..], l, drive) && l.RootPage() == PageOf(root)
    ensures l.Parts() == parts
    ensures Took(live0, AreaOf(heap), old(Snap(heap, mem)), Snap(heap, mem), 2 * |parts|)
  {
    var part, at;
    ghost var s0, area := Snap(heap, mem), AreaOf(heap);
    part, at, l := ParseFirst(heap, mem, root, path, from, live0, drive, parts);
    ghost var s1 := Snap(heap, mem);
    TookNothing(live0, area, s1, 0);
    if part != 0 {
      assert parts == l.Parts() + parts[1..];
      l := ParseRest(heap, mem, part, path, at, l, live0, drive, parts[1..]);
      TookTwice(live0, area, s0, s1, Snap(heap, mem), 2, 2 * |parts[1..]|, 2 * |parts|);
    } else {
      TookTwice(live0, area, s0, s1, s1, 0, 0, 2 * |parts|);
    }
  }

  /** Parses a path: refused without touching anything, or turned into a root and one `path_part` and
      one string block per component. No allocation is written to. */
  method Parse(heap: Heap, mem: array<byte>, path: CString) returns (root: word, ghost l: Shape)
    requires heap.Valid() && mem.Length == ADDRESS_SPACE
    requires Accepted(path) ==> heap.FreeCount() > 1 + 2 * |Parts(path[3..])|
    modifies heap, heap.entries, mem
    ensures heap.Valid()
    ensures root == 0 <==> !Accepted(path)
    ensures root == 0 ==>
        heap.live == old(heap.live) && heap.entries[..] == old(heap.entries[..]) && mem[..] == old(mem[..])
    ensures root != 0 ==>
      && root == l.RootPage() * PAGE_SIZE && l.Parts() == Parts(path[3..])
      && Parsed(old(heap.live), heap.live, AreaOf(heap), mem[..], l, path[0] - 48)
      && Took(old(heap.live), AreaOf(heap), old(Snap(heap, mem)), Snap(heap, mem), 1 + 2 * |Parts(path[3..])|)
  {
    l := Root(0);
    if |path| > MAX_PATH {
      return 0, l;
    }
    if !ValidFormat(path) {
      return 0, l;
    }
    ghost var s0 := Snap(heap, mem);
    root := CreateRoot(heap, mem, path[0] - 48);
    ghost var s1, parts := Snap(heap, mem), Parts(path[3..]);
    l := ParseParts(heap, mem, root, path, 3, s0.live, path[0] - 48, parts);
    TookTwice(s0.live, AreaOf(heap), s0, s1, Snap(heap, mem), 1, 2 * |parts|, 1 + 2 * |parts|);
  }

  // ---------------------------------------------------------------- freeing

  lemma {:induction false} AddedIsOwned(live0: Live, live: Live, area: Area, ps: set<page>, l: Shape)
    requires Added(live0, live, area, ps) && l.All() <= ps
    ensures l.Owned(live, area)
  {
    match l
    case Root(r) =>
      AddedIsLive(live0, live, area, ps, r);
    case More(init, p, q, _) =>
      AddedIsLive(live0, live, area, ps, p);
      AddedIsLive(live0, live, area, ps, q);
      AddedIsOwned(live0, live, area, ps, init);
  }

  /** The blocks of the parts alone. */
  function PartBlocks(area: Area, l: Shape): set<int> {
    BlocksOf(area, l.All() - {l.RootPage()})
  }

  lemma OneMoreFreed(live0: Live, area: Area, m: Shape)
    requires m.More? && m.Distinct() && m.Owned(live0, area)
    ensures Block(area, m.buf) in live0 - PartBlocks(area, m.init)
    ensures Block(area, m.node) in live0 - PartBlocks(area, m.init) - {Block(area, m.buf)}
    ensures live0 - PartBlocks(area, m.init) - {Block(area, m.buf)} - {Block(area, m.node)} ==
            live0 - PartBlocks(area, m)
  {
    var r := m.RootPage();
    assert m.init.RootPage() == r;
    assert PartBlocks(area, m) == PartBlocks(area, m.init) + {Block(area, m.buf)} + {Block(area, m.node)};
  }

  lemma {:induction false} RootFreed(live0: Live, area: Area, l: Shape)
    requires l.Owned(live0, area)
    ensures Block(area, l.RootPage()) in live0 - PartBlocks(area, l)
    ensures live0 - PartBlocks(area, l) - {Block(area, l.RootPage())} == live0 - BlocksOf(area, l.All())
  {
    assert BlocksOf(area, l.All()) == PartBlocks(area, l) + {Block(area, l.RootPage())};
    OwnsRoot(live0, area, l);
  }

  lemma {:induction false} OwnsRoot(live: Live, area: Area, l: Shape)
    requires l.Owned(live, area)
    ensures Block(area, l.RootPage()) in live
  {
    if l.More? {
      OwnsRoot(live, area, l.init);
    }
  }

  lemma {:induction false} BeforeFirst(area: Area, l: Shape)
    ensures l.First() == l.Address(0, 0) && PartBlocks(area, l.Take(0)) == {}
  {
    if l.More? {
      BeforeFirst(area, l.init);
    }
  }

  /** The loop body of `pathparser_free`: frees the part and its string, and finds the next part. */
  method FreePart(heap: Heap, mem: array<byte>, part: word, ghost m: Shape, ghost next: word, ghost live: Live)
    returns (nextPart: word)
    requires heap.Valid() && m.More? && PartAt(mem[..], m.node, next, m.buf, m.part) && part == m.node * PAGE_SIZE
    requires mem.Length == ADDRESS_SPACE && m.Distinct() && m.Owned(live, AreaOf(heap))
    requires heap.live == live - PartBlocks(AreaOf(heap), m.init)
    modifies heap, heap.entries
    ensures heap.Valid() && nextPart == next
    ensures heap.live == live - PartBlocks(AreaOf(heap), m)
  {
    WordsOfPage(part, 0);
    WordsOfPage(part, 1);
    nextPart := LoadWord(mem, part + 4);
    var str := LoadWord(mem, part);
    OneMoreFreed(live, AreaOf(heap), m);
    FreePage(heap, str);
    FreePage(heap, part);
  }

  /** Walks the list, freeing each part and its string, then frees the root. */
  method FreePath(heap: Heap, mem: array<byte>, root: word, ghost l: Shape, ghost live0: Live, ghost drive: word)
    requires heap.Valid() && mem.Length == ADDRESS_SPACE && root == l.RootPage() * PAGE_SIZE
    requires Parsed(live0, heap.live, AreaOf(heap), mem[..], l, drive)
    modifies heap, heap.entries
    ensures heap.Valid() && heap.live == live0
  {
    ghost var area, live, ram, n := AreaOf(heap), heap.live, mem[..], l.Count();
    AddedIsOwned(live0, live, area, l.All(), l);
    WordsOfPage(root, 1);
    var part := LoadWord(mem, root + 4);
    ghost var k := 0;
    BeforeFirst(area, l);
    while part != 0
      invariant k <= n && heap.Valid() && part == l.Address(k, 0)
      invariant heap.live == live - PartBlocks(area, l.Take(k))
      decreases n - k
    {
      l.TakeOneMore(ram, 0, live, area, k);
      part := FreePart(heap, mem, part, l.Take(k + 1), l.Address(k + 1, 0), live);
      k := k + 1;
    }
    l.NullEndsIt(ram, 0, k);
    RootFreed(live, area, l);
    FreePage(heap, root);
    AddedRemoved(live0, live, area, l.All());
  }

  /** A parsed path holds exactly one block and two more per component, and freeing it gives the block
      table back as it was. */
  method ParseAndFree(heap: Heap, mem: array<byte>, path: CString)
    requires heap.Valid() && mem.Length == ADDRESS_SPACE
    requires Accepted(path) ==> heap.FreeCount() > 1 + 2 * |Parts(path[3..])|
    modifies heap, heap.entries, mem
    ensures heap.Valid() && heap.live == old(heap.live)
    ensures heap.entries[..] == old(heap.entries[..])
  {
    ghost var t, live := heap.entries[..], heap.live;
    var root;
    ghost var l;
    root, l := Parse(heap, mem, path);
    if root != 0 {
      FreePath(heap, mem, root, l, live, path[0] - 48);
      TableIsDetermined(heap.entries[..], t, live);
    }
  }

  lemma {:induction false} PartsAreStrings(l: Shape, ram: seq<byte>, next: word, i: nat)
    requires l.ListAt(ram, next) && i < |l.Parts()|
    ensures |l.Parts()[i]| < MAX_PATH
  {
    if i < |l.Parts()| - 1 {
      PartsAreStrings(l.init, ram, l.node * PAGE_SIZE, i);
    }
  }

  /** What a successful parse leaves: as many new live blocks as one for the root and two per
      component, and every component in its 108-byte buffer with room for the terminator. */
  lemma ParsedBalance(live0: Live, live: Live, area: Area, ram: seq<byte>, l: Shape, drive: word)
    requires Parsed(live0, live, area, ram, l, drive)
    ensures |BlocksOf(area, l.All())| == 1 + 2 * |l.Parts()|
    ensures BlocksOf(area, l.All()) !! live0.Keys && live.Keys == live0.Keys + BlocksOf(area, l.All())
    ensures forall i | 0 <= i < |l.Parts()| :: |l.Parts()[i]| < MAX_PATH
  {
    l.BlockCount();
    AsManyBlocks(area, l.All());
    AddedKeys(live0, live, area, l.All());
    forall i: nat | i < |l.Parts()|
      ensures |l.Parts()[i]| < MAX_PATH
    {
      PartsAreStrings(l, ram, 0, i);
    }
  }

  lemma OneBlockMore(area: Area, ps: set<page>, p: page)
    requires p in ps
    ensures BlocksOf(area, ps) == BlocksOf(area, ps - {p}) + {Block(area, p)}
    ensures Block(area, p) !in BlocksOf(area, ps - {p})
  {
    forall q | q in ps
      ensures Block(area, q) in BlocksOf(area, ps - {p}) + {Block(area, p)}
    {
      if q != p {
        assert q in ps - {p};
      }
    }
  }

  lemma {:induction false} AsManyBlocks(area: Area, ps: set<page>)
    ensures |BlocksOf(area, ps)| == |ps|
    decreases ps
  {
    if p :| p in ps {
      AsManyBlocks(area, ps - {p});
      OneBlockMore(area, ps, p);
    }
  }

  lemma AddedKeys(live0: Live, live: Live, area: Area, ps: set<page>)
    requires Added(live0, live, area, ps)
    ensures BlocksOf(area, ps) !! live0.Keys && live.Keys == live0.Keys + BlocksOf(area, ps)
  {
    assert Unfolded(OfBlocks, 0);
    assert forall p | p in ps :: Block(area, p) in BlocksOf(area, ps);
    assert forall b | b in BlocksOf(area, ps) :: b in live;
    assert forall b :: b in live.Keys <==> b in live0.Keys + BlocksOf(area, ps);
  }
}
