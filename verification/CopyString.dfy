/** Copying a string out of a task's address space, through a page lent to it for the purpose. */
module CopyString {
  import opened Words
  import opened HeapTable
  import opened Heap
  import opened Kheap
  import opened PageTables
  import opened Paging
  import opened AddressSpace

  /** The string at `a` as seen through `d`: its bytes before the terminator, at most `n`. */
  function Seen(ram: seq<byte>, d: page, a: word, n: nat): (s: seq<byte>)
    requires |ram| == ADDRESS_SPACE
    ensures |s| <= n && 0 !in s
    decreases n
  {
    if n == 0 || Peek(ram, d, a) == 0 then [] else [Peek(ram, d, a)] + Seen(ram, d, Wrap(a + 1), n - 1)
  }

  /** The address `k` bytes on. */
  function Onward(a: word, k: nat): word
    decreases k
  {
    if k == 0 then a else Onward(Wrap(a + 1), k - 1)
  }

  lemma {:induction false} OnwardIs(a: word, k: nat)
    ensures Onward(a, k) == Wrap(a + k)
    decreases k
  {
    if k > 0 {
      OnwardIs(Wrap(a + 1), k - 1);
      assert a + 1 < ADDRESS_SPACE || a + 1 == ADDRESS_SPACE;
    }
  }

  lemma SeenMore(ram: seq<byte>, d: page, a: word, n: nat)
    requires |ram| == ADDRESS_SPACE && n > 0 && Peek(ram, d, a) != 0
    ensures Seen(ram, d, a, n) == [Peek(ram, d, a)] + Seen(ram, d, Wrap(a + 1), n - 1)
  {
  }

  /** It is one byte after the other from `a` on, and if it is shorter than it may be, a 0 follows. */
  lemma {:induction false} SeenAt(ram: seq<byte>, d: page, a: word, n: nat, k: nat)
    requires |ram| == ADDRESS_SPACE && k <= |Seen(ram, d, a, n)| && k < n
    ensures Peek(ram, d, Onward(a, k)) == if k < |Seen(ram, d, a, n)| then Seen(ram, d, a, n)[k] else 0
    decreases n
  {
    if Peek(ram, d, a) != 0 {
      SeenMore(ram, d, a, n);
      if k > 0 {
        SeenAt(ram, d, Wrap(a + 1), n - 1, k - 1);
      }
    }
  }

  lemma SeenIs(ram: seq<byte>, d: page, a: word, n: nat, k: nat)
    requires |ram| == ADDRESS_SPACE && k <= |Seen(ram, d, a, n)| && k < n
    ensures ram[Translate(AsWords(ram), d, Wrap(a + k))] ==
            if k < |Seen(ram, d, a, n)| then Seen(ram, d, a, n)[k] else 0
  {
    SeenAt(ram, d, a, n, k);
    OnwardIs(a, k);
  }

  /** The physical address of `a`, found the way the processor finds it. */
  method Resolve(mem: array<byte>, dir: word, a: word) returns (at: word)
    requires mem.Length == ADDRESS_SPACE && Aligned(dir)
    ensures at == Translate(AsWords(mem[..]), PageOf(dir), a)
  {
    var entry := PagingGet(mem, dir, a - a % PAGE_SIZE);
    var frame := MaskAddress(entry);
    at := frame + a % PAGE_SIZE;
  }

  lemma TranslateKept(w: seq<word>, after: seq<word>, d: page, a: word)
    requires |w| == |after| == MEMORY_WORDS
    requires SamePage(w, after, d) && SamePage(w, after, TablePage(w, d, DirectoryIndex(PageOf(a))))
    ensures Translate(after, d, a) == Translate(w, d, a)
  {
  }

  /** Directory `d` is apart from page `t` and shows `t` at its own address. */
  ghost predicate Lent(w: seq<word>, d: page, t: page) {
    && |w| == MEMORY_WORDS && d != t && t !in TablePages(w, d) && PageOf(Entry(w, d, t)) == t
  }

  /** Writing the lent page moves nothing else. */
  lemma LentKept(w: seq<word>, after: seq<word>, d: page, t: page, a: word)
    requires Lent(w, d, t) && SameOutside(w, after, {t})
    ensures Lent(after, d, t) && Translate(after, d, a) == Translate(w, d, a)
  {
    SameTables(w, after, d);
    assert TablePage(w, d, DirectoryIndex(PageOf(a))) in TablePages(w, d);
    assert TablePage(w, d, DirectoryIndex(t)) in TablePages(w, d);
    TranslateKept(w, after, d, a);
    TranslateKept(w, after, d, t * PAGE_SIZE);
  }

  /** `ram` with the bytes `xs` at the start of page `t`. */
  function AtPage(ram: seq<byte>, t: page, xs: seq<byte>): (r: seq<byte>)
    requires |ram| == ADDRESS_SPACE && |xs| <= PAGE_SIZE
    ensures |r| == |ram|
  {
    Splice(ram, t * PAGE_SIZE, xs)
  }

  lemma AtPageLent(ram: seq<byte>, d: page, t: page, xs: seq<byte>, a: word)
    requires |ram| == ADDRESS_SPACE && |xs| <= PAGE_SIZE && Lent(AsWords(ram), d, t)
    ensures var after := AsWords(AtPage(ram, t, xs));
      Lent(after, d, t) && Translate(after, d, a) == Translate(AsWords(ram), d, a)
  {
    WritingInPage(ram, t, xs);
    LentKept(AsWords(ram), AsWords(AtPage(ram, t, xs)), d, t, a);
  }

  lemma LentAddress(w: seq<word>, d: page, t: page, i: nat)
    requires Lent(w, d, t) && i < PAGE_SIZE
    ensures Translate(w, d, t * PAGE_SIZE + i) == t * PAGE_SIZE + i
  {
    assert (t * PAGE_SIZE + i) / PAGE_SIZE == t && (t * PAGE_SIZE + i) % PAGE_SIZE == i;
  }

  /** No byte of the string, its terminator included, lies in the lent page. */
  ghost predicate Avoids(ram: seq<byte>, d: page, a: word, n: nat, t: page)
    requires |ram| == ADDRESS_SPACE
    decreases n
  {
    n == 0 ||
    ( && PageOf(Translate(AsWords(ram), d, a)) != t
      && (Peek(ram, d, a) == 0 || Avoids(ram, d, Wrap(a + 1), n - 1, t)))
  }

  /** `now` is `ram` with `xs` at the start of page `t`. Folded. */
  ghost predicate Holding(now: seq<byte>, ram: seq<byte>, t: page, xs: seq<byte>) {
    forall k: nat | Unfolded(OfHolding, k) :: |ram| == ADDRESS_SPACE && |xs| <= PAGE_SIZE && now == AtPage(ram, t, xs)
  }

  lemma HoldingNothing(ram: seq<byte>, t: page)
    requires |ram| == ADDRESS_SPACE
    ensures Holding(ram, ram, t, [])
  {
    assert AtPage(ram, t, []) == ram;
  }

  /** Of the string `s`, `done` is copied and the rest is seen at `a`, outside page `t`. Folded. */
  ghost predicate Ahead(ram: seq<byte>, d: page, a: word, n: nat, done: seq<byte>, s: seq<byte>, t: page) {
    forall k: nat | Unfolded(OfString, k) ::
      |ram| == ADDRESS_SPACE && s == done + Seen(ram, d, a, n) && Avoids(ram, d, a, n, t)
  }

  lemma AllAhead(ram: seq<byte>, d: page, a: word, n: nat, t: page)
    requires |ram| == ADDRESS_SPACE && Avoids(ram, d, a, n, t)
    ensures Ahead(ram, d, a, n, [], Seen(ram, d, a, n), t)
  {
    assert [] + Seen(ram, d, a, n) == Seen(ram, d, a, n);
  }

  lemma OneLess(ram: seq<byte>, d: page, a: word, n: nat, done: seq<byte>, s: seq<byte>, t: page)
    requires |ram| == ADDRESS_SPACE && Ahead(ram, d, a, n, done, s, t)
    ensures n == 0 || Peek(ram, d, a) == 0 ==> s == done
    ensures n > 0 ==> PageOf(Translate(AsWords(ram), d, a)) != t
    ensures n > 0 && Peek(ram, d, a) != 0 ==> Ahead(ram, d, Wrap(a + 1), n - 1, done + [Peek(ram, d, a)], s, t)
  {
    assert Unfolded(OfString, 0);
  }

  /** Reads a byte of the string, `done` being copied. */
  method Fetch(mem: array<byte>, dir: word, a: word, ghost ram: seq<byte>, ghost t: page, ghost done: seq<byte>)
    returns (c: byte)
    requires mem.Length == |ram| == ADDRESS_SPACE && Aligned(dir) && |done| <= PAGE_SIZE
    requires Lent(AsWords(ram), PageOf(dir), t)
    requires Holding(mem[..], ram, t, done) && PageOf(Translate(AsWords(ram), PageOf(dir), a)) != t
    ensures c == Peek(ram, PageOf(dir), a)
  {
    assert Unfolded(OfHolding, 0);
    AtPageLent(ram, PageOf(dir), t, done, a);
    var at := Resolve(mem, dir, a);
    c := mem[at];
  }

  lemma OneByteMore(now: seq<byte>, ram: seq<byte>, t: page, done: seq<byte>, c: byte, at: nat)
    requires Holding(now, ram, t, done) && |done| < PAGE_SIZE && at == t * PAGE_SIZE + |done|
    ensures at < |now| && Holding(now[at := c], ram, t, done + [c])
  {
    assert Unfolded(OfHolding, 0);
    assert AtPage(ram, t, done)[at := c] == AtPage(ram, t, done + [c]);
  }

  /** Where the next byte of the copy goes. */
  lemma NextPlace(now: seq<byte>, ram: seq<byte>, d: page, t: page, done: seq<byte>)
    requires |ram| == ADDRESS_SPACE && Lent(AsWords(ram), d, t) && Holding(now, ram, t, done) && |done| < PAGE_SIZE
    ensures |now| == ADDRESS_SPACE
    ensures Translate(AsWords(now), d, t * PAGE_SIZE + |done|) == t * PAGE_SIZE + |done|
  {
    assert Unfolded(OfHolding, 0);
    AtPageLent(ram, d, t, done, t * PAGE_SIZE);
    LentAddress(AsWords(now), d, t, |done|);
  }

  /** Writes the next byte of the copy. */
  method Put(mem: array<byte>, dir: word, dest: word, i: nat, c: byte, ghost ram: seq<byte>, ghost done: seq<byte>)
    requires mem.Length == |ram| == ADDRESS_SPACE && Aligned(dir) && Aligned(dest) && |done| == i < PAGE_SIZE
    requires Lent(AsWords(ram), PageOf(dir), PageOf(dest)) && Holding(mem[..], ram, PageOf(dest), done)
    modifies mem
    ensures Holding(mem[..], ram, PageOf(dest), done + [c])
  {
    NextPlace(mem[..], ram, PageOf(dir), PageOf(dest), done);
    OneByteMore(mem[..], ram, PageOf(dest), done, c, dest + i);
    var at := Resolve(mem, dir, dest + i);
    mem[at] := c;
  }

  /** `strncpy(dest, src, count)` while directory `dir` is in force and shows the page at `dest`. */
  method StrNCpyThrough(mem: array<byte>, dir: word, dest: word, src: word, count: nat)
    requires mem.Length == ADDRESS_SPACE && Aligned(dir) && Aligned(dest) && 0 < count <= PAGE_SIZE
    requires Lent(AsWords(mem[..]), PageOf(dir), PageOf(dest))
    requires Avoids(mem[..], PageOf(dir), src, count - 1, PageOf(dest))
    modifies mem
    ensures Holding(mem[..], old(mem[..]), PageOf(dest), Seen(old(mem[..]), PageOf(dir), src, count - 1) + [0])
  {
    ghost var ram, d, t := mem[..], PageOf(dir), PageOf(dest);
    ghost var left: nat, s: seq<byte>, done: seq<byte> := count - 1, Seen(mem[..], d, src, count - 1), [];
    var i: nat, a: word := 0, src;
    HoldingNothing(ram, t);
    AllAhead(ram, d, a, left, t);
    while i < count - 1
      invariant i + left == count - 1 && |done| == i && Ahead(ram, d, a, left, done, s, t)
      invariant Holding(mem[..], ram, t, done)
    {
      OneLess(ram, d, a, left, done, s, t);
      var c := Fetch(mem, dir, a, ram, t, done);
      if c == 0 {
        break;
      }
      Put(mem, dir, dest, i, c, ram, done);
      done, left := done + [c], left - 1;
      i, a := i + 1, Wrap(a + 1);
    }
    OneLess(ram, d, a, left, done, s, t);
    Put(mem, dir, dest, i, 0, ram, done);
  }

  /** `strncpy(dest, src, count)` where the kernel's directory, the identity, is in force. */
  method StrNCpy(mem: array<byte>, dest: nat, src: nat, count: nat, ghost s: seq<byte>)
    requires mem.Length == ADDRESS_SPACE && |s| < count && src + count <= ADDRESS_SPACE && dest + count <= ADDRESS_SPACE
    requires src + count <= dest || dest + count <= src
    requires 0 !in s && mem[src..src + |s|] == s && (|s| == count - 1 || mem[src + |s|] == 0)
    modifies mem
    ensures mem[..] == Splice(old(mem[..]), dest, s + [0])
  {
    var i := 0;
    while i < count - 1
      invariant i <= |s|
      invariant forall k | 0 <= k < mem.Length :: mem[k] == if dest <= k < dest + i then s[k - dest] else old(mem[k])
    {
      assert i < |s| ==> mem[src + i] == old(mem[src..src + |s|])[i] == s[i] != 0;
      if mem[src + i] == 0 {
        break;
      }
      mem[dest + i] := mem[src + i];
      i := i + 1;
    }
    mem[dest + i] := 0;
  }

  // ---------------------------------------------------------------- lending a page and taking it back

  /** Mapping page `t` to itself lends it. */
  lemma Lending(w: seq<word>, d: page, t: page, flags: word)
    requires Built(w, d) && d != t && t !in TablePages(w, d) && flags < PAGE_SIZE
    ensures var after := SetEntry(w, d, t, EntryFor(t, flags));
      && Lent(after, d, t) && OnlyTablesChanged(w, after, d) && Built(after, d)
      && forall u: page | u != t :: Entry(after, d, u) == Entry(w, d, u)
  {
    var after := SetEntry(w, d, t, EntryFor(t, flags));
    SetEntryKeepsTables(w, d, t, EntryFor(t, flags));
    SameTables(w, after, d);
    forall u: page
      ensures Entry(after, d, u) == if u == t then EntryFor(t, flags) else Entry(w, d, u)
    {
      SetEntryEffect(w, d, t, EntryFor(t, flags), u);
    }
    EntryForPage(t, flags);
  }

  /** Restoring the entry leaves every page but the lent one as it was. */
  lemma TakingBack(w1: seq<word>, w2: seq<word>, w3: seq<word>, w4: seq<word>, d: page, t: page, val: word)
    requires Built(w1, d) && d != t && t !in TablePages(w1, d) && w2 == SetEntry(w1, d, t, val)
    requires SameOutside(w2, w3, {t}) && w4 == SetEntry(w3, d, t, Entry(w1, d, t))
    ensures SameOutside(w1, w4, {t})
  {
    var slot, table := Slot(w1, d, t), TablePage(w1, d, DirectoryIndex(t));
    SetEntryKeepsTables(w1, d, t, val);
    SameTables(w1, w2, d);
    assert SamePage(w2, w3, d);
    SameTables(w2, w3, d);
    assert Slot(w3, d, t) == slot && table in TablePages(w1, d);
    forall p: page | p != t
      ensures SamePage(w1, w4, p)
    {
      assert SamePage(w2, w3, p);
    }
  }

  /** The string's addresses, up to its terminator, are apart from page `t`, and the bytes they show from
      the pages `ps`. */
  ghost predicate SourceApart(ram: seq<byte>, d: page, a: word, n: nat, t: page, ps: set<page>)
    requires |ram| == ADDRESS_SPACE
    decreases n
  {
    n == 0 ||
    ( && PageOf(a) != t && PageOf(Translate(AsWords(ram), d, a)) !in ps
      && (Peek(ram, d, a) == 0 || SourceApart(ram, d, Wrap(a + 1), n - 1, t, ps)))
  }

  /** The pages through which a page `t` is lent: the tables of `d`, and `t`. */
  function Busy(w: seq<word>, d: page, t: page): set<page>
    requires |w| == MEMORY_WORDS
  {
    TablePages(w, d) + {t}
  }

  lemma PeekAlike(ram: seq<byte>, after: seq<byte>, d: page, a: word, ps: set<page>)
    requires |ram| == |after| == ADDRESS_SPACE && SameOutside(AsWords(ram), AsWords(after), ps)
    requires Entry(AsWords(after), d, PageOf(a)) == Entry(AsWords(ram), d, PageOf(a))
    requires PageOf(Translate(AsWords(ram), d, a)) !in ps
    ensures Translate(AsWords(after), d, a) == Translate(AsWords(ram), d, a) && Peek(after, d, a) == Peek(ram, d, a)
  {
    var at := Translate(AsWords(ram), d, a);
    assert SamePage(AsWords(ram), AsWords(after), PageOf(at));
    assert AsWords(after)[at / 4] == AsWords(ram)[at / 4];
    SameWordSameBytes(ram, after, at / 4);
  }

  /** Such a string looks the same, and avoids the page, once the page is lent. */
  lemma {:induction false} SeenAlike(ram: seq<byte>, after: seq<byte>, d: page, a: word, n: nat, t: page, ps: set<page>)
    requires |ram| == |after| == ADDRESS_SPACE && SourceApart(ram, d, a, n, t, ps) && t in ps
    requires forall u: page | u != t :: Entry(AsWords(after), d, u) == Entry(AsWords(ram), d, u)
    requires SameOutside(AsWords(ram), AsWords(after), ps)
    ensures Seen(after, d, a, n) == Seen(ram, d, a, n) && Avoids(after, d, a, n, t)
    decreases n
  {
    if n > 0 {
      PeekAlike(ram, after, d, a, ps);
      if Peek(ram, d, a) != 0 {
        SeenAlike(ram, after, d, Wrap(a + 1), n - 1, t, ps);
      }
    }
  }

  /** Page `t` starts with the string `s` and its terminator. */
  ghost predicate TextAt(ram: seq<byte>, t: page, s: seq<byte>) {
    && |ram| == ADDRESS_SPACE && |s| < PAGE_SIZE
    && ram[t * PAGE_SIZE..t * PAGE_SIZE + |s|] == s && ram[t * PAGE_SIZE + |s|] == 0
  }

  lemma HeldText(now: seq<byte>, ram: seq<byte>, t: page, s: seq<byte>)
    requires Holding(now, ram, t, s + [0])
    ensures |now| == |ram| == ADDRESS_SPACE && SameOutside(AsWords(ram), AsWords(now), {t}) && TextAt(now, t, s)
  {
    assert Unfolded(OfHolding, 0);
    WritingInPage(ram, t, s + [0]);
    assert (s + [0])[|s|] == 0;
  }

  lemma TextKept(ram: seq<byte>, after: seq<byte>, t: page, s: seq<byte>)
    requires TextAt(ram, t, s) && |after| == ADDRESS_SPACE && SamePage(AsWords(ram), AsWords(after), t)
    ensures TextAt(after, t, s)
  {
    KeptBytes(ram, after, t, |s|);
    KeptBytes(ram, after, t, |s| + 1);
  }

  /** Lends `tmp` to the task, and keeps the entry it had. The string at `virt` looks the same. */
  method LendPage(mem: array<byte>, chunk: word, tmp: word, ghost virt: word, ghost n: nat) returns (dir: word,
                  entry: word)
    requires ChunkAt(mem[..], chunk) && Aligned(tmp) && PageOf(tmp) !in Footprint(AsWords(mem[..]), PageOf(chunk))
    requires var d := DirectoryOf(mem[..], chunk);
      SourceApart(mem[..], d, virt, n, PageOf(tmp), Busy(AsWords(mem[..]), d, PageOf(tmp)))
    modifies mem
    ensures Seen(mem[..], PageOf(dir), virt, n) == Seen(old(mem[..]), PageOf(dir), virt, n)
    ensures Avoids(mem[..], PageOf(dir), virt, n, PageOf(tmp))
    ensures Aligned(dir) && PageOf(dir) == DirectoryOf(old(mem[..]), chunk)
    ensures entry == Entry(AsWords(old(mem[..])), PageOf(dir), PageOf(tmp))
    ensures var w, after, d, t := AsWords(old(mem[..])), AsWords(mem[..]), PageOf(dir), PageOf(tmp);
      && after == SetEntry(w, d, t, EntryFor(t, PROGRAM_FLAGS)) && OnlyTablesChanged(w, after, d)
      && Built(after, d) && Lent(after, d, t) && Present(Entry(after, d, t)) && Writable(Entry(after, d, t))
  {
    ghost var ram, w, d := mem[..], AsWords(mem[..]), DirectoryOf(mem[..], chunk);
    FirstWordOfPage(chunk);
    dir := LoadWord(mem, chunk);
    entry := PagingGet(mem, dir, tmp);
    MapIsSet(w, d, tmp, tmp, PROGRAM_FLAGS);
    Lending(w, d, PageOf(tmp), PROGRAM_FLAGS);
    EntryFlags(PageOf(tmp), PROGRAM_FLAGS);
    var _ := PagingMap(mem, chunk, tmp, tmp, PROGRAM_FLAGS);
    SameOutsideBoth(w, w, AsWords(mem[..]), {}, TablePages(w, d), Busy(w, d, PageOf(tmp)));
    SeenAlike(ram, mem[..], d, virt, n, PageOf(tmp), Busy(w, d, PageOf(tmp)));
  }

  /** Gives the lent page its entry back; it keeps the string `s` that was put into it. */
  method TakePageBack(mem: array<byte>, dir: word, tmp: word, entry: word, ghost w1: seq<word>, ghost w2: seq<word>,
                      ghost s: seq<byte>)
    returns (res: int)
    requires mem.Length == ADDRESS_SPACE && Aligned(dir) && Aligned(tmp)
    requires Built(w1, PageOf(dir)) && PageOf(dir) != PageOf(tmp) && PageOf(tmp) !in TablePages(w1, PageOf(dir))
    requires OnlyTablesChanged(w1, w2, PageOf(dir)) && entry == Entry(w1, PageOf(dir), PageOf(tmp))
    requires w2 == SetEntry(w1, PageOf(dir), PageOf(tmp), EntryFor(PageOf(tmp), PROGRAM_FLAGS))
    requires SameOutside(w2, AsWords(mem[..]), {PageOf(tmp)}) && TextAt(mem[..], PageOf(tmp), s)
    modifies mem
    ensures res == 0 && SameOutside(w1, AsWords(mem[..]), {PageOf(tmp)}) && TextAt(mem[..], PageOf(tmp), s)
  {
    ghost var ram3, w3, d, t := mem[..], AsWords(mem[..]), PageOf(dir), PageOf(tmp);
    TableWordsApart(w1, w2, w3, d, t, entry);
    res := PagingSet(mem, dir, tmp, entry);
    TakingBack(w1, w2, w3, AsWords(mem[..]), d, t, EntryFor(t, PROGRAM_FLAGS));
    TextKept(ram3, mem[..], t, s);
  }

  /** The two memories agree outside page `t`. Folded. */
  ghost predicate Elsewhere(ram: seq<byte>, after: seq<byte>, t: page) {
    forall k: nat | Unfolded(OfElsewhere, k) ::
      |ram| == |after| == ADDRESS_SPACE && SameOutside(AsWords(ram), AsWords(after), {t})
  }

  lemma ElsewhereTwice(a: seq<byte>, b: seq<byte>, c: seq<byte>, t: page)
    requires Elsewhere(a, b, t) && Elsewhere(b, c, t)
    ensures Elsewhere(a, c, t)
  {
    assert Unfolded(OfElsewhere, 0);
    SameOutsideBoth(AsWords(a), AsWords(b), AsWords(c), {t}, {t}, {t});
  }

  /** Page `t` is apart from the directory, whose pages are `ps`, and from the string at `virt`, of which up
      to `n` characters make `s`. Folded. */
  ghost predicate Ready(ram: seq<byte>, chunk: word, t: page, virt: word, n: nat, ps: set<page>, s: seq<byte>) {
    forall k: nat | Unfolded(OfLending, k) ::
      && ChunkAt(ram, chunk) && ps == Footprint(AsWords(ram), PageOf(chunk)) && t !in ps
      && s == Seen(ram, DirectoryOf(ram, chunk), virt, n)
      && SourceApart(ram, DirectoryOf(ram, chunk), virt, n, t, Busy(AsWords(ram), DirectoryOf(ram, chunk), t))
  }

  /** Lends `tmp` to the task, copies the string into it under the task's directory, and takes it back. */
  method CopyIntoPage(mem: array<byte>, chunk: word, tmp: word, virt: word, max: nat, ghost ps: set<page>,
                      ghost s: seq<byte>)
    returns (res: int)
    requires mem.Length == ADDRESS_SPACE && Aligned(tmp) && 0 < max < PAGE_SIZE
    requires Ready(mem[..], chunk, PageOf(tmp), virt, max - 1, ps, s)
    modifies mem
    ensures res == 0 && Elsewhere(old(mem[..]), mem[..], PageOf(tmp))
    ensures TextAt(mem[..], PageOf(tmp), s) && 0 !in s && |s| < max && PageOf(tmp) !in ps
  {
    assert Unfolded(OfLending, 0);
    ghost var w1, t := AsWords(mem[..]), PageOf(tmp);
    var dir, oldEntry := LendPage(mem, chunk, tmp, virt, max - 1);
    ghost var ram2 := mem[..];
    StrNCpyThrough(mem, dir, tmp, virt, max);
    HeldText(mem[..], ram2, t, s);
    res := TakePageBack(mem, dir, tmp, oldEntry, w1, AsWords(ram2), s);
  }

  lemma TableWordsApart(w1: seq<word>, w2: seq<word>, w3: seq<word>, d: page, t: page, val: word)
    requires Built(w1, d) && d != t && t !in TablePages(w1, d) && OnlyTablesChanged(w1, w2, d)
    requires SameOutside(w2, w3, {t})
    ensures SamePage(w3, SetEntry(w3, d, t, val), t)
  {
    SameTables(w1, w2, d);
    assert SamePage(w2, w3, d);
    SameTables(w2, w3, d);
    assert TablePage(w3, d, DirectoryIndex(t)) in TablePages(w1, d);
  }

  /** The bytes `phys .. phys + n` lie in none of the pages. */
  ghost predicate Beside(phys: word, n: nat, ps: set<page>) {
    phys + n <= ADDRESS_SPACE && forall p | p in ps :: (p + 1) * PAGE_SIZE <= phys || phys + n <= p * PAGE_SIZE
  }

  lemma ByteOutside(ram: seq<byte>, after: seq<byte>, t: page, k: nat)
    requires |ram| == |after| == ADDRESS_SPACE && SameOutside(AsWords(ram), AsWords(after), {t})
    requires k < ADDRESS_SPACE && k / PAGE_SIZE != t
    ensures after[k] == ram[k]
  {
    var p: page := k / PAGE_SIZE;
    assert SamePage(AsWords(ram), AsWords(after), p);
    assert AsWords(after)[k / 4] == AsWords(ram)[k / 4];
    SameWordSameBytes(ram, after, k / 4);
  }

  /** A page that is not written to. */
  lemma PageBeside(ram: seq<byte>, at: nat, xs: seq<byte>, p: page)
    requires |ram| == ADDRESS_SPACE && at + |xs| <= ADDRESS_SPACE
    requires (p + 1) * PAGE_SIZE <= at || at + |xs| <= p * PAGE_SIZE
    ensures SamePage(AsWords(ram), AsWords(Splice(ram, at, xs)), p)
  {
    forall k | p * ENTRIES <= k < p * ENTRIES + ENTRIES
      ensures AsWords(Splice(ram, at, xs))[k] == AsWords(ram)[k]
    {
      SameBytesSameWord(ram, Splice(ram, at, xs), k);
    }
  }

  /** It stays apart when only page `t` is written. */
  lemma {:induction false} SourceStill(ram: seq<byte>, after: seq<byte>, d: page, a: word, n: nat, t: page,
                                       ps: set<page>)
    requires |ram| == |after| == ADDRESS_SPACE && SourceApart(ram, d, a, n, t, ps) && t in ps
    requires SameOutside(AsWords(ram), AsWords(after), {t})
    requires forall u: page :: Entry(AsWords(after), d, u) == Entry(AsWords(ram), d, u)
    ensures SourceApart(after, d, a, n, t, ps)
    decreases n
  {
    if n > 0 {
      PeekAlike(ram, after, d, a, {t});
      if Peek(ram, d, a) != 0 {
        SourceStill(ram, after, d, Wrap(a + 1), n - 1, t, ps);
      }
    }
  }

  /** Outside page `t`, `after` is `ram` with `s` and its terminator at `phys`. */
  ghost predicate DeliveredTo(ram: seq<byte>, after: seq<byte>, phys: nat, s: seq<byte>, t: page) {
    && |after| == |ram| && phys + |s| < |ram| && after[phys..phys + |s| + 1] == s + [0]
    && forall k | 0 <= k < |ram| && !(phys <= k <= phys + |s|) && k / PAGE_SIZE != t :: after[k] == ram[k]
  }

  /** The pages `ps` are unchanged. */
  ghost predicate SamePages(w: seq<word>, after: seq<word>, ps: set<page>) {
    |w| == |after| == MEMORY_WORDS && forall p | p in ps :: SamePage(w, after, p)
  }

  /** The copy on from the lent page changes nothing but its place. */
  lemma CopiedOn(ram: seq<byte>, ram2: seq<byte>, after: seq<byte>, phys: nat, s: seq<byte>, t: page)
    requires |ram| == |ram2| == ADDRESS_SPACE && Elsewhere(ram, ram2, t)
    requires phys + |s| < ADDRESS_SPACE && after == Splice(ram2, phys, s + [0])
    ensures DeliveredTo(ram, after, phys, s, t)
  {
    assert Unfolded(OfElsewhere, 0);
    forall k | 0 <= k < |ram| && !(phys <= k <= phys + |s|) && k / PAGE_SIZE != t
      ensures after[k] == ram[k]
    {
      ByteOutside(ram, ram2, t, k);
    }
  }

  lemma PagesStill(ram: seq<byte>, ram2: seq<byte>, phys: word, s: seq<byte>, t: page, ps: set<page>, max: nat)
    requires |ram| == |ram2| == ADDRESS_SPACE && Elsewhere(ram, ram2, t)
    requires |s| < max && Beside(phys, max, ps + {t}) && t !in ps
    ensures SamePages(AsWords(ram), AsWords(Splice(ram2, phys, s + [0])), ps)
  {
    assert Unfolded(OfElsewhere, 0);
    forall p | p in ps
      ensures SamePage(AsWords(ram), AsWords(Splice(ram2, phys, s + [0])), p)
    {
      assert p in ps + {t} && SamePage(AsWords(ram), AsWords(ram2), p);
      PageBeside(ram2, phys, s + [0], p);
    }
  }

  /** A fresh, zeroed block beside the directory leaves the string as it is seen. */
  lemma BlockBefore(ram: seq<byte>, ram1: seq<byte>, chunk: word, virt: word, n: nat, t: page, ps: set<page>,
                    s: seq<byte>)
    requires Ready(ram, chunk, t, virt, n, ps, s) && |ram1| == ADDRESS_SPACE && Elsewhere(ram, ram1, t)
    ensures Ready(ram1, chunk, t, virt, n, ps, s) && t !in ps
  {
    assert Unfolded(OfLending, 0) && Unfolded(OfElsewhere, 0);
    var w, w1, d := AsWords(ram), AsWords(ram1), DirectoryOf(ram, chunk);
    ChunkApart(w, w1, PageOf(chunk), t);
    SourceStill(ram, ram1, d, virt, n, t, Busy(w, d, t));
    SameOutsideBoth(w, w, w1, {}, {t}, Busy(w, d, t));
    SeenAlike(ram, ram1, d, virt, n, t, Busy(w, d, t));
  }

  /** The copy on from the page `tmp` to its place. */
  method CopyOnwards(mem: array<byte>, tmp: word, phys: word, max: nat, ghost ram: seq<byte>, ghost ps: set<page>,
                     ghost s: seq<byte>)
    requires mem.Length == |ram| == ADDRESS_SPACE && Aligned(tmp) && |s| < max < PAGE_SIZE && 0 !in s
    requires TextAt(mem[..], PageOf(tmp), s) && PageOf(tmp) !in ps && Beside(phys, max, ps + {PageOf(tmp)})
    requires Elsewhere(ram, mem[..], PageOf(tmp))
    modifies mem
    ensures DeliveredTo(ram, mem[..], phys, s, PageOf(tmp)) && SamePages(AsWords(ram), AsWords(mem[..]), ps)
  {
    ghost var ram2, t := mem[..], PageOf(tmp);
    assert t in ps + {t};
    StrNCpy(mem, phys, tmp, max, s);
    CopiedOn(ram, ram2, mem[..], phys, s, t);
    PagesStill(ram, ram2, phys, s, t, ps, max);
  }

  /** Both copies: into the lent page, and on from there. `ram` is memory before the page was zeroed. */
  method Deliver(mem: array<byte>, chunk: word, tmp: word, virt: word, phys: word, max: nat, ghost ram: seq<byte>,
                 ghost ps: set<page>, ghost s: seq<byte>)
    returns (res: int)
    requires mem.Length == |ram| == ADDRESS_SPACE && Aligned(tmp) && 0 < max < PAGE_SIZE
    requires Ready(ram, chunk, PageOf(tmp), virt, max - 1, ps, s) && Beside(phys, max, ps + {PageOf(tmp)})
    requires Elsewhere(ram, mem[..], PageOf(tmp))
    modifies mem
    ensures res == 0 && DeliveredTo(ram, mem[..], phys, s, PageOf(tmp)) && SamePages(AsWords(ram), AsWords(mem[..]), ps)
  {
    ghost var ram1, t := mem[..], PageOf(tmp);
    BlockBefore(ram, ram1, chunk, virt, max - 1, t, ps, s);
    res := CopyIntoPage(mem, chunk, tmp, virt, max, ps, s);
    ElsewhereTwice(ram, ram1, mem[..], t);
    CopyOnwards(mem, tmp, phys, max, ram, ps, s);
  }

  /** What must hold when the copy is made through block `t`: it is the one the allocator hands out, the
      string is apart from it and from the page tables, and so is the place the string goes to. */
  ghost predicate MayCopy(heap: Heap, ram: seq<byte>, chunk: word, virt: word, phys: word, max: nat, t: page)
    reads heap, heap.entries
    requires |ram| == ADDRESS_SPACE && max > 0
  {
    && t == AreaOf(heap).first + StartBlock(heap.entries[..], 1)
    && SourceApart(ram, DirectoryOf(ram, chunk), virt, max - 1, t, Busy(AsWords(ram), DirectoryOf(ram, chunk), t))
    && Beside(phys, max, Footprint(AsWords(ram), PageOf(chunk)) + {t})
  }

  /** Then all is ready, should the block be allocated. */
  lemma MakeReady(t0: Table, live: Live, area: Area, ram: seq<byte>, chunk: word, virt: word, n: nat, t: page,
                  ps: set<page>, s: seq<byte>)
    requires Recorded(t0, live) && Unused(live, Block(area, t)) && |ram| == ADDRESS_SPACE && Aligned(chunk)
    requires Owned(live, area, AsWords(ram), PageOf(chunk)) && ps == Footprint(AsWords(ram), PageOf(chunk))
    requires var d := DirectoryOf(ram, chunk);
      SourceApart(ram, d, virt, n, t, Busy(AsWords(ram), d, t)) && s == Seen(ram, d, virt, n)
    ensures Ready(ram, chunk, t, virt, n, ps, s) && Block(area, t) !in live
  {
    NewIsNotLive(t0, live, Block(area, t));
  }

  lemma GivenBack(live: Live, b: int)
    requires b !in live
    ensures live[b := 1] - {b} == live
  {
  }

  /** `copy_string_from_task`. With a block free, up to `max - 1` characters of the string that the task
      sees at `virt` arrive at `phys`, terminated; and beside them and the block lent on the way, which is
      free again, nothing has changed: not the task's page tables, nor the heap's block table. */
  method CopyStringFromTask(heap: Heap, mem: array<byte>, chunk: word, virt: word, phys: word, max: nat, ghost t: page)
    returns (res: int)
    requires heap.Valid() && mem.Length == ADDRESS_SPACE && Aligned(chunk) && 0 < max
    requires Owned(heap.live, AreaOf(heap), AsWords(mem[..]), PageOf(chunk))
    requires max < PAGE_SIZE && StartBlock(heap.entries[..], 1) >= 0 ==>
        MayCopy(heap, mem[..], chunk, virt, phys, max, t)
    modifies heap, heap.entries, mem
    ensures heap.Valid() && heap.live == old(heap.live) && heap.entries[..] == old(heap.entries[..])
    ensures res == if max >= PAGE_SIZE then -EINVARG
      else if StartBlock(old(heap.entries[..]), 1) < 0 then -ENOMEM else 0
    ensures res != 0 ==> mem[..] == old(mem[..])
    ensures res == 0 ==>
      var s := Seen(old(mem[..]), DirectoryOf(old(mem[..]), chunk), virt, max - 1);
      DeliveredTo(old(mem[..]), mem[..], phys, s, t) && Vacant(old(heap.live), AreaOf(heap), t)
    ensures SamePages(AsWords(old(mem[..])), AsWords(mem[..]), Footprint(AsWords(old(mem[..])), PageOf(chunk)))
  {
    if max >= PAGE_SIZE {
      return -EINVARG;
    }
    ghost var live, table, ram, area := heap.live, heap.entries[..], mem[..], AreaOf(heap);
    var tmp := KzallocSmall(heap, mem, max);
    if tmp == 0 {
      return -ENOMEM;
    }
    assert PageOf(tmp) == t;
    ghost var ps, s := Footprint(AsWords(ram), PageOf(chunk)), Seen(ram, DirectoryOf(ram, chunk), virt, max - 1);
    MakeReady(table, live, area, ram, chunk, virt, max - 1, t, ps, s);
    res := Deliver(mem, chunk, tmp, virt, phys, max, ram, ps, s);
    FreePage(heap, tmp);
    GivenBack(live, Block(area, t));
    TableIsDetermined(heap.entries[..], table, live);
  }
}
