/** Finding a file in the root directory: the match's entry, copied into fresh heap blocks. */
module Lookup {
  import opened Words
  import opened HeapTable
  import opened Heap
  import opened Kheap
  import opened PageTables
  import opened Paging
  import opened Growth
  import opened Paths
  import opened Strings
  import opened Fat16
  import opened Directory

  const ATTRIBUTE := 11
  const SUBDIRECTORY := 0x10
  const TYPE_FILE := 1
  const FAT_ITEM_SIZE := 8

  /** Two bytes of an entry, little-endian. */
  function Half(item: seq<byte>, at: nat): half
    requires at + 2 <= |item|
  {
    item[at] as int + 0x100 * item[at + 1] as int
  }

  /** The entry's first cluster: its two halves or-ed together, not shifted. */
  function FirstCluster(item: seq<byte>): nat
    requires |item| == ITEM_SIZE
  {
    Or(Half(item, 20), Half(item, 26))
  }

  /** Or-ing them is right exactly if the upper half is 0, as it is on FAT16. */
  lemma FirstClusterIsRightIff(item: seq<byte>)
    requires |item| == ITEM_SIZE
    ensures FirstCluster(item) == 0x1_0000 * Half(item, 20) + Half(item, 26) <==> Half(item, 20) == 0
  {
    OrAtMostSum(Half(item, 20), Half(item, 26));
    OrZero(Half(item, 26));
  }

  function FileSize(item: seq<byte>): word
    requires |item| == ITEM_SIZE
  {
    FromDigits(item[28], item[29], item[30], item[31])
  }

  function ItemOf(raw: seq<byte>, i: nat): (item: seq<byte>)
    requires (i + 1) * ITEM_SIZE <= |raw|
    ensures |item| == ITEM_SIZE
  {
    raw[i * ITEM_SIZE..(i + 1) * ITEM_SIZE]
  }

  /** Entry `i` is called `name`, but for case. */
  predicate Matches(raw: seq<byte>, i: nat, name: CString) {
    NameFits(raw, i * ITEM_SIZE) && AgreeAll(FullName(raw, i * ITEM_SIZE), name)
  }

  /** The last number below `n` in a set, or -1. */
  function LastOf(p: set<nat>, n: nat): (r: int)
    ensures -1 <= r < n
  {
    if n == 0 then -1 else if n - 1 in p then n - 1 else LastOf(p, n - 1)
  }

  lemma {:induction false} LastIsLast(p: set<nat>, n: nat)
    ensures LastOf(p, n) >= 0 ==> LastOf(p, n) in p
    ensures forall i: nat | LastOf(p, n) < i < n :: i !in p
  {
    if n > 0 && n - 1 !in p {
      LastIsLast(p, n - 1);
    }
  }

  /** How many numbers below `n` are in it. */
  function CountOf(p: set<nat>, n: nat): nat {
    if n == 0 then 0 else CountOf(p, n - 1) + if n - 1 in p then 1 else 0
  }

  /** Every entry has a name the lookup can make out, and no subdirectory has the name looked for. */
  ghost predicate Searchable(raw: seq<byte>, n: nat, name: CString) {
    n * ITEM_SIZE <= |raw| && forall i: nat | i < n ::
        && NameFits(raw, i * ITEM_SIZE)
        && (Matches(raw, i, name) ==> raw[i * ITEM_SIZE + ATTRIBUTE] / SUBDIRECTORY % 2 == 0)
  }

  /** `named` says which of the first `n` entries, all of them searchable, have the name. Folded. */
  ghost predicate Names(named: set<nat>, raw: seq<byte>, n: nat, name: CString) {
    forall k: nat | Unfolded(OfNames, k) ::
      Searchable(raw, n, name) && forall i: nat | i < n :: i in named <==> Matches(raw, i, name)
  }

  lemma NamesSize(named: set<nat>, raw: seq<byte>, n: nat, name: CString)
    requires Names(named, raw, n, name)
    ensures n * ITEM_SIZE <= |raw|
  {
    assert Unfolded(OfNames, 0);
  }

  lemma NamedIff(named: set<nat>, raw: seq<byte>, n: nat, name: CString, i: nat)
    requires Names(named, raw, n, name) && i < n
    ensures i in named <==> Matches(raw, i, name)
  {
    assert Unfolded(OfNames, 0);
  }

  /** One step of the comparison: does entry `i` have the name? */
  method HasName(raw: seq<byte>, i: nat, name: CString, ghost named: set<nat>, ghost n: nat) returns (r: bool)
    requires Names(named, raw, n, name) && i < n
    ensures r <==> i in named
  {
    assert Unfolded(OfNames, 0);
    var tmpFilename := new byte[MAX_PATH];
    FullRelativeFilename(raw, i * ITEM_SIZE, tmpFilename);
    ghost var full := FullName(raw, i * ITEM_SIZE);
    NameHasNoZero(raw, i * ITEM_SIZE);
    var text := TextOf(tmpFilename[..]);
    HoldsText(tmpFilename[..], full);
    var cmp := IStrNCmp(text, name, MAX_PATH);
    SameTextIff(full, name);
    r := cmp == 0;
  }

  /** The C string at the start of a buffer. */
  function TextOf(s: seq<byte>): (r: CString)
  {
    if s == [] || s[0] == 0 then [] else [s[0]] + TextOf(s[1..])
  }

  lemma {:induction false} HoldsText(out: seq<byte>, name: seq<byte>)
    requires Holds(out, name) && 0 !in name
    ensures TextOf(out) == name
  {
    if name != [] {
      HoldsText(out[1..], name[1..]);
    }
  }

  lemma SameTextIff(a: CString, b: CString)
    requires |a| < MAX_PATH
    ensures AgreeAll(Cut(a, MAX_PATH), Cut(b, MAX_PATH)) <==> AgreeAll(a, b)
  {
    assert |b| > MAX_PATH ==> |Cut(b, MAX_PATH)| == MAX_PATH;
    assert b[..|b|] == b;
  }

  /** A `fat_item` in page `p` for a file whose entry is copied to page `q`. */
  ghost predicate ItemAt(ram: seq<byte>, p: page, q: page, item: seq<byte>) {
    && |ram| == ADDRESS_SPACE && |item| == ITEM_SIZE
    && AsWords(ram)[p * ENTRIES] == q * PAGE_SIZE && AsWords(ram)[p * ENTRIES + 1] == TYPE_FILE
    && ram[q * PAGE_SIZE..q * PAGE_SIZE + ITEM_SIZE] == item
  }

  /** `fat16_new_fat_item_for_directory_item` for a file. */
  method NewFatItem(heap: Heap, mem: array<byte>, item: seq<byte>) returns (p: word, ghost q: page)
    requires heap.Valid() && mem.Length == ADDRESS_SPACE && heap.FreeCount() > 1 && |item| == ITEM_SIZE
    modifies heap, heap.entries, mem
    ensures heap.Valid() && Aligned(p) && p != 0 && PageOf(p) != q && ItemAt(mem[..], PageOf(p), q, item)
    ensures var b, c := Block(AreaOf(heap), PageOf(p)), Block(AreaOf(heap), q);
            b !in old(heap.live) && c !in old(heap.live) && heap.live == old(heap.live)[b := 1][c := 1]
    ensures heap.FreeCount() == old(heap.FreeCount()) - 2
    ensures Shrinks(old(heap.entries[..]), heap.entries[..], 2)
    ensures SameOutside(AsWords(old(mem[..])), AsWords(mem[..]), {PageOf(p), q})
  {
    ghost var t0, w0 := heap.entries[..], AsWords(mem[..]);
    p := KzallocBlock(heap, mem, FAT_ITEM_SIZE);
    ghost var t1, w1 := heap.entries[..], AsWords(mem[..]);
    var clone := CloneItem(heap, mem, item);
    q := PageOf(clone);
    ghost var ram2 := mem[..];
    SetPair(mem, p, clone, TYPE_FILE);
    KeptBytes(ram2, mem[..], q, ITEM_SIZE);
    SameOutsideBoth(w0, w1, AsWords(ram2), {PageOf(p)}, {q}, {PageOf(p), q});
    SameOutsideBoth(w0, AsWords(ram2), AsWords(mem[..]), {PageOf(p), q}, {PageOf(p)}, {PageOf(p), q});
    ShrinksTwice(t0, t1, heap.entries[..], 1, 1, 2);
  }

  /** `fat16_clone_directory_item`. */
  method CloneItem(heap: Heap, mem: array<byte>, item: seq<byte>) returns (clone: word)
    requires heap.Valid() && mem.Length == ADDRESS_SPACE && heap.FreeCount() > 0 && |item| == ITEM_SIZE
    modifies heap, heap.entries, mem
    ensures heap.Valid() && Aligned(clone)
    ensures var b := Block(AreaOf(heap), PageOf(clone)); b !in old(heap.live) && heap.live == old(heap.live)[b := 1]
    ensures heap.FreeCount() == old(heap.FreeCount()) - 1 && Shrinks(old(heap.entries[..]), heap.entries[..], 1)
    ensures var at := PageOf(clone) * PAGE_SIZE; mem[..][at..at + ITEM_SIZE] == item
    ensures SameOutside(AsWords(old(mem[..])), AsWords(mem[..]), {PageOf(clone)})
  {
    ghost var w0 := AsWords(mem[..]);
    clone := KzallocBlock(heap, mem, ITEM_SIZE);
    ghost var ram := mem[..];
    CopyBytes(mem, clone, item);
    WritingInPage(ram, PageOf(clone), item);
    SameOutsideBoth(w0, AsWords(ram), AsWords(mem[..]), {PageOf(clone)}, {PageOf(clone)}, {PageOf(clone)});
  }

  /** `memcpy`. */
  method CopyBytes(mem: array<byte>, at: nat, xs: seq<byte>)
    requires at + |xs| <= mem.Length
    modifies mem
    ensures mem[..] == Splice(old(mem[..]), at, xs)
  {
    for i := 0 to |xs|
      invariant forall k | 0 <= k < mem.Length :: mem[k] == if at <= k < at + i then xs[k - at] else old(mem[k])
    {
      mem[at + i] := xs[i];
    }
  }

  /** The blocks that a match takes. */
  method TakeMatch(heap: Heap, mem: array<byte>, item: seq<byte>) returns (p: word, ghost q: page)
    requires heap.Valid() && mem.Length == ADDRESS_SPACE && heap.FreeCount() > 1 && |item| == ITEM_SIZE
    modifies heap, heap.entries, mem
    ensures heap.Valid() && p != 0 && Aligned(p) && PageOf(p) != q && ItemAt(mem[..], PageOf(p), q, item)
    ensures Grew(AreaOf(heap), old(Snap(heap, mem)), Snap(heap, mem), {PageOf(p), q}, 2)
  {
    ghost var a, area := Snap(heap, mem), AreaOf(heap);
    p, q := NewFatItem(heap, mem, item);
    ghost var ps := {PageOf(p), q};
    GrewNot(area, a);
    OneMorePage(a.live, a.live, area, {}, PageOf(p));
    OneMorePage(a.live, a.live[Block(area, PageOf(p)) := 1], area, {} + {PageOf(p)}, q);
    assert {} + {PageOf(p)} + {q} == ps == ps + {};
    AddedWritesVacant(heap.entries[..], a.live, heap.live, area, ps, {}, a.words, AsWords(mem[..]));
  }

  /** `fItem` is a `fat_item` among the blocks `ps` for the entry found, or null if none was. */
  ghost predicate FoundItem(ram: seq<byte>, raw: seq<byte>, found: int, fItem: word, q: page, ps: set<page>) {
    if found < 0 then fItem == 0
    else && fItem != 0 && Aligned(fItem) && PageOf(fItem) in ps && q in ps && PageOf(fItem) != q
         && (found + 1) * ITEM_SIZE <= |raw| && ItemAt(ram, PageOf(fItem), q, ItemOf(raw, found))
  }

  lemma OneMoreEntry(named: set<nat>, i: nat)
    ensures LastOf(named, i + 1) == if i in named then i else LastOf(named, i)
    ensures CountOf(named, i + 1) == CountOf(named, i) + if i in named then 1 else 0
  {
  }

  /** One more match, `n` blocks having been taken since `s0`. */
  method TakeNext(heap: Heap, mem: array<byte>, raw: seq<byte>, i: nat, ghost s0: Snapshot, ghost ps: set<page>,
                  ghost n: nat, ghost total: nat)
    returns (fItem: word, ghost q: page, ghost all: set<page>)
    requires heap.Valid() && mem.Length == ADDRESS_SPACE && heap.FreeCount() > 1 && (i + 1) * ITEM_SIZE <= |raw|
    requires Grew(AreaOf(heap), s0, Snap(heap, mem), ps, n) && total == n + 2
    modifies heap, heap.entries, mem
    ensures heap.Valid() && FoundItem(mem[..], raw, i, fItem, q, all)
    ensures Grew(AreaOf(heap), s0, Snap(heap, mem), all, total)
  {
    ghost var s := Snap(heap, mem);
    fItem, q := TakeMatch(heap, mem, ItemOf(raw, i));
    all := ps + {PageOf(fItem), q};
    GrewTwice(AreaOf(heap), s0, s, Snap(heap, mem), ps, {PageOf(fItem), q}, n, 2, all, total);
  }

  /** `fat16_find_item_in_directory`: a fresh `fat_item` for the last entry with the name. Every match on
      the way costs two blocks, and all but the last are lost. */
  method FindItem(heap: Heap, mem: array<byte>, raw: seq<byte>, total: int, name: CString, ghost named: set<nat>)
    returns (fItem: word, ghost q: page, ghost ps: set<page>)
    requires heap.Valid() && mem.Length == ADDRESS_SPACE && Names(named, raw, Rounds(total), name)
    requires heap.FreeCount() >= 2 * CountOf(named, Rounds(total))
    modifies heap, heap.entries, mem
    ensures heap.Valid()
    ensures Grew(AreaOf(heap), old(Snap(heap, mem)), Snap(heap, mem), ps, 2 * CountOf(named, Rounds(total)))
    ensures FoundItem(mem[..], raw, LastOf(named, Rounds(total)), fItem, q, ps)
  {
    fItem, q, ps := 0, 0, {};
    ghost var s0, area, n, last := Snap(heap, mem), AreaOf(heap), 0, -1;
    NamesSize(named, raw, Rounds(total), name);
    GrewNot(area, s0);
    CountGrows(named, 0, Rounds(total));
    var i := 0;
    while i < total
      invariant 0 <= i <= Rounds(total) && heap.Valid()
      invariant last == LastOf(named, i) && n == 2 * CountOf(named, i)
      invariant FoundItem(mem[..], raw, last, fItem, q, ps) && Grew(area, s0, Snap(heap, mem), ps, n)
    {
      OneMoreEntry(named, i);
      var hit := HasName(raw, i, name, named, total);
      if hit {
        CountGrows(named, i + 1, Rounds(total));
        fItem, q, ps := TakeNext(heap, mem, raw, i, s0, ps, n, n + 2);
        n, last := n + 2, i;
      }
      i := i + 1;
    }
    assert i == Rounds(total);
  }

  lemma {:induction false} CountGrows(p: set<nat>, i: nat, n: nat)
    requires i <= n
    ensures CountOf(p, i) <= CountOf(p, n)
  {
    if i < n {
      CountGrows(p, i, n - 1);
    }
  }
}
