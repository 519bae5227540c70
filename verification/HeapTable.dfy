/** The block table of the kernel heap as a value: what a table means, and what
    marking and clearing blocks does to that meaning. */
module HeapTable {

  const BLOCK_SIZE := 4096
  const ENOMEM := 3

  const FREE: bv8 := 0x00
  const TAKEN: bv8 := 0x01
  const IS_FIRST: bv8 := 0x40
  const HAS_NEXT: bv8 := 0x80

  type Table = seq<bv8>

  /** Live allocations: first block to number of blocks. */
  type Live = map<int, int>

  predicate IsFree(e: bv8) {
    e & 0x0f == FREE
  }

  predicate HasNext(e: bv8) {
    e & HAS_NEXT != 0
  }

  predicate IsFirst(e: bv8) {
    e & IS_FIRST != 0
  }

  /** The entry of a block of an allocation. */
  function Code(first: bool, last: bool): bv8 {
    TAKEN | (if first then IS_FIRST else 0) | (if last then 0 else HAS_NEXT)
  }

  /** `t` is the table of exactly the allocations `live`: in bounds, disjoint, and nothing else taken. */
  ghost predicate Represents(t: Table, live: Live) {
    && (forall s | s in live :: 0 <= s && 0 < live[s] && s + live[s] <= |t|)
    && (forall s, k | s in live && s <= k < s + live[s] :: t[k] == Code(k == s, k == s + live[s] - 1))
    && (forall s, r | s in live && r in live && s < r :: s + live[s] <= r)
    && (forall k | 0 <= k < |t| && t[k] != FREE :: exists s :: s in live && s <= k < s + live[s])
  }

  /** What the definitions that are kept folded are about. */
  datatype Topic =
    | OfTable | OfRoom | OfBlocks | OfWrites | OfPath | OfNames
    | OfTasks | OfLinks | OfChain | OfVacant | OfProcess | OfSystem
    | OfHolding | OfString | OfLending | OfElsewhere | OfTurns | OfBill

  /** Marks the proofs that look into a folded definition on a topic. */
  predicate Unfolded(topic: Topic, k: nat) {
    true
  }

  /** `Represents`, folded: what a caller that merely hands on a heap needs to know of its table. */
  ghost predicate Recorded(t: Table, live: Live) {
    forall k: nat | Unfolded(OfTable, k) :: Represents(t, live)
  }

  // ---------------------------------------------------------------- first fit

  predicate IsRun(t: Table, s: int, n: nat) {
    0 <= s && s + n <= |t| && forall k | s <= k < s + n :: IsFree(t[k])
  }

  ghost predicate HasRun(t: Table, n: nat) {
    exists s :: IsRun(t, s, n)
  }

  /** The least run of `n` free blocks starting at `from` or later, or -1. */
  function FindRun(t: Table, n: nat, from: nat): (r: int)
    requires n > 0
    ensures r < 0 ==> forall s | from <= s :: !IsRun(t, s, n)
    ensures r >= 0 ==> IsRun(t, r, n) && from <= r && forall s | from <= s < r :: !IsRun(t, s, n)
    decreases |t| - from
  {
    if from + n > |t| then -1
    else if IsRun(t, from, n) then from
    else FindRun(t, n, from + 1)
  }

  /** Where the free blocks that end the first `end` blocks begin. */
  function TrailingRun(t: Table, end: nat): (r: nat)
    requires end <= |t|
    ensures r <= end && IsRun(t, r, end - r)
    ensures r > 0 ==> !IsFree(t[r - 1])
  {
    if end == 0 || !IsFree(t[end - 1]) then end else TrailingRun(t, end - 1)
  }

  lemma TrailingRunIsUnique(t: Table, r: nat)
    requires r <= |t| && IsRun(t, r, |t| - r) && (r == 0 || !IsFree(t[r - 1]))
    ensures TrailingRun(t, |t|) == r
  {
    var q := TrailingRun(t, |t|);
    assert IsRun(t, q, |t| - q);
    assert forall k | r <= k < |t| :: IsFree(t[k]);
    assert forall k | q <= k < |t| :: IsFree(t[k]);
  }

  /** What the allocator's search returns: the first fit; failing that the free tail of the table,
      however short; failing that -ENOMEM. */
  function StartBlock(t: Table, n: nat): (r: int)
    ensures r < |t|
  {
    if n > 0 && FindRun(t, n, 0) >= 0 then FindRun(t, n, 0)
    else if TrailingRun(t, |t|) == |t| then -ENOMEM
    else TrailingRun(t, |t|)
  }

  predicate LastTaken(t: Table) {
    t == [] || !IsFree(t[|t| - 1])
  }

  /** The guard under which the search never hands out a run that is too short. */
  ghost predicate Fits(t: Table, n: nat) {
    n == 0 || HasRun(t, n) || LastTaken(t)
  }

  /** The blocks returned are free, in the table and as many as asked for, exactly when `Fits` holds. */
  lemma SearchIsSoundIff(t: Table, n: nat)
    ensures (StartBlock(t, n) < 0 || IsRun(t, StartBlock(t, n), n)) <==> Fits(t, n)
  {
    if n > 0 && HasRun(t, n) {
      assert FindRun(t, n, 0) >= 0;
    }
  }

  /** The search fails exactly when there is no run (or none is asked for) and no free tail. */
  lemma SearchFailsIff(t: Table, n: nat)
    ensures StartBlock(t, n) == -ENOMEM <==> LastTaken(t) && (n == 0 || !HasRun(t, n))
    ensures StartBlock(t, n) >= 0 <==> StartBlock(t, n) != -ENOMEM
  {
    if n > 0 && HasRun(t, n) {
      assert FindRun(t, n, 0) >= 0;
    }
    if !LastTaken(t) {
      assert TrailingRun(t, |t|) != |t|;
    }
  }

  /** What the search finds: the least start of enough free blocks, if there is one; otherwise the free
      tail of the table, if the last block is free. */
  lemma SearchIsFirstFit(t: Table, n: nat)
    requires n > 0
    ensures HasRun(t, n) ==>
        IsRun(t, StartBlock(t, n), n) && forall s | s < StartBlock(t, n) :: !IsRun(t, s, n)
    ensures !HasRun(t, n) && !LastTaken(t) ==>
        var s := StartBlock(t, n);
        0 <= s && 0 < |t| - s < n && IsRun(t, s, |t| - s) && (s == 0 || !IsFree(t[s - 1]))
  {
    if HasRun(t, n) {
      assert FindRun(t, n, 0) >= 0;
    } else if !LastTaken(t) {
      var s := TrailingRun(t, |t|);
      assert s != |t| && !IsRun(t, s, n);
    }
  }

  /** A request for one block is always answered correctly. */
  lemma OneBlockFits(t: Table)
    ensures Fits(t, 1)
  {
    if !LastTaken(t) {
      assert IsRun(t, |t| - 1, 1);
    }
  }

  /** Two free blocks asked for, one left at the end of the table: the search answers with that one. */
  lemma ShortTailCounterexample()
    ensures var t := [Code(true, true), FREE];
            !Fits(t, 2) && StartBlock(t, 2) == 1
  {
    var t := [Code(true, true), FREE];
    assert !IsFree(t[0]) && IsFree(t[1]);
    assert forall s :: IsRun(t, s, 2) ==> s == 0;
    assert TrailingRun(t, 1) == 1;
  }

  // ---------------------------------------------------------------- marking and clearing

  /** The table after blocks `s .. s + n` are marked as one allocation. */
  function Take(t: Table, s: int, n: nat): (r: Table)
    ensures |r| == |t|
  {
    seq(|t|, k requires 0 <= k < |t| => if s <= k < s + n then Code(k == s, k == s + n - 1) else t[k])
  }

  /** The number of blocks in the chain of entries from block `s`. */
  function ChainLength(t: Table, s: nat): (n: nat)
    ensures s <= |t| ==> s + n <= |t|
    decreases |t| - s
  {
    if s >= |t| then 0
    else if HasNext(t[s]) then 1 + ChainLength(t, s + 1)
    else 1
  }

  /** The table after the chain from block `s` is freed. */
  function Clear(t: Table, s: nat): (r: Table)
    ensures |r| == |t|
  {
    seq(|t|, k requires 0 <= k < |t| => if s <= k < s + ChainLength(t, s) then FREE else t[k])
  }

  /** Free blocks belong to no live allocation. */
  lemma RunIsApart(t: Table, live: Live, s: int, n: nat, r: int)
    requires Represents(t, live) && n > 0 && IsRun(t, s, n) && r in live
    ensures r + live[r] <= s || s + n <= r
  {
    assert forall k | r <= k < r + live[r] :: !IsFree(t[k]);
    assert forall k | s <= k < s + n :: IsFree(t[k]);
    var k := if r < s then s else r;
    var e := t[k];
    assert s <= k < s + n ==> IsFree(e);
  }

  lemma TakeRepresents(t: Table, live: Live, s: int, n: nat)
    requires Represents(t, live) && n > 0 && IsRun(t, s, n)
    ensures Represents(Take(t, s, n), live[s := n])
    ensures forall r | r in live :: r + live[r] <= s || s + n <= r
  {
    forall r | r in live
      ensures r + live[r] <= s || s + n <= r
    {
      RunIsApart(t, live, s, n, r);
    }
    var u, after := Take(t, s, n), live[s := n];
    forall r, k | r in after && r <= k < r + after[r]
      ensures u[k] == Code(k == r, k == r + after[r] - 1)
    {
      if r != s {
        assert t[k] == Code(k == r, k == r + live[r] - 1);
      }
    }
    forall k | 0 <= k < |u| && u[k] != FREE
      ensures exists r :: r in after && r <= k < r + after[r]
    {
      if s <= k < s + n {
        assert s in after;
      } else {
        var r :| r in live && r <= k < r + live[r];
        assert r in after;
      }
    }
  }

  /** The chain from any block of a live allocation runs to its end. */
  lemma {:induction false} ChainOfLive(t: Table, live: Live, s: int, k: nat)
    requires Represents(t, live) && s in live && s <= k < s + live[s]
    ensures ChainLength(t, k) == s + live[s] - k
    decreases s + live[s] - k
  {
    assert t[k] == Code(k == s, k == s + live[s] - 1);
    if k + 1 < s + live[s] {
      ChainOfLive(t, live, s, k + 1);
    }
  }

  lemma ClearRepresents(t: Table, live: Live, s: int)
    requires Represents(t, live) && s in live
    ensures ChainLength(t, s) == live[s]
    ensures Represents(Clear(t, s), live - {s})
  {
    ChainOfLive(t, live, s, s);
    var u, after := Clear(t, s), live - {s};
    forall k | 0 <= k < |u| && u[k] != FREE
      ensures exists r :: r in after && r <= k < r + after[r]
    {
      var r :| r in live && r <= k < r + live[r];
      assert r in after;
    }
  }

  /** Freeing a live allocation clears its own blocks and touches no other entry. */
  lemma ClearedBlocks(t: Table, live: Live, s: int)
    requires Represents(t, live) && s in live
    ensures s + live[s] <= |t|
    ensures forall k | s <= k < s + live[s] :: t[k] == Code(k == s, k == s + live[s] - 1)
    ensures Clear(t, s) == t[..s] + seq(live[s], _ => FREE) + t[s + live[s]..]
  {
    ChainOfLive(t, live, s, s);
  }

  /** A table holds no more than its allocations: equal allocations, equal tables. */
  lemma TableIsDetermined(t: Table, u: Table, live: Live)
    requires Recorded(t, live) && Recorded(u, live) && |t| == |u|
    ensures t == u
  {
    assert Unfolded(OfTable, 0);
    forall k | 0 <= k < |t|
      ensures t[k] == u[k]
    {
      if s :| s in live && s <= k < s + live[s] {
        assert t[k] == Code(k == s, k == s + live[s] - 1) == u[k];
      }
    }
  }

  // ---------------------------------------------------------------- local well-formedness

  /** What one entry may be, given its neighbours. */
  predicate EntryOk(t: Table, i: nat)
    requires i < |t|
  {
    t[i] == FREE ||
    ( && t[i] == Code(IsFirst(t[i]), !HasNext(t[i]))
      && (HasNext(t[i]) ==> i + 1 < |t| && t[i + 1] != FREE && !IsFirst(t[i + 1]))
      && (!IsFirst(t[i]) ==> i > 0 && HasNext(t[i - 1])))
  }

  predicate WellFormed(t: Table) {
    forall i | 0 <= i < |t| :: EntryOk(t, i)
  }

  /** The allocations a table records: every FIRST entry with the length of its chain. */
  function Decode(t: Table): Live {
    map s | 0 <= s < |t| && IsFirst(t[s]) :: ChainLength(t, s)
  }

  /** The entries of a chain in a well-formed table. */
  lemma {:induction false} ChainCodes(t: Table, s: nat)
    requires WellFormed(t) && s < |t| && t[s] != FREE
    ensures s + ChainLength(t, s) <= |t|
    ensures t[s] == Code(IsFirst(t[s]), ChainLength(t, s) == 1)
    ensures forall k | s < k < s + ChainLength(t, s) :: t[k] == Code(false, k == s + ChainLength(t, s) - 1)
    decreases |t| - s
  {
    assert EntryOk(t, s);
    if HasNext(t[s]) {
      ChainCodes(t, s + 1);
    }
  }

  /** The first block of the allocation that block `k` belongs to. */
  lemma {:induction false} OwnerExists(t: Table, k: nat) returns (s: nat)
    requires WellFormed(t) && k < |t| && t[k] != FREE
    ensures s <= k && IsFirst(t[s]) && ChainLength(t, s) == k - s + ChainLength(t, k)
  {
    assert EntryOk(t, k);
    if IsFirst(t[k]) {
      s := k;
    } else {
      assert EntryOk(t, k - 1);
      s := OwnerExists(t, k - 1);
    }
  }

  lemma RepresentedEntry(t: Table, live: Live, i: nat)
    requires Represents(t, live) && i < |t|
    ensures EntryOk(t, i)
    ensures i in live <==> IsFirst(t[i])
    ensures i in live ==> ChainLength(t, i) == live[i]
  {
    if s :| s in live && s <= i < s + live[s] {
      assert t[i] == Code(i == s, i == s + live[s] - 1);
      assert i > s ==> t[i - 1] == Code(i - 1 == s, i - 1 == s + live[s] - 1);
      assert i + 1 < s + live[s] ==> t[i + 1] == Code(i + 1 == s, i + 1 == s + live[s] - 1);
      if i == s {
        ChainOfLive(t, live, s, s);
      }
    } else {
      assert t[i] == FREE;
    }
  }

  lemma WellFormedRepresents(t: Table)
    requires WellFormed(t)
    ensures Represents(t, Decode(t))
  {
    var live := Decode(t);
    forall s | s in live
      ensures 0 < live[s] && s + live[s] <= |t|
      ensures forall k | s <= k < s + live[s] :: t[k] == Code(k == s, k == s + live[s] - 1)
    {
      ChainCodes(t, s);
    }
    forall s, r | s in live && r in live && s < r
      ensures s + live[s] <= r
    {
      assert forall k | s < k < s + live[s] :: !IsFirst(t[k]);
    }
    forall k | 0 <= k < |t| && t[k] != FREE
      ensures exists s :: s in live && s <= k < s + live[s]
    {
      var s := OwnerExists(t, k);
      assert s in live;
    }
  }

  lemma RepresentedIsWellFormed(t: Table, live: Live)
    requires Represents(t, live)
    ensures WellFormed(t) && live == Decode(t)
  {
    forall i: nat | i < |t|
      ensures EntryOk(t, i)
      ensures i in live <==> IsFirst(t[i])
      ensures i in live ==> ChainLength(t, i) == live[i]
    {
      RepresentedEntry(t, live, i);
    }
  }

  /** Locally well-formed tables are exactly the tables of some set of disjoint allocations, and
      decoding finds that set. */
  lemma RepresentsIffWellFormed(t: Table, live: Live)
    ensures Represents(t, live) <==> WellFormed(t) && live == Decode(t)
  {
    if Represents(t, live) {
      RepresentedIsWellFormed(t, live);
    }
    if WellFormed(t) {
      WellFormedRepresents(t);
    }
  }

  // ---------------------------------------------------------------- conservation

  /** Free blocks among the first `m`. */
  function FreeBlocks(t: Table, m: nat): (c: nat)
    requires m <= |t|
  {
    if m == 0 then 0 else FreeBlocks(t, m - 1) + (if IsFree(t[m - 1]) then 1 else 0)
  }

  /** Blocks held by the allocations that start among the first `m` blocks. */
  function LiveBlocks(live: Live, m: nat): (c: int) {
    if m == 0 then 0 else LiveBlocks(live, m - 1) + (if m - 1 in live then live[m - 1] else 0)
  }

  lemma {:induction false} CountsAcross(t: Table, live: Live, s: nat, m: nat)
    requires Represents(t, live) && s in live && s < m <= s + live[s]
    ensures FreeBlocks(t, m) == FreeBlocks(t, s)
    ensures LiveBlocks(live, m) == LiveBlocks(live, s) + live[s]
  {
    assert t[m - 1] == Code(m - 1 == s, m - 1 == s + live[s] - 1);
    if m - 1 > s {
      CountsAcross(t, live, s, m - 1);
    }
  }

  lemma {:induction false} ConservedTo(t: Table, live: Live, m: nat)
    requires Represents(t, live) && m <= |t|
    requires forall s | s in live && s < m :: s + live[s] <= m
    ensures FreeBlocks(t, m) + LiveBlocks(live, m) == m
  {
    if m > 0 {
      if t[m - 1] == FREE {
        forall s | s in live && s < m
          ensures s + live[s] < m
        {
          assert forall k | s <= k < s + live[s] :: t[k] != FREE;
        }
        ConservedTo(t, live, m - 1);
      } else {
        var s :| s in live && s <= m - 1 < s + live[s];
        ConservedTo(t, live, s);
        CountsAcross(t, live, s, m);
      }
    }
  }

  /** Free blocks and blocks in use add up to the table. */
  lemma Conservation(t: Table, live: Live)
    requires Represents(t, live)
    ensures FreeBlocks(t, |t|) + LiveBlocks(live, |t|) == |t|
  {
    ConservedTo(t, live, |t|);
  }

  lemma {:induction false} LiveBlocksWithout(live: Live, s: int, m: nat)
    requires s in live && 0 <= s
    ensures LiveBlocks(live - {s}, m) == LiveBlocks(live, m) - (if s < m then live[s] else 0)
  {
    if m > 0 {
      LiveBlocksWithout(live, s, m - 1);
    }
  }

  lemma {:induction false} LiveBlocksWith(live: Live, s: int, n: int, m: nat)
    requires s !in live && 0 <= s
    ensures LiveBlocks(live[s := n], m) == LiveBlocks(live, m) + (if s < m then n else 0)
  {
    if m > 0 {
      LiveBlocksWith(live, s, n, m - 1);
    }
  }

  /** An allocation takes as many free blocks as it has. */
  lemma BlocksTaken(t: Table, live: Live, u: Table, s: int, n: int)
    requires Recorded(t, live) && Recorded(u, live[s := n]) && |u| == |t| && s !in live
    ensures FreeBlocks(u, |u|) == FreeBlocks(t, |t|) - n
  {
    assert Unfolded(OfTable, 0);
    Conservation(t, live);
    Conservation(u, live[s := n]);
    assert s in live[s := n];
    LiveBlocksWith(live, s, n, |t|);
  }

  /** Freeing it gives them back. */
  lemma BlocksGiven(t: Table, live: Live, u: Table, s: int)
    requires Recorded(t, live) && Recorded(u, live - {s}) && |u| == |t| && s in live
    ensures FreeBlocks(u, |u|) == FreeBlocks(t, |t|) + live[s]
  {
    assert Unfolded(OfTable, 0);
    Conservation(t, live);
    Conservation(u, live - {s});
    LiveBlocksWithout(live, s, |t|);
  }

  // ---------------------------------------------------------------- how much room is left

  /** While a run of `room` blocks is free, a smaller request is met and uses up no more of the run
      than it asks for: an earlier fit can at most bite off the front. */
  lemma RoomAfterTake(t: Table, n: nat, room: nat)
    requires 0 < n <= room && HasRun(t, room)
    ensures Fits(t, n) && StartBlock(t, n) >= 0 && IsRun(t, StartBlock(t, n), n)
    ensures HasRun(Take(t, StartBlock(t, n), n), room - n)
  {
    var r :| IsRun(t, r, room);
    assert IsRun(t, r, n);
    var s := FindRun(t, n, 0);
    assert s <= r;
    var from := if s + n <= r then r else s + n;
    assert IsRun(Take(t, s, n), from, room - n);
  }

  /** A free run of `t0` is still a free run in `t`, but for at most `k` blocks of it. Folded. */
  ghost predicate Shrinks(t0: Table, t: Table, k: nat) {
    forall j: nat | Unfolded(OfRoom, j) :: forall room: nat | k <= room && HasRun(t0, room) :: HasRun(t, room - k)
  }

  lemma ShrinksTo(t0: Table, t: Table, k: nat, room: nat)
    requires Shrinks(t0, t, k) && HasRun(t0, room) && k <= room
    ensures HasRun(t, room - k)
  {
    assert Unfolded(OfRoom, 0);
  }

  lemma ShrinksTwice(t0: Table, t1: Table, t2: Table, j: nat, k: nat, all: nat)
    requires Shrinks(t0, t1, j) && Shrinks(t1, t2, k) && all == j + k
    ensures Shrinks(t0, t2, all)
  {
    assert Unfolded(OfRoom, 0);
    forall room: nat | all <= room && HasRun(t0, room)
      ensures HasRun(t2, room - all)
    {
      assert HasRun(t1, room - j);
      assert HasRun(t2, room - j - k);
    }
  }

  lemma ShorterRun(t: Table, n: nat, m: nat)
    requires HasRun(t, n) && m <= n
    ensures HasRun(t, m)
  {
    var r :| IsRun(t, r, n);
    assert IsRun(t, r, m);
  }

  lemma ShrinksMore(t0: Table, t: Table, k: nat, m: nat)
    requires Shrinks(t0, t, k) && k <= m
    ensures Shrinks(t0, t, m)
  {
    assert Unfolded(OfRoom, 0);
    forall room: nat | m <= room && HasRun(t0, room)
      ensures HasRun(t, room - m)
    {
      var r :| IsRun(t, r, room - k);
      assert IsRun(t, r, room - m);
    }
  }

  lemma NoShrink(t: Table, k: nat)
    requires k == 0
    ensures Shrinks(t, t, k)
  {
  }

  lemma ShrinksByTake(t: Table, n: nat)
    requires n > 0
    ensures StartBlock(t, n) >= 0 ==> Shrinks(t, Take(t, StartBlock(t, n), n), n)
  {
    forall room: nat | n <= room && HasRun(t, room)
      ensures HasRun(Take(t, StartBlock(t, n), n), room - n)
    {
      RoomAfterTake(t, n, room);
    }
  }

  lemma ShrinksByClear(t: Table, s: nat)
    ensures Shrinks(t, Clear(t, s), 0)
  {
    forall room: nat | HasRun(t, room)
      ensures HasRun(Clear(t, s), room)
    {
      RoomAfterClear(t, s, room);
    }
  }

  lemma RoomAfterClear(t: Table, s: nat, room: nat)
    requires HasRun(t, room)
    ensures HasRun(Clear(t, s), room)
  {
    var r :| IsRun(t, r, room);
    assert IsRun(Clear(t, s), r, room);
  }

  lemma {:induction false} RoomIsFree(t: Table, room: nat, m: nat)
    requires m <= |t| && room <= m && IsRun(t, m - room, room)
    ensures FreeBlocks(t, m) >= room
  {
    if room > 0 {
      RoomIsFree(t, room - 1, m - 1);
    }
  }

  lemma {:induction false} FreeGrows(t: Table, m: nat, k: nat)
    requires m <= k <= |t|
    ensures FreeBlocks(t, m) <= FreeBlocks(t, k)
  {
    if m < k {
      FreeGrows(t, m, k - 1);
    }
  }

  /** A run of free blocks is counted among the free blocks. */
  lemma RoomCounts(t: Table, room: nat)
    requires HasRun(t, room)
    ensures FreeBlocks(t, |t|) >= room
  {
    var r :| IsRun(t, r, room);
    RoomIsFree(t, room, r + room);
    FreeGrows(t, r + room, |t|);
  }

  lemma {:induction false} FreeAfterOne(t: Table, s: nat, m: nat)
    requires m <= |t| && IsRun(t, s, 1)
    ensures FreeBlocks(Take(t, s, 1), m) == FreeBlocks(t, m) - (if s < m then 1 else 0)
  {
    if m > 0 {
      assert IsFree(t[s]) && !IsFree(Code(true, true));
      FreeAfterOne(t, s, m - 1);
    }
  }

  lemma {:induction false} SomeFree(t: Table, m: nat) returns (s: nat)
    requires m <= |t| && FreeBlocks(t, m) > 0
    ensures IsRun(t, s, 1)
  {
    s := if IsFree(t[m - 1]) then m - 1 else 0;
    if !IsFree(t[m - 1]) {
      s := SomeFree(t, m - 1);
    }
  }

  /** With a free block left, a request for one block succeeds and costs exactly one. */
  lemma OneBlock(t: Table)
    requires FreeBlocks(t, |t|) > 0
    ensures Fits(t, 1) && StartBlock(t, 1) >= 0
    ensures FreeBlocks(Take(t, StartBlock(t, 1), 1), |t|) == FreeBlocks(t, |t|) - 1
  {
    var s := SomeFree(t, |t|);
    RoomAfterTake(t, 1, 1);
    FreeAfterOne(t, StartBlock(t, 1), |t|);
  }

  // ---------------------------------------------------------------- all runs

  datatype Op = Malloc(blocks: nat) | Free(block: int)

  function Step(t: Table, op: Op): (u: Table)
    ensures |u| == |t|
  {
    match op
    case Malloc(n) => if StartBlock(t, n) < 0 then t else Take(t, StartBlock(t, n), n)
    case Free(b) => if b < 0 then t else Clear(t, b)
  }

  /** The allocations after one call, kept without looking at the table's flags. */
  function LiveStep(t: Table, live: Live, op: Op): Live {
    match op
    case Malloc(n) => if n == 0 || StartBlock(t, n) < 0 then live else live[StartBlock(t, n) := n]
    case Free(b) => live - {b}
  }

  /** A call its caller may make: a request that fits, or freeing something live. */
  ghost predicate Allowed(t: Table, live: Live, op: Op) {
    match op
    case Malloc(n) => Fits(t, n)
    case Free(b) => b in live
  }

  ghost predicate AllowedRun(t: Table, live: Live, ops: seq<Op>)
    decreases |ops|
  {
    ops == [] || (Allowed(t, live, ops[0]) && AllowedRun(Step(t, ops[0]), LiveStep(t, live, ops[0]), ops[1..]))
  }

  function TableAfter(t: Table, ops: seq<Op>): (u: Table)
    ensures |u| == |t|
    decreases |ops|
  {
    if ops == [] then t else TableAfter(Step(t, ops[0]), ops[1..])
  }

  function LiveAfter(t: Table, live: Live, ops: seq<Op>): Live
    decreases |ops|
  {
    if ops == [] then live else LiveAfter(Step(t, ops[0]), LiveStep(t, live, ops[0]), ops[1..])
  }

  lemma StepRepresents(t: Table, live: Live, op: Op)
    requires Represents(t, live) && Allowed(t, live, op)
    ensures Represents(Step(t, op), LiveStep(t, live, op))
  {
    match op
    case Malloc(n) =>
      SearchIsSoundIff(t, n);
      if n > 0 && StartBlock(t, n) >= 0 {
        TakeRepresents(t, live, StartBlock(t, n), n);
      } else {
        assert Step(t, op) == t;
      }
    case Free(b) =>
      ClearRepresents(t, live, b);
  }

  lemma {:induction false} RunRepresents(t: Table, live: Live, ops: seq<Op>)
    requires Represents(t, live) && AllowedRun(t, live, ops)
    ensures Represents(TableAfter(t, ops), LiveAfter(t, live, ops))
    decreases |ops|
  {
    if ops != [] {
      StepRepresents(t, live, ops[0]);
      RunRepresents(Step(t, ops[0]), LiveStep(t, live, ops[0]), ops[1..]);
    }
  }

  /** After any run of allowed calls the table is well formed, decodes to exactly the live
      allocations, and conserves blocks. */
  lemma EveryRunIsSafe(t: Table, live: Live, ops: seq<Op>)
    requires Represents(t, live) && AllowedRun(t, live, ops)
    ensures var u, after := TableAfter(t, ops), LiveAfter(t, live, ops);
            && WellFormed(u) && Decode(u) == after
            && |u| == |t| && FreeBlocks(u, |u|) + LiveBlocks(after, |u|) == |t|
  {
    var u, after := TableAfter(t, ops), LiveAfter(t, live, ops);
    RunRepresents(t, live, ops);
    RepresentsIffWellFormed(u, after);
    Conservation(u, after);
  }

  /** An allocation outlives any calls that do not free it, unmoved and with its length. */
  lemma {:induction false} AllocationSurvives(t: Table, live: Live, ops: seq<Op>, s: int)
    requires Represents(t, live) && AllowedRun(t, live, ops)
    requires s in live && Free(s) !in ops
    ensures s in LiveAfter(t, live, ops) && LiveAfter(t, live, ops)[s] == live[s]
    decreases |ops|
  {
    if ops != [] {
      StepRepresents(t, live, ops[0]);
      if ops[0].Malloc? && ops[0].blocks > 0 && StartBlock(t, ops[0].blocks) >= 0 {
        SearchIsSoundIff(t, ops[0].blocks);
        TakeRepresents(t, live, StartBlock(t, ops[0].blocks), ops[0].blocks);
      }
      AllocationSurvives(Step(t, ops[0]), LiveStep(t, live, ops[0]), ops[1..], s);
    }
  }

  lemma MallocIsLive(t: Table, live: Live, n: nat)
    requires Represents(t, live) && n > 0 && Fits(t, n) && StartBlock(t, n) >= 0
    ensures var s, live1 := StartBlock(t, n), LiveStep(t, live, Malloc(n));
            Represents(Step(t, Malloc(n)), live1) && s in live1 && live1[s] == n
  {
    StepRepresents(t, live, Malloc(n));
  }

  lemma FreedAfter(u: Table, after: Live, s: int, n: nat)
    requires Represents(u, after) && s in after && after[s] == n
    ensures 0 <= s && s + n <= |u|
    ensures forall k | s <= k < s + n :: u[k] == Code(k == s, k == s + n - 1)
    ensures Clear(u, s) == u[..s] + seq(n, _ => FREE) + u[s + n..]
  {
    ClearedBlocks(u, after, s);
  }

  /** Malloc, anything else allowed, then free: the free clears the blocks of that malloc, no others. */
  lemma FreeUndoesMalloc(t: Table, live: Live, n: nat, ops: seq<Op>)
    requires Represents(t, live) && n > 0 && Fits(t, n) && StartBlock(t, n) >= 0
    requires AllowedRun(Step(t, Malloc(n)), LiveStep(t, live, Malloc(n)), ops)
    requires Free(StartBlock(t, n)) !in ops
    ensures var s, u := StartBlock(t, n), TableAfter(Step(t, Malloc(n)), ops);
            && s + n <= |u|
            && (forall k | s <= k < s + n :: u[k] == Code(k == s, k == s + n - 1))
            && Clear(u, s) == u[..s] + seq(n, _ => FREE) + u[s + n..]
  {
    var s, t1, live1 := StartBlock(t, n), Step(t, Malloc(n)), LiveStep(t, live, Malloc(n));
    MallocIsLive(t, live, n);
    AllocationSurvives(t1, live1, ops, s);
    RunRepresents(t1, live1, ops);
    FreedAfter(TableAfter(t1, ops), LiveAfter(t1, live1, ops), s, n);
  }
}
