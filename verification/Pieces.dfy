/** Reads put together from pieces, whatever the pieces come from. */
module Pieces {
  import opened Words
  import opened Division
  import opened Streamer

  /** What there is to read: for a piece's number and length its bytes, if they can be had. */
  type Source = (nat, nat) -> Option<seq<byte>>

  lemma JoinAssociates(a: Option<seq<byte>>, b: Option<seq<byte>>, c: Option<seq<byte>>)
    ensures Join(Join(a, b), c) == Join(a, Join(b, c))
  {
    if a.Some? && b.Some? && c.Some? {
      assert (a.value + b.value) + c.value == a.value + (b.value + c.value);
    }
  }

  /** `total` bytes from piece `k` on, in pieces of `b` bytes and a last one that may be shorter. */
  function Gather(p: Source, b: nat, k: nat, total: nat): Option<seq<byte>>
    requires b > 0
    decreases total
  {
    if total <= b then p(k, total) else Join(p(k, b), Gather(p, b, k + 1, total - b))
  }

  /** A read that begins with `q` whole pieces is those pieces and the rest. */
  lemma {:induction false} GatherJoins(p: Source, b: nat, k: nat, q: nat, rest: nat)
    requires b > 0 && q > 0 && rest > 0
    ensures Gather(p, b, k, Times(q, b) + rest) == Join(Gather(p, b, k, Times(q, b)), Gather(p, b, k + q, rest))
    decreases q
  {
    assert Times(q, b) == b + Times(q - 1, b);
    if q > 1 {
      TimesAtLeast(q - 1, b);
      GatherJoins(p, b, k + 1, q - 1, rest);
      JoinAssociates(p(k, b), Gather(p, b, k + 1, Times(q - 1, b)), Gather(p, b, k + q, rest));
    }
  }

  /** The pieces are prefixes of the blocks `cs`. */
  ghost predicate PrefixesOf(p: Source, b: nat, cs: seq<seq<byte>>) {
    AllOf(cs, b) && forall k: nat, n: nat | k < |cs| && n <= b && p(k, n).Some? :: p(k, n).value == cs[k][..n]
  }

  /** Then what is gathered from piece `k` on is what the blocks from the `k`-th on start with. */
  lemma {:induction false} GatherIsPrefix(p: Source, b: nat, k: nat, total: nat, cs: seq<seq<byte>>)
    requires b > 0 && PrefixesOf(p, b, cs) && k < |cs| && total <= |Concat(cs[k..])|
    requires Gather(p, b, k, total).Some?
    ensures Gather(p, b, k, total).value == Concat(cs[k..])[..total]
    decreases total
  {
    assert cs[k..][1..] == cs[k + 1..];
    ConcatPrefix(cs[k..], total);
    if total > b {
      GatherIsPrefix(p, b, k + 1, total - b, cs);
    }
  }

  /** Sources that agree are gathered alike. */
  lemma {:induction false} GatherSame(p: Source, q: Source, b: nat, k: nat, total: nat)
    requires b > 0 && forall j: nat, n: nat :: p(j, n) == q(j, n)
    ensures Gather(p, b, k, total) == Gather(q, b, k, total)
    decreases total
  {
    if total > b {
      GatherSame(p, q, b, k + 1, total - b);
    }
  }

  /** If all pieces below the `m`-th can be had, so can all that is gathered from them. */
  lemma {:induction false} GatherSucceeds(p: Source, b: nat, k: nat, total: nat, m: nat)
    requires b > 0 && k < m && Times(k, b) + total <= Times(m, b)
    requires forall j: nat, n: nat | j < m && n <= b :: p(j, n).Some?
    ensures Gather(p, b, k, total).Some?
    decreases total
  {
    if total > b {
      TimesSplits(k, 1, b);
      assert Times(1, b) == b;
      if k + 1 < m {
        GatherSucceeds(p, b, k + 1, total - b, m);
      }
    }
  }

  /** And it is a slice of all the blocks' bytes. */
  lemma GatherIsSlice(p: Source, b: nat, k: nat, total: nat, cs: seq<seq<byte>>)
    requires b > 0 && PrefixesOf(p, b, cs) && k < |cs| && Times(k, b) + total <= Times(|cs|, b)
    requires Gather(p, b, k, total).Some?
    ensures Times(k, b) + total <= |Concat(cs)|
    ensures Gather(p, b, k, total).value == Concat(cs)[Times(k, b)..Times(k, b) + total]
  {
    ConcatLength(cs, b);
    ConcatDrops(cs, b, k);
    GatherIsPrefix(p, b, k, total, cs);
    SliceOfDrop(Concat(cs), Times(k, b), 0, total);
  }

  /** If pieces can be had until something stops the walk, a read of `q` whole pieces and a bit can be had
      exactly when nothing stops the walk to the last piece. */
  lemma {:induction false} GatherSucceedsIff(p: Source, b: nat, k: nat, q: nat, total: nat, stops: nat -> bool)
    requires b > 0 && Times(q, b) < total <= Times(q + 1, b)
    requires forall j: nat, n: nat | j <= k + q && 0 < n <= b :: p(j, n).Some? <==> !stops(j)
    requires forall i: nat, j: nat | i <= j && stops(i) :: stops(j)
    ensures Gather(p, b, k, total).Some? <==> !stops(k + q)
    decreases q
  {
    assert Times(q + 1, b) == b + Times(q, b);
    if q > 0 {
      TimesAtLeast(q, b);
      assert Times(q, b) == b + Times(q - 1, b);
      GatherSucceedsIff(p, b, k + 1, q - 1, total - b, stops);
      assert stops(k) ==> stops(k + q);
    }
  }

  /** `s` holds `xs` at `at`. */
  ghost predicate Copied(s: seq<byte>, at: nat, xs: seq<byte>) {
    at + |xs| <= |s| && forall i | at <= i < at + |xs| :: s[i] == xs[i - at]
  }

  lemma CopiedSlice(s: seq<byte>, at: nat, xs: seq<byte>)
    requires Copied(s, at, xs)
    ensures s[at..at + |xs|] == xs
  {
  }

  ghost predicate SameBeside(s: seq<byte>, t: seq<byte>, at: nat, n: nat) {
    |s| == |t| && forall i | 0 <= i < |s| && !(at <= i < at + n) :: t[i] == s[i]
  }

  /** A read of `n` bytes reports `good` and has left them at `at`, or they are not to be had and it
      reports -EIO. */
  ghost predicate Outcome(res: int, good: nat, bytes: Option<seq<byte>>, n: nat, s: seq<byte>, at: nat) {
    match bytes
    case None => res == -EIO
    case Some(xs) => res == good && |xs| == n && Copied(s, at, xs)
  }

  lemma OutcomeOfBoth(res: int, a: Option<seq<byte>>, b: Option<seq<byte>>, n: nat, m: nat, s: seq<byte>, t: seq<byte>,
                      at: nat)
    requires Outcome(0, 0, a, n, s, at) && Outcome(res, 0, b, m, t, at + n) && SameBeside(s, t, at + n, m)
    ensures Outcome(res, 0, Join(a, b), n + m, t, at)
  {
  }

  // ---------------------------------------------------------------- one read after the other

  lemma JoinWithNothing(x: Option<seq<byte>>)
    ensures Join(Some([]), x) == x
  {
    if x.Some? {
      assert [] + x.value == x.value;
    }
  }

  /** One more read of `m` whole pieces, behind `q` of them. */
  lemma OneMoreRead(x: Option<seq<byte>>, y: Option<seq<byte>>, p: Source, b: nat, k: nat, q: nat, m: nat, all: nat)
    requires b > 0 && q > 0 && m > 0 && all == q + m
    requires x == Gather(p, b, k, Times(q, b)) && y == Gather(p, b, k + q, Times(m, b))
    ensures Join(x, y) == Gather(p, b, k, Times(all, b))
  {
    TimesAtLeast(m, b);
    TimesSplits(q, m, b);
    GatherJoins(p, b, k, q, Times(m, b));
  }

  lemma OneRead(x: Option<seq<byte>>, p: Source, b: nat, k: nat, q: nat, m: nat, all: nat)
    requires b > 0 && q == 0 && all == m && x == Gather(p, b, k + q, Times(m, b))
    ensures Join(Some([]), x) == Gather(p, b, k, Times(all, b))
  {
    JoinWithNothing(x);
  }

  // ---------------------------------------------------------------- reads from anywhere

  /** What one read of up to a cluster delivers: `r` bytes into piece `k`, `n` bytes long. */
  type Family = (nat, nat, nat) -> Option<seq<byte>>

  /** The reads that start `r` bytes into their pieces. */
  function From(f: Family, r: nat): Source {
    (k: nat, n: nat) => f(r, k, n)
  }

  /** What a read of `total` bytes from byte `offset` on delivers: piece by piece, each from as far into it
      as the first. */
  function ReadAt(f: Family, b: nat, offset: nat, total: nat): Option<seq<byte>>
    requires b > 0
  {
    Gather(From(f, Remainder(offset, b)), b, Quotient(offset, b), total)
  }

  /** What the first `n` items of `size` bytes from byte `pos` on are, each read on its own. */
  function Items(f: Family, b: nat, pos: nat, size: nat, n: nat): Option<seq<byte>>
    requires b > 0
  {
    if n == 0 then Some([]) else Join(Items(f, b, pos, size, n - 1), ReadAt(f, b, pos + Times(n - 1, size), size))
  }

  lemma {:induction false} ItemsFail(f: Family, b: nat, pos: nat, size: nat, i: nat, n: nat)
    requires b > 0 && i <= n && Items(f, b, pos, size, i).None?
    ensures Items(f, b, pos, size, n).None?
  {
    if i < n {
      ItemsFail(f, b, pos, size, i, n - 1);
    }
  }

  /** `i` items read, then one more. */
  lemma OutcomeOfItem(res: int, f: Family, b: nat, pos: nat, size: nat, i: nat, offset: nat, s: seq<byte>, t: seq<byte>,
                      at: nat)
    requires b > 0 && offset == pos + Times(i, size)
    requires Outcome(0, 0, Items(f, b, pos, size, i), Times(i, size), s, at)
    requires Outcome(res, 0, ReadAt(f, b, offset, size), size, t, at + Times(i, size))
    requires SameBeside(s, t, at + Times(i, size), size)
    ensures Times(i + 1, size) == Times(i, size) + size
    ensures Outcome(res, 0, Items(f, b, pos, size, i + 1), Times(i + 1, size), t, at)
  {
    TimesSplits(i, 1, size);
    assert Times(1, size) == size;
    OutcomeOfBoth(res, Items(f, b, pos, size, i), ReadAt(f, b, offset, size), Times(i, size), size, s, t, at);
  }

  lemma ReadAtPiece(f: Family, b: nat, k: nat, r: nat, total: nat, offset: nat)
    requires r < b && offset == Times(k, b) + r
    ensures ReadAt(f, b, offset, total) == Gather(From(f, r), b, k, total)
  {
    QuotientOf(offset, b, k, r);
  }

  /** The first piece of a read. */
  lemma ReadStarts(f: Family, b: nat, k: nat, r: nat, total: nat, offset: nat, first: Option<seq<byte>>)
    requires r < b && offset == Times(k, b) + r && first == f(r, k, Min(total, b))
    ensures total <= b ==> ReadAt(f, b, offset, total) == first
    ensures ReadAt(f, b, offset, total).Some? ==> first.Some? && first.value <= ReadAt(f, b, offset, total).value
  {
    ReadAtPiece(f, b, k, r, total, offset);
    assert From(f, r)(k, Min(total, b)) == first;
  }

  lemma ReadAtStart(f: Family, b: nat, k: nat, total: nat, offset: nat, x: Option<seq<byte>>)
    requires b > 0 && offset == Times(k, b) && x == ReadAt(f, b, offset, total)
    ensures x == Gather(From(f, 0), b, k, total)
  {
    QuotientOf(offset, b, k, 0);
  }

  lemma ItemStart(b: nat, k: nat, m: nat, i: nat, size: nat, pos: nat)
    requires size == Times(m, b) && pos == Times(k, b)
    ensures pos + Times(i, size) == Times(k + Times(i, m), b)
  {
    TimesTwice(i, m, b);
    TimesSplits(k, Times(i, m), b);
  }

  /** Item `i` of those that are `m` pieces each. */
  lemma StartOfItem(f: Family, b: nat, k: nat, m: nat, i: nat, size: nat, pos: nat, x: Option<seq<byte>>)
    requires b > 0 && size == Times(m, b) && pos == Times(k, b) && x == ReadAt(f, b, pos + Times(i, size), size)
    ensures x == Gather(From(f, 0), b, k + Times(i, m), size)
  {
    ItemStart(b, k, m, i, size, pos);
    ReadAtStart(f, b, k + Times(i, m), size, pos + Times(i, size), x);
  }

  lemma {:induction false} ItemsGather(f: Family, b: nat, k: nat, m: nat, n: nat, size: nat, pos: nat)
    requires b > 0 && size == Times(m, b) && pos == Times(k, b) && m > 0 && n > 0
    ensures Items(f, b, pos, size, n) == Gather(From(f, 0), b, k, Times(Times(n, m), b))
  {
    var q, all := Times(n - 1, m), Times(n, m);
    var x := ReadAt(f, b, pos + Times(n - 1, size), size);
    StartOfItem(f, b, k, m, n - 1, size, pos, x);
    if n == 1 {
      OneRead(x, From(f, 0), b, k, q, m, all);
      assert Items(f, b, pos, size, 0) == Some([]);
    } else {
      ItemsGather(f, b, k, m, n - 1, size, pos);
      TimesAtLeast(n - 1, m);
      OneMoreRead(Items(f, b, pos, size, n - 1), x, From(f, 0), b, k, q, m, all);
    }
  }

  /** `n` items of `m` pieces each, from the `k`-th piece on, are one read of all their bytes. */
  lemma ItemsAreOneRead(f: Family, b: nat, k: nat, m: nat, n: nat, size: nat)
    requires b > 0 && size == Times(m, b) && m > 0 && n > 0
    ensures Items(f, b, Times(k, b), size, n) == Gather(From(f, 0), b, k, Times(n, size))
  {
    ItemsGather(f, b, k, m, n, size, Times(k, b));
    TimesTwice(n, m, b);
  }

  /** A single item is one read, from anywhere. */
  lemma ItemIsOneRead(f: Family, b: nat, pos: nat, size: nat)
    requires b > 0
    ensures Items(f, b, pos, size, 1) == ReadAt(f, b, pos, size)
  {
    assert pos + Times(0, size) == pos && Items(f, b, pos, size, 0) == Some([]);
    JoinWithNothing(ReadAt(f, b, pos, size));
  }
}
