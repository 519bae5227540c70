/** Reads that start anywhere in a cluster: exactly when they deliver the bytes asked for. */
module Offsets {
  import opened Words
  import opened Division
  import opened Streamer
  import opened Pieces
  import opened Fat16

  /** What a read of `total` bytes from `r` bytes into the `k`-th cluster delivers. */
  ghost function Delivers(v: Volume, around: Around, cluster: int, k: nat, r: nat, total: nat): Option<seq<byte>>
    requires v.Valid()
  {
    ReadAt(v.Reads(around, cluster), v.clusterBytes, Times(k, v.clusterBytes) + r, total)
  }

  /** A medium with the geometry, and enough clusters of a chain on it that the walk gets to. */
  ghost predicate Suits(v: Volume, sectors: byte, cluster: int, cs: seq<seq<byte>>, k: nat, r: nat, total: nat) {
    && Contents(v, cluster, cs) && v.sectorsPerCluster == sectors && v.clusterBytes == sectors * SECTOR_SIZE
    && |v.disk| % SECTOR_SIZE == 0 && (forall j: nat | j < |cs| :: !v.Stops(cluster, j))
    && k < |cs| && Times(k, v.clusterBytes) + r + total <= Times(|cs|, v.clusterBytes)
  }

  ghost predicate Right(v: Volume, around: Around, cluster: int, cs: seq<seq<byte>>, k: nat, r: nat, total: nat) {
    && v.Valid()
    && var from := Times(k, v.clusterBytes) + r;
       from + total <= |Concat(cs)| && Delivers(v, around, cluster, k, r, total) == Some(Concat(cs)[from..from + total])
  }

  /** On every medium with so many sectors per cluster, and whatever lies around the sector buffer, every
      such read delivers the slice of the chain's bytes that was asked for. */
  ghost predicate AlwaysRight(sectors: byte, k: nat, r: nat, total: nat) {
    forall v: Volume, around: Around, cluster: int, cs: seq<seq<byte>> | Suits(v, sectors, cluster, cs, k, r, total) ::
      Right(v, around, cluster, cs, k, r, total)
  }

  /** The first piece of a read. */
  lemma StartsWith(v: Volume, around: Around, cluster: int, k: nat, r: nat, total: nat)
    requires v.Valid() && r < v.clusterBytes
    ensures var n := Min(total, v.clusterBytes); var first := v.Fetched(around, cluster, k, r, n);
      && (total == n ==> Delivers(v, around, cluster, k, r, total) == first)
      && (Delivers(v, around, cluster, k, r, total).Some? ==>
            first.Some? && first.value <= Delivers(v, around, cluster, k, r, total).value)
  {
    ReadStarts(v.Reads(around, cluster), v.clusterBytes, k, r, total, Times(k, v.clusterBytes) + r,
               v.Fetched(around, cluster, k, r, Min(total, v.clusterBytes)));
  }

  // ---------------------------------------------------------------- reads that are right

  lemma BlockOfConcat(cs: seq<seq<byte>>, b: nat, k: nat, r: nat, n: nat)
    requires AllOf(cs, b) && k < |cs| && r + n <= b
    ensures var from := Times(k, b) + r; from + n <= |Concat(cs)| && Concat(cs)[from..from + n] == cs[k][r..r + n]
  {
    ConcatDrops(cs, b, k);
    ConcatPrefix(cs[k..], b);
    var rest := Concat(cs[k..]);
    assert rest == cs[k] + Concat(cs[k..][1..]);
    SliceOfDrop(Concat(cs), Times(k, b), r, r + n);
    assert rest[r..r + n] == cs[k][r..r + n];
  }

  lemma InPlaceInCluster(size: nat, at: nat, b: nat, r: nat, total: nat)
    requires at % SECTOR_SIZE == 0 && size % SECTOR_SIZE == 0 && at + b <= size
    requires r < b && r + total <= b && InPlace(r, total)
    ensures InPlace(at + r, total) && OnDisk(size, at + r, total)
  {
    var q, last := at / SECTOR_SIZE, if total == 0 then at + r else at + r + total - 1;
    SameOffset(q, r);
    SectorFits(last, size / SECTOR_SIZE);
  }

  lemma SameOffset(q: nat, r: nat)
    ensures (q * SECTOR_SIZE + r) % SECTOR_SIZE == r % SECTOR_SIZE
  {
  }

  lemma SectorFits(x: nat, sectors: nat)
    requires x < sectors * SECTOR_SIZE
    ensures (x / SECTOR_SIZE + 1) * SECTOR_SIZE <= sectors * SECTOR_SIZE
  {
  }

  lemma InsideOnDisk(v: Volume, c: int, r: nat, total: nat)
    requires HoldsCluster(v, c) && |v.disk| % SECTOR_SIZE == 0
    requires r < v.clusterBytes && r + total <= v.clusterBytes && InPlace(r, total)
    ensures v.Position(c, r) == v.Position(c, 0) + r
    ensures InPlace(v.Position(c, r), total) && OnDisk(|v.disk|, v.Position(c, r), total)
  {
    PositionIsSectorAligned(v, c, 0);
    PositionInside(v, c, r);
    InPlaceInCluster(|v.disk|, v.Position(c, 0), v.clusterBytes, r, total);
  }

  lemma FetchedInPlace(v: Volume, around: Around, cluster: int, k: nat, r: nat, n: nat, pos: int)
    requires !v.Stops(cluster, k) && v.Along(cluster, k) >= 0 && pos == v.Position(v.Along(cluster, k), r)
    requires InPlace(pos, n) && OnDisk(|v.disk|, pos, n)
    ensures 0 <= pos && pos + n <= |v.disk| && v.Fetched(around, cluster, k, r, n) == Some(v.disk[pos..pos + n])
  {
    DeliveredInPlace(v.disk, around, pos, n);
  }

  /** A read in place inside a cluster that is on the disk. */
  lemma FetchedInside(v: Volume, around: Around, cluster: int, k: nat, r: nat, total: nat)
    requires v.Valid() && |v.disk| % SECTOR_SIZE == 0 && !v.Stops(cluster, k)
    requires v.Along(cluster, k) >= 0 && HoldsCluster(v, v.Along(cluster, k))
    requires r < v.clusterBytes && r + total <= v.clusterBytes && InPlace(r, total)
    ensures v.Fetched(around, cluster, k, r, total) == Some(ClusterData(v, v.Along(cluster, k))[r..r + total])
  {
    var at, pos := v.Position(v.Along(cluster, k), 0), v.Position(v.Along(cluster, k), r);
    InsideOnDisk(v, v.Along(cluster, k), r, total);
    FetchedInPlace(v, around, cluster, k, r, total, pos);
    SliceOfSlice(v.disk, at, at + v.clusterBytes, r, r + total);
  }

  lemma InsideIsRight(v: Volume, around: Around, sectors: byte, cluster: int, cs: seq<seq<byte>>, k: nat, r: nat,
                      total: nat)
    requires Suits(v, sectors, cluster, cs, k, r, total)
    requires r < v.clusterBytes && r + total <= v.clusterBytes && InPlace(r, total)
    ensures Right(v, around, cluster, cs, k, r, total)
  {
    StartsWith(v, around, cluster, k, r, total);
    FetchedInside(v, around, cluster, k, r, total);
    SliceInside(v, cluster, cs, k, r, total);
  }

  lemma SliceInside(v: Volume, cluster: int, cs: seq<seq<byte>>, k: nat, r: nat, total: nat)
    requires Contents(v, cluster, cs) && k < |cs| && r + total <= v.clusterBytes
    ensures var from := Times(k, v.clusterBytes) + r;
      && v.Along(cluster, k) >= 0 && HoldsCluster(v, v.Along(cluster, k)) && from + total <= |Concat(cs)|
      && Concat(cs)[from..from + total] == ClusterData(v, v.Along(cluster, k))[r..r + total]
  {
    BlockOfConcat(cs, v.clusterBytes, k, r, total);
  }

  lemma AlignedIsRight(v: Volume, around: Around, sectors: byte, cluster: int, cs: seq<seq<byte>>, k: nat, total: nat)
    requires Suits(v, sectors, cluster, cs, k, 0, total)
    ensures Right(v, around, cluster, cs, k, 0, total)
  {
    var p, b := v.Chain(cluster), v.clusterBytes;
    ReadAtPiece(v.Reads(around, cluster), b, k, 0, total, Times(k, b) + 0);
    ReadIsChain(v, around, cluster, k, total);
    forall j: nat, n: nat | j < |cs| && n <= b
      ensures p(j, n).Some?
    {
      PieceIsReadableIff(v, cluster, j, n, cs);
    }
    GatherSucceeds(p, b, k, total, |cs|);
    AlignedReadIsSlice(v, cluster, k, total, cs);
  }

  // ---------------------------------------------------------------- reads that are not

  const LINK := 2048    // where the entry of cluster 2 is looked up, with one reserved sector
  const DATA := 4096    // where cluster 2 is, if the data starts at sector 8

  /** A medium whose cluster 2 is its own successor and holds zeros, with a 7 right behind it. */
  function Looped(sectors: byte): (v: Volume)
    requires sectors > 0
    ensures v.Valid() && v.sectorsPerCluster == sectors && v.clusterBytes == sectors * SECTOR_SIZE
    ensures |v.disk| == DATA + 2 * v.clusterBytes
  {
    var b := sectors * SECTOR_SIZE;
    Volume(seq(DATA + 2 * b, i => if i == LINK then 2 else if i == DATA + b then 7 else 0), sectors, b, 1, 8)
  }

  lemma LoopedAt(sectors: byte, r: nat)
    requires sectors > 0 && r <= sectors * SECTOR_SIZE
    ensures Looped(sectors).Position(2, r) == DATA + r && Looped(sectors).Link(2) == 2
  {
    assert Times(1 * SECTOR_SIZE, 4) == LINK by {
      TimesIsProduct(1 * SECTOR_SIZE, 4);
    }
    assert Looped(sectors).ClusterToSector(2) == 8;
  }

  lemma {:induction false} LoopedAlong(sectors: byte, k: nat)
    requires sectors > 0
    ensures Looped(sectors).Along(2, k) == 2 && !Looped(sectors).Stops(2, k)
  {
    if k > 0 {
      LoopedAt(sectors, 0);
      LoopedAlong(sectors, k - 1);
    }
  }

  /** Every read of a piece is one from `r` bytes into cluster 2. */
  lemma LoopedFetched(sectors: byte, around: Around, k: nat, r: nat, n: nat)
    requires sectors > 0 && r < sectors * SECTOR_SIZE
    ensures Looped(sectors).Fetched(around, 2, k, r, n) == Delivered(Looped(sectors).disk, around, DATA + r, n)
  {
    LoopedAt(sectors, r);
    LoopedAlong(sectors, k);
  }

  function Same(x: seq<byte>, n: nat): (s: seq<seq<byte>>)
    ensures |s| == n && forall i | 0 <= i < n :: s[i] == x
  {
    seq(n, _ => x)
  }

  lemma LoopedSuits(sectors: byte, n: nat, k: nat, r: nat, total: nat)
    requires sectors > 0 && k < n && Times(k, sectors * SECTOR_SIZE) + r + total <= Times(n, sectors * SECTOR_SIZE)
    ensures Suits(Looped(sectors), sectors, 2, Same(Zeros(sectors * SECTOR_SIZE), n), k, r, total)
  {
    var v, b := Looped(sectors), sectors * SECTOR_SIZE;
    LoopedAt(sectors, 0);
    assert v.disk[DATA..DATA + b] == Zeros(b);
    forall j: nat
      ensures v.Along(2, j) == 2 && !v.Stops(2, j)
    {
      LoopedAlong(sectors, j);
    }
  }

  lemma {:induction false} AllZeros(b: nat, n: nat, i: nat)
    requires i < |Concat(Same(Zeros(b), n))|
    ensures Concat(Same(Zeros(b), n))[i] == 0
  {
    var cs := Same(Zeros(b), n);
    assert n > 0 && cs[1..] == Same(Zeros(b), n - 1);
    if i >= b {
      AllZeros(b, n - 1, i - b);
    }
  }

  /** Something that is not 0 is delivered where the chain holds zeros. */
  lemma WrongByte(sectors: byte, around: Around, k: nat, r: nat, total: nat, n: nat, i: nat)
    requires sectors > 0 && r < sectors * SECTOR_SIZE && i < Min(total, sectors * SECTOR_SIZE)
    requires var got := Delivered(Looped(sectors).disk, around, DATA + r, Min(total, sectors * SECTOR_SIZE));
      got.Some? ==> got.value[i] != 0
    ensures !Right(Looped(sectors), around, 2, Same(Zeros(sectors * SECTOR_SIZE), n), k, r, total)
  {
    var v, b, cs := Looped(sectors), sectors * SECTOR_SIZE, Same(Zeros(sectors * SECTOR_SIZE), n);
    var from := Times(k, b) + r;
    StartsWith(v, around, 2, k, r, total);
    LoopedFetched(sectors, around, k, r, Min(total, b));
    if from + total <= |Concat(cs)| {
      AllZeros(b, n, from + i);
      assert Concat(cs)[from..from + total][i] == 0;
    }
  }

  /** Across the end of a sector, what lies behind the sector buffer is delivered. */
  lemma CrossingIsWrong(sectors: byte, k: nat, r: nat, total: nat, n: nat) returns (around: Around)
    requires sectors > 0 && r < sectors * SECTOR_SIZE && !InPlace(r, total)
    ensures !Right(Looped(sectors), around, 2, Same(Zeros(sectors * SECTOR_SIZE), n), k, r, total)
  {
    var disk, m, first := Looped(sectors).disk, Min(total, sectors * SECTOR_SIZE), SECTOR_SIZE - r % SECTOR_SIZE;
    around := Around(Zeros(SECTOR_SIZE), seq(SECTOR_SIZE, _ => 9));
    assert (DATA + r) % SECTOR_SIZE == r % SECTOR_SIZE && first < m;
    if Delivered(disk, around, DATA + r, m).Some? {
      RunsPast(disk, around, DATA + r, m);
    }
    WrongByte(sectors, around, k, r, total, n, first);
  }

  /** Across the end of a cluster, the 7 behind it is delivered. */
  lemma LeavingIsWrong(sectors: byte, around: Around, k: nat, r: nat, total: nat, n: nat)
    requires sectors > 0 && 0 < r < sectors * SECTOR_SIZE < r + total && r % SECTOR_SIZE == 0
    ensures !Right(Looped(sectors), around, 2, Same(Zeros(sectors * SECTOR_SIZE), n), k, r, total)
  {
    var disk, b, m := Looped(sectors).disk, sectors * SECTOR_SIZE, Min(total, sectors * SECTOR_SIZE);
    DeliveredInPlace(disk, around, DATA + r, m);
    if Delivered(disk, around, DATA + r, m).Some? {
      assert disk[DATA + r..DATA + r + m][b - r] == disk[DATA + b];
    }
    WrongByte(sectors, around, k, r, total, n, b - r);
  }

  lemma LongEnough(k: nat, r: nat, total: nat, b: nat)
    requires r < b && total > 0
    ensures Times(k, b) + r + total <= Times(k + 1 + total, b)
  {
    TimesSplits(k, 1 + total, b);
    TimesSplits(1, total, b);
    TimesIsProduct(total, b);
    TimesIsProduct(1, b);
    assert total * b >= total;
  }

  lemma Wrong(sectors: byte, k: nat, r: nat, total: nat)
    requires 0 < r < sectors * SECTOR_SIZE && (r + total > sectors * SECTOR_SIZE || !InPlace(r, total))
    ensures !AlwaysRight(sectors, k, r, total)
  {
    var n, b := k + 1 + total, sectors * SECTOR_SIZE;
    LongEnough(k, r, total, b);
    LoopedSuits(sectors, n, k, r, total);
    if InPlace(r, total) {
      assert r % SECTOR_SIZE == 0;
      var around := Around(Zeros(SECTOR_SIZE), Zeros(SECTOR_SIZE));
      LeavingIsWrong(sectors, around, k, r, total, n);
    } else {
      var around := CrossingIsWrong(sectors, k, r, total, n);
    }
  }

  /** A read that starts `r` bytes into a cluster delivers the right bytes, whatever the medium and the
      stack, exactly if it starts at the cluster's first byte, or ends inside the cluster and is in place
      there: sector-aligned, or inside one sector. The first piece is cut neither where the cluster nor
      where the sector ends. */
  lemma AlwaysRightIff(sectors: byte, k: nat, r: nat, total: nat)
    requires sectors > 0 && r < sectors * SECTOR_SIZE
    ensures AlwaysRight(sectors, k, r, total) <==> r == 0 || (r + total <= sectors * SECTOR_SIZE && InPlace(r, total))
  {
    if r == 0 || (r + total <= sectors * SECTOR_SIZE && InPlace(r, total)) {
      forall v: Volume, around: Around, cluster: int, cs: seq<seq<byte>> | Suits(v, sectors, cluster, cs, k, r, total)
        ensures Right(v, around, cluster, cs, k, r, total)
      {
        if r == 0 {
          AlignedIsRight(v, around, sectors, cluster, cs, k, total);
        } else {
          InsideIsRight(v, around, sectors, cluster, cs, k, r, total);
        }
      }
    } else {
      Wrong(sectors, k, r, total);
    }
  }
}
