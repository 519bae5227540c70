/** Reading FAT16 files: the cluster-chain walk, the read that re-walks it for every cluster, and
    the bytes they deliver. */
module Fat16 {
  import opened Words
  import opened Division
  import opened Streamer
  import opened Pieces

  const ENTRY_SIZE := 2
  const BAD_SECTOR := 0xFF7
  const ITEM_SIZE := 32

  type half = x: int | 0 <= x < 0x1_0000

  /** The fields of the boot sector that say where things are. */
  datatype Header = Header(sectorsPerCluster: byte, reservedSectors: half, fatCopies: byte, sectorsPerFat: half,
                           rootEntries: half)
  {
    function RootSector(): nat {
      fatCopies * sectorsPerFat + reservedSectors
    }

    /** The sector at which data clusters are taken to start: the size of the root directory in
        sectors is rounded down. */
    function EndingSector(): nat {
      RootSector() + rootEntries * ITEM_SIZE / SECTOR_SIZE
    }

    /** The start of the data area by the FAT specification: the size is rounded up. */
    function FirstDataSector(): nat {
      RootSector() + (rootEntries * ITEM_SIZE + (SECTOR_SIZE - 1)) / SECTOR_SIZE
    }

    /** The two agree exactly when the root directory fills its sectors. */
    lemma EndingSectorIsRightIff()
      ensures EndingSector() == FirstDataSector() <==> rootEntries % 16 == 0
    {
      var q, r := rootEntries / 16, rootEntries % 16;
      var size := q * SECTOR_SIZE + r * ITEM_SIZE;
      assert rootEntries * ITEM_SIZE == size && size / SECTOR_SIZE == q;
      assert (size + (SECTOR_SIZE - 1)) / SECTOR_SIZE == if r == 0 then q else q + 1;
    }
  }

  /** A mounted medium: its bytes, and what mounting recorded of its header. */
  datatype Volume = Volume(disk: seq<byte>, sectorsPerCluster: byte, clusterBytes: nat, reservedSectors: nat,
                           endingSector: nat)
  {
    predicate Valid() {
      |disk| < 0x8000_0000 && clusterBytes > 0
    }

    function ClusterToSector(cluster: int): int {
      if cluster >= 2 then endingSector + Times(cluster - 2, sectorsPerCluster)
      else endingSector - Times(2 - cluster, sectorsPerCluster)
    }

    /** The disk position of a byte of a cluster, as a C int. */
    function Position(cluster: int, offset: nat): int {
      Int32(ClusterToSector(cluster) * SECTOR_SIZE + offset)
    }

    /** Where the FAT entry of `cluster` is looked up: the table's position times, not plus, the
        entry's offset, in 32 bits. */
    function EntryPosition(cluster: int): int {
      Int32(Wrap(Times(reservedSectors * SECTOR_SIZE, Wrap(cluster * ENTRY_SIZE))))
    }

    /** What is read there: a 16-bit value, or -EIO off the disk. */
    function Link(cluster: int): (r: int)
      ensures r == -EIO || 0 <= r < 0x1_0000
    {
      var pos := EntryPosition(cluster);
      if 0 <= pos && (pos / SECTOR_SIZE + 1) * SECTOR_SIZE <= |disk| && pos + 2 <= |disk|
      then disk[pos] as int + 0x100 * disk[pos + 1] as int else -EIO
    }

    /** The cluster `k` links along the chain from `cluster`. */
    function Along(cluster: int, k: nat): (c: int)
      ensures cluster >= 0 ==> c >= 0 || c == -EIO
    {
      if k == 0 then cluster else Link(Along(cluster, k - 1))
    }

    /** The walk of `k` links meets a value that stops it. */
    ghost predicate Stops(cluster: int, k: nat) {
      exists i :: 1 <= i <= k && IsStop(Along(cluster, i))
    }

    /** The first `n` bytes of the `k`-th cluster of the chain, if the walk gets there and the disk holds
        them. */
    ghost function Piece(cluster: int, k: nat, n: nat): (s: Option<seq<byte>>)
      ensures s.Some? ==> |s.value| == n
    {
      var pos := Position(Along(cluster, k), 0);
      if Stops(cluster, k) || Along(cluster, k) < 0 || !OnDisk(|disk|, pos, n) || pos + n > |disk| then None
      else Some(disk[pos..pos + n])
    }

    /** The chain as a source of pieces. */
    ghost function Chain(cluster: int): Source {
      (k: nat, n: nat) => Piece(cluster, k, n)
    }

    /** What one read from `r` bytes into the `k`-th cluster delivers. */
    ghost function Fetched(around: Around, cluster: int, k: nat, r: nat, n: nat): (s: Option<seq<byte>>)
      ensures s.Some? ==> |s.value| == n
    {
      if Stops(cluster, k) || Along(cluster, k) < 0 then None
      else Delivered(disk, around, Position(Along(cluster, k), r), n)
    }

    ghost function Reads(around: Around, cluster: int): Family {
      (r: nat, k: nat, n: nat) => Fetched(around, cluster, k, r, n)
    }
  }

  function Mount(disk: seq<byte>, h: Header): (v: Volume)
    ensures |disk| < 0x8000_0000 && h.sectorsPerCluster > 0 ==> v.Valid()
  {
    Volume(disk, h.sectorsPerCluster, h.sectorsPerCluster * SECTOR_SIZE, h.reservedSectors, h.EndingSector())
  }

  /** The values at which the walk gives up: 12-bit markers, and 0. */
  predicate IsStop(entry: int) {
    entry == 0xFF8 || entry == 0xFFF || entry == BAD_SECTOR || entry == 0xFF0 || entry == 0xFF6 || entry == 0
  }

  // ---------------------------------------------------------------- against the FAT specification

  /** On a volume whose clusters are 2 to `last`, an entry that is not the number of one ends the chain:
      free, reserved, bad, past the last cluster, end of chain. */
  predicate EndsChain(entry: int, last: int) {
    !(2 <= entry <= last)
  }

  /** The walk of `k` links meets such an entry. */
  ghost predicate Ends(v: Volume, cluster: int, k: nat, last: int) {
    exists i :: 1 <= i <= k && EndsChain(v.Along(cluster, i), last)
  }

  /** A link to a cluster that does not have the number of one of the 12-bit markers, or an end that is 0
      or has such a number. */
  predicate TakenRight(entry: int, last: int) {
    if 2 <= entry <= last then entry !in {0xFF0, 0xFF6, 0xFF7, 0xFF8, 0xFFF}
    else entry in {0, 0xFF0, 0xFF6, 0xFF7, 0xFF8, 0xFFF}
  }

  lemma OneMoreLink(v: Volume, cluster: int, k: nat, last: int)
    requires k > 0
    ensures v.Stops(cluster, k) <==> v.Stops(cluster, k - 1) || IsStop(v.Along(cluster, k))
    ensures Ends(v, cluster, k, last) <==> Ends(v, cluster, k - 1, last) || EndsChain(v.Along(cluster, k), last)
  {
  }

  /** At every length up to `k` the walk stops exactly if the chain has ended. */
  ghost predicate StopsAtEnds(v: Volume, cluster: int, k: nat, last: int) {
    forall j: nat | j <= k :: v.Stops(cluster, j) <==> Ends(v, cluster, j, last)
  }

  /** Every entry up to the chain's end, that one included, is taken right. */
  ghost predicate AllTakenRight(v: Volume, cluster: int, k: nat, last: int) {
    forall i: nat | 1 <= i <= k && !Ends(v, cluster, i - 1, last) :: TakenRight(v.Along(cluster, i), last)
  }

  /** The two agree on every walk exactly as far as the entries on the way are taken right. So the ends
      that FAT16 writes, 0xFFF8 to 0xFFFF, are passed over, and a link to cluster 0xFF0 is refused. */
  lemma {:induction false} StopsAtEndsIff(v: Volume, cluster: int, k: nat, last: int)
    ensures StopsAtEnds(v, cluster, k, last) <==> AllTakenRight(v, cluster, k, last)
  {
    if k > 0 {
      StopsAtEndsIff(v, cluster, k - 1, last);
      OneMoreLink(v, cluster, k, last);
      var before := StopsAtEnds(v, cluster, k - 1, last);
      assert StopsAtEnds(v, cluster, k, last) <==> before && (v.Stops(cluster, k) <==> Ends(v, cluster, k, last));
      assert AllTakenRight(v, cluster, k, last) <==>
        AllTakenRight(v, cluster, k - 1, last) &&
        (Ends(v, cluster, k - 1, last) || TakenRight(v.Along(cluster, k), last));
    }
  }

  /** The product of the table's position and the entry's offset, as 32-bit words, is their sum only if
      both are 0. */
  lemma ProductIsNeverSum(reserved: bv32, cluster: bv32)
    requires reserved < 0x1_0000 && cluster < 0x1_0000
    ensures reserved * 512 * (cluster * 2) == reserved * 512 + cluster * 2 ==> reserved == 0 && cluster == 0
  {
  }

  lemma SquareOf(e: nat, f: nat)
    ensures (4 * e + f) * (4 * e + f) == 8 * (2 * (e * e) + e * f) + f * f
  {
    assert (4 * e + f) * (4 * e + f) == 16 * (e * e) + 8 * (e * f) + f * f;
  }

  /** A number from 1 to 6 and a square's remainder by 8, or by 16 if that is 4, never make a multiple of 512. */
  lemma NoMultiple(k: int, rest: nat, m: nat, t: int)
    requires 0 < m < 7 && (rest == 0 || rest == 1 || (rest == 4 && k % 2 == 0))
    ensures 8 * k + rest + m != 512 * t
  {
    assert 512 * t == 16 * (32 * t);
  }

  /** So it and a square never do. */
  lemma NoSquare(d: nat, m: nat, t: int)
    requires 0 < m < 7
    ensures d * d + m != 512 * t
  {
    var e, f := d / 4, d % 4;
    var s := e * e;
    SquareOf(e, f);
    if f == 2 {
      NoMultiple(2 * (s + e), 4, m, t);
    } else if f == 3 {
      NoMultiple(2 * s + 3 * e + 1, 1, m, t);
    } else {
      NoMultiple(2 * s + e * f, f, m, t);
    }
  }

  lemma NoCoincidence(r: nat, c: nat, x: nat, q: int)
    requires r <= 3328 && c < 0x1_0000 && x == r * c
    requires 1024 * x == 512 * r + 2 * c + ADDRESS_SPACE * q
    ensures r == 0 && c == 0
  {
    var d := 2 * x - r - 0x80_0000 * q;
    assert c == 256 * d;
    var y := r * d;
    assert x == 256 * y by {
      assert r * (256 * d) == 256 * (r * d);
    }
    var m := y - 16384 * q;
    assert r == 512 * m - d;
    assert y == 512 * (m * d) - d * d by {
      assert (512 * m - d) * d == 512 * (m * d) - d * d;
    }
    if m > 0 {
      NoSquare(d, m, m * d - 32 * q);
    }
  }

  /** With up to 3328 reserved sectors, an entry is looked up where it is only if there are none and it is
      entry 0: neither the product nor what is left of it after a wrap-around is ever the sum. */
  lemma EntryPositionIsRightIff(v: Volume, cluster: nat)
    requires v.reservedSectors <= 3328 && cluster < 0x1_0000
    ensures v.EntryPosition(cluster) == v.reservedSectors * SECTOR_SIZE + cluster * ENTRY_SIZE <==>
            v.reservedSectors == 0 && cluster == 0
  {
    var x := v.reservedSectors * cluster;
    PositionIs(v, cluster, x);
    WrapsTo(1024 * x, 512 * v.reservedSectors + 2 * cluster);
    if v.EntryPosition(cluster) == 512 * v.reservedSectors + 2 * cluster {
      NoCoincidence(v.reservedSectors, cluster, x, 1024 * x / ADDRESS_SPACE);
    }
  }

  lemma ScaledProduct(r: nat, c: nat)
    ensures (512 * r) * (2 * c) == 1024 * (r * c)
  {
  }

  lemma PositionIs(v: Volume, cluster: nat, x: nat)
    requires x == v.reservedSectors * cluster && cluster < 0x1_0000
    ensures v.EntryPosition(cluster) == Int32(Wrap(1024 * x))
  {
    var a, b: nat := v.reservedSectors * SECTOR_SIZE, cluster * ENTRY_SIZE;
    assert Wrap(b) == b;
    TimesIsProduct(a, b);
    ScaledProduct(v.reservedSectors, cluster);
    assert Times(a, b) == 1024 * x;
  }

  lemma WrapsTo(p: nat, small: nat)
    requires small <= MAX_INT
    ensures Int32(Wrap(p)) == small <==> p == small + ADDRESS_SPACE * (p / ADDRESS_SPACE)
  {
  }

  lemma WrappedMultiple(k: int)
    ensures Wrap(k * SECTOR_SIZE) % SECTOR_SIZE == 0
  {
    var q := k * SECTOR_SIZE / ADDRESS_SPACE;
    assert Wrap(k * SECTOR_SIZE) == SECTOR_SIZE * (k - 0x80_0000 * q);
  }

  lemma MultiplesOfSector(k: int)
    ensures Int32(k * SECTOR_SIZE) % SECTOR_SIZE == 0
    ensures Wrap(k * SECTOR_SIZE) % SECTOR_SIZE == 0
  {
    WrappedMultiple(k);
    var x := Wrap(k * SECTOR_SIZE);
    assert x == SECTOR_SIZE * (x / SECTOR_SIZE);
    assert x - ADDRESS_SPACE == SECTOR_SIZE * (x / SECTOR_SIZE - 0x80_0000);
  }

  lemma EntryIsSectorAligned(v: Volume, cluster: int)
    ensures v.EntryPosition(cluster) % SECTOR_SIZE == 0
  {
    var x := Wrap(cluster * ENTRY_SIZE);
    TimesIsProduct(v.reservedSectors * SECTOR_SIZE, x);
    assert v.reservedSectors * SECTOR_SIZE * x == v.reservedSectors * x * SECTOR_SIZE;
    MultiplesOfSector(v.reservedSectors * x);
    var w := Wrap(v.reservedSectors * x * SECTOR_SIZE);
    assert w == w / SECTOR_SIZE * SECTOR_SIZE;
    MultiplesOfSector(w / SECTOR_SIZE);
  }

  class Disk {
    const volume: Volume
    const fatStream: DiskStream
    const clusterStream: DiskStream

    ghost predicate Valid() {
      volume.Valid() && fatStream.disk == volume.disk && clusterStream.disk == volume.disk && fatStream != clusterStream
    }

    constructor (v: Volume, around: Around)
      ensures volume == v && (v.Valid() ==> Valid()) && fresh(fatStream) && fresh(clusterStream)
      ensures fatStream.around == clusterStream.around == around
    {
      volume := v;
      fatStream := new DiskStream(v.disk, around);
      clusterStream := new DiskStream(v.disk, around);
    }

    method GetFatEntry(cluster: int) returns (res: int)
      requires Valid()
      modifies fatStream
      ensures res == volume.Link(cluster)
    {
      var fatPosition := volume.reservedSectors * SECTOR_SIZE;
      EntryIsSectorAligned(volume, cluster);
      var position := Multiply(fatPosition, Wrap(cluster * ENTRY_SIZE));
      res := fatStream.Seek(Int32(Wrap(position)));
      if res < 0 {
        return;
      }
      var result := new byte[2];
      res := fatStream.ReadInPlace(result, 0, 2);
      if res < 0 {
        return;
      }
      res := result[0] as int + 0x100 * result[1] as int;
    }

    /** The cluster that holds byte `offset` of the chain from `starting`: as many links on as whole
        clusters fit before it, unless one of those links is a value that stops the walk. */
    method GetClusterForOffset(starting: int, offset: nat) returns (res: int)
      requires Valid() && offset <= MAX_INT
      modifies fatStream
      ensures var k := Quotient(offset, volume.clusterBytes);
              res == if volume.Stops(starting, k) then -EIO else volume.Along(starting, k)
    {
      var clusterToUse := starting;
      var clustersAhead, _ := Divide(offset, volume.clusterBytes);
      for i := 0 to clustersAhead
        invariant clusterToUse == volume.Along(starting, i)
        invariant !volume.Stops(starting, i)
      {
        var entry := GetFatEntry(clusterToUse);
        if entry == 0xFF8 || entry == 0xFFF {
          assert IsStop(volume.Along(starting, i + 1));
          return -EIO;
        }
        if entry == BAD_SECTOR {
          assert IsStop(volume.Along(starting, i + 1));
          return -EIO;
        }
        if entry == 0xFF0 || entry == 0xFF6 {
          assert IsStop(volume.Along(starting, i + 1));
          return -EIO;
        }
        if entry == 0 {
          assert IsStop(volume.Along(starting, i + 1));
          return -EIO;
        }
        clusterToUse := entry;
      }
      return clusterToUse;
    }

    /** `f` is what reads from the clusters of the chain deliver. */
    ghost predicate Describes(f: Family, cluster: int) {
      forall r: nat, k: nat, n: nat {:trigger volume.Fetched(clusterStream.around, cluster, k, r, n)} ::
        f(r, k, n) == volume.Fetched(clusterStream.around, cluster, k, r, n)
    }

    /** A seek and a read. */
    method Fetch(pos: int, n: nat, output: array<byte>, at: nat) returns (res: int)
      requires Valid() && at + n <= output.Length && n <= MAX_INT
      modifies clusterStream, output
      ensures Valid()
      ensures Outcome(res, 0, Delivered(volume.disk, clusterStream.around, pos, n), n, output[..], at)
      ensures SameBeside(old(output[..]), output[..], at, n)
    {
      res := clusterStream.Seek(pos);
      res := clusterStream.Read(output, at, n);
    }

    /** Up to a cluster's worth: finds the cluster by walking the chain from its start, and reads there. */
    method ReadPiece(cluster: int, offset: nat, n: nat, output: array<byte>, at: nat, ghost f: Family, ghost k: nat,
                     ghost r: nat)
      returns (res: int)
      requires Valid() && Describes(f, cluster) && cluster >= 0
      requires at + n <= output.Length && n <= volume.clusterBytes && offset + n <= MAX_INT
      requires offset == Times(k, volume.clusterBytes) + r && r < volume.clusterBytes
      modifies fatStream, clusterStream, output
      ensures Outcome(res, 0, f(r, k, n), n, output[..], at) && SameBeside(old(output[..]), output[..], at, n)
    {
      assert f(r, k, n) == volume.Fetched(clusterStream.around, cluster, k, r, n);
      QuotientOf(offset, volume.clusterBytes, k, r);
      var clusterToUse := GetClusterForOffset(cluster, offset);
      if clusterToUse < 0 {
        return clusterToUse;
      }
      var _, offsetFromCluster := Divide(offset, volume.clusterBytes);
      var startingSector := volume.ClusterToSector(clusterToUse);
      res := Fetch(Int32(startingSector * SECTOR_SIZE + offsetFromCluster), n, output, at);
    }

    /** Reads `total` bytes of the chain from `r` bytes into its `k`-th cluster, re-walking the chain for
        every cluster's worth. */
    method ReadInternalFromStream(cluster: int, offset: nat, total: nat, output: array<byte>, at: nat, ghost f: Family,
                                  ghost k: nat, ghost r: nat)
      returns (res: int)
      requires Valid() && Describes(f, cluster) && cluster >= 0 && at + total <= output.Length
      requires offset == Times(k, volume.clusterBytes) + r && r < volume.clusterBytes && offset + total <= MAX_INT
      modifies fatStream, clusterStream, output
      ensures Outcome(res, 0, Gather(From(f, r), volume.clusterBytes, k, total), total, output[..], at)
      ensures SameBeside(old(output[..]), output[..], at, total)
      decreases total
    {
      ghost var p := From(f, r);
      var totalToRead := if total > volume.clusterBytes then volume.clusterBytes else total;
      res := ReadPiece(cluster, offset, totalToRead, output, at, f, k, r);
      assert p(k, totalToRead) == f(r, k, totalToRead);
      if res != 0 {
        return;
      }
      if total > totalToRead {
        ghost var first := output[..];
        var rest := total - totalToRead;
        res := ReadInternalFromStream(cluster, offset + totalToRead, rest, output, at + totalToRead, f, k + 1, r);
        OutcomeOfBoth(res, p(k, totalToRead), Gather(p, volume.clusterBytes, k + 1, rest), totalToRead, rest,
                      first, output[..], at);
      }
    }

    /** `fat16_read_internal`, from any byte of the chain. */
    method ReadInternal(cluster: int, offset: nat, total: nat, output: array<byte>, at: nat, ghost f: Family)
      returns (res: int)
      requires Valid() && Describes(f, cluster) && cluster >= 0
      requires at + total <= output.Length && offset + total <= MAX_INT
      modifies fatStream, clusterStream, output
      ensures Outcome(res, 0, ReadAt(f, volume.clusterBytes, offset, total), total, output[..], at)
      ensures SameBeside(old(output[..]), output[..], at, total)
    {
      ghost var k, r := Quotient(offset, volume.clusterBytes), Remainder(offset, volume.clusterBytes);
      QuotientTimes(offset, volume.clusterBytes);
      res := ReadInternalFromStream(cluster, offset, total, output, at, f, k, r);
    }

    /** `nmemb` items of `size` bytes each, one after the other from byte `pos` of the chain on. The
        descriptor's position is never advanced. */
    method Read(cluster: int, pos: nat, size: nat, nmemb: nat, output: array<byte>, at: nat, ghost f: Family)
      returns (res: int)
      requires Valid() && Describes(f, cluster) && cluster >= 0
      requires at + Times(nmemb, size) <= output.Length && pos + Times(nmemb, size) <= MAX_INT
      modifies fatStream, clusterStream, output
      ensures var n := Times(nmemb, size);
        && Outcome(res, nmemb, Items(f, volume.clusterBytes, pos, size, nmemb), n, output[..], at)
        && SameBeside(old(output[..]), output[..], at, n)
    {
      var outPtr, offset := at, pos;
      ghost var b := volume.clusterBytes;
      for i := 0 to nmemb
        invariant outPtr == at + Times(i, size) && offset == pos + Times(i, size)
        invariant SameBeside(old(output[..]), output[..], at, Times(i, size))
        invariant Outcome(0, 0, Items(f, b, pos, size, i), Times(i, size), output[..], at)
      {
        OneMoreFits(i, nmemb, size);
        ghost var before := output[..];
        res := ReadInternal(cluster, offset, size, output, outPtr, f);
        OutcomeOfItem(res, f, b, pos, size, i, offset, before, output[..], at);
        if res < 0 {
          ItemsFail(f, b, pos, size, i + 1, nmemb);
          return;
        }
        outPtr, offset := outPtr + size, offset + size;
      }
      res := nmemb;
    }
  }

  lemma PositionIsSectorAligned(v: Volume, cluster: int, offset: nat)
    requires offset % SECTOR_SIZE == 0
    ensures v.Position(cluster, offset) % SECTOR_SIZE == 0
  {
    var x := offset / SECTOR_SIZE;
    assert offset == x * SECTOR_SIZE;
    MultiplesOfSector(v.ClusterToSector(cluster) + x);
  }

  // ---------------------------------------------------------------- what the bytes are

  /** The cluster is on the disk at the position computed for it. */
  predicate HoldsCluster(v: Volume, cluster: int) {
    v.Valid() && 0 <= v.Position(cluster, 0) && v.Position(cluster, 0) + v.clusterBytes <= |v.disk|
  }

  function ClusterData(v: Volume, cluster: int): (s: seq<byte>)
    requires HoldsCluster(v, cluster)
    ensures |s| == v.clusterBytes
  {
    v.disk[v.Position(cluster, 0)..v.Position(cluster, 0) + v.clusterBytes]
  }

  /** `cs` are the contents of the first clusters of a chain, all of them on the disk. */
  ghost predicate Contents(v: Volume, cluster: int, cs: seq<seq<byte>>) {
    v.Valid() && forall k: nat | k < |cs| ::
      v.Along(cluster, k) >= 0 && HoldsCluster(v, v.Along(cluster, k)) && cs[k] == ClusterData(v, v.Along(cluster, k))
  }

  lemma PositionInside(v: Volume, cluster: int, r: nat)
    requires HoldsCluster(v, cluster) && r < v.clusterBytes
    ensures v.Position(cluster, r) == v.Position(cluster, 0) + r
  {
  }

  lemma PieceIsPrefix(v: Volume, cluster: int, k: nat, n: nat, cs: seq<seq<byte>>)
    requires Contents(v, cluster, cs) && v.Piece(cluster, k, n).Some? && k < |cs| && n <= v.clusterBytes
    ensures |cs[k]| == v.clusterBytes && v.Piece(cluster, k, n).value == cs[k][..n]
  {
    var at := v.Position(v.Along(cluster, k), 0);
    SliceOfSlice(v.disk, at, at + v.clusterBytes, 0, n);
  }

  lemma ContentsGivePieces(v: Volume, cluster: int, cs: seq<seq<byte>>)
    requires Contents(v, cluster, cs)
    ensures PrefixesOf(v.Chain(cluster), v.clusterBytes, cs)
  {
    var p := v.Chain(cluster);
    forall k: nat, n: nat | k < |cs| && n <= v.clusterBytes && p(k, n).Some?
      ensures p(k, n).value == cs[k][..n]
    {
      PieceIsPrefix(v, cluster, k, n, cs);
    }
  }

  /** From the first byte of a cluster, what is delivered does not depend on the stack: it is the piece. */
  lemma FetchedIsPiece(v: Volume, around: Around, cluster: int, k: nat, n: nat)
    ensures v.Fetched(around, cluster, k, 0, n) == v.Piece(cluster, k, n)
  {
    var pos := v.Position(v.Along(cluster, k), 0);
    PositionIsSectorAligned(v, v.Along(cluster, k), 0);
    DeliveredInPlace(v.disk, around, pos, n);
  }

  /** So a read from the start of a cluster is gathered from the pieces of the chain. */
  lemma ReadIsChain(v: Volume, around: Around, cluster: int, k: nat, total: nat)
    requires v.Valid()
    ensures Gather(From(v.Reads(around, cluster), 0), v.clusterBytes, k, total)
         == Gather(v.Chain(cluster), v.clusterBytes, k, total)
  {
    var p, q := From(v.Reads(around, cluster), 0), v.Chain(cluster);
    forall j: nat, n: nat
      ensures p(j, n) == q(j, n)
    {
      FetchedIsPiece(v, around, cluster, j, n);
    }
    GatherSame(p, q, v.clusterBytes, k, total);
  }

  /** A single item from the start of the chain. */
  lemma FirstItem(v: Volume, around: Around, cluster: int, size: nat)
    requires v.Valid()
    ensures Items(v.Reads(around, cluster), v.clusterBytes, 0, size, 1) ==
            Gather(v.Chain(cluster), v.clusterBytes, 0, size)
  {
    var f := v.Reads(around, cluster);
    ItemIsOneRead(f, v.clusterBytes, 0, size);
    ReadAtStart(f, v.clusterBytes, 0, size, 0, ReadAt(f, v.clusterBytes, 0, size));
    ReadIsChain(v, around, cluster, 0, size);
  }

  /** A read that starts at a cluster boundary delivers the bytes asked for: the slice of the chain's
      concatenated clusters. */
  lemma AlignedReadIsSlice(v: Volume, cluster: int, k: nat, total: nat, cs: seq<seq<byte>>)
    requires Contents(v, cluster, cs) && k < |cs|
    requires Times(k, v.clusterBytes) + total <= Times(|cs|, v.clusterBytes)
    requires Gather(v.Chain(cluster), v.clusterBytes, k, total).Some?
    ensures var from := Times(k, v.clusterBytes);
      && from + total <= |Concat(cs)|
      && Gather(v.Chain(cluster), v.clusterBytes, k, total).value == Concat(cs)[from..from + total]
  {
    ContentsGivePieces(v, cluster, cs);
    GatherIsSlice(v.Chain(cluster), v.clusterBytes, k, total, cs);
  }

  lemma PieceIsReadableIff(v: Volume, cluster: int, k: nat, n: nat, cs: seq<seq<byte>>)
    requires Contents(v, cluster, cs) && k < |cs| && n <= v.clusterBytes && |v.disk| % SECTOR_SIZE == 0
    ensures v.Chain(cluster)(k, n).Some? <==> !v.Stops(cluster, k)
  {
    PositionIsSectorAligned(v, v.Along(cluster, k), 0);
  }

  /** An aligned read of clusters that are on the disk succeeds exactly when the walk to the last of them
      meets no value that stops it; the walk is finite whether or not the chain runs in a circle. */
  lemma AlignedReadSucceedsIff(v: Volume, cluster: int, k: nat, q: nat, total: nat, cs: seq<seq<byte>>)
    requires Contents(v, cluster, cs) && k + q < |cs| && |v.disk| % SECTOR_SIZE == 0
    requires Times(q, v.clusterBytes) < total <= Times(q + 1, v.clusterBytes)
    ensures Gather(v.Chain(cluster), v.clusterBytes, k, total).Some? <==> !v.Stops(cluster, k + q)
  {
    var p, stops := v.Chain(cluster), (j: nat) => v.Stops(cluster, j);
    forall j: nat, n: nat | j <= k + q && 0 < n <= v.clusterBytes
      ensures p(j, n).Some? <==> !stops(j)
    {
      PieceIsReadableIff(v, cluster, j, n, cs);
    }
    GatherSucceedsIff(p, v.clusterBytes, k, q, total, stops);
  }
}
