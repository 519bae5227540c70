/** The medium written field by field, as the FAT specification lays it out, and read back. */
module Layout {
  import opened Words
  import opened Division
  import opened Paths
  import opened Strings
  import opened Streamer
  import opened Pieces
  import opened Fat16
  import opened Directory
  import opened Lookup
  import opened Mounting

  type Three = s: seq<byte> | |s| == 3 witness Zeros(3)
  type Eight = s: seq<byte> | |s| == 8 witness Zeros(8)
  type Eleven = s: seq<byte> | |s| == 11 witness Zeros(11)

  /** 16 bits, the low byte first. */
  function Two(x: half): (r: seq<byte>)
    ensures |r| == 2
  {
    [x % 0x100, x / 0x100]
  }

  /** The first byte of a number is the lowest, and each next one counts 256 times as much. */
  lemma ByteOrder(x: byte)
    ensures Half([x, 0], 0) == x && Half([0, x], 0) == 256 * x && Two(x) == [x, 0] && Two(256 * x) == [0, x]
    ensures FromDigits(x, 0, 0, 0) == x && FromDigits(0, x, 0, 0) == 256 * x
    ensures FromDigits(0, 0, x, 0) == 256 * 256 * x && FromDigits(0, 0, 0, x) == 256 * 256 * 256 * x
  {
  }

  // ---------------------------------------------------------------- a directory entry

  datatype Item = Item(name: Eight, ext: Three, attribute: byte, reserved: byte, tenths: byte, created: half,
                       createdOn: half, accessed: half, high: half, modified: half, modifiedOn: half, low: half,
                       size: word)
  {
    function Bytes(): (r: seq<byte>)
      ensures |r| == 32
    {
      name + ext + [attribute, reserved, tenths] + Two(created) + Two(createdOn) + Two(accessed) + Two(high) +
      Two(modified) + Two(modifiedOn) + Two(low) + Digits(size)
    }
  }

  /** What is read of an entry is what was written: the size, both halves of the cluster, which make its number
      exactly if the upper one is 0, the attributes and the name. */
  lemma ItemReadBack(e: Item)
    ensures FileSize(e.Bytes()) == e.size
    ensures Half(e.Bytes(), 20) == e.high && Half(e.Bytes(), 26) == e.low
    ensures FirstCluster(e.Bytes()) == 0x1_0000 * e.high + e.low <==> e.high == 0
    ensures e.Bytes()[ATTRIBUTE] == e.attribute && e.Bytes()[..8] == e.name && e.Bytes()[8..11] == e.ext
  {
    DigitsRoundTrip(e.size);
    FirstClusterIsRightIff(e.Bytes());
  }

  lemma TwoOfHalf(s: seq<byte>, at: nat)
    requires at + 2 <= |s|
    ensures Two(Half(s, at)) == s[at..at + 2]
  {
  }

  lemma DigitsOfBytes(b0: byte, b1: byte, b2: byte, b3: byte)
    ensures Digits(FromDigits(b0, b1, b2, b3)) == [b0, b1, b2, b3]
  {
    var w, x, y := FromDigits(b0, b1, b2, b3), b1 + 0x100 * b2 + 0x1_0000 * b3, b2 + 0x100 * b3;
    assert w / 0x100 == x && x / 0x100 == y && w / 0x1_0000 == y && w / 0x100_0000 == b3;
  }

  /** Every 32 bytes are an entry. */
  lemma ItemIsWritten(item: seq<byte>) returns (e: Item)
    requires |item| == 32
    ensures e.Bytes() == item
  {
    e := Item(item[..8], item[8..11], item[11], item[12], item[13], Half(item, 14), Half(item, 16), Half(item, 18),
              Half(item, 20), Half(item, 22), Half(item, 24), Half(item, 26), FileSize(item));
    DigitsOfBytes(item[28], item[29], item[30], item[31]);
    TwoOfHalf(item, 14);
    TwoOfHalf(item, 16);
    TwoOfHalf(item, 18);
    TwoOfHalf(item, 20);
    TwoOfHalf(item, 22);
    TwoOfHalf(item, 24);
    TwoOfHalf(item, 26);
    InPieces(item);
  }

  lemma InPieces(s: seq<byte>)
    requires |s| == 32
    ensures s == s[..8] + s[8..11] + [s[11], s[12], s[13]] + s[14..16] + s[16..18] + s[18..20] + s[20..22] + s[22..24] +
                 s[24..26] + s[26..28] + [s[28], s[29], s[30], s[31]]
  {
  }

  // ---------------------------------------------------------------- the boot sector

  datatype BootSector = BootSector(jump: Three, oem: Eight, bytesPerSector: half, sectorsPerCluster: byte,
                                   reserved: half, copies: byte, rootEntries: half, sectors: half, media: byte,
                                   sectorsPerFat: half, sectorsPerTrack: half, heads: half, hidden: word,
                                   sectorsBig: word, drive: byte, nt: byte, signature: byte, volume: word,
                                   title: Eleven, system: Eight)
  {
    function Geometry(): (r: seq<byte>)
      ensures |r| == 24
    {
      jump + oem + Two(bytesPerSector) + [sectorsPerCluster] + Two(reserved) + [copies] + Two(rootEntries) +
      Two(sectors) + [media] + Two(sectorsPerFat)
    }

    function Bytes(): (r: seq<byte>)
      ensures |r| == 62
    {
      Geometry() + Two(sectorsPerTrack) + Two(heads) + Digits(hidden) + Digits(sectorsBig) + [drive, nt, signature] +
      Digits(volume) + title + system
    }
  }

  /** Mounting reads the fields of the boot sector that the disk begins with. */
  lemma BootReadBack(b: BootSector, disk: seq<byte>)
    requires b.Bytes() <= disk
    ensures HeaderOf(disk) == Header(b.sectorsPerCluster, b.reserved, b.copies, b.sectorsPerFat, b.rootEntries)
    ensures IsFat16(disk) <==> |disk| >= 512 && b.signature == 0x29
  {
    assert disk[..62] == b.Bytes();
    assert forall k | 0 <= k < 24 :: disk[k] == b.Geometry()[k];
  }

  // ---------------------------------------------------------------- the regions of the medium

  /** Where FAT copy `i` starts: the first behind the reserved sectors, every other behind the one before. */
  function FatStart(h: Header, i: nat): nat {
    if i == 0 then h.reservedSectors else FatStart(h, i - 1) + h.sectorsPerFat
  }

  datatype Region = Reserved | Fat(copy: nat) | RootTable | Data

  /** Sector `s` is in the region: reserved sectors first, then the copies of the FAT, the root directory in
      whole sectors, and the clusters. */
  predicate InRegion(h: Header, r: Region, s: nat) {
    match r
    case Reserved => s < h.reservedSectors
    case Fat(i) => i < h.fatCopies && FatStart(h, i) <= s < FatStart(h, i + 1)
    case RootTable => h.RootSector() <= s < h.FirstDataSector()
    case Data => h.FirstDataSector() <= s
  }

  lemma {:induction false} FatStartIs(h: Header, i: nat)
    ensures FatStart(h, i) == h.reservedSectors + Times(i, h.sectorsPerFat)
  {
    if i > 0 {
      FatStartIs(h, i - 1);
    }
  }

  /** The root directory begins where the last copy of the FAT ends. */
  lemma RootIsBehindFats(h: Header)
    ensures h.RootSector() == FatStart(h, h.fatCopies)
  {
    FatStartIs(h, h.fatCopies);
    TimesIsProduct(h.fatCopies, h.sectorsPerFat);
  }

  lemma {:induction false} FatsInOrder(h: Header, i: nat, j: nat)
    requires i <= j
    ensures h.reservedSectors <= FatStart(h, i) <= FatStart(h, j)
  {
    if i < j {
      FatsInOrder(h, i, j - 1);
    } else if i > 0 {
      FatsInOrder(h, i - 1, i - 1);
    }
  }

  /** The copy of the FAT, among the first `n`, that a sector behind the reserved ones is in. */
  lemma {:induction false} InSomeFat(h: Header, s: nat, n: nat) returns (i: nat)
    requires h.reservedSectors <= s < FatStart(h, n)
    ensures i < n && FatStart(h, i) <= s < FatStart(h, i + 1)
  {
    if s < FatStart(h, n - 1) {
      i := InSomeFat(h, s, n - 1);
    } else {
      i := n - 1;
    }
  }

  /** Every sector is in one region and in no other. */
  lemma OneRegion(h: Header, s: nat) returns (r: Region)
    ensures InRegion(h, r, s) && forall x: Region | InRegion(h, x, s) :: x == r
  {
    RootIsBehindFats(h);
    FatsInOrder(h, 0, h.fatCopies);
    if s < h.reservedSectors {
      r := Reserved;
    } else if s < h.RootSector() {
      var i := InSomeFat(h, s, h.fatCopies);
      r := Fat(i);
    } else {
      r := if s < h.FirstDataSector() then RootTable else Data;
    }
    forall x: Region | InRegion(h, x, s)
      ensures x == r
    {
      if x.Fat? {
        FatsInOrder(h, 0, x.copy);
        FatsInOrder(h, x.copy + 1, h.fatCopies);
        if r.Fat? && x.copy < r.copy {
          FatsInOrder(h, x.copy + 1, r.copy);
        } else if r.Fat? && r.copy < x.copy {
          FatsInOrder(h, r.copy + 1, x.copy);
        }
      }
    }
  }

  /** The directory that mounting reads is the one that the boot sector's fields say: behind the reserved
      sectors and all copies of the FAT, 32 bytes for every entry. */
  lemma RootIsWhereItShouldBe(b: BootSector, disk: seq<byte>)
    requires b.Bytes() <= disk && |disk| >= 512 && b.signature == 0x29
    ensures var h := HeaderOf(disk);
      && RootAt(disk) == FatStart(h, b.copies) * 512 && RootSize(disk) == b.rootEntries * 32
      && FatStart(h, b.copies) == b.reserved + b.copies * b.sectorsPerFat
      && forall at | RootAt(disk) <= at < RootAt(disk) + RootSize(disk) :: InRegion(h, RootTable, at / 512)
  {
    var h := HeaderOf(disk);
    BootReadBack(b, disk);
    RootIsBehindFats(h);
    forall at | RootAt(disk) <= at < RootAt(disk) + RootSize(disk)
      ensures InRegion(h, RootTable, at / 512)
    {
      var k := at - h.RootSector() * 512;
      assert at / 512 == h.RootSector() + k / 512 && k / 512 < (h.rootEntries * 32 + 511) / 512;
    }
  }

  // ---------------------------------------------------------------- clusters

  /** Sector `s` is one of the cluster's. */
  predicate InCluster(v: Volume, cluster: int, s: int) {
    v.ClusterToSector(cluster) <= s < v.ClusterToSector(cluster) + v.sectorsPerCluster
  }

  /** Cluster 2 begins where the data area is taken to; every other begins where the one before ends. */
  lemma NextCluster(v: Volume, cluster: int)
    ensures v.ClusterToSector(2) == v.endingSector
    ensures v.ClusterToSector(cluster + 1) == v.ClusterToSector(cluster) + v.sectorsPerCluster
  {
  }

  lemma {:induction false} ClustersInOrder(v: Volume, c: int, d: int)
    requires c <= d
    ensures v.ClusterToSector(d) == v.ClusterToSector(c) + Times(d - c, v.sectorsPerCluster)
    decreases d - c
  {
    if c < d {
      ClustersInOrder(v, c, d - 1);
      NextCluster(v, d - 1);
    }
  }

  lemma LaterCluster(v: Volume, c: int, d: int)
    requires c < d
    ensures v.ClusterToSector(c) + v.sectorsPerCluster <= v.ClusterToSector(d)
  {
    ClustersInOrder(v, c, d);
    TimesAtLeast(d - c, v.sectorsPerCluster);
  }

  /** So no sector is in two clusters. */
  lemma ClustersApart(v: Volume, c: int, d: int, s: int)
    requires c != d
    ensures !InCluster(v, c, s) || !InCluster(v, d, s)
  {
    if c < d {
      LaterCluster(v, c, d);
    } else {
      LaterCluster(v, d, c);
    }
  }

  /** They are all in the data area exactly if the root directory fills its sectors. */
  lemma ClustersAreDataIff(disk: seq<byte>, h: Header)
    requires h.sectorsPerCluster > 0
    ensures (forall c: int, s: nat | c >= 2 && InCluster(Mount(disk, h), c, s) :: InRegion(h, Data, s)) <==>
            h.rootEntries % 16 == 0
  {
    var v := Mount(disk, h);
    h.EndingSectorIsRightIff();
    NextCluster(v, 2);
    if h.rootEntries % 16 == 0 {
      forall c: int, s: nat | c >= 2 && InCluster(v, c, s)
        ensures InRegion(h, Data, s)
      {
        ClustersInOrder(v, 2, c);
      }
    } else {
      assert InCluster(v, 2, h.EndingSector()) && !InRegion(h, Data, h.EndingSector());
    }
  }

  // ---------------------------------------------------------------- a file in one piece

  /** The links of the first `n` clusters of the chain lead from each to the next one on the disk. */
  ghost predicate InARow(v: Volume, cluster: int, n: nat) {
    forall k: nat | k < n :: v.Along(cluster, k) == cluster + k && (k > 0 ==> !IsStop(cluster + k))
  }

  lemma {:induction false} TimesScaled(k: nat, s: nat)
    ensures Times(k, s * 512) == Times(k, s) * 512
  {
    if k > 0 {
      TimesScaled(k - 1, s);
    }
  }

  /** The first byte of the `k`-th cluster from one on. */
  lemma ClusterStarts(v: Volume, cluster: int, k: nat)
    requires v.clusterBytes == v.sectorsPerCluster * 512
    ensures v.ClusterToSector(cluster + k) * 512 == v.ClusterToSector(cluster) * 512 + Times(k, v.clusterBytes)
  {
    ClustersInOrder(v, cluster, cluster + k);
    TimesScaled(k, v.sectorsPerCluster);
  }

  lemma RowIsNotStopped(v: Volume, cluster: int, n: nat, k: nat)
    requires InARow(v, cluster, n) && k < n
    ensures !v.Stops(cluster, k) && v.Along(cluster, k) == cluster + k
  {
    forall i: nat | 1 <= i <= k
      ensures !IsStop(v.Along(cluster, i))
    {
    }
  }

  lemma PositionOnDisk(v: Volume, cluster: int, at: int)
    requires v.ClusterToSector(cluster) * 512 == at && 0 <= at < 0x8000_0000
    ensures v.Position(cluster, 0) == at
  {
  }

  lemma SectorOnDisk(size: nat, at: nat, m: nat, b: nat)
    requires at % 512 == 0 && b % 512 == 0 && m <= b && b > 0 && at + b <= size
    ensures OnDisk(size, at, m)
  {
    var last := if m == 0 then at else at + m - 1;
    var end := at + b;
    assert end / 512 * 512 == end && last / 512 < end / 512;
  }

  /** Where block `k` is, if the blocks lie one behind the other. */
  function Place(first: nat, k: nat, b: nat): nat {
    first + Times(k, b)
  }

  /** The walk gets to the `k`-th cluster, and that is on the disk at `at`. */
  ghost predicate AtPlace(v: Volume, cluster: int, k: nat, at: nat) {
    && !v.Stops(cluster, k) && v.Along(cluster, k) >= 0 && v.ClusterToSector(v.Along(cluster, k)) * 512 == at
    && at + v.clusterBytes <= |v.disk|
  }

  function SliceOf(disk: seq<byte>, at: int, m: nat): Option<seq<byte>> {
    if 0 <= at && at + m <= |disk| then Some(disk[at..at + m]) else None
  }

  lemma PieceAtPlace(v: Volume, cluster: int, k: nat, m: nat, at: nat)
    requires v.Valid() && m <= v.clusterBytes && v.clusterBytes % 512 == 0 && AtPlace(v, cluster, k, at)
    ensures v.Piece(cluster, k, m).Some? && v.Piece(cluster, k, m) == SliceOf(v.disk, at, m)
  {
    PositionOnDisk(v, v.Along(cluster, k), at);
    SectorOnDisk(|v.disk|, at, m, v.clusterBytes);
  }

  /** The `k`-th cluster of such a chain is `k` clusters behind the first. */
  lemma RowPlace(v: Volume, cluster: nat, n: nat, k: nat, first: nat)
    requires v.clusterBytes == v.sectorsPerCluster * 512 && InARow(v, cluster, n) && k < n
    requires first == v.ClusterToSector(cluster) * 512 && first + Times(n, v.clusterBytes) <= |v.disk|
    ensures AtPlace(v, cluster, k, Place(first, k, v.clusterBytes))
  {
    OneMoreFits(k, n, v.clusterBytes);
    ClusterStarts(v, cluster, k);
    RowIsNotStopped(v, cluster, n, k);
  }

  /** The first `n` pieces of a source lie one behind the other from `first` on. */
  ghost predicate Consecutive(p: Source, b: nat, n: nat, disk: seq<byte>, first: nat) {
    forall k: nat, m: nat | k < n && m <= b ::
      p(k, m).Some? && p(k, m) == SliceOf(disk, Place(first, k, b), m)
  }

  lemma RowIsConsecutive(v: Volume, cluster: nat, n: nat, first: nat)
    requires v.Valid() && v.clusterBytes % 512 == 0
    requires forall k: nat | k < n :: AtPlace(v, cluster, k, Place(first, k, v.clusterBytes))
    ensures Consecutive(v.Chain(cluster), v.clusterBytes, n, v.disk, first)
  {
    var p, b := v.Chain(cluster), v.clusterBytes;
    forall k: nat, m: nat | k < n && m <= b
      ensures p(k, m).Some? && p(k, m) == SliceOf(v.disk, Place(first, k, b), m)
    {
      PieceAtPlace(v, cluster, k, m, Place(first, k, b));
    }
  }

  lemma {:induction false} ConsecutiveGathered(p: Source, b: nat, n: nat, disk: seq<byte>, first: nat, k: nat,
                                               total: nat, at: nat)
    requires b > 0 && Consecutive(p, b, n, disk, first) && k < n && Times(k, b) + total <= Times(n, b)
    requires at == Place(first, k, b)
    ensures at + total <= |disk| && Gather(p, b, k, total) == SliceOf(disk, at, total)
    decreases total
  {
    if total <= b {
      assert p(k, total) == SliceOf(disk, at, total);
    } else {
      assert p(k, b) == SliceOf(disk, at, b);
      OneMoreFits(k, k + 1, b);
      MoreThanOne(k, n, b, total);
      ConsecutiveGathered(p, b, n, disk, first, k + 1, total - b, at + b);
      SlicesJoin(disk, p(k, b), Gather(p, b, k + 1, total - b), at, b, total - b);
    }
  }

  /** So a file in one piece is one slice of the disk, from the start of its first cluster on. */
  lemma FileInOnePiece(disk: seq<byte>, h: Header, cluster: nat, n: nat, size: nat)
    requires |disk| < 0x8000_0000 && h.sectorsPerCluster > 0 && cluster >= 2 && n > 0
    requires InARow(Mount(disk, h), cluster, n) && size <= Times(n, h.sectorsPerCluster * 512)
    requires Mount(disk, h).ClusterToSector(cluster) * 512 + Times(n, h.sectorsPerCluster * 512) <= |disk|
    ensures var v := Mount(disk, h); var at := v.ClusterToSector(cluster) * 512;
      && 0 <= at && at + size <= |disk|
      && Gather(v.Chain(cluster), v.clusterBytes, 0, size) == Some(disk[at..at + size])
  {
    var v := Mount(disk, h);
    ClustersInOrder(v, 2, cluster);
    RowPlaces(v, cluster, n, v.ClusterToSector(cluster) * 512);
    PlacesInOnePiece(v, cluster, n, size, v.ClusterToSector(cluster) * 512);
  }

  lemma PlacesInOnePiece(v: Volume, cluster: nat, n: nat, size: nat, at: nat)
    requires v.Valid() && v.clusterBytes % 512 == 0 && n > 0 && size <= Times(n, v.clusterBytes)
    requires forall k: nat | k < n :: AtPlace(v, cluster, k, Place(at, k, v.clusterBytes))
    ensures at + size <= |v.disk| && Gather(v.Chain(cluster), v.clusterBytes, 0, size) == SliceOf(v.disk, at, size)
  {
    RowIsConsecutive(v, cluster, n, at);
    ConsecutiveGathered(v.Chain(cluster), v.clusterBytes, n, v.disk, at, 0, size, at);
  }

  lemma RowPlaces(v: Volume, cluster: nat, n: nat, at: nat)
    requires v.clusterBytes == v.sectorsPerCluster * 512 && InARow(v, cluster, n)
    requires at == v.ClusterToSector(cluster) * 512 && at + Times(n, v.clusterBytes) <= |v.disk|
    ensures forall k: nat | k < n :: AtPlace(v, cluster, k, Place(at, k, v.clusterBytes))
  {
    forall k: nat | k < n
      ensures AtPlace(v, cluster, k, Place(at, k, v.clusterBytes))
    {
      RowPlace(v, cluster, n, k, at);
    }
  }

  lemma MoreThanOne(k: nat, n: nat, b: nat, total: nat)
    requires k < n && Times(k, b) + total <= Times(n, b) && total > b
    ensures k + 1 < n
  {
    if k + 1 == n {
      OneMoreFits(k, n, b);
    }
  }

  /** The file that loading finds for an entry in the directory on the disk: by the fields written in the entry
      and in the boot sector, if its clusters are in one piece. */
  lemma FileByItsEntry(disk: seq<byte>, named: set<nat>, e: Item, n: nat)
    requires HasRoot(disk) && VolumeOf(disk).Valid()
    requires var i := LastOf(named, Rounds(RootOf(disk).total));
      i >= 0 && (i + 1) * 32 <= |RootOf(disk).raw| && ItemOf(RootOf(disk).raw, i) == e.Bytes()
    requires e.high == 0 && e.low >= 2 && n > 0 && InARow(VolumeOf(disk), e.low, n)
    requires e.size <= Times(n, HeaderOf(disk).sectorsPerCluster * 512)
    requires var h := HeaderOf(disk);
      VolumeOf(disk).ClusterToSector(e.low) * 512 + Times(n, h.sectorsPerCluster * 512) <= |disk|
    ensures var at := VolumeOf(disk).ClusterToSector(e.low) * 512;
      0 <= at && at + e.size <= |disk| && FileOn(disk, named) == Some(disk[at..at + e.size])
  {
    SizeAndCluster(e);
    FileInOnePiece(disk, HeaderOf(disk), e.low, n, e.size);
    FileOfEntry(disk, named, e.Bytes());
  }

  lemma SizeAndCluster(e: Item)
    ensures FileSize(e.Bytes()) == e.size && (e.high == 0 ==> FirstCluster(e.Bytes()) == e.low)
  {
    ItemReadBack(e);
  }

  lemma FileOfEntry(disk: seq<byte>, named: set<nat>, item: seq<byte>)
    requires HasRoot(disk) && VolumeOf(disk).Valid() && |item| == 32
    requires var i := LastOf(named, Rounds(RootOf(disk).total));
      i >= 0 && (i + 1) * 32 <= |RootOf(disk).raw| && ItemOf(RootOf(disk).raw, i) == item
    ensures var v := VolumeOf(disk);
      FileOn(disk, named) == Gather(v.Chain(FirstCluster(item)), v.clusterBytes, 0, FileSize(item))
  {
  }

  // ---------------------------------------------------------------- an entry of the FAT

  /** The volume with `x` written as the entry of a cluster, where the entry is looked up. */
  function WithLink(v: Volume, cluster: int, x: half): Volume
    requires 0 <= v.EntryPosition(cluster) && v.EntryPosition(cluster) + 2 <= |v.disk|
  {
    v.(disk := Splice(v.disk, v.EntryPosition(cluster), Two(x)))
  }

  /** That entry is then read, for this cluster and those that are looked up in the same place, and no other
      changes. */
  lemma LinkReadBack(v: Volume, cluster: int, x: half, other: int)
    requires 0 <= v.EntryPosition(cluster) && (v.EntryPosition(cluster) / 512 + 1) * 512 <= |v.disk|
    ensures v.EntryPosition(cluster) + 2 <= |v.disk|
    ensures WithLink(v, cluster, x).Link(other) ==
            if v.EntryPosition(other) == v.EntryPosition(cluster) then x else v.Link(other)
  {
    EntryIsSectorAligned(v, cluster);
    EntryIsSectorAligned(v, other);
    assert WithLink(v, cluster, x).EntryPosition(other) == v.EntryPosition(other);
  }

  // ---------------------------------------------------------------- names

  function Spaces(n: nat): (r: seq<byte>)
    ensures |r| == n
  {
    seq(n, _ => 32)
  }

  /** The entry has this name, filled up with spaces: short enough that a blank follows each of its parts. */
  predicate Called(e: Item, base: seq<byte>, ext: seq<byte>) {
    && |base| <= 8 && |ext| <= 3 && e.name == base + Spaces(8 - |base|) && e.ext == ext + Spaces(3 - |ext|)
    && NoBlank(base) && NoBlank(ext) && (|base| == 8 ==> ext == [])
    && (|ext| == 3 ==> Blank(e.attribute))
  }

  /** Both parts, and a dot between them if there are two. */
  function Dotted(base: seq<byte>, ext: seq<byte>): seq<byte> {
    if ext == [] then base else base + [46] + ext
  }

  /** A field of the entry that is a part of the name and spaces. */
  lemma FieldInRaw(raw: seq<byte>, i: nat, item: seq<byte>, at: nat, n: nat, part: seq<byte>)
    requires (i + 1) * 32 <= |raw| && ItemOf(raw, i) == item && at + n <= 32
    requires |part| <= n && item[at..at + n] == part + Spaces(n - |part|)
    ensures var from := i * 32 + at;
      raw[from..from + |part|] == part && (|part| < n ==> raw[from + |part|] == 32)
  {
    SliceOfSlice(raw, i * 32, (i + 1) * 32, at, at + n);
    var field := raw[i * 32 + at..i * 32 + at + n];
    assert field == part + Spaces(n - |part|) && field[..|part|] == part;
    assert |part| < n ==> field[|part|] == 32;
  }

  /** A part of the name is copied up to the spaces. */
  lemma PartIsRun(raw: seq<byte>, from: nat, part: seq<byte>)
    requires from + |part| < |raw| && raw[from..from + |part|] == part && NoBlank(part) && Blank(raw[from + |part|])
    ensures Run(raw, from) == |part|
  {
    RunIs(raw, from, |part|);
  }

  lemma NameOfParts(raw: seq<byte>, from: nat, base: seq<byte>, ext: seq<byte>)
    requires from + 32 <= |raw| && |base| <= 8 && |ext| <= 3 && NoBlank(base) && NoBlank(ext)
    requires raw[from..from + |base|] == base && Blank(raw[from + |base|])
    requires raw[from + 8..from + 8 + |ext|] == ext && Blank(raw[from + 8 + |ext|])
    ensures NameFits(raw, from) && FullName(raw, from) == Dotted(base, ext)
  {
    PartIsRun(raw, from, base);
    PartIsRun(raw, from + 8, ext);
    assert raw[from + 8] == if ext == [] then raw[from + 8 + |ext|] else ext[0];
    MadeOf(raw, from, base, ext);
  }

  lemma MadeOf(raw: seq<byte>, from: nat, base: seq<byte>, ext: seq<byte>)
    requires from + 32 <= |raw| && (Blank(raw[from + 8]) <==> ext == [])
    requires base == raw[from..from + Run(raw, from)] && ext == raw[from + 8..from + 8 + Run(raw, from + 8)]
    ensures FullName(raw, from) == Dotted(base, ext)
  {
    if ext == [] {
      assert FullName(raw, from) == base;
    } else {
      assert FullName(raw, from) == base + [DOT] + ext;
    }
  }

  /** That is what the lookup calls it. */
  lemma NameReadBack(raw: seq<byte>, i: nat, e: Item, base: seq<byte>, ext: seq<byte>)
    requires (i + 1) * 32 <= |raw| && ItemOf(raw, i) == e.Bytes() && Called(e, base, ext)
    ensures NameFits(raw, i * 32) && FullName(raw, i * 32) == Dotted(base, ext)
  {
    var from, b := i * 32, e.Bytes();
    ItemReadBack(e);
    assert b[0..8] == b[..8];
    FieldInRaw(raw, i, b, 0, 8, base);
    FieldInRaw(raw, i, b, 8, 3, ext);
    assert raw[from + 11] == ItemOf(raw, i)[11] && raw[from + 8] == ItemOf(raw, i)[8] == b[8..11][0];
    NameOfParts(raw, from, base, ext);
  }

  /** The upper case of a letter. */
  function Upper(c: byte): byte {
    if 97 <= c <= 122 then c - 32 else c
  }

  function UpperAll(s: seq<byte>): (r: seq<byte>)
    ensures |r| == |s| && forall k | 0 <= k < |s| :: r[k] == Upper(s[k])
  {
    seq<byte>(|s|, k requires 0 <= k < |s| => Upper(s[k]))
  }

  /** So a path component in lower case finds the entry that is written in upper case. */
  lemma UpperMatches(raw: seq<byte>, n: nat, i: nat, e: Item, base: seq<byte>, ext: seq<byte>, name: CString,
                     named: set<nat>)
    requires i < n && Names(named, raw, n, name) && (i + 1) * 32 <= |raw| && ItemOf(raw, i) == e.Bytes()
    requires Called(e, UpperAll(base), UpperAll(ext)) && name == Dotted(base, ext)
    ensures i in named
  {
    NameReadBack(raw, i, e, UpperAll(base), UpperAll(ext));
    assert AgreeAll(Dotted(UpperAll(base), UpperAll(ext)), name);
    assert Matches(raw, i, name);
    NamedIff(named, raw, n, name, i);
  }
}
