/** Byte streams over a disk that is read a sector at a time. */
module Streamer {
  import opened Words

  const EIO := 1
  const SECTOR_SIZE := 512

  datatype Option<T> = None | Some(value: T)

  /** Sector `lba` of the disk; a sector outside the medium cannot be read. */
  function Sector(disk: seq<byte>, lba: int): (r: Option<seq<byte>>)
    ensures r.Some? <==> 0 <= lba && (lba + 1) * SECTOR_SIZE <= |disk|
    ensures r.Some? ==> |r.value| == SECTOR_SIZE
  {
    if 0 <= lba && (lba + 1) * SECTOR_SIZE <= |disk| then Some(disk[lba * SECTOR_SIZE..(lba + 1) * SECTOR_SIZE])
    else None
  }

  /** The sector of the last byte read is on the disk; a read of nothing still takes in a sector. */
  predicate OnDisk(size: nat, pos: int, total: nat) {
    0 <= pos && ((if total == 0 then pos else pos + total - 1) / SECTOR_SIZE + 1) * SECTOR_SIZE <= size
  }

  /** A read that starts at a sector boundary or stays inside one sector. */
  predicate InPlace(pos: int, total: nat) {
    pos % SECTOR_SIZE == 0 || (0 <= pos && pos % SECTOR_SIZE + total <= SECTOR_SIZE)
  }

  type HalfKilobyte = s: seq<byte> | |s| == SECTOR_SIZE witness Zeros(SECTOR_SIZE)

  /** What lies before and behind the sector buffer on the stack, as far as a read can run past its ends. */
  datatype Around = Around(before: HalfKilobyte, behind: HalfKilobyte)

  /** C's quotient and remainder by the sector size: towards zero, and with the sign of the position. */
  function SectorOf(pos: int): int {
    if pos >= 0 then pos / SECTOR_SIZE else -(-pos / SECTOR_SIZE)
  }

  function OffsetIn(pos: int): (offset: int)
    ensures -SECTOR_SIZE < offset < SECTOR_SIZE
  {
    pos - SectorOf(pos) * SECTOR_SIZE
  }

  /** What one step copies: from the buffer at the position's offset, running past its ends if need be. */
  function Step(disk: seq<byte>, around: Around, pos: int, n: nat): (r: Option<seq<byte>>)
    requires n <= SECTOR_SIZE
    ensures r.Some? <==> Sector(disk, SectorOf(pos)).Some?
    ensures r.Some? ==> |r.value| == n
  {
    match Sector(disk, SectorOf(pos))
    case None => None
    case Some(buff) =>
      var from := SECTOR_SIZE + OffsetIn(pos);
      Some((around.before + buff + around.behind)[from..from + n])
  }

  function Join(a: Option<seq<byte>>, b: Option<seq<byte>>): Option<seq<byte>> {
    if a.Some? && b.Some? then Some(a.value + b.value) else None
  }

  /** What a read delivers, in steps of up to 512 bytes. */
  function Delivered(disk: seq<byte>, around: Around, pos: int, total: nat): (r: Option<seq<byte>>)
    ensures r.Some? ==> |r.value| == total
    decreases total
  {
    if total <= SECTOR_SIZE then Step(disk, around, pos, total)
    else Join(Step(disk, around, pos, SECTOR_SIZE), Delivered(disk, around, pos + SECTOR_SIZE, total - SECTOR_SIZE))
  }

  function Min(a: nat, b: nat): nat {
    if a > b then b else a
  }

  /** A step in place stays inside the sector that holds its position. */
  lemma OneStep(size: nat, pos: int, n: nat)
    requires InPlace(pos, n) && n <= SECTOR_SIZE
    ensures var lba, offset := pos / SECTOR_SIZE, pos % SECTOR_SIZE;
      && offset + n <= SECTOR_SIZE && lba * SECTOR_SIZE + offset == pos
      && (OnDisk(size, pos, n) <==> 0 <= lba && (lba + 1) * SECTOR_SIZE <= size)
  {
  }

  /** What remains behind a full step of a read in place is again a read in place. */
  lemma NextStep(size: nat, pos: int, total: nat)
    requires InPlace(pos, total) && total > SECTOR_SIZE
    ensures InPlace(pos, SECTOR_SIZE) && InPlace(pos + SECTOR_SIZE, total - SECTOR_SIZE)
    ensures OnDisk(size, pos, total) <==>
        OnDisk(size, pos, SECTOR_SIZE) && OnDisk(size, pos + SECTOR_SIZE, total - SECTOR_SIZE)
  {
  }

  /** In place, a position has no sign, or no offset. */
  lemma PlainSector(pos: int, total: nat)
    requires InPlace(pos, total)
    ensures SectorOf(pos) == pos / SECTOR_SIZE && OffsetIn(pos) == pos % SECTOR_SIZE
  {
    if pos < 0 {
      var q := pos / SECTOR_SIZE;
      assert pos == q * SECTOR_SIZE && -pos == -q * SECTOR_SIZE;
    }
  }

  /** `n` bytes of the buffer, found from `offset` bytes into it. */
  lemma InsideBuffer(disk: seq<byte>, around: Around, at: nat, offset: nat, n: nat)
    requires at + SECTOR_SIZE <= |disk| && offset + n <= SECTOR_SIZE
    ensures (around.before + disk[at..at + SECTOR_SIZE] + around.behind)[SECTOR_SIZE + offset..SECTOR_SIZE + offset + n]
         == disk[at + offset..at + offset + n]
  {
    var stack := around.before + disk[at..at + SECTOR_SIZE] + around.behind;
    var from := SECTOR_SIZE + offset;
    assert forall k | from <= k < from + n :: stack[k] == disk[k - from + (at + offset)];
  }

  /** A step in place copies the bytes at its position, if their sector can be read. */
  lemma StepInPlace(disk: seq<byte>, around: Around, pos: int, n: nat)
    requires n <= SECTOR_SIZE && InPlace(pos, n)
    ensures Step(disk, around, pos, n).Some? <==> OnDisk(|disk|, pos, n)
    ensures OnDisk(|disk|, pos, n) ==> pos + n <= |disk| && Step(disk, around, pos, n).value == disk[pos..pos + n]
  {
    OneStep(|disk|, pos, n);
    PlainSector(pos, n);
    if OnDisk(|disk|, pos, n) {
      InsideBuffer(disk, around, pos / SECTOR_SIZE * SECTOR_SIZE, pos % SECTOR_SIZE, n);
    }
  }

  /** Two adjacent slices, or one of them missing. */
  lemma SlicesJoin(disk: seq<byte>, x: Option<seq<byte>>, y: Option<seq<byte>>, pos: int, n: nat, m: nat)
    requires x.Some? ==> 0 <= pos && pos + n <= |disk| && x.value == disk[pos..pos + n]
    requires y.Some? ==> 0 <= pos + n && pos + n + m <= |disk| && y.value == disk[pos + n..pos + n + m]
    ensures Join(x, y).Some? <==> x.Some? && y.Some?
    ensures Join(x, y).Some? ==> pos + (n + m) <= |disk| && Join(x, y).value == disk[pos..pos + (n + m)]
  {
  }

  /** In place, a read delivers exactly the bytes asked for, and fails exactly when they are not on the disk. */
  lemma {:induction false} DeliveredInPlace(disk: seq<byte>, around: Around, pos: int, total: nat)
    requires InPlace(pos, total)
    ensures Delivered(disk, around, pos, total).Some? <==> OnDisk(|disk|, pos, total)
    ensures OnDisk(|disk|, pos, total) ==>
        pos + total <= |disk| && Delivered(disk, around, pos, total).value == disk[pos..pos + total]
    decreases total
  {
    if total <= SECTOR_SIZE {
      StepInPlace(disk, around, pos, total);
    } else {
      var n, next := SECTOR_SIZE, pos + SECTOR_SIZE;
      NextStep(|disk|, pos, total);
      StepInPlace(disk, around, pos, n);
      DeliveredInPlace(disk, around, next, total - n);
      SlicesJoin(disk, Step(disk, around, pos, n), Delivered(disk, around, next, total - n), pos, n, total - n);
    }
  }

  /** Out of place, a read that starts at `pos` delivers what lies behind the buffer. */
  lemma RunsPast(disk: seq<byte>, around: Around, pos: nat, total: nat)
    requires !InPlace(pos, total) && Delivered(disk, around, pos, total).Some?
    ensures var first := SECTOR_SIZE - pos % SECTOR_SIZE;
      first < total && Delivered(disk, around, pos, total).value[first] == around.behind[0]
  {
    var n, first := Min(total, SECTOR_SIZE), SECTOR_SIZE - pos % SECTOR_SIZE;
    assert OffsetIn(pos) == pos % SECTOR_SIZE && first < n;
    assert Step(disk, around, pos, n).value[first] == around.behind[0];
    assert Step(disk, around, pos, n).value <= Delivered(disk, around, pos, total).value;
  }

  lemma WrongAround(disk: seq<byte>, pos: nat, total: nat) returns (around: Around)
    requires !InPlace(pos, total) && pos + total <= |disk|
    ensures Delivered(disk, around, pos, total) != Some(disk[pos..pos + total])
  {
    var first := SECTOR_SIZE - pos % SECTOR_SIZE;
    var wrong: byte := if disk[pos + first] == 0 then 1 else 0;
    around := Around(Zeros(SECTOR_SIZE), seq(SECTOR_SIZE, _ => wrong));
    if Delivered(disk, around, pos, total).Some? {
      RunsPast(disk, around, pos, total);
      assert disk[pos..pos + total][first] == disk[pos + first] != wrong;
    }
  }

  /** Whatever lies around the buffer, the right bytes come out: true exactly of reads in place. */
  lemma CorrectIffInPlace(disk: seq<byte>, pos: nat, total: nat)
    requires OnDisk(|disk|, pos, total) && pos + total <= |disk|
    ensures (forall around: Around :: Delivered(disk, around, pos, total) == Some(disk[pos..pos + total]))
       <==> InPlace(pos, total)
  {
    if InPlace(pos, total) {
      forall around: Around
        ensures Delivered(disk, around, pos, total) == Some(disk[pos..pos + total])
      {
        DeliveredInPlace(disk, around, pos, total);
      }
    } else {
      var around := WrongAround(disk, pos, total);
    }
  }

  lemma JoinedOnDisk(size: nat, pos: nat, a: nat, b: nat)
    requires OnDisk(size, pos, a) && OnDisk(size, pos + a, b)
    ensures OnDisk(size, pos, a + b)
  {
  }

  lemma Compose(disk: seq<byte>, x: Option<seq<byte>>, y: Option<seq<byte>>, z: Option<seq<byte>>, pos: nat, a: nat,
                b: nat)
    requires pos + a + b <= |disk|
    requires x == Some(disk[pos..pos + a]) && y == Some(disk[pos + a..pos + a + b])
    requires z == Some(disk[pos..pos + (a + b)])
    ensures z == Join(x, y)
  {
    assert z.value == x.value + y.value;
  }

  /** Reads in place, one after the other, join to the read of both. */
  lemma ReadsCompose(disk: seq<byte>, around: Around, pos: nat, a: nat, b: nat)
    requires InPlace(pos, a) && InPlace(pos + a, b) && InPlace(pos, a + b)
    requires Delivered(disk, around, pos, a).Some? && Delivered(disk, around, pos + a, b).Some?
    ensures Delivered(disk, around, pos, a + b)
         == Join(Delivered(disk, around, pos, a), Delivered(disk, around, pos + a, b))
  {
    DeliveredInPlace(disk, around, pos, a);
    DeliveredInPlace(disk, around, pos + a, b);
    DeliveredInPlace(disk, around, pos, a + b);
    JoinedOnDisk(|disk|, pos, a, b);
    Compose(disk, Delivered(disk, around, pos, a), Delivered(disk, around, pos + a, b),
            Delivered(disk, around, pos, a + b), pos, a, b);
  }

  class DiskStream {
    const disk: seq<byte>
    const around: Around
    var pos: int

    /** Positions on the disk are C ints. */
    predicate Valid()
      reads this
    {
      |disk| < 0x8000_0000
    }

    constructor (d: seq<byte>, a: Around)
      ensures disk == d && around == a && pos == 0
    {
      disk, around, pos := d, a, 0;
    }

    method Seek(to: int) returns (res: int)
      modifies this
      ensures pos == to && res == 0
    {
      pos := to;
      return 0;
    }

    /** One step: a sector's buffer filled, and up to 512 bytes copied from it to `output[at..]`. */
    method ReadStep(output: array<byte>, at: nat, n: nat) returns (res: int)
      requires Valid() && n <= SECTOR_SIZE && at + n <= output.Length
      modifies this, output
      ensures res == if Step(disk, around, old(pos), n).Some? then 0 else -EIO
      ensures res == 0 ==> pos == old(pos) + n
      ensures res == 0 ==> forall k | at <= k < at + n :: output[k] == Step(disk, around, old(pos), n).value[k - at]
      ensures forall k | 0 <= k < output.Length && !(at <= k < at + n) :: output[k] == old(output[k])
    {
      var sector, offset := SectorOf(pos), OffsetIn(pos);
      var buff := Sector(disk, sector);
      if buff.None? {
        return -EIO;
      }
      CopyOut(around.before + buff.value + around.behind, SECTOR_SIZE + offset, output, at, n);
      pos := pos + n;
      res := 0;
    }

    /** Copies `total` bytes to `output[at..]` and moves past them. */
    method Read(output: array<byte>, at: nat, total: nat) returns (res: int)
      requires Valid() && total <= MAX_INT && at + total <= output.Length
      modifies this, output
      ensures res == if Delivered(disk, around, old(pos), total).Some? then 0 else -EIO
      ensures res == 0 ==> pos == old(pos) + total
      ensures res == 0 ==> forall k | at <= k < at + total ::
          output[k] == Delivered(disk, around, old(pos), total).value[k - at]
      ensures forall k | 0 <= k < output.Length && !(at <= k < at + total) :: output[k] == old(output[k])
      decreases total
    {
      res := ReadStep(output, at, Min(total, SECTOR_SIZE));
      if res == 0 && total > SECTOR_SIZE {
        res := Read(output, at + SECTOR_SIZE, total - SECTOR_SIZE);
      }
    }

    /** A read in place: exactly the bytes of the disk at the position. */
    method ReadInPlace(output: array<byte>, at: nat, total: nat) returns (res: int)
      requires Valid() && InPlace(pos, total) && total <= MAX_INT && at + total <= output.Length
      modifies this, output
      ensures res == if OnDisk(|disk|, old(pos), total) then 0 else -EIO
      ensures res == 0 ==> pos == old(pos) + total <= |disk|
      ensures res == 0 ==> forall k | at <= k < at + total :: output[k] == disk[old(pos) + k - at]
      ensures forall k | 0 <= k < output.Length && !(at <= k < at + total) :: output[k] == old(output[k])
    {
      DeliveredInPlace(disk, around, pos, total);
      ghost var from := pos;
      res := Read(output, at, total);
      assert res == 0 ==> forall k | at <= k < at + total :: output[k] == disk[from..from + total][k - at];
    }
  }

  /** The copy out of the sector buffer and what lies around it. */
  method CopyOut(stack: seq<byte>, offset: nat, output: array<byte>, at: nat, n: nat)
    requires offset + n <= |stack| && at + n <= output.Length
    modifies output
    ensures forall k | at <= k < at + n :: output[k] == stack[offset + k - at]
    ensures forall k | 0 <= k < output.Length && !(at <= k < at + n) :: output[k] == old(output[k])
  {
    for i := 0 to n
      invariant forall k | at <= k < at + i :: output[k] == stack[offset + k - at]
      invariant forall k | 0 <= k < output.Length && !(at <= k < at + i) :: output[k] == old(output[k])
    {
      output[at + i] := stack[offset + i];
    }
  }
}
