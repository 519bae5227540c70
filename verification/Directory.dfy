/** The root directory: how many entries there are, what they are called, and looking one up. */
module Directory {
  import opened Words
  import opened HeapTable
  import opened Heap
  import opened Kheap
  import opened Streamer
  import opened Fat16
  import opened Paths

  const DOT: byte := 46
  const SPACE: byte := 0x20
  const DELETED: byte := 0xE5

  predicate Blank(c: byte) {
    c == 0 || c == 0x20
  }

  /** How many bytes there are from `from` to the first blank. */
  function Run(raw: seq<byte>, from: nat): (n: nat)
    requires from <= |raw|
    ensures from + n <= |raw|
    decreases |raw| - from
  {
    if from == |raw| || Blank(raw[from]) then 0 else 1 + Run(raw, from + 1)
  }

  lemma {:induction false} RunEnds(raw: seq<byte>, from: nat)
    requires from <= |raw|
    ensures from + Run(raw, from) < |raw| ==> Blank(raw[from + Run(raw, from)])
    ensures forall i | from <= i < from + Run(raw, from) :: !Blank(raw[i])
    decreases |raw| - from
  {
    if from < |raw| && !Blank(raw[from]) {
      RunEnds(raw, from + 1);
    }
  }

  /** The name the lookup makes of the entry at `from`: both copies run on to the first blank, past the
      ends of the 8- and 3-byte fields if need be. */
  function FullName(raw: seq<byte>, from: nat): (r: seq<byte>)
    requires from + ITEM_SIZE <= |raw|
  {
    var base, ext := raw[from..from + Run(raw, from)], raw[from + 8..from + 8 + Run(raw, from + 8)];
    if Blank(raw[from + 8]) then base else base + [DOT] + ext
  }

  lemma NameHasNoZero(raw: seq<byte>, from: nat)
    requires from + ITEM_SIZE <= |raw|
    ensures 0 !in FullName(raw, from)
  {
    RunEnds(raw, from);
    RunEnds(raw, from + 8);
  }

  // ---------------------------------------------------------------- the name by the FAT specification

  /** A field without the spaces that end it. */
  function Trimmed(field: seq<byte>): (r: seq<byte>)
    ensures r <= field && (r != [] ==> r[|r| - 1] != SPACE)
    ensures forall i | |r| <= i < |field| :: field[i] == SPACE
  {
    if field == [] || field[|field| - 1] != SPACE then field else Trimmed(field[..|field| - 1])
  }

  /** A first byte of 0x05 stands for 0xE5, which marks deleted entries. */
  function Kanji(name: seq<byte>): (r: seq<byte>)
    ensures |r| == |name|
  {
    if name != [] && name[0] == 0x05 then [DELETED] + name[1..] else name
  }

  /** The 8-byte name and the 3-byte extension without the spaces that end them; spaces inside belong to
      them. The extension is left out only if it is all spaces. */
  function ShortName(raw: seq<byte>, from: nat): seq<byte>
    requires from + ITEM_SIZE <= |raw|
  {
    var base, ext := Kanji(Trimmed(raw[from..from + 8])), Trimmed(raw[from + 8..from + 11]);
    if ext == [] then base else base + [DOT] + ext
  }

  predicate NoBlank(s: seq<byte>) {
    forall i | 0 <= i < |s| :: !Blank(s[i])
  }

  /** The field is `j` bytes without a blank, and then spaces. */
  predicate Padded(field: seq<byte>, j: nat) {
    j <= |field| && NoBlank(field[..j]) && forall i | j <= i < |field| :: field[i] == SPACE
  }

  predicate PaddedBefore(field: seq<byte>, next: byte) {
    exists j: nat | j <= |field| :: Padded(field, j) && (j == |field| ==> Blank(next))
  }

  /** The field of `n` bytes at `from` has no blank before the spaces that end it, and if it has none of
      those a blank follows it. */
  predicate Plain(raw: seq<byte>, from: nat, n: nat)
    requires from + n < |raw|
  {
    PaddedBefore(raw[from..from + n], raw[from + n])
  }

  lemma RunIs(raw: seq<byte>, from: nat, j: nat)
    requires from + j < |raw| && Blank(raw[from + j]) && NoBlank(raw[from..from + j])
    ensures Run(raw, from) == j
  {
    RunEnds(raw, from);
    assert forall i | from <= i < from + j :: raw[i] == raw[from..from + j][i - from];
  }

  lemma {:induction false} TrimmedIs(field: seq<byte>, j: nat)
    requires Padded(field, j)
    ensures Trimmed(field) == field[..j]
  {
    if j < |field| {
      assert field[..|field| - 1][..j] == field[..j];
      TrimmedIs(field[..|field| - 1], j);
    } else if j > 0 {
      assert field[..j][j - 1] == field[j - 1];
    }
  }

  /** Of a plain field the lookup copies what it should. */
  lemma PlainField(raw: seq<byte>, from: nat, n: nat)
    requires from + n < |raw| && Plain(raw, from, n)
    ensures Run(raw, from) <= n && raw[from..from + Run(raw, from)] == Trimmed(raw[from..from + n])
  {
    var field := raw[from..from + n];
    var j: nat :| j <= |field| && Padded(field, j) && (j == |field| ==> Blank(raw[from + n]));
    assert field[..j] == raw[from..from + j];
    assert j < n ==> field[j] == raw[from + j];
    RunIs(raw, from, j);
    TrimmedIs(field, j);
  }

  /** If what should be copied has no blank in it, and what is copied is not longer than the field, the
      field is plain. */
  lemma FieldIsPlain(raw: seq<byte>, from: nat, n: nat)
    requires from + n < |raw| && NoBlank(Trimmed(raw[from..from + n])) && Run(raw, from) <= n
    ensures Plain(raw, from, n)
  {
    var field := raw[from..from + n];
    var j := |Trimmed(field)|;
    assert field[..j] == Trimmed(field) && Padded(field, j);
    TrimmedInRun(raw, from, n);
    RunEnds(raw, from);
  }

  /** Two plain fields make the right name, unless the first byte is 0x05. */
  lemma PlainNameIsRight(raw: seq<byte>, from: nat)
    requires from + ITEM_SIZE <= |raw| && raw[from] != 0x05 && Plain(raw, from, 8) && Plain(raw, from + 8, 3)
    ensures FullName(raw, from) == ShortName(raw, from)
  {
    var base, ext := raw[from..from + Run(raw, from)], raw[from + 8..from + 8 + Run(raw, from + 8)];
    PlainField(raw, from, 8);
    PlainField(raw, from + 8, 3);
    FirstStays(raw, from);
    RunIsNothingIff(raw, from + 8);
    NamesOf(raw, from, base, ext);
  }

  lemma NamesOf(raw: seq<byte>, from: nat, base: seq<byte>, ext: seq<byte>)
    requires from + ITEM_SIZE <= |raw| && (ext == [] <==> Blank(raw[from + 8]))
    requires base == raw[from..from + Run(raw, from)] == Kanji(Trimmed(raw[from..from + 8]))
    requires ext == raw[from + 8..from + 8 + Run(raw, from + 8)] == Trimmed(raw[from + 8..from + 11])
    ensures FullName(raw, from) == ShortName(raw, from)
  {
  }

  lemma FirstStays(raw: seq<byte>, from: nat)
    requires from + 8 <= |raw| && raw[from] != 0x05
    ensures Kanji(Trimmed(raw[from..from + 8])) == Trimmed(raw[from..from + 8])
  {
    var field := raw[from..from + 8];
    assert field[0] == raw[from];
  }

  lemma RunIsNothingIff(raw: seq<byte>, from: nat)
    requires from < |raw|
    ensures raw[from..from + Run(raw, from)] == [] <==> Blank(raw[from])
  {
  }

  lemma FullNameHasNoBlank(raw: seq<byte>, from: nat)
    requires from + ITEM_SIZE <= |raw|
    ensures NoBlank(FullName(raw, from))
  {
    RunEnds(raw, from);
    RunEnds(raw, from + 8);
  }

  /** An extension that begins with a blank but is not all spaces never comes out right. */
  lemma BlankExtension(raw: seq<byte>, from: nat)
    requires from + ITEM_SIZE <= |raw| && Blank(raw[from + 8]) && FullName(raw, from) == ShortName(raw, from)
    ensures Trimmed(raw[from + 8..from + 11]) == [] && Plain(raw, from + 8, 3)
  {
    FullNameHasNoBlank(raw, from);
    FieldsHaveNoBlank(raw, from);
    TrimmedInRun(raw, from + 8, 3);
    assert Padded(raw[from + 8..from + 11], 0);
  }

  lemma FieldsHaveNoBlank(raw: seq<byte>, from: nat)
    requires from + ITEM_SIZE <= |raw| && NoBlank(ShortName(raw, from))
    ensures NoBlank(Trimmed(raw[from..from + 8])) && NoBlank(Trimmed(raw[from + 8..from + 11]))
  {
    var base, ext, name := Trimmed(raw[from..from + 8]), Trimmed(raw[from + 8..from + 11]), ShortName(raw, from);
    assert Kanji(base) <= name;
    assert forall i | 0 < i < |base| :: base[i] == Kanji(base)[i];
    assert base != [] ==> base[0] == 0x05 || base[0] == Kanji(base)[0];
    assert forall i | 0 <= i < |ext| :: ext[i] == name[|base| + 1 + i];
  }

  lemma TrimmedInRun(raw: seq<byte>, from: nat, n: nat)
    requires from + n <= |raw|
    ensures NoBlank(Trimmed(raw[from..from + n])) ==> |Trimmed(raw[from..from + n])| <= Run(raw, from)
  {
    var t := Trimmed(raw[from..from + n]);
    RunEnds(raw, from);
    assert forall i | 0 <= i < |t| :: t[i] == raw[from + i];
  }

  /** A base name that runs into the extension comes out too long. */
  lemma BaseRunsOn(raw: seq<byte>, from: nat)
    requires from + ITEM_SIZE <= |raw| && !Blank(raw[from + 8]) && Run(raw, from) > 8
    ensures FullName(raw, from) != ShortName(raw, from)
  {
    var base, ext := Trimmed(raw[from..from + 8]), Trimmed(raw[from + 8..from + 11]);
    RunContinues(raw, from, 8);
    TrimmedInRun(raw, from + 8, 3);
    FullNameHasNoBlank(raw, from);
    if NoBlank(ShortName(raw, from)) {
      FieldsHaveNoBlank(raw, from);
      assert |ShortName(raw, from)| <= 9 + Run(raw, from + 8) < |FullName(raw, from)|;
    }
  }

  lemma {:induction false} RunContinues(raw: seq<byte>, from: nat, n: nat)
    requires from + n <= |raw| && n <= Run(raw, from)
    ensures Run(raw, from) == n + Run(raw, from + n)
    decreases n
  {
    if n > 0 {
      RunContinues(raw, from + 1, n - 1);
    }
  }

  /** A first byte of 0x05 comes out as it is. */
  lemma FirstByteStays(raw: seq<byte>, from: nat)
    requires from + ITEM_SIZE <= |raw| && raw[from] == 0x05
    ensures FullName(raw, from) != ShortName(raw, from)
  {
    var field := raw[from..from + 8];
    RunEnds(raw, from);
    assert field[0] == 0x05 && Trimmed(field) != [];
    assert FullName(raw, from)[0] == 0x05 && ShortName(raw, from)[0] == DELETED;
  }

  lemma RightNameIsPlain(raw: seq<byte>, from: nat)
    requires from + ITEM_SIZE <= |raw| && FullName(raw, from) == ShortName(raw, from)
    ensures raw[from] != 0x05 && Plain(raw, from, 8) && Plain(raw, from + 8, 3)
  {
    FullNameHasNoBlank(raw, from);
    FieldsHaveNoBlank(raw, from);
    if raw[from] == 0x05 {
      FirstByteStays(raw, from);
    }
    RunEnds(raw, from);
    if Blank(raw[from + 8]) {
      BlankExtension(raw, from);
      FieldIsPlain(raw, from, 8);
    } else {
      if Run(raw, from) > 8 {
        BaseRunsOn(raw, from);
      }
      FieldIsPlain(raw, from, 8);
      PlainField(raw, from, 8);
      assert raw[from + 8..from + 11][0] == raw[from + 8];
      FieldIsPlain(raw, from + 8, 3);
    }
  }

  /** The lookup's name is the right one exactly for fields without a blank before the spaces that end
      them, if a full 8-byte name has no extension, a full 3-byte extension is followed by an attribute
      byte of 0x00 or 0x20, and the first byte is not the one that stands for another. */
  lemma NameIsRightIff(raw: seq<byte>, from: nat)
    requires from + ITEM_SIZE <= |raw|
    ensures FullName(raw, from) == ShortName(raw, from) <==>
        raw[from] != 0x05 && Plain(raw, from, 8) && Plain(raw, from + 8, 3)
  {
    if raw[from] != 0x05 && Plain(raw, from, 8) && Plain(raw, from + 8, 3) {
      PlainNameIsRight(raw, from);
    }
    if FullName(raw, from) == ShortName(raw, from) {
      RightNameIsPlain(raw, from);
    }
  }

  /** Both copies meet a blank, and the name fits the 108-byte buffer with its terminator. */
  predicate NameFits(raw: seq<byte>, from: nat) {
    && from + ITEM_SIZE <= |raw| && from + Run(raw, from) < |raw| && from + 8 + Run(raw, from + 8) < |raw|
    && |FullName(raw, from)| < MAX_PATH
  }

  /** The buffer holds `name`, and zeros behind it. */
  ghost predicate Holds(out: seq<byte>, name: seq<byte>) {
    |name| < |out| && forall k | 0 <= k < |out| :: out[k] == if k < |name| then name[k] else 0
  }

  /** `fat16_to_proper_string`: appends the bytes up to the first blank. */
  method ToProperString(out: array<byte>, at: nat, raw: seq<byte>, from: nat, ghost before: seq<byte>)
    returns (next: nat)
    requires from <= |raw| && from + Run(raw, from) < |raw| && at == |before|
    requires Holds(out[..], before) && at + Run(raw, from) < out.Length
    modifies out
    ensures next == at + Run(raw, from) && Holds(out[..], before + raw[from..from + Run(raw, from)])
  {
    next := at;
    RunEnds(raw, from);
    while !Blank(raw[from + next - at])
      invariant at <= next <= at + Run(raw, from)
      invariant forall k | 0 <= k < out.Length ::
          out[k] == if k < at then before[k] else if k < next then raw[from + k - at] else 0
      decreases at + Run(raw, from) - next
    {
      out[next] := raw[from + next - at];
      next := next + 1;
    }
    if raw[from + next - at] == 0x20 {
      out[next] := 0;
    }
  }

  lemma DotAdded(before: seq<byte>, out: seq<byte>, base: seq<byte>)
    requires Holds(before, base) && |base| + 1 < |before| && out == before[|base| := DOT]
    ensures Holds(out, base + [DOT])
  {
  }

  /** What the name is made of. */
  lemma NameParts(raw: seq<byte>, from: nat)
    requires NameFits(raw, from)
    ensures var base, ext := raw[from..from + Run(raw, from)], raw[from + 8..from + 8 + Run(raw, from + 8)];
      && FullName(raw, from) == (if Blank(raw[from + 8]) then base else base + [DOT] + ext)
      && |base| < MAX_PATH && (!Blank(raw[from + 8]) ==> |base| + 1 + |ext| < MAX_PATH)
  {
  }

  /** `fat16_get_full_relative_filename`. */
  method FullRelativeFilename(raw: seq<byte>, from: nat, out: array<byte>)
    requires NameFits(raw, from) && out.Length == MAX_PATH
    modifies out
    ensures Holds(out[..], FullName(raw, from))
  {
    NameParts(raw, from);
    ZeroFill(out, 0, MAX_PATH);
    var next := ToProperString(out, 0, raw, from, []);
    ghost var base, ext := raw[from..from + Run(raw, from)], raw[from + 8..from + 8 + Run(raw, from + 8)];
    assert [] + base == base;
    if Blank(raw[from + 8]) {
      assert FullName(raw, from) == base;
    } else {
      DotAdded(out[..], out[..][next := DOT], base);
      out[next] := DOT;
      next := ToProperString(out, next + 1, raw, from + 8, base + [DOT]);
      assert FullName(raw, from) == base + [DOT] + ext;
    }
  }

  // ---------------------------------------------------------------- counting entries

  /** The first bytes of the entries from `pos` up to the end marker; none if the medium ends first. */
  function FirstBytes(disk: seq<byte>, pos: nat): Option<seq<byte>>
    decreases |disk| - pos
  {
    if !OnDisk(|disk|, pos, ITEM_SIZE) || pos >= |disk| then None
    else if disk[pos] == 0 then Some([])
    else match FirstBytes(disk, pos + ITEM_SIZE)
      case None => None
      case Some(rest) => Some([disk[pos]] + rest)
  }

  /** The entries that are not deleted. */
  function CountLive(firsts: seq<byte>): (n: nat)
    ensures n <= |firsts|
  {
    if firsts == [] then 0 else (if firsts[0] == DELETED then 0 else 1) + CountLive(firsts[1..])
  }

  lemma NextItem(size: nat, pos: nat)
    requires pos % ITEM_SIZE == 0
    ensures InPlace(pos, ITEM_SIZE) && (pos + ITEM_SIZE) % ITEM_SIZE == 0
    ensures OnDisk(size, pos, ITEM_SIZE) ==> pos + ITEM_SIZE <= size
  {
    var n := pos / ITEM_SIZE;
    var q, r := n / 16, n % 16;
    assert pos == ITEM_SIZE * n && n == 16 * q + r;
    SectorOfItem(pos, q, r);
    assert (pos + ITEM_SIZE - 1) / SECTOR_SIZE == q;
    assert pos + ITEM_SIZE == ITEM_SIZE * (n + 1);
  }

  lemma SectorOfItem(pos: nat, q: nat, r: nat)
    requires r < 16 && pos == SECTOR_SIZE * q + ITEM_SIZE * r
    ensures pos / SECTOR_SIZE == q && pos % SECTOR_SIZE == ITEM_SIZE * r
  {
  }

  /** `fat16_get_total_items_for_directory`. */
  method GetTotalItems(stream: DiskStream, sector: nat) returns (res: int)
    requires stream.Valid() && sector * SECTOR_SIZE < 0x8000_0000
    modifies stream
    ensures var firsts := FirstBytes(stream.disk, sector * SECTOR_SIZE);
            res == if firsts.Some? then CountLive(firsts.value) else -EIO
  {
    var i := 0;
    ghost var disk, start := stream.disk, sector * SECTOR_SIZE;
    ghost var seen: seq<byte> := [];
    res := stream.Seek(sector * SECTOR_SIZE);
    while true
      invariant stream.pos >= 0 && stream.pos % ITEM_SIZE == 0
      invariant FirstBytes(disk, start).Some? <==> FirstBytes(disk, stream.pos).Some?
      invariant FirstBytes(disk, start).Some? ==>
          CountLive(FirstBytes(disk, start).value) == i + CountLive(FirstBytes(disk, stream.pos).value)
      decreases |disk| - stream.pos
    {
      ghost var pos := stream.pos;
      NextItem(|disk|, pos);
      var item := new byte[ITEM_SIZE];
      res := stream.ReadInPlace(item, 0, ITEM_SIZE);
      if res != 0 {
        return -EIO;
      }
      assert item[0] == disk[pos];
      if item[0] == 0 {
        return i;
      }
      if item[0] == DELETED {
        continue;
      }
      i := i + 1;
    }
  }

  lemma FirstOfTable(size: nat, pos: nat, n: nat)
    requires n > 0 && OnDisk(size, pos, n * ITEM_SIZE)
    ensures OnDisk(size, pos, ITEM_SIZE) && (n > 1 ==> OnDisk(size, pos + ITEM_SIZE, (n - 1) * ITEM_SIZE))
  {
  }

  lemma {:induction false} FirstByteAt(disk: seq<byte>, pos: nat, j: nat)
    requires FirstBytes(disk, pos).Some? && j < |FirstBytes(disk, pos).value|
    ensures pos + j * ITEM_SIZE < |disk| && FirstBytes(disk, pos).value[j] == disk[pos + j * ITEM_SIZE] != 0
    decreases j
  {
    if j > 0 {
      FirstByteAt(disk, pos + ITEM_SIZE, j - 1);
    }
  }

  lemma {:induction false} CountEnds(disk: seq<byte>, pos: nat, n: nat, k: nat)
    requires k < n && OnDisk(|disk|, pos, n * ITEM_SIZE)
    requires pos + n * ITEM_SIZE <= |disk| && disk[pos + k * ITEM_SIZE] == 0
    ensures FirstBytes(disk, pos).Some? && |FirstBytes(disk, pos).value| <= k
    decreases k
  {
    FirstOfTable(|disk|, pos, n);
    if disk[pos] != 0 {
      assert pos + ITEM_SIZE + (k - 1) * ITEM_SIZE == pos + k * ITEM_SIZE;
      CountEnds(disk, pos + ITEM_SIZE, n - 1, k - 1);
    }
  }

  /** If the table of `n` entries at `pos` has an end marker, the count stops there: it is of entries of
      the table, read as they stand in it, and the lookup stays inside the table. */
  lemma CountStaysInside(disk: seq<byte>, pos: nat, n: nat, k: nat)
    requires k < n && OnDisk(|disk|, pos, n * ITEM_SIZE)
    requires pos + n * ITEM_SIZE <= |disk| && disk[pos + k * ITEM_SIZE] == 0
    ensures FirstBytes(disk, pos).Some?
    ensures var firsts := FirstBytes(disk, pos).value;
      CountLive(firsts) <= |firsts| <= k &&
      forall j | 0 <= j < |firsts| :: pos + j * ITEM_SIZE < |disk| && firsts[j] == disk[pos + j * ITEM_SIZE] != 0
  {
    CountEnds(disk, pos, n, k);
    forall j: nat | j < |FirstBytes(disk, pos).value|
      ensures pos + j * ITEM_SIZE < |disk| && FirstBytes(disk, pos).value[j] == disk[pos + j * ITEM_SIZE] != 0
    {
      FirstByteAt(disk, pos, j);
    }
  }

  /** The read of a table into memory. */
  method ReadTable(stream: DiskStream, mem: array<byte>, sector: nat, dir: nat, size: nat) returns (res: int)
    requires stream.Valid() && sector * SECTOR_SIZE <= MAX_INT && size <= MAX_INT && dir + size <= mem.Length
    modifies stream, mem
    ensures res == if OnDisk(|stream.disk|, sector * SECTOR_SIZE, size) then 0 else -EIO
    ensures res == 0 ==> sector * SECTOR_SIZE + size <= |stream.disk|
    ensures res == 0 ==> mem[dir..dir + size] == stream.disk[sector * SECTOR_SIZE..sector * SECTOR_SIZE + size]
    ensures forall k | 0 <= k < mem.Length && !(dir <= k < dir + size) :: mem[k] == old(mem[k])
  {
    res := stream.Seek(sector * SECTOR_SIZE);
    assert InPlace(sector * SECTOR_SIZE, size);
    res := stream.ReadInPlace(mem, dir, size);
  }

  /** A block for a table, and the table read into it. One that cannot be read stays allocated. */
  method LoadTable(heap: Heap, mem: array<byte>, stream: DiskStream, sector: nat, size: nat) returns (res: int,
                   dir: word)
    requires heap.Valid() && mem.Length == ADDRESS_SPACE && stream.Valid()
    requires sector * SECTOR_SIZE <= MAX_INT && size <= MAX_INT && Fits(heap.entries[..], Blocks(size))
    modifies heap, heap.entries, mem, stream
    ensures heap.Valid() && heap.entries[..] == HeapTable.Step(old(heap.entries[..]), Malloc(Blocks(size)))
    ensures heap.live == LiveStep(old(heap.entries[..]), old(heap.live), Malloc(Blocks(size)))
    ensures var s := StartBlock(old(heap.entries[..]), Blocks(size));
      dir == if s < 0 then 0 else heap.saddr + s * BLOCK_SIZE
    ensures dir as int + size <= ADDRESS_SPACE
    ensures res == if dir == 0 then -ENOMEM else if OnDisk(|stream.disk|, sector * SECTOR_SIZE, size) then 0 else -EIO
    ensures res == 0 ==> sector * SECTOR_SIZE + size <= |stream.disk|
    ensures res == 0 ==> mem[dir..dir as int + size] == stream.disk[sector * SECTOR_SIZE..sector * SECTOR_SIZE + size]
    ensures forall k | 0 <= k < mem.Length && !(dir != 0 && dir <= k < dir as int + size) :: mem[k] == old(mem[k])
  {
    dir := Kzalloc(heap, mem, size);
    if dir == 0 {
      return -ENOMEM, 0;
    }
    res := ReadTable(stream, mem, sector, dir, size);
  }

  /** `fat16_get_root_directory`: the table in a heap block, how many entries to look at, and the geometry. */
  method GetRootDirectory(heap: Heap, mem: array<byte>, stream: DiskStream, h: Header)
    returns (res: int, v: Volume, dir: word, total: int)
    requires heap.Valid() && mem.Length == ADDRESS_SPACE && stream.Valid()
    requires h.RootSector() * SECTOR_SIZE <= MAX_INT && h.rootEntries < 0x1_0000
    requires Fits(heap.entries[..], Blocks(h.rootEntries * ITEM_SIZE))
    modifies heap, heap.entries, mem, stream
    ensures heap.Valid() && v == Mount(stream.disk, h)
    ensures var firsts := FirstBytes(stream.disk, h.RootSector() * SECTOR_SIZE);
            total == if firsts.Some? then CountLive(firsts.value) else -EIO
    ensures var size := h.rootEntries * ITEM_SIZE; var s := StartBlock(old(heap.entries[..]), Blocks(size));
      && heap.entries[..] == HeapTable.Step(old(heap.entries[..]), Malloc(Blocks(size)))
      && heap.live == LiveStep(old(heap.entries[..]), old(heap.live), Malloc(Blocks(size)))
      && dir == (if s < 0 then 0 else heap.saddr + s * BLOCK_SIZE) && dir as int + size <= ADDRESS_SPACE
    ensures var disk, pos, size := stream.disk, h.RootSector() * SECTOR_SIZE, h.rootEntries * ITEM_SIZE;
      && res == (if dir == 0 then -ENOMEM else if OnDisk(|disk|, pos, size) then 0 else -EIO)
      && (res == 0 ==> pos + size <= |disk| && mem[dir..dir as int + size] == disk[pos..pos + size])
      && forall k | 0 <= k < mem.Length && !(dir != 0 && dir <= k < dir as int + size) :: mem[k] == old(mem[k])
  {
    v := Mount(stream.disk, h);
    total := GetTotalItems(stream, h.RootSector());
    res, dir := LoadTable(heap, mem, stream, h.RootSector(), h.rootEntries * ITEM_SIZE);
  }

  /** The lookup looks at as many entries as are not deleted, deleted ones included: it sees every live
      entry exactly if no deleted one comes before a live one. */
  lemma LookupSeesAllIff(firsts: seq<byte>)
    ensures (forall j | 0 <= j < |firsts| && firsts[j] != DELETED :: j < CountLive(firsts)) <==>
            (forall i, j | 0 <= i < j < |firsts| && firsts[i] == DELETED :: firsts[j] == DELETED)
  {
    if i, j :| 0 <= i < j < |firsts| && firsts[i] == DELETED && firsts[j] != DELETED {
      var last := LastLive(firsts, j);
      CountsFewer(firsts, i, last);
    } else {
      LiveFirst(firsts);
    }
  }

  lemma {:induction false} LastLive(firsts: seq<byte>, j: nat) returns (last: nat)
    requires j < |firsts| && firsts[j] != DELETED
    ensures j <= last < |firsts| && firsts[last] != DELETED && forall k | last < k < |firsts| :: firsts[k] == DELETED
    decreases |firsts| - j
  {
    if k :| j < k < |firsts| && firsts[k] != DELETED {
      last := LastLive(firsts, k);
    } else {
      last := j;
    }
  }

  /** With nothing live behind `last` and something deleted before it, at most `last` entries are live. */
  lemma {:induction false} CountsFewer(firsts: seq<byte>, i: nat, last: nat)
    requires i < last < |firsts| && firsts[i] == DELETED
    requires forall k | last < k < |firsts| :: firsts[k] == DELETED
    ensures CountLive(firsts) <= last
  {
    if i > 0 {
      CountsFewer(firsts[1..], i - 1, last - 1);
    } else {
      CountsUpTo(firsts[1..], last);
    }
  }

  lemma {:induction false} CountsUpTo(firsts: seq<byte>, n: nat)
    requires forall k | n <= k < |firsts| :: firsts[k] == DELETED
    ensures CountLive(firsts) <= n
  {
    if firsts != [] {
      CountsUpTo(firsts[1..], if n == 0 then 0 else n - 1);
    }
  }

  lemma {:induction false} LiveFirst(firsts: seq<byte>)
    requires forall i, j | 0 <= i < j < |firsts| && firsts[i] == DELETED :: firsts[j] == DELETED
    ensures forall j | 0 <= j < |firsts| && firsts[j] != DELETED :: j < CountLive(firsts)
  {
    if firsts != [] && firsts[0] != DELETED {
      LiveFirst(firsts[1..]);
      forall j | 0 <= j < |firsts| && firsts[j] != DELETED
        ensures j < CountLive(firsts)
      {
        assert j > 0 ==> firsts[1..][j - 1] == firsts[j];
      }
    }
  }
}
