/** How a process starts: the segments that its selectors choose, its first instruction and its stack. */
module UserMode {
  import opened Words
  import opened PageTables
  import opened AddressSpace
  import Gdt
  import opened Tasks
  import opened TaskLife

  /** The kernel's segments: none, its code and data, the code and data of processes, and the task state. */
  function Segments(tss: bv32, size: bv32): seq<Gdt.Structured> {
    [Gdt.Structured(0, 0, 0), Gdt.Structured(0, 0xFFFF_FFFF, 0x9A), Gdt.Structured(0, 0xFFFF_FFFF, 0x92),
     Gdt.Structured(0, 0xFFFF_FFFF, 0xF8), Gdt.Structured(0, 0xFFFF_FFFF, 0xF2), Gdt.Structured(tss, size, 0xE9)]
  }

  // Intel SDM Vol. 3A, sections 3.4.2 and 3.4.5.

  /** The descriptor that a selector chooses in the global table. */
  function Selected(gdt: seq<bv8>, selector: word): Gdt.Descriptor
    requires (selector / 8 + 1) * 8 <= |gdt|
  {
    Gdt.Entry(gdt, selector / 8)
  }

  /** Neither the local table nor a privilege other than that of processes. */
  predicate ForProcesses(selector: word) {
    selector / 4 % 2 == 0 && selector % 4 == 3
  }

  /** A present segment for code or data that processes may use, of all 4 GB. */
  predicate OpenSegment(d: Gdt.Descriptor) {
    && d.access & 0x80 != 0 && d.access & 0x60 == 0x60 && d.access & 0x10 != 0 && Gdt.Default32(d)
    && Gdt.Decode(d).base == 0 && Gdt.Decode(d).limit == 0xFFFF_FFFF
  }

  predicate Executable(d: Gdt.Descriptor) {
    d.access & 0x08 != 0
  }

  /** For data: it may be written. */
  predicate WritableData(d: Gdt.Descriptor) {
    d.access & 0x08 == 0 && d.access & 0x02 != 0
  }

  /** The kernel's table, after which the selectors of a new task choose code and data of its privilege. */
  method LoadSegments(gdt: array<bv8>, tss: bv32, size: bv32)
    requires gdt.Length == 48 && size <= 0x1_0000
    modifies gdt
    ensures var code, data := Selected(gdt[..], USER_CODE), Selected(gdt[..], USER_DATA);
      && ForProcesses(USER_CODE) && OpenSegment(code) && Executable(code)
      && ForProcesses(USER_DATA) && OpenSegment(data) && WritableData(data)
  {
    Gdt.EncodeTable(gdt, Segments(tss, size));
    assert Gdt.Decode(Gdt.Entry(gdt[..], 3)) == Segments(tss, size)[3];
    assert Gdt.Decode(Gdt.Entry(gdt[..], 4)) == Segments(tss, size)[4];
  }

  /** A new task whose directory is laid out for a program starts at the program's first byte. */
  lemma StartsInProgram(w: seq<word>, p: page, chunk: word, process: word, d: page, ptr: word, size: word, stack: word)
    requires TaskAt(w, p, chunk, process) && ProgramEntries(w, d, ptr, size, stack) && size > 0
    ensures Translate(w, d, Field(w, p, IP)) == ptr && UserReads(w, d, PageOf(Field(w, p, IP)))
  {
    EntriesTranslate(w, d, ptr, size, stack, PROGRAM_START);
    ProgramIsOpen(w, d, ptr, size, stack, PROGRAM_START);
  }

  /** And with an empty stack: all of it is below the stack pointer, and can be written. */
  lemma StartsWithEmptyStack(w: seq<word>, p: page, chunk: word, process: word, d: page, ptr: word, size: word,
                             stack: word, n: nat)
    requires TaskAt(w, p, chunk, process) && ProgramEntries(w, d, ptr, size, stack) && 0 < n <= 0x4000
    ensures n <= Field(w, p, ESP)
    ensures var a: word := Field(w, p, ESP) - n;
      Translate(w, d, a) == stack + 0x4000 - n && UserWrites(w, d, PageOf(a))
  {
    EntriesTranslate(w, d, ptr, size, stack, STACK_TOP - n);
    ProgramIsOpen(w, d, ptr, size, stack, STACK_TOP - n);
  }
}
