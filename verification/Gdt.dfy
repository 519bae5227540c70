/** Segment descriptors: the kernel's encoding against the processor's reading of it. */
module Gdt {

  const ENTRY_BYTES := 8
  const MAX_BYTE_LIMIT: bv32 := 65536

  datatype Structured = Structured(base: bv32, limit: bv32, access: bv8)

  /** The eight bytes of a descriptor, in order. */
  datatype Descriptor = Descriptor(limit0: bv8, limit8: bv8, base0: bv8, base8: bv8, base16: bv8, access: bv8,
                                   flags: bv8, base24: bv8)

  /** What the encoder accepts; for anything else the kernel panics. */
  predicate Accepted(e: Structured) {
    e.limit <= MAX_BYTE_LIMIT || e.limit & 0xFFF == 0xFFF
  }

  function LowByte(x: bv32): bv8 {
    (x & 0xFF) as bv8
  }

  /** The limit as stored: in bytes, or in pages if it is large. */
  function StoredLimit(limit: bv32): bv32 {
    if limit > MAX_BYTE_LIMIT then limit >> 12 else limit
  }

  /** 32-bit default operand size; and with the G flag, a limit in pages. */
  function Flags(limit: bv32): bv8 {
    if limit > MAX_BYTE_LIMIT then 0xC0 else 0x40
  }

  function Fields(limit: bv32, flags: bv8, base: bv32, access: bv8): Descriptor {
    Descriptor(LowByte(limit), LowByte(limit >> 8), LowByte(base), LowByte(base >> 8), LowByte(base >> 16), access,
               flags | (LowByte(limit >> 16) & 0x0F), LowByte(base >> 24))
  }

  function Encode(e: Structured): Descriptor {
    Fields(StoredLimit(e.limit), Flags(e.limit), e.base, e.access)
  }

  // ---------------------------------------------------------------- Intel SDM Vol. 3A, section 3.4.5

  /** The 20-bit limit field. */
  function LimitField(d: Descriptor): bv32 {
    (d.limit0 as bv32) | (d.limit8 as bv32 << 8) | ((d.flags & 0x0F) as bv32 << 16)
  }

  function BaseField(d: Descriptor): bv32 {
    (d.base0 as bv32) | (d.base8 as bv32 << 8) | (d.base16 as bv32 << 16) | (d.base24 as bv32 << 24)
  }

  /** The G flag: the limit counts pages. */
  predicate Granular(d: Descriptor) {
    d.flags & 0x80 != 0
  }

  /** The D flag: operands are 32 bits wide by default. */
  predicate Default32(d: Descriptor) {
    d.flags & 0x40 != 0
  }

  /** The L flag: 64-bit code. */
  predicate Long(d: Descriptor) {
    d.flags & 0x20 != 0
  }

  /** A limit in pages includes the last byte of the last page. */
  function PagesLimit(pages: bv32): bv32 {
    (pages << 12) | 0xFFF
  }

  /** The descriptor as the processor reads it. */
  function Decode(d: Descriptor): Structured {
    Structured(BaseField(d), if Granular(d) then PagesLimit(LimitField(d)) else LimitField(d), d.access)
  }

  // ---------------------------------------------------------------- the two together

  lemma BaseRead(limit: bv32, flags: bv8, base: bv32, access: bv8)
    ensures BaseField(Fields(limit, flags, base, access)) == base
  {
  }

  lemma LimitRead(limit: bv32, flags: bv8, base: bv32, access: bv8)
    requires limit < 0x10_0000 && flags & 0x0F == 0
    ensures LimitField(Fields(limit, flags, base, access)) == limit
  {
  }

  lemma FlagRead(limit: bv32, flags: bv8, base: bv32, access: bv8)
    ensures Granular(Fields(limit, flags, base, access)) <==> flags & 0x80 != 0
    ensures Default32(Fields(limit, flags, base, access)) <==> flags & 0x40 != 0
    ensures Long(Fields(limit, flags, base, access)) <==> flags & 0x20 != 0
  {
  }

  lemma StoredLimitFits(limit: bv32)
    ensures StoredLimit(limit) < 0x10_0000
  {
  }

  lemma PageLimit(limit: bv32)
    ensures PagesLimit(limit >> 12) == limit <==> limit & 0xFFF == 0xFFF
  {
  }

  lemma FieldsRead(e: Structured, d: Descriptor)
    requires d == Encode(e)
    ensures BaseField(d) == e.base && d.access == e.access
    ensures LimitField(d) == StoredLimit(e.limit) && (Granular(d) <==> e.limit > MAX_BYTE_LIMIT)
    ensures Default32(d) && !Long(d)
  {
    BaseRead(StoredLimit(e.limit), Flags(e.limit), e.base, e.access);
    StoredLimitFits(e.limit);
    LimitRead(StoredLimit(e.limit), Flags(e.limit), e.base, e.access);
    FlagRead(StoredLimit(e.limit), Flags(e.limit), e.base, e.access);
  }

  lemma LimitsMatchIff(e: Structured)
    ensures (if e.limit > MAX_BYTE_LIMIT then PagesLimit(StoredLimit(e.limit)) else StoredLimit(e.limit)) == e.limit
       <==> Accepted(e)
  {
    PageLimit(e.limit);
  }

  lemma DecodedFrom(d: Descriptor, e: Structured, stored: bv32, large: bool)
    requires BaseField(d) == e.base && d.access == e.access && LimitField(d) == stored && (Granular(d) <==> large)
    ensures Decode(d) == Structured(e.base, if large then PagesLimit(stored) else stored, e.access)
  {
  }

  /** The processor reads back base, type and effective limit exactly of the entries the guard accepts, and
      every segment as one of 32 bits. */
  lemma DecodesIff(e: Structured, d: Descriptor)
    requires d == Encode(e)
    ensures Decode(d) == e <==> Accepted(e)
    ensures Decode(d).base == e.base && Decode(d).access == e.access && Default32(d) && !Long(d)
  {
    FieldsRead(e, d);
    DecodedFrom(d, e, StoredLimit(e.limit), e.limit > MAX_BYTE_LIMIT);
    LimitsMatchIff(e);
  }

  /** So the encoding loses nothing: accepted entries with the same bytes are the same. */
  lemma EncodeInjective(e: Structured, f: Structured)
    requires Accepted(e) && Accepted(f) && Encode(e) == Encode(f)
    ensures e == f
  {
    DecodesIff(e, Encode(e));
    DecodesIff(f, Encode(f));
  }

  // ---------------------------------------------------------------- in memory

  /** Descriptor `i` of a table. */
  function Entry(table: seq<bv8>, i: nat): Descriptor
    requires (i + 1) * ENTRY_BYTES <= |table|
  {
    var at := i * ENTRY_BYTES;
    Descriptor(table[at], table[at + 1], table[at + 2], table[at + 3],
               table[at + 4], table[at + 5], table[at + 6], table[at + 7])
  }

  /** The stores of `encode_gdt_entry` that follow the choice of flags. */
  method StoreFields(table: array<bv8>, i: nat, limit: bv32, base: bv32, access: bv8, ghost flags: bv8)
    requires (i + 1) * ENTRY_BYTES <= table.Length && table[i * ENTRY_BYTES + 6] == flags
    modifies table
    ensures Entry(table[..], i) == Fields(limit, flags, base, access)
    ensures forall k | 0 <= k < table.Length && !(i * ENTRY_BYTES <= k < (i + 1) * ENTRY_BYTES) ::
        table[k] == old(table[k])
  {
    var at := i * ENTRY_BYTES;
    table[at] := LowByte(limit);
    table[at + 1] := LowByte(limit >> 8);
    table[at + 6] := table[at + 6] | (LowByte(limit >> 16) & 0x0F);
    table[at + 2] := LowByte(base);
    table[at + 3] := LowByte(base >> 8);
    table[at + 4] := LowByte(base >> 16);
    table[at + 7] := LowByte(base >> 24);
    table[at + 5] := access;
  }

  /** `encode_gdt_entry` into descriptor `i` of a table. */
  method EncodeEntry(table: array<bv8>, i: nat, source: Structured)
    requires (i + 1) * ENTRY_BYTES <= table.Length && Accepted(source)
    modifies table
    ensures Entry(table[..], i) == Encode(source)
    ensures forall k | 0 <= k < table.Length && !(i * ENTRY_BYTES <= k < (i + 1) * ENTRY_BYTES) ::
        table[k] == old(table[k])
  {
    var limit, at := source.limit, i * ENTRY_BYTES;
    table[at + 6] := 0x40;
    if limit > MAX_BYTE_LIMIT {
      limit := limit >> 12;
      table[at + 6] := 0xC0;
    }
    assert limit == StoredLimit(source.limit);
    StoreFields(table, i, limit, source.base, source.access, Flags(source.limit));
  }

  /** `gdt_structured_to_gdt`: every descriptor of the table decodes to its entry. */
  method EncodeTable(gdt: array<bv8>, entries: seq<Structured>)
    requires gdt.Length == |entries| * ENTRY_BYTES && forall i | 0 <= i < |entries| :: Accepted(entries[i])
    modifies gdt
    ensures forall i: nat | i < |entries| ::
        var d := Entry(gdt[..], i); Decode(d) == entries[i] && Default32(d) && !Long(d)
  {
    for n := 0 to |entries|
      invariant forall i: nat | i < n :: Entry(gdt[..], i) == Encode(entries[i])
    {
      EncodeEntry(gdt, n, entries[n]);
    }
    forall i: nat | i < |entries|
      ensures var d := Entry(gdt[..], i); Decode(d) == entries[i] && Default32(d) && !Long(d)
    {
      DecodesIff(entries[i], Entry(gdt[..], i));
    }
  }
}
