/** Segment descriptors and the GDT register limit of the legacy second
    stage (`set_GDT_entry`, `set_GDTR48`), which take base and limit split
    into 16-bit halves. Descriptors are read back with the decoders of
    `Gdt`. */
module LegacyGdt {
  import opened Bytes
  import Gdt

  /** The bytes `set_GDT_entry` stores: the low halves of limit and base as
      little-endian words, the two bytes of the high half of the base in
      bytes 4 and 7, and the low nibble of the high half of the limit under
      the flags in byte 6. */
  function Descriptor(basel: word, baseh: word, limitl: word, limith: word, flags: byte, access: byte): (r: seq<byte>)
    ensures |r| == 8
  {
    [limitl % 0x100, limitl / 0x100,
     basel % 0x100, basel / 0x100, baseh % 0x100,
     access,
     limith % 16 + flags % 16 * 16,
     baseh / 0x100]
  }

  /** The processor reads the base `baseh:basel`, the limit made of `limitl`
      and the low four bits of `limith`, the access byte and the low four
      bits of the flags. */
  lemma DescriptorFields(basel: word, baseh: word, limitl: word, limith: word, flags: byte, access: byte)
    ensures var d := Descriptor(basel, baseh, limitl, limith, flags, access);
      Gdt.DescBase(d) == basel + 0x1_0000 * baseh
      && Gdt.DescLimit(d) == limitl + 0x1_0000 * (limith % 16)
      && Gdt.DescAccess(d) == access && Gdt.DescFlags(d) == flags % 16
  {
    var d := Descriptor(basel, baseh, limitl, limith, flags, access);
    ModUnique(d[6], 16, flags % 16, limith % 16);
    Gdt.DivByte(limitl);
    Gdt.DivByte(basel);
    Gdt.DivByte(baseh);
  }

  /** `set_GDT_entry`: fills the 8 bytes of `entry`. */
  method SetEntry(entry: array<byte>, basel: word, baseh: word, limitl: word, limith: word, flags: byte, access: byte)
    requires entry.Length == 8
    modifies entry
    ensures entry[..] == Descriptor(basel, baseh, limitl, limith, flags, access)
    ensures Gdt.DescBase(entry[..]) == basel + 0x1_0000 * baseh
    ensures Gdt.DescLimit(entry[..]) == limitl + 0x1_0000 * (limith % 16)
    ensures Gdt.DescAccess(entry[..]) == access && Gdt.DescFlags(entry[..]) == flags % 16
  {
    entry[0], entry[1] := limitl % 0x100, limitl / 0x100;
    entry[2], entry[3] := basel % 0x100, basel / 0x100;
    entry[4] := baseh % 0x100;
    entry[5] := access;
    entry[6] := limith % 16 + flags % 16 * 16;
    entry[7] := baseh / 0x100;
    assert entry[..] == Descriptor(basel, baseh, limitl, limith, flags, access);
    DescriptorFields(basel, baseh, limitl, limith, flags, access);
  }

  /** The limit `set_GDTR48` stores for a table of `size` bytes: `size - 1`
      on 32 bits, truncated to a word. */
  function TableLimit(size: dword): (r: word)
    ensures 1 <= size <= 0x1_0000 ==> r == size - 1
    ensures size == 0 ==> r == 0xFFFF
  {
    ((size - 1) % U32) % U16
  }

  /** The limit half of `set_GDTR48`: bytes 0-1 of `gdtr` read back as the
      limit, and the base bytes are left to the rest of the routine. */
  method SetGdtr48Limit(gdtr: array<byte>, size: dword)
    requires gdtr.Length == 6
    modifies gdtr
    ensures gdtr[2..] == old(gdtr[2..])
    ensures gdtr[..2] == Encode(TableLimit(size), 2) && LE(gdtr[..], 0, 2) == TableLimit(size)
  {
    var limit := TableLimit(size);
    gdtr[0], gdtr[1] := limit % 0x100, limit / 0x100 % 0x100;
    Gdt.DivByte(limit);
    Gdt.LEBytes(gdtr[..], 0, 2);
    assert Encode(limit, 2) == [gdtr[0], gdtr[1]];
  }
}
