/** Segment descriptors and the GDT register of the second stage
    (`set_GDT32_entry`, `set_GDTR32`).

    A descriptor is 8 bytes laid out as in section 3.4.5 of volume 3A of the
    Intel 64 and IA-32 Architectures Software Developer's Manual: the 20-bit
    limit in bytes 0-1 and the low half of byte 6, the 32-bit base in bytes
    2-4 and 7, the access byte in byte 5 and four flag bits in the high half
    of byte 6. The decoders below read a descriptor the way the processor
    does; the encoders are proved against them. */
module Gdt {
  import opened Bytes

  /** The limit the processor reads from a descriptor. */
  function DescLimit(d: seq<byte>): (r: nat)
    requires |d| == 8
    ensures r < 0x10_0000
  {
    d[0] as nat + 0x100 * (d[1] as nat) + 0x1_0000 * (d[6] as nat % 16)
  }

  /** The base address the processor reads from a descriptor. */
  function DescBase(d: seq<byte>): (r: nat)
    requires |d| == 8
    ensures r < U32
  {
    d[2] as nat + 0x100 * (d[3] as nat) + 0x1_0000 * (d[4] as nat) + 0x100_0000 * (d[7] as nat)
  }

  /** The access byte of a descriptor. */
  function DescAccess(d: seq<byte>): byte
    requires |d| == 8
  {
    d[5]
  }

  /** The four flag bits (granularity, size, long mode, available) of a
      descriptor. */
  function DescFlags(d: seq<byte>): (r: nat)
    requires |d| == 8
    ensures r < 16
  {
    d[6] / 16
  }

  /** The bytes `set_GDT32_entry` stores. The flags are shifted above the
      top nibble of the limit; the two occupy disjoint bits, so their OR is
      their sum, and the cast to a byte keeps the low four bits of the flags. */
  function Descriptor(base: dword, limit: dword, flags: byte, access: byte): (r: seq<byte>)
    ensures |r| == 8
  {
    [limit % 0x100, limit / 0x100 % 0x100,
     base % 0x100, base / 0x100 % 0x100, base / 0x100 / 0x100 % 0x100,
     access,
     flags % 16 * 16 + limit / 0x100 / 0x100 % 16,
     base / 0x100 / 0x100 / 0x100]
  }

  /** A descriptor reads back as the base, the low 20 bits of the limit, the
      access byte and the low four bits of the flags it was built from. */
  lemma DescriptorFields(base: dword, limit: dword, flags: byte, access: byte)
    ensures var d := Descriptor(base, limit, flags, access);
      DescBase(d) == base && DescLimit(d) == limit % 0x10_0000
      && DescAccess(d) == access && DescFlags(d) == flags % 16
  {
    var d := Descriptor(base, limit, flags, access);
    var q := limit / 0x100 / 0x100;
    ModUnique(d[6], 16, flags % 16, q % 16);
    assert limit == d[0] as nat + 0x100 * (d[1] as nat + 0x100 * q);
    assert q == q % 16 + 16 * (q / 16);
    ModUnique(limit, 0x10_0000, q / 16, DescLimit(d));
    var b := base / 0x100 / 0x100;
    assert base == d[2] as nat + 0x100 * (d[3] as nat + 0x100 * (d[4] as nat + 0x100 * (d[7] as nat)));
  }

  /** `set_GDT32_entry`: fills the 8 bytes of `entry`. */
  method SetEntry32(entry: array<byte>, base: dword, limit: dword, flags: byte, access: byte)
    requires entry.Length == 8
    modifies entry
    ensures entry[..] == Descriptor(base, limit, flags, access)
    ensures DescBase(entry[..]) == base && DescLimit(entry[..]) == limit % 0x10_0000
    ensures DescAccess(entry[..]) == access && DescFlags(entry[..]) == flags % 16
  {
    entry[0], entry[1] := limit % 0x100, limit / 0x100 % 0x100;
    entry[2], entry[3] := base % 0x100, base / 0x100 % 0x100;
    entry[4] := base / 0x100 / 0x100 % 0x100;
    entry[5] := access;
    entry[6] := flags % 16 * 16 + limit / 0x100 / 0x100 % 16;
    entry[7] := base / 0x100 / 0x100 / 0x100;
    assert entry[..] == Descriptor(base, limit, flags, access);
    DescriptorFields(base, limit, flags, access);
  }

  /** The limit `set_GDTR32` stores for a table of `count` descriptors:
      `8 * count - 1`, computed on 32 bits and truncated to a word. */
  function TableLimit(count: dword): (r: word)
    ensures 1 <= count <= 0x2000 ==> r == 8 * count - 1
    ensures count == 0 ==> r == 0xFFFF
  {
    ((8 * count - 1) % U32) % U16
  }

  /** The base `set_GDTR32` stores: the data segment shifted left by four,
      combined with the table's offset by a bitwise OR. */
  function TableBase(ds: word, table: dword): (r: dword)
  {
    assert Pow2(32) == U32 by { Pow2Values(); }
    OrBelow(ds * 16, table, 32);
    Or(ds * 16, table)
  }

  /** The base is the linear address of the table, `ds * 16 + table`, when
      the two share no set bit, in particular when the offset is below 16. */
  lemma TableBaseLinear(ds: word, table: dword)
    requires table < 16
    ensures TableBase(ds, table) == ds * 16 + table
  {
    assert Pow2(4) == 16;
    OrLow(ds, table, 4);
  }

  /** The same holds for any 16-bit offset when the segment is a multiple
      of 0x1000, so that `ds << 4` has no set bit below bit 16. */
  lemma TableBaseSegment(ds: word, table: dword)
    requires ds % 0x1000 == 0 && table < 0x1_0000
    ensures TableBase(ds, table) == ds * 16 + table
  {
    Pow2Values();
    assert ds * 16 == Pow2(16) * (ds / 0x1000);
    OrLow(ds / 0x1000, table, 16);
  }

  /** Otherwise the OR can fall short of the linear address: segment 1 and
      offset 0x10 give 0x10 and not 0x20. */
  lemma TableBaseShort()
    ensures TableBase(1, 0x10) == 0x10 != 1 * 16 + 0x10
  {
    assert Or(1, 1) == 1;
    assert Or(2, 2) == 2;
    assert Or(4, 4) == 4;
    assert Or(8, 8) == 8;
  }

  /** `set_GDTR32`: fills the 6 bytes of `gdtr` with the limit, then the
      base, both little-endian. */
  method SetGdtr32(gdtr: array<byte>, ds: word, table: dword, count: dword)
    requires gdtr.Length == 6
    modifies gdtr
    ensures gdtr[..] == Encode(TableLimit(count), 2) + Encode(TableBase(ds, table), 4)
    ensures LE(gdtr[..], 0, 2) == TableLimit(count) && LE(gdtr[..], 2, 4) == TableBase(ds, table)
  {
    var limit := TableLimit(count);
    var base := TableBase(ds, table);
    gdtr[0], gdtr[1] := limit % 0x100, limit / 0x100 % 0x100;
    gdtr[2], gdtr[3] := base % 0x100, base / 0x100 % 0x100;
    gdtr[4], gdtr[5] := base / 0x100 / 0x100 % 0x100, base / 0x100 / 0x100 / 0x100 % 0x100;
    EncodeAt(gdtr[..], limit, base);
  }

  /** The six bytes of a GDTR read back as its limit and base. */
  lemma EncodeAt(g: seq<byte>, limit: word, base: dword)
    requires |g| == 6
    requires g[0] == limit % 0x100 && g[1] == limit / 0x100 % 0x100
    requires g[2] == base % 0x100 && g[3] == base / 0x100 % 0x100
    requires g[4] == base / 0x100 / 0x100 % 0x100 && g[5] == base / 0x100 / 0x100 / 0x100 % 0x100
    ensures g == Encode(limit, 2) + Encode(base, 4)
    ensures LE(g, 0, 2) == limit && LE(g, 2, 4) == base
  {
    var b1, b2 := base / 0x100, base / 0x100 / 0x100;
    var b3 := b2 / 0x100;
    assert Encode(limit, 2) == [g[0], g[1]];
    assert Encode(b3, 1) == [g[5]];
    assert Encode(b2, 2) == [g[4], g[5]];
    assert Encode(b1, 3) == [g[3], g[4], g[5]];
    assert Encode(base, 4) == [g[2], g[3], g[4], g[5]];
    ReadBack(g, limit, base);
  }

  /** The little-endian reads of the GDTR bytes. */
  lemma ReadBack(g: seq<byte>, limit: word, base: dword)
    requires |g| == 6
    requires g[0] == limit % 0x100 && g[1] == limit / 0x100 % 0x100
    requires g[2] == base % 0x100 && g[3] == base / 0x100 % 0x100
    requires g[4] == base / 0x100 / 0x100 % 0x100 && g[5] == base / 0x100 / 0x100 / 0x100 % 0x100
    ensures LE(g, 0, 2) == limit && LE(g, 2, 4) == base
  {
    var b1, b2 := base / 0x100, base / 0x100 / 0x100;
    LEBytes(g, 0, 2);
    LEBytes(g, 2, 4);
    DivByte(limit);
    DivByte(base);
    DivByte(b1);
    DivByte(b2);
  }

  /** `x` split into its low byte and the rest. */
  lemma DivByte(x: nat)
    ensures x == x % 0x100 + 0x100 * (x / 0x100)
    ensures x < 0x1_0000 ==> x / 0x100 < 0x100 && x / 0x100 % 0x100 == x / 0x100
  {
  }

  /** The little-endian value of two or four bytes, written out. */
  lemma LEBytes(g: seq<byte>, a: nat, n: nat)
    requires n == 2 || n == 4
    requires a + n <= |g|
    ensures n == 2 ==> LE(g, a, n) == g[a] as nat + 0x100 * (g[a + 1] as nat)
    ensures n == 4 ==> LE(g, a, n) == g[a] as nat + 0x100 * (g[a + 1] as nat + 0x100 * (g[a + 2] as nat + 0x100 * (g[a + 3] as nat)))
  {
    assert LE(g, a + n, 0) == 0;
    if n == 4 {
      assert LE(g, a + 3, 1) == g[a + 3];
      assert LE(g, a + 2, 2) == g[a + 2] as nat + 0x100 * (g[a + 3] as nat);
    } else {
      assert LE(g, a + 1, 1) == g[a + 1];
    }
  }
}
