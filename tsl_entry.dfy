/** `tsl_entry`, the third stage's entry: the boot-info size check, the
    four page tables that identity-map the second and third stages, the
    RAM file system with the kernel image, and the kernel's stack, and the
    scan of the BIOS area for the ACPI root pointer. */
module TslEntry {
  import opened Bytes
  import opened Wrappers

  /** Entries per page table. */
  const ENTRIES: nat := 512
  /** The page size, `1 << 12`. */
  const PAGE: nat := 0x1000
  /** The first page a table does not reach: 512 pages of 4 KiB, 2 MiB. */
  const REACH: nat := 0x20_0000

  /** The pages the third stage maps: the second stage at `0x10000` and
      the third at `0x20000` (16 pages each), the pages from the RAM file
      system's to the end of the loaded images, and the stack pages right
      after them. */
  predicate Identity(page: nat, ramfsPage: nat, endPage: nat, stackPages: nat)
  {
    0x10 <= page < 0x20 || 0x20 <= page < 0x30
    || ramfsPage <= page < endPage || endPage <= page < endPage + stackPages
  }

  /** The first-level entry of a page: the page's own address with the
      present bit, or 0. */
  function Entry(page: nat, ramfsPage: nat, endPage: nat, stackPages: nat): qword
    requires page < ENTRIES
  {
    if Identity(page, ramfsPage, endPage, stackPages) then page * PAGE + 1 else 0
  }

  /** What the tables hold once set up: every first-level entry is
      `Entry`; the first entry of the second, third and fourth levels
      points at the level below with the present and writable bits; every
      other entry is 0. */
  ghost predicate Layout(t4: seq<qword>, t3: seq<qword>, t2: seq<qword>, t1: seq<qword>,
                         base3: dword, base2: dword, base1: dword,
                         ramfsPage: nat, endPage: nat, stackPages: nat)
  {
    |t4| == |t3| == |t2| == |t1| == ENTRIES
    && (forall i :: 0 <= i < ENTRIES ==> t1[i] == Entry(i, ramfsPage, endPage, stackPages))
    && t2[0] == base1 + 3 && t3[0] == base2 + 3 && t4[0] == base3 + 3
    && (forall i :: 1 <= i < ENTRIES ==> t2[i] == 0 && t3[i] == 0 && t4[i] == 0)
  }

  /** The table address in an entry: the entry without its low twelve
      flag bits. */
  function Frame(e: qword): nat
  {
    e - e % PAGE
  }

  /** The 4-level walk a 32-bit linear address takes once paging is on:
      bits 39, 30, 21 and 12 on select an entry at each level; a missing
      present bit, or an entry pointing at a table other than the next
      one, ends the walk. The result is the physical address. */
  function Walk(t4: seq<qword>, t3: seq<qword>, t2: seq<qword>, t1: seq<qword>,
                base3: dword, base2: dword, base1: dword, v: dword): Option<nat>
    requires |t4| == |t3| == |t2| == |t1| == ENTRIES
  {
    var e4 := t4[v / 0x80_0000_0000 % ENTRIES];
    var e3 := t3[v / 0x4000_0000 % ENTRIES];
    var e2 := t2[v / REACH % ENTRIES];
    var e1 := t1[v / PAGE % ENTRIES];
    if e4 % 2 == 0 || Frame(e4) != base3 then None
    else if e3 % 2 == 0 || Frame(e3) != base2 then None
    else if e2 % 2 == 0 || Frame(e2) != base1 then None
    else if e1 % 2 == 0 then None
    else Some(Frame(e1) + v % PAGE)
  }

  /** With the tables laid out, every 32-bit address below 2 MiB on a
      mapped page translates to itself, and every other address faults:
      the tables identity-map exactly the pages `Identity` names. */
  lemma IdentityMapping(t4: seq<qword>, t3: seq<qword>, t2: seq<qword>, t1: seq<qword>,
                        base3: dword, base2: dword, base1: dword,
                        ramfsPage: nat, endPage: nat, stackPages: nat, v: dword)
    requires base3 % PAGE == 0 && base2 % PAGE == 0 && base1 % PAGE == 0
    requires Layout(t4, t3, t2, t1, base3, base2, base1, ramfsPage, endPage, stackPages)
    ensures Walk(t4, t3, t2, t1, base3, base2, base1, v)
      == if v < REACH && Identity(v / PAGE, ramfsPage, endPage, stackPages) then Some(v) else None
  {
    assert v / 0x80_0000_0000 == 0;
    var i3, i2, page := v / 0x4000_0000 % ENTRIES, v / REACH % ENTRIES, v / PAGE % ENTRIES;
    LinkEntry(base3);
    if i3 == 0 {
      LinkEntry(base2);
      assert v < 0x4000_0000;
      if i2 == 0 {
        LinkEntry(base1);
        assert v < REACH && page == v / PAGE;
        if Identity(page, ramfsPage, endPage, stackPages) {
          PageEntry(page, v);
        }
      } else {
        assert v >= REACH;
      }
    } else {
      assert v >= 0x4000_0000;
    }
  }

  /** A table link `base + 3` is present and points at `base`. */
  lemma LinkEntry(base: dword)
    requires base % PAGE == 0
    ensures (base + 3) % 2 == 1 && Frame(base + 3) == base
  {
    ModUnique(base + 3, PAGE, base / PAGE, 3);
  }

  /** A page's identity entry is present, and with the offset of `v` in
      the page added it gives `v` back. */
  lemma PageEntry(page: nat, v: nat)
    requires page == v / PAGE && page < ENTRIES
    ensures (page * PAGE + 1) % 2 == 1 && Frame(page * PAGE + 1) + v % PAGE == v
  {
    var e := page * PAGE + 1;
    ModUnique(e, PAGE, page, 1);
    ModUnique(e, 2, page * 0x800, 1);
    assert v == PAGE * page + v % PAGE;
  }

  /** `addr | 1` and `addr | 3` on a page-aligned address: the flag bits
      are added. */
  lemma FlagBits(addr: nat, flags: nat)
    requires addr % PAGE == 0 && flags < PAGE
    ensures Or(addr, flags) == addr + flags
  {
    assert Pow2(12) == PAGE by { Pow2Values(); }
    OrLow(addr / PAGE, flags, 12);
  }

  /** The four static tables `pml4`, `pml3`, `pml2` and `pml1`, 512
      entries each, and the addresses the linker gave them (aligned to
      4 KiB). */
  class PageTables {
    const pml4: array<qword>
    const pml3: array<qword>
    const pml2: array<qword>
    const pml1: array<qword>
    const base3: dword
    const base2: dword
    const base1: dword

    ghost predicate Valid()
      reads this
    {
      pml4.Length == pml3.Length == pml2.Length == pml1.Length == ENTRIES
      && pml4 != pml3 && pml4 != pml2 && pml4 != pml1 && pml3 != pml2 && pml3 != pml1 && pml2 != pml1
      && base3 % PAGE == 0 && base2 % PAGE == 0 && base1 % PAGE == 0
    }

    /** The tables, placed at `base3`, `base2` and `base1` (the fourth
        level's own address goes to the CPU, not into a table). */
    constructor (base3: dword, base2: dword, base1: dword)
      requires base3 % PAGE == 0 && base2 % PAGE == 0 && base1 % PAGE == 0
      ensures Valid() && fresh(pml4) && fresh(pml3) && fresh(pml2) && fresh(pml1)
      ensures this.base3 == base3 && this.base2 == base2 && this.base1 == base1
    {
      pml4 := new qword[ENTRIES];
      pml3 := new qword[ENTRIES];
      pml2 := new qword[ENTRIES];
      pml1 := new qword[ENTRIES];
      this.base3, this.base2, this.base1 := base3, base2, base1;
    }

    /** `memset` of one table to 0. */
    static method Clear(t: array<qword>)
      modifies t
      ensures forall i :: 0 <= i < t.Length ==> t[i] == 0
    {
      var i := 0;
      while i < t.Length
        invariant i <= t.Length && forall j :: 0 <= j < i ==> t[j] == 0
      {
        t[i] := 0;
        i := i + 1;
      }
    }

    /** One identity-mapping loop over `count` pages from the page-aligned
        `base`: `addr = base + (i << 12)`, `pml1[addr >> 12] = addr | 1`.
        The loop does not check the index, so the pages must lie inside
        the table. */
    method MapFrom(base: nat, count: nat)
      requires Valid() && base % PAGE == 0 && (count > 0 ==> base / PAGE + count <= ENTRIES)
      modifies pml1
      ensures forall j :: 0 <= j < ENTRIES ==>
        pml1[j] == if base / PAGE <= j < base / PAGE + count then j * PAGE + 1 else old(pml1[j])
    {
      var i := 0;
      while i < count
        invariant i <= count
        invariant forall j :: 0 <= j < ENTRIES ==>
          pml1[j] == if base / PAGE <= j < base / PAGE + i then j * PAGE + 1 else old(pml1[j])
      {
        var addr := base + i * PAGE;
        FlagBits(addr, 1);
        assert addr / PAGE == base / PAGE + i && addr == (base / PAGE + i) * PAGE;
        pml1[addr / PAGE] := Or(addr, 1);
        i := i + 1;
      }
    }

    /** The RAM-file-system loop: `pml1[i] = (i << 12) | 1` for `i` from
        the first page to the end page; again the pages must lie inside
        the table. */
    method MapPages(first: nat, end: nat)
      requires Valid() && (first < end ==> end <= ENTRIES)
      modifies pml1
      ensures forall j :: 0 <= j < ENTRIES ==>
        pml1[j] == if first <= j < end then j * PAGE + 1 else old(pml1[j])
    {
      var i := first;
      while i < end
        invariant first <= end ==> first <= i <= end
        invariant first > end ==> i == first
        invariant forall j :: 0 <= j < ENTRIES ==>
          pml1[j] == if first <= j < i then j * PAGE + 1 else old(pml1[j])
      {
        FlagBits(i * PAGE, 1);
        pml1[i] := Or(i * PAGE, 1);
        i := i + 1;
      }
    }

    /** The table set-up of `tsl_entry`: the four `memset`s, the four
        identity-mapping loops and the three links. `ramfsAddress` is the
        RAM file system's address from the boot info, `endPage` the
        page-aligned end of the loaded images and `stackPages` the kernel's
        page-aligned stack size, both as pages. */
    method Setup(ramfsAddress: dword, endPage: nat, stackPages: nat)
      requires Valid()
      requires ramfsAddress / PAGE < endPage ==> endPage <= ENTRIES
      requires stackPages > 0 ==> endPage + stackPages <= ENTRIES
      modifies pml4, pml3, pml2, pml1
      ensures Layout(pml4[..], pml3[..], pml2[..], pml1[..], base3, base2, base1,
                     ramfsAddress / PAGE, endPage, stackPages)
    {
      Clear(pml4);
      Clear(pml3);
      Clear(pml2);
      Clear(pml1);
      MapFrom(0x10000, 16);
      MapFrom(0x20000, 16);
      MapPages(ramfsAddress / PAGE, endPage);
      MapFrom(endPage * PAGE, stackPages);
      FlagBits(base1, 3);
      FlagBits(base2, 3);
      FlagBits(base3, 3);
      pml2[0] := Or(base1, 3);
      pml3[0] := Or(base2, 3);
      pml4[0] := Or(base3, 3);
      forall i | 0 <= i < ENTRIES
        ensures pml1[i] == Entry(i, ramfsAddress / PAGE, endPage, stackPages)
      {
      }
    }
  }

  // The ACPI root pointer

  /** "RSD PTR ", the signature of the root system description pointer. */
  const SIGNATURE: seq<byte> := [0x52, 0x53, 0x44, 0x20, 0x50, 0x54, 0x52, 0x20]
  /** The scan covers `[0xE0000, 0xFFFFF)`; the end doubles as "not found". */
  const SCAN_FROM: nat := 0xE0000
  const SCAN_END: nat := 0xFFFFF

  /** Whether `memcmp` finds the signature at byte address `a`. */
  predicate SignatureAt(mem: seq<byte>, a: nat)
  {
    Slice(mem, a, 8) == SIGNATURE
  }

  /** The scan for the RSDP: the first address in `[0xE0000, 0xFFFFF)`
      holding the signature, or `0xFFFFF` when there is none. */
  method FindRsdp(mem: seq<byte>) returns (rsdp: dword)
    ensures SCAN_FROM <= rsdp <= SCAN_END
    ensures rsdp < SCAN_END ==> SignatureAt(mem, rsdp)
    ensures forall a :: SCAN_FROM <= a < rsdp ==> !SignatureAt(mem, a)
  {
    var i := SCAN_FROM;
    while i < SCAN_END
      invariant SCAN_FROM <= i <= SCAN_END
      invariant forall a :: SCAN_FROM <= a < i ==> !SignatureAt(mem, a)
    {
      if Slice(mem, i, 8) == SIGNATURE {
        break;
      }
      i := i + 1;
    }
    rsdp := i;
  }

  /** How `tsl_entry` ends in this model: halted (after an error
      message), or with the tables set and the RSDP found, ready for the
      jump to the kernel. */
  datatype Outcome = Halted | Ready(rsdp: dword)

  /** `tsl_entry` up to the jump: a boot info whose size field disagrees
      with the third stage's `sizeof(boot_info_t)` (`expected`) halts
      before anything else is touched; so does a failure of the loading
      steps (RAM file system, PE loader, kernel image), whose result comes
      in as `loaded`. Otherwise the tables are laid out and the RSDP scan
      runs. */
  method Enter(tables: PageTables, size: dword, expected: dword, loaded: bool,
               ramfsAddress: dword, endPage: nat, stackPages: nat, mem: seq<byte>)
    returns (r: Outcome)
    requires tables.Valid()
    requires ramfsAddress / PAGE < endPage ==> endPage <= ENTRIES
    requires stackPages > 0 ==> endPage + stackPages <= ENTRIES
    modifies tables.pml4, tables.pml3, tables.pml2, tables.pml1
    ensures size != expected || !loaded ==> r == Halted
    ensures size != expected ==> unchanged(tables.pml4, tables.pml3, tables.pml2, tables.pml1)
    ensures r.Ready? ==> size == expected && loaded
    ensures r.Ready? ==> Layout(tables.pml4[..], tables.pml3[..], tables.pml2[..], tables.pml1[..],
      tables.base3, tables.base2, tables.base1, ramfsAddress / PAGE, endPage, stackPages)
    ensures r.Ready? ==> SCAN_FROM <= r.rsdp <= SCAN_END
    ensures r.Ready? && r.rsdp < SCAN_END ==> SignatureAt(mem, r.rsdp)
    ensures r.Ready? ==> forall a :: SCAN_FROM <= a < r.rsdp ==> !SignatureAt(mem, a)
    ensures size == expected && loaded ==> r.Ready?
  {
    if size != expected {
      return Halted;
    }
    if !loaded {
      return Halted;
    }
    tables.Setup(ramfsAddress, endPage, stackPages);
    var rsdp := FindRsdp(mem);
    r := Ready(rsdp);
  }
}
