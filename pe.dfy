/** The PE32+ loader and linker of the third stage (`pe.c`).

    Images are loaded from the ramfs archive into a table of at most 16
    load states. Slot 0's load address is the start of the image area;
    registering an image in slot `i` sets slot `i + 1`'s load address just
    past it, so images are packed one after another. Imports are resolved
    by loading each DLL recursively and binding the import address table
    against the DLL's export directory.

    Pointers and `dword_t` sums are 32 bits wide: a base plus an RVA wraps
    around modulo 2^32 (`Add32`). */
module Pe {
  import opened Bytes
  import opened Wrappers
  import Strings
  import Ramfs

  const STATES_MAX: nat := 16
  const NAME_SIZE: nat := 256

  const MZ: nat := 0x5A4D
  const PE_SIGNATURE: nat := 0x0000_4550
  const PE32_PLUS: nat := 0x020B
  const E_LFANEW: nat := 60
  /** The optional header follows the 4-byte signature and the 20-byte file header. */
  const OPTIONAL: nat := 24
  const SECTION_SIZE: nat := 40
  const IMPORT_SIZE: nat := 20
  const ORDINAL_FLAG: nat := 0x8000_0000_0000_0000

  /** "ramfs/", the directory a DLL's name is looked up in */
  const RAMFS_DIR: seq<byte> := [0x72, 0x61, 0x6D, 0x66, 0x73, 0x2F]

  /** A slot of the table: the name the image was loaded under (empty for
      a free slot), where it lives, its size, its entry point and the stack
      size it asks for. */
  datatype LoadState = LoadState(name: seq<byte>, loadAddr: dword, imageSize: dword, entry: dword, stackSize: dword)

  const EMPTY: LoadState := LoadState([], 0, 0, 0, 0)

  /** 32-bit address arithmetic */
  function Add32(a: int, b: int): dword
  {
    (a + b) % U32
  }

  predicate Named(s: LoadState)
  {
    |s.name| > 0
  }

  predicate NoNul(s: seq<byte>)
  {
    forall k :: 0 <= k < |s| ==> s[k] != 0
  }

  /** `snprintf(buf, 256, "%s", s)`: at most 255 characters are kept. */
  function Truncate(s: seq<byte>): seq<byte>
  {
    if |s| < NAME_SIZE then s else s[..NAME_SIZE - 1]
  }

  // ---------------------------------------------------------------------
  // The table of load states

  /** Every name fits its 256-byte buffer with its NUL. */
  ghost predicate Names(s: seq<LoadState>)
  {
    forall k :: 0 <= k < |s| ==> |s[k].name| < NAME_SIZE && NoNul(s[k].name)
  }

  /** The named slots form a prefix of the table. */
  ghost predicate Prefix(s: seq<LoadState>)
  {
    forall j, k :: 0 <= j < k < |s| && Named(s[k]) ==> Named(s[j])
  }

  /** Each registered image is followed directly by the next one's load address. */
  ghost predicate Packed(s: seq<LoadState>)
  {
    forall k :: 0 <= k < STATES_MAX - 1 && k + 1 < |s| && Named(s[k]) ==>
      s[k + 1].loadAddr == Add32(s[k].loadAddr, s[k].imageSize)
  }

  ghost predicate Table(s: seq<LoadState>)
  {
    |s| == STATES_MAX + 1 && Names(s) && Prefix(s) && Packed(s)
  }

  /** What a load may change: a named slot stays as it is, and so does the
      load address of slot 0 and of every slot that follows a named one. */
  ghost predicate Keeps(s: seq<LoadState>, s': seq<LoadState>)
  {
    |s| == |s'|
    && (forall k :: 0 <= k < |s| && Named(s[k]) ==> s'[k] == s[k])
    && (|s| > 0 ==> s'[0].loadAddr == s[0].loadAddr)
    && (forall k :: 0 < k < |s| && Named(s[k - 1]) ==> s'[k].loadAddr == s[k].loadAddr)
  }

  lemma KeepsTrans(s: seq<LoadState>, s': seq<LoadState>, s'': seq<LoadState>)
    requires Keeps(s, s') && Keeps(s', s'')
    ensures Keeps(s, s'')
  {
    forall k | 0 < k < |s| && Named(s[k - 1])
      ensures s''[k].loadAddr == s[k].loadAddr
    {
      assert s'[k - 1] == s[k - 1];
    }
  }

  /** The number of free slots in `s` */
  ghost function FreeIn(s: seq<LoadState>): nat
  {
    if |s| == 0 then 0 else (if Named(s[0]) then 0 else 1) + FreeIn(s[1..])
  }

  /** The number of free slots among the 16 a load can use */
  ghost function Free(s: seq<LoadState>): nat
    requires STATES_MAX <= |s|
  {
    FreeIn(s[..STATES_MAX])
  }

  /** A load that keeps named slots named frees no slot, and naming a free
      slot uses one up. */
  lemma {:induction false} FreeDrops(s: seq<LoadState>, s': seq<LoadState>, i: nat)
    requires |s| == |s'|
    requires forall j :: 0 <= j < |s| && Named(s[j]) ==> Named(s'[j])
    ensures FreeIn(s') <= FreeIn(s)
    ensures i < |s| && !Named(s[i]) && Named(s'[i]) ==> FreeIn(s') < FreeIn(s)
  {
    if |s| > 0 {
      FreeDrops(s[1..], s'[1..], if i > 0 then i - 1 else |s|);
    }
  }

  /** Where `pe_load` finds a file name in the table */
  datatype Slot = Hit(i: nat) | Empty(i: nat) | Full

  /** The scan of lines 146-157 from slot `k` on: the first slot that is
      free, or that holds `filename`, or `Full` when the 16 slots hold
      other names. */
  function Lookup(s: seq<LoadState>, filename: seq<byte>, k: nat): (r: Slot)
    requires k <= STATES_MAX <= |s|
    ensures r.Hit? ==> k <= r.i < STATES_MAX && Named(s[r.i]) && s[r.i].name == filename
    ensures r.Empty? ==> k <= r.i < STATES_MAX && !Named(s[r.i])
    ensures forall j :: k <= j < STATES_MAX && (r.Full? || j < r.i) ==> Named(s[j]) && s[j].name != filename
    decreases STATES_MAX - k
  {
    if k == STATES_MAX then Full
    else if !Named(s[k]) then Empty(k)
    else if s[k].name == filename then Hit(k)
    else Lookup(s, filename, k + 1)
  }

  /** Once an image is registered under a name, looking the name up finds it. */
  lemma {:induction false} LookupFinds(s: seq<LoadState>, filename: seq<byte>, k: nat, i: nat)
    requires Prefix(s) && k <= i < STATES_MAX <= |s|
    requires Named(s[i]) && s[i].name == filename
    ensures Lookup(s, filename, k).Hit?
    ensures Lookup(s, filename, k).i <= i
    decreases i - k
  {
    assert Named(s[k]);
    if s[k].name != filename {
      LookupFinds(s, filename, k + 1, i);
    }
  }

  // ---------------------------------------------------------------------
  // Reading an image

  /** `pe_hdr`: the PE header of the image at `p` */
  function PeHeader(m: seq<byte>, p: nat): dword
  {
    Add32(p, LE32(m, p + E_LFANEW))
  }

  /** The MZ, PE and PE32+ magic numbers are all in place. */
  predicate IsPe32Plus(m: seq<byte>, p: nat)
  {
    LE16(m, p) == MZ
    && LE32(m, PeHeader(m, p)) == PE_SIGNATURE
    && LE16(m, PeHeader(m, p) + OPTIONAL) == PE32_PLUS
  }

  function SectionCount(m: seq<byte>, pe: nat): word { LE16(m, pe + 6) }
  function SectionTable(m: seq<byte>, pe: nat): dword { Add32(pe + OPTIONAL, LE16(m, pe + 20)) }
  function EntryRva(m: seq<byte>, pe: nat): dword { LE32(m, pe + OPTIONAL + 16) }
  function SizeOfImage(m: seq<byte>, pe: nat): dword { LE32(m, pe + OPTIONAL + 56) }
  function SizeOfHeaders(m: seq<byte>, pe: nat): dword { LE32(m, pe + OPTIONAL + 60) }
  function StackCommit(m: seq<byte>, pe: nat): qword { LE64(m, pe + OPTIONAL + 80) }
  /** Data directory `k` (0 exports, 1 imports): its RVA and its size */
  function DirRva(m: seq<byte>, pe: nat, k: nat): dword { LE32(m, pe + OPTIONAL + 112 + 8 * k) }
  function DirSize(m: seq<byte>, pe: nat, k: nat): dword { LE32(m, pe + OPTIONAL + 116 + 8 * k) }

  /** The data of `filename` in the archive at `fs`, when it is a PE32+ image */
  function Opened(m: seq<byte>, fs: nat, filename: seq<byte>): Option<nat>
  {
    OpenedAt(m, Ramfs.Find(m, fs, filename))
  }

  /** The data after the header `found`, when there is one and it is a
      PE32+ image. */
  function OpenedAt(m: seq<byte>, found: Option<nat>): Option<nat>
  {
    match found
    case None => None
    case Some(h) =>
      var a := (h + Ramfs.BLOCK) % U32;
      if a == 0 then None else Checked(m, a)
  }

  /** A header found 512 bytes before a non-NULL `a`, modulo 2^32, gives
      the contents at `a`. */
  lemma OpenedAtHeader(m: seq<byte>, found: Option<nat>, a: nat)
    requires found.Some? && a == (found.value + Ramfs.BLOCK) % U32 && a != 0
    ensures OpenedAt(m, found) == Checked(m, a)
  {
  }

  /** The file contents at `p`, when they are a PE32+ image. */
  function Checked(m: seq<byte>, p: nat): Option<nat>
  {
    if IsPe32Plus(m, p) then Some(p) else None
  }

  /** Memory after the section copies `k .. n - 1`: each copies
      `size_of_raw_data` bytes from `pointer_to_raw_data` in the file to
      `virtual_address` in the image, reading the section header from
      memory as it is at that point. */
  function Sections(m: seq<byte>, load: dword, p: nat, table: nat, n: nat, k: nat): (r: seq<byte>)
    ensures |r| == |m|
    decreases n - k
  {
    if k >= n then m
    else
      var s := table + SECTION_SIZE * k;
      Sections(Strings.Copy(m, Add32(load, LE32(m, s + 12)), Add32(p, LE32(m, s + 20)), LE32(m, s + 16)),
               load, p, table, n, k + 1)
  }

  /** Memory after the headers, then the sections, of the file at `p` are
      copied to `load`. The section count and table are read before the
      header copy. */
  function LoadImage(m: seq<byte>, load: dword, p: nat): (r: seq<byte>)
    ensures |r| == |m|
  {
    var pe := PeHeader(m, p);
    Sections(Strings.Copy(m, load, p, SizeOfHeaders(m, pe)), load, p, SectionTable(m, pe), SectionCount(m, pe), 0)
  }

  /** A section copy leaves the rest of the section's virtual range as it
      was: the bytes past `size_of_raw_data` are not zero-filled. */
  lemma SectionTail(m: seq<byte>, load: dword, p: nat, table: nat, n: nat, k: nat, a: nat)
    requires k < n && a < |m|
    requires var s := table + SECTION_SIZE * k;
      var dest := Add32(load, LE32(m, s + 12));
      dest + LE32(m, s + 16) <= a < dest + LE32(m, s + 8)
    ensures Sections(m, load, p, table, n, k) == Sections(Strings.Copy(m, Add32(load, LE32(m, table + SECTION_SIZE * k + 12)),
      Add32(p, LE32(m, table + SECTION_SIZE * k + 20)), LE32(m, table + SECTION_SIZE * k + 16)), load, p, table, n, k + 1)
    ensures Strings.Copy(m, Add32(load, LE32(m, table + SECTION_SIZE * k + 12)),
      Add32(p, LE32(m, table + SECTION_SIZE * k + 20)), LE32(m, table + SECTION_SIZE * k + 16))[a] == m[a]
  {
    var s := table + SECTION_SIZE * k;
    Strings.CopyFrame(m, Add32(load, LE32(m, s + 12)), Add32(p, LE32(m, s + 20)), LE32(m, s + 16), a);
  }

  /** The state registered for the image whose PE header is at `pe`, read
      from memory after the copy. */
  function Record(m: seq<byte>, load: dword, filename: seq<byte>, pe: nat): LoadState
  {
    LoadState(Truncate(filename), load, SizeOfImage(m, pe), Add32(load, EntryRva(m, pe)), StackCommit(m, pe) % U32)
  }

  /** The table after registering `r` in slot `i`, which also sets the
      next slot's load address when there is a next slot among the 16. */
  function Registered(s: seq<LoadState>, i: nat, r: LoadState): (s': seq<LoadState>)
    requires i < STATES_MAX < |s|
    ensures |s'| == |s| && s'[i] == r
  {
    var s1 := s[i := r];
    if i + 1 < STATES_MAX then s1[i + 1 := s1[i + 1].(loadAddr := Add32(r.loadAddr, r.imageSize))] else s1
  }

  /** Registering the first free slot under a name keeps the table well
      formed, keeps what a load must keep, and uses up a free slot. */
  lemma RegisterKeeps(s: seq<LoadState>, i: nat, r: LoadState)
    requires Table(s) && i < STATES_MAX && !Named(s[i])
    requires forall j :: 0 <= j < i ==> Named(s[j])
    requires Named(r) && |r.name| < NAME_SIZE && NoNul(r.name) && r.loadAddr == s[i].loadAddr
    ensures Table(Registered(s, i, r)) && Keeps(s, Registered(s, i, r))
    ensures Free(Registered(s, i, r)) < Free(s)
  {
    RegisterPrefix(s, i, r);
    RegisterPacked(s, i, r);
    RegisterFree(s, i, r);
  }

  lemma RegisterPrefix(s: seq<LoadState>, i: nat, r: LoadState)
    requires Table(s) && i < STATES_MAX && !Named(s[i])
    requires forall j :: 0 <= j < i ==> Named(s[j])
    requires Named(r) && |r.name| < NAME_SIZE && NoNul(r.name)
    ensures Names(Registered(s, i, r)) && Prefix(Registered(s, i, r))
  {
    var s' := Registered(s, i, r);
    forall j, k | 0 <= j < k < |s'| && Named(s'[k])
      ensures Named(s'[j])
    {
      if k != i {
        assert Named(s[k]);
      }
    }
  }

  lemma RegisterPacked(s: seq<LoadState>, i: nat, r: LoadState)
    requires Table(s) && i < STATES_MAX && !Named(s[i]) && r.loadAddr == s[i].loadAddr
    requires forall j :: 0 <= j < i ==> Named(s[j])
    ensures Packed(Registered(s, i, r)) && Keeps(s, Registered(s, i, r))
  {
    var s' := Registered(s, i, r);
    forall k | 0 <= k < STATES_MAX - 1 && Named(s'[k])
      ensures s'[k + 1].loadAddr == Add32(s'[k].loadAddr, s'[k].imageSize)
    {
      if k < i {
        assert s'[k] == s[k] && s'[k + 1].loadAddr == s[k + 1].loadAddr;
      }
    }
  }

  lemma RegisterFree(s: seq<LoadState>, i: nat, r: LoadState)
    requires Table(s) && i < STATES_MAX && !Named(s[i]) && Named(r)
    requires forall j :: 0 <= j < i ==> Named(s[j])
    ensures Free(Registered(s, i, r)) < Free(s)
  {
    var t, t' := s[..STATES_MAX], Registered(s, i, r)[..STATES_MAX];
    forall j | 0 <= j < STATES_MAX && Named(t[j])
      ensures Named(t'[j])
    {
      assert j < i;
    }
    FreeDrops(t, t', i);
  }

  // ---------------------------------------------------------------------
  // Import binding

  /** The export tables of a loaded DLL: its load address, its export
      directory, and the address, name and ordinal tables. */
  datatype Exports = Exports(load: dword, dir: dword, eat: dword, names: dword, ords: dword)

  /** The export directory of the DLL loaded at `dll`, as lines 239-253 read it */
  function ExportsOf(m: seq<byte>, dll: dword): Exports
  {
    var dir := Add32(dll, DirRva(m, PeHeader(m, dll), 0));
    Exports(dll, dir, Add32(dll, LE32(m, dir + 28)), Add32(dll, LE32(m, dir + 32)), Add32(dll, LE32(m, dir + 36)))
  }

  /** `number_of_name_pointers` */
  function NameCount(m: seq<byte>, e: Exports): dword { LE32(m, e.dir + 24) }

  /** The address of the export name `j` */
  function NameAddr(m: seq<byte>, e: Exports, j: nat): dword { Add32(e.load, LE32(m, e.names + 4 * j)) }

  /** `memcmp(sym, a, strlen(sym) + 1) == 0`: the string at `a` is the string at `sym`. */
  predicate NameIs(m: seq<byte>, sym: nat, a: nat)
  {
    Strings.SameBytes(m, sym, a, Strings.StrLen(m, sym) + 1)
  }

  /** The linear search of the name table from entry `j` on */
  function Scan(m: seq<byte>, sym: nat, e: Exports, j: nat): (r: Option<nat>)
    ensures r.Some? ==> j <= r.value < NameCount(m, e) && NameIs(m, sym, NameAddr(m, e, r.value))
    ensures forall k :: j <= k < NameCount(m, e) && (r.None? || k < r.value) ==> !NameIs(m, sym, NameAddr(m, e, k))
    decreases NameCount(m, e) - j
  {
    if j >= NameCount(m, e) then None
    else if NameIs(m, sym, NameAddr(m, e, j)) then Some(j)
    else Scan(m, sym, e, j + 1)
  }

  /** The name-table index a symbol resolves to: the hint when the name
      there matches, else the first match of the linear search. */
  function Resolve(m: seq<byte>, sym: nat, e: Exports, hint: word): (r: Option<nat>)
    ensures r.Some? ==> NameIs(m, sym, NameAddr(m, e, r.value))
    ensures r.None? <==> !NameIs(m, sym, NameAddr(m, e, hint)) && forall k :: 0 <= k < NameCount(m, e) ==> !NameIs(m, sym, NameAddr(m, e, k))
  {
    if NameIs(m, sym, NameAddr(m, e, hint)) then Some(hint) else Scan(m, sym, e, 0)
  }

  /** When at most one export bears the symbol's name, the hint is only a
      shortcut: resolving with a valid hint gives what the search gives. */
  lemma ResolveUnique(m: seq<byte>, sym: nat, e: Exports, hint: word)
    requires hint < NameCount(m, e)
    requires forall j, k :: 0 <= j < k < NameCount(m, e) && NameIs(m, sym, NameAddr(m, e, j)) ==> !NameIs(m, sym, NameAddr(m, e, k))
    ensures Resolve(m, sym, e, hint) == Scan(m, sym, e, 0)
  {
    if NameIs(m, sym, NameAddr(m, e, hint)) {
      assert Scan(m, sym, e, 0).Some?;
    }
  }

  /** The hint word and the name of the import-by-name entry at RVA `v` */
  function Hint(m: seq<byte>, image: dword, v: qword): word { LE16(m, Add32(image, v % U32)) }
  function Symbol(image: dword, v: qword): dword { Add32(image, v % U32 + 2) }

  /** The address bound for name-table index `k`: the export address
      table entry at its ordinal, relative to the DLL */
  function Target(m: seq<byte>, e: Exports, k: nat): dword
  {
    Add32(e.load, LE32(m, e.eat + 4 * LE16(m, e.ords + 2 * k)))
  }

  lemma {:induction false} LEPast(m: seq<byte>, a: nat, n: nat)
    requires a >= |m|
    ensures LE(m, a, n) == 0
    decreases n
  {
    if n > 0 {
      LEPast(m, a + 1, n - 1);
    }
  }

  /** A non-zero value is read from inside memory. */
  lemma LEInside(m: seq<byte>, a: nat, n: nat)
    requires LE(m, a, n) != 0
    ensures a < |m|
  {
    if a >= |m| {
      LEPast(m, a, n);
    }
  }

  /** The address bound into the non-zero slot at `t`, or `None` when the
      slot imports by ordinal or names no export. */
  function SlotValue(m: seq<byte>, image: dword, e: Exports, t: nat): Option<dword>
  {
    var v := LE64(m, t);
    if v >= ORDINAL_FLAG then None
    else
      match Resolve(m, Symbol(image, v), e, Hint(m, image, v))
      case None => None
      case Some(k) => Some(Target(m, e, k))
  }

  /** Binding the import address table from the slot at `t` on: the
      memory at the end and whether every slot was bound. The table ends
      at a zero slot; an import by ordinal or a name that is not exported
      stops the binding, with the earlier slots already bound. */
  function Bind(m: seq<byte>, image: dword, e: Exports, t: nat): (r: (seq<byte>, bool))
    ensures |r.0| == |m|
    decreases |m| - t
  {
    if LE64(m, t) == 0 then (m, true)
    else
      match SlotValue(m, image, e, t)
      case None => (m, false)
      case Some(x) =>
        LEInside(m, t, 8);
        Bind(Write(m, t, Encode(x, 8)), image, e, t + 8)
  }

  /** Binding writes only at and after the table: no byte before it changes. */
  lemma {:induction false} BindFrame(m: seq<byte>, image: dword, e: Exports, t: nat, a: nat)
    requires a < t && a < |m|
    ensures Bind(m, image, e, t).0[a] == m[a]
    decreases |m| - t
  {
    if LE64(m, t) != 0 {
      match SlotValue(m, image, e, t)
      case None =>
      case Some(x) =>
        LEInside(m, t, 8);
        BindFrame(Write(m, t, Encode(x, 8)), image, e, t + 8, a);
    }
  }

  /** A bound slot reads back as the address bound into it. */
  lemma SlotReadsBack(m: seq<byte>, t: nat, x: dword)
    requires t + 8 <= |m|
    ensures LE64(Write(m, t, Encode(x, 8)), t) == x
  {
    EncodeRoundTrip(m, t, x, 8);
    Pow2Qword();
    assert x < U64;
    ModUnique(x, U64, 0, x);
  }

  /** One DLL's import, after the DLL loaded into `dll` leaving memory
      `m1`: `m2` is `m1` with the import address table of the descriptor
      at `d` bound against the DLL's exports, and `ok` says whether every
      slot was bound. A DLL without an export directory fails with
      nothing bound. */
  ghost predicate Linked(m1: seq<byte>, m2: seq<byte>, ok: bool, image: dword, dll: dword, d: nat)
  {
    var e := ExportsOf(m1, dll);
    var iat := Add32(image, LE32(m1, d + 16));
    if DirSize(m1, PeHeader(m1, dll), 0) == 0 then !ok && m2 == m1
    else ok == Bind(m1, image, e, iat).1 && m2 == Bind(m1, image, e, iat).0
  }

  /** The path of the DLL named by the import descriptor at `d` */
  function DllPath(m: seq<byte>, image: dword, d: nat): (r: seq<byte>)
    ensures 0 < |r| < NAME_SIZE && NoNul(r)
  {
    Truncate(RAMFS_DIR + Strings.CString(m, Add32(image, LE32(m, d + 12))))
  }

  // ---------------------------------------------------------------------
  // What a load does

  /** What `pe_load` of `filename` does to memory `m` and the table `s`,
      giving `m'` and `s'`, short of what its imports do: a name in the
      table is found there; a full table, or a file that is missing or
      not a PE32+ image, fails with nothing changed; otherwise the image
      is copied and registered in the first free slot, and a success
      reports that slot. */
  ghost predicate Loaded(fs: nat, m: seq<byte>, s: seq<LoadState>, filename: seq<byte>,
                         ok: bool, slot: nat, m': seq<byte>, s': seq<LoadState>)
  {
    Table(s) && Table(s') && Keeps(s, s') && Free(s') <= Free(s)
    && (ok ==> slot < STATES_MAX && s'[slot].name == Truncate(filename))
    && match Lookup(s, filename, 0)
       case Hit(i) => ok && slot == i && m' == m && s' == s
       case Full => !ok && m' == m && s' == s
       case Empty(i) =>
         match Opened(m, fs, filename)
         case None => !ok && m' == m && s' == s
         case Some(p) =>
           s'[i] == Record(LoadImage(m, s[i].loadAddr, p), s[i].loadAddr, filename, PeHeader(m, p))
           && (ok ==> slot == i)
  }

  /** One descriptor of the import loop: memory and table before it, the
      `pe_load` of its DLL (its outcome, slot, and memory and table
      after, and the run of the DLL's own import loop when it was loaded
      anew), memory after the binding, and whether the import succeeded. */
  datatype DllImport = DllImport(before: seq<byte>, table: seq<LoadState>, loaded: bool, dll: nat,
                                 loadedMem: seq<byte>, loadedTable: seq<LoadState>, after: seq<byte>, ok: bool,
                                 nested: seq<DllImport>)

  /** The whole of `pe_load` of `filename`: `Loaded`, and for a file loaded
      anew into the free slot, `LoadedNew` with the run `outs` of its own
      import loop; `outs` is empty otherwise. */
  ghost predicate PeLoaded(fs: nat, m: seq<byte>, s: seq<LoadState>, filename: seq<byte>,
                           ok: bool, slot: nat, outs: seq<DllImport>, m': seq<byte>, s': seq<LoadState>)
    decreases outs, 4
  {
    Loaded(fs, m, s, filename, ok, slot, m', s')
    && match Lookup(s, filename, 0)
       case Empty(i) =>
         (match Opened(m, fs, filename)
          case Some(p) => LoadedNew(fs, m, s, filename, i, p, ok, outs, m', s')
          case None => outs == [])
       case _ => outs == []
  }

  /** A `pe_load` keeps the slots already named and frees no slot, and
      a success reports a slot of the table. */
  lemma LoadKeeps(fs: nat, m: seq<byte>, s: seq<LoadState>, filename: seq<byte>,
                  ok: bool, slot: nat, outs: seq<DllImport>, m': seq<byte>, s': seq<LoadState>)
    requires PeLoaded(fs, m, s, filename, ok, slot, outs, m', s')
    ensures Keeps(s, s') && Free(s') <= Free(s) && (ok ==> slot < STATES_MAX)
  {
  }

  /** `ImportStep` from its parts, for the outcome `ImportDll` builds */
  lemma StepOf(fs: nat, image: dword, d: nat, m0: seq<byte>, s0: seq<LoadState>, loaded: bool, slot: nat,
               inner: seq<DllImport>, m1: seq<byte>, s1: seq<LoadState>, m2: seq<byte>, ok: bool)
    requires LE32(m0, d) != 0
    requires PeLoaded(fs, m0, s0, DllPath(m0, image, d), loaded, slot, inner, m1, s1)
    requires loaded ==> slot < |s1| && Linked(m1, m2, ok, image, s1[slot].loadAddr, d)
    requires !loaded ==> !ok && m2 == m1
    ensures ImportStep(fs, DllImport(m0, s0, loaded, slot, m1, s1, m2, ok, inner), image, d)
  {
  }

  /** The descriptor at `d` of the image at `image` is imported as `o`
      says: it is non-zero and its DLL is loaded under `ramfs/<name>`,
      imports and all; a DLL that loaded has the import address table
      bound against its exports, and one that did not fails the import
      with nothing bound. */
  ghost predicate ImportStep(fs: nat, o: DllImport, image: dword, d: nat)
    decreases o, 0
  {
    LE32(o.before, d) != 0
    && PeLoaded(fs, o.before, o.table, DllPath(o.before, image, d), o.loaded, o.dll, o.nested, o.loadedMem, o.loadedTable)
    && if o.loaded then Linked(o.loadedMem, o.after, o.ok, image, o.loadedTable[o.dll].loadAddr, d)
       else !o.ok && o.after == o.loadedMem
  }

  /** `ImportStep` for the image at `image`, as a predicate on a
      descriptor's outcome and address */
  ghost function StepAt(fs: nat, image: dword): (DllImport, nat) -> bool
  {
    (o: DllImport, d: nat) => ImportStep(fs, o, image, d)
  }

  /** `StepAt` on the outcomes of `outs` only: the nested loads a run
      makes are then seen to be smaller than the run. */
  ghost function StepIn(fs: nat, image: dword, outs: seq<DllImport>): (DllImport, nat) -> bool
    decreases outs, 1
  {
    (o: DllImport, d: nat) => o in outs && ImportStep(fs, o, image, d)
  }

  /** The address of descriptor `k` of the table at `d0` */
  function Descriptor(d0: nat, k: nat): nat
  {
    d0 + IMPORT_SIZE * k
  }

  /** Descriptors follow each other `IMPORT_SIZE` bytes apart. */
  lemma DescriptorNext(d0: nat, k: nat)
    ensures Descriptor(d0, k + 1) == Descriptor(d0, k) + IMPORT_SIZE
  {
  }

  /** Memory after the first `k` descriptors of `outs`, from `m0` */
  function MemAfter(outs: seq<DllImport>, m0: seq<byte>, k: nat): seq<byte>
    requires k <= |outs|
  {
    if k == 0 then m0 else outs[k - 1].after
  }

  /** The table after the first `k` descriptors of `outs`, from `s0` */
  function TableAfter(outs: seq<DllImport>, s0: seq<LoadState>, k: nat): seq<LoadState>
    requires k <= |outs|
  {
    if k == 0 then s0 else outs[k - 1].loadedTable
  }

  /** `outs` are descriptors from `d0` on, each one `step` at its address,
      imported from the memory and table the previous one left, after a
      successful one. */
  ghost predicate Chain(step: (DllImport, nat) -> bool, d0: nat, outs: seq<DllImport>, m0: seq<byte>, s0: seq<LoadState>)
    decreases |outs|
  {
    |outs| == 0
    || (var n := |outs| - 1;
        Chain(step, d0, outs[..n], m0, s0)
        && (0 < n ==> outs[n - 1].ok)
        && step(outs[n], Descriptor(d0, n))
        && outs[n].before == MemAfter(outs, m0, n) && outs[n].table == TableAfter(outs, s0, n))
  }

  /** The import loop of lines 213-301 run from the descriptor at `d0`:
      it imports the descriptors `outs` in turn, stopping at the first
      that fails, leaves the memory and table the last one left, succeeds
      when the last descriptor was imported, and a success stopped at a
      zero descriptor. */
  ghost predicate ImportRun(fs: nat, image: dword, d0: nat, m0: seq<byte>, s0: seq<LoadState>,
                            ok: bool, outs: seq<DllImport>, m': seq<byte>, s': seq<LoadState>)
    decreases outs, 2
  {
    Chain(StepIn(fs, image, outs), d0, outs, m0, s0)
    && m' == MemAfter(outs, m0, |outs|) && s' == TableAfter(outs, s0, |outs|)
    && (ok <==> |outs| == 0 || outs[|outs| - 1].ok)
    && (ok ==> LE32(m', Descriptor(d0, |outs|)) == 0)
  }

  /** The loop's invariant at either exit is a run of the loop. */
  lemma RunExit(fs: nat, image: dword, d0: nat, m0: seq<byte>, s0: seq<LoadState>,
                ok: bool, outs: seq<DllImport>, m': seq<byte>, s': seq<LoadState>, d: nat)
    requires Chain(StepAt(fs, image), d0, outs, m0, s0)
    requires m' == MemAfter(outs, m0, |outs|) && s' == TableAfter(outs, s0, |outs|)
    requires ok ==> (0 < |outs| ==> outs[|outs| - 1].ok) && d == Descriptor(d0, |outs|) && LE32(m', d) == 0
    requires !ok ==> 0 < |outs| && !outs[|outs| - 1].ok
    ensures ImportRun(fs, image, d0, m0, s0, ok, outs, m', s')
  {
    forall k | 0 <= k < |outs| && StepAt(fs, image)(outs[k], Descriptor(d0, k))
      ensures StepIn(fs, image, outs)(outs[k], Descriptor(d0, k))
    {
    }
    ChainMono(StepAt(fs, image), StepIn(fs, image, outs), d0, outs, m0, s0);
  }

  /** A chain under `step` is one under any `step'` that holds wherever
      `step` holds on it. */
  lemma {:induction false} ChainMono(step: (DllImport, nat) -> bool, step': (DllImport, nat) -> bool,
                                     d0: nat, outs: seq<DllImport>, m0: seq<byte>, s0: seq<LoadState>)
    requires Chain(step, d0, outs, m0, s0)
    requires forall k :: 0 <= k < |outs| && step(outs[k], Descriptor(d0, k)) ==> step'(outs[k], Descriptor(d0, k))
    ensures Chain(step', d0, outs, m0, s0)
    decreases |outs|
  {
    if 0 < |outs| {
      var n := |outs| - 1;
      var prefix := outs[..n];
      forall k | 0 <= k < |prefix| && step(prefix[k], Descriptor(d0, k))
        ensures step'(prefix[k], Descriptor(d0, k))
      {
        assert prefix[k] == outs[k];
      }
      ChainMono(step, step', d0, prefix, m0, s0);
    }
  }

  /** A descriptor imported from where a chain that ends in a success
      left off extends it. */
  lemma ChainSnoc(step: (DllImport, nat) -> bool, d0: nat, outs: seq<DllImport>, o: DllImport, m0: seq<byte>, s0: seq<LoadState>, d: nat)
    requires Chain(step, d0, outs, m0, s0) && (0 < |outs| ==> outs[|outs| - 1].ok)
    requires d == Descriptor(d0, |outs|) && step(o, d)
    requires o.before == MemAfter(outs, m0, |outs|) && o.table == TableAfter(outs, s0, |outs|)
    ensures Chain(step, d0, outs + [o], m0, s0)
    ensures MemAfter(outs + [o], m0, |outs| + 1) == o.after
    ensures TableAfter(outs + [o], s0, |outs| + 1) == o.loadedTable
  {
    var outs' := outs + [o];
    assert outs'[..|outs|] == outs;
    if 0 < |outs| {
      assert outs'[|outs| - 1] == outs[|outs| - 1];
    }
  }

  /** Each descriptor of a chain is `step` at its address and was imported
      from where the one before it left off, and every one but the last
      succeeded. */
  lemma {:induction false} ChainAt(step: (DllImport, nat) -> bool, d0: nat, outs: seq<DllImport>, m0: seq<byte>, s0: seq<LoadState>, k: nat)
    requires Chain(step, d0, outs, m0, s0) && k < |outs|
    ensures step(outs[k], Descriptor(d0, k))
    ensures outs[k].before == MemAfter(outs, m0, k) && outs[k].table == TableAfter(outs, s0, k)
    ensures k < |outs| - 1 ==> outs[k].ok
    decreases |outs|
  {
    var n := |outs| - 1;
    if k < n {
      var prefix := outs[..n];
      ChainAt(step, d0, prefix, m0, s0, k);
      assert prefix[k] == outs[k];
      if 0 < k {
        assert prefix[k - 1] == outs[k - 1];
      }
    }
  }

  /** The import loop succeeds exactly when every descriptor it imported
      did, and each of those was imported as `ImportStep` says. */
  lemma RunSucceeds(fs: nat, image: dword, d0: nat, m0: seq<byte>, s0: seq<LoadState>,
                    ok: bool, outs: seq<DllImport>, m': seq<byte>, s': seq<LoadState>)
    requires ImportRun(fs, image, d0, m0, s0, ok, outs, m', s')
    ensures ok <==> forall k :: 0 <= k < |outs| ==> outs[k].ok
    ensures forall k :: 0 <= k < |outs| ==> ImportStep(fs, outs[k], image, Descriptor(d0, k))
  {
    forall k | 0 <= k < |outs|
      ensures ImportStep(fs, outs[k], image, Descriptor(d0, k)) && (k < |outs| - 1 ==> outs[k].ok)
    {
      ChainAt(StepIn(fs, image, outs), d0, outs, m0, s0, k);
    }
  }

  /** `pe_load` of the file at `p` into the free slot `i`: the image is
      copied and registered; without an import directory the load
      succeeds with nothing more done, and with one it is the import
      loop from the directory's first descriptor, and succeeds exactly
      when that loop does. */
  ghost predicate LoadedNew(fs: nat, m: seq<byte>, s: seq<LoadState>, filename: seq<byte>, i: nat, p: nat,
                            ok: bool, outs: seq<DllImport>, m': seq<byte>, s': seq<LoadState>)
    requires i < STATES_MAX < |s|
    decreases outs, 3
  {
    var load := s[i].loadAddr;
    var image := LoadImage(m, load, p);
    var pe := PeHeader(m, p);
    var s1 := Registered(s, i, Record(image, load, filename, pe));
    if DirSize(image, pe, 1) == 0 then ok && outs == [] && m' == image && s' == s1
    else ImportRun(fs, load, Add32(load, DirRva(image, pe, 1)), image, s1, ok, outs, m', s')
  }

  /** `LoadedNew` from the image and the table after registration. */
  lemma LoadedNewOf(fs: nat, m: seq<byte>, s: seq<LoadState>, filename: seq<byte>, i: nat, p: nat,
                    ok: bool, outs: seq<DllImport>, m': seq<byte>, s': seq<LoadState>,
                    image: seq<byte>, s1: seq<LoadState>)
    requires i < STATES_MAX < |s|
    requires image == LoadImage(m, s[i].loadAddr, p)
    requires s1 == Registered(s, i, Record(image, s[i].loadAddr, filename, PeHeader(m, p)))
    requires DirSize(image, PeHeader(m, p), 1) == 0 ==> ok && outs == [] && m' == image && s' == s1
    requires DirSize(image, PeHeader(m, p), 1) != 0 ==>
      ImportRun(fs, s[i].loadAddr, Add32(s[i].loadAddr, DirRva(image, PeHeader(m, p), 1)), image, s1, ok, outs, m', s')
    ensures LoadedNew(fs, m, s, filename, i, p, ok, outs, m', s')
  {
  }

  /** `pe_load` is a function of memory and table: two loads of the same
      name from the same state agree on the outcome, the memory and the
      table they leave, and on the slot of a success. */
  lemma PeLoadedUnique(fs: nat, m: seq<byte>, s: seq<LoadState>, filename: seq<byte>,
                       ok1: bool, slot1: nat, outs1: seq<DllImport>, m1: seq<byte>, s1: seq<LoadState>,
                       ok2: bool, slot2: nat, outs2: seq<DllImport>, m2: seq<byte>, s2: seq<LoadState>)
    requires PeLoaded(fs, m, s, filename, ok1, slot1, outs1, m1, s1)
    requires PeLoaded(fs, m, s, filename, ok2, slot2, outs2, m2, s2)
    ensures ok1 == ok2 && m1 == m2 && s1 == s2 && (ok1 ==> slot1 == slot2)
    decreases outs1, 4
  {
    var look, file := Lookup(s, filename, 0), Opened(m, fs, filename);
    if look.Empty? && file.Some? {
      LoadedNewUnique(fs, m, s, filename, look.i, file.value, ok1, outs1, m1, s1, ok2, outs2, m2, s2);
    }
  }

  /** A load anew is a function of memory and table. */
  lemma LoadedNewUnique(fs: nat, m: seq<byte>, s: seq<LoadState>, filename: seq<byte>, i: nat, p: nat,
                        ok1: bool, outs1: seq<DllImport>, m1: seq<byte>, s1: seq<LoadState>,
                        ok2: bool, outs2: seq<DllImport>, m2: seq<byte>, s2: seq<LoadState>)
    requires i < STATES_MAX < |s|
    requires LoadedNew(fs, m, s, filename, i, p, ok1, outs1, m1, s1)
    requires LoadedNew(fs, m, s, filename, i, p, ok2, outs2, m2, s2)
    ensures ok1 == ok2 && m1 == m2 && s1 == s2
    decreases outs1, 3
  {
    var load := s[i].loadAddr;
    var image := LoadImage(m, load, p);
    var pe := PeHeader(m, p);
    var r := Registered(s, i, Record(image, load, filename, pe));
    if DirSize(image, pe, 1) != 0 {
      RunUnique(fs, load, Add32(load, DirRva(image, pe, 1)), image, r, ok1, outs1, m1, s1, ok2, outs2, m2, s2);
    }
  }

  /** The import loop is a function of memory and table: two runs from the
      same state import the same number of descriptors and end alike. */
  lemma RunUnique(fs: nat, image: dword, d0: nat, m0: seq<byte>, s0: seq<LoadState>,
                  ok1: bool, outs1: seq<DllImport>, m1: seq<byte>, s1: seq<LoadState>,
                  ok2: bool, outs2: seq<DllImport>, m2: seq<byte>, s2: seq<LoadState>)
    requires ImportRun(fs, image, d0, m0, s0, ok1, outs1, m1, s1)
    requires ImportRun(fs, image, d0, m0, s0, ok2, outs2, m2, s2)
    ensures |outs1| == |outs2| && ok1 == ok2 && m1 == m2 && s1 == s2
    decreases outs1, 2
  {
    var k := 0;
    while k < |outs1| && k < |outs2|
      invariant k <= |outs1| && k <= |outs2|
      invariant MemAfter(outs1, m0, k) == MemAfter(outs2, m0, k)
      invariant TableAfter(outs1, s0, k) == TableAfter(outs2, s0, k)
      invariant 0 < k ==> outs1[k - 1].ok == outs2[k - 1].ok
    {
      StepsAgree(fs, image, d0, m0, s0, outs1, outs2, k);
      k := k + 1;
    }
    RunEnds(fs, image, d0, m0, s0, ok1, outs1, m1, s1, ok2, outs2, m2, s2, k);
  }

  /** Two chains that reached descriptor `k` from the same state import it
      alike. */
  lemma StepsAgree(fs: nat, image: dword, d0: nat, m0: seq<byte>, s0: seq<LoadState>,
                   outs1: seq<DllImport>, outs2: seq<DllImport>, k: nat)
    requires Chain(StepIn(fs, image, outs1), d0, outs1, m0, s0) && Chain(StepIn(fs, image, outs2), d0, outs2, m0, s0)
    requires k < |outs1| && k < |outs2|
    requires MemAfter(outs1, m0, k) == MemAfter(outs2, m0, k) && TableAfter(outs1, s0, k) == TableAfter(outs2, s0, k)
    ensures MemAfter(outs1, m0, k + 1) == MemAfter(outs2, m0, k + 1)
    ensures TableAfter(outs1, s0, k + 1) == TableAfter(outs2, s0, k + 1)
    ensures outs1[k].ok == outs2[k].ok
    decreases outs1, 1
  {
    ChainAt(StepIn(fs, image, outs1), d0, outs1, m0, s0, k);
    ChainAt(StepIn(fs, image, outs2), d0, outs2, m0, s0, k);
    StepUnique(fs, outs1[k], outs2[k], image, Descriptor(d0, k));
  }

  /** Two runs that agree on their first `k` descriptors, `k` the length of
      the shorter, are equally long and end alike: a run stops only at a
      failure or at a zero descriptor, where the other run could not go on
      either. */
  lemma RunEnds(fs: nat, image: dword, d0: nat, m0: seq<byte>, s0: seq<LoadState>,
                ok1: bool, outs1: seq<DllImport>, m1: seq<byte>, s1: seq<LoadState>,
                ok2: bool, outs2: seq<DllImport>, m2: seq<byte>, s2: seq<LoadState>, k: nat)
    requires ImportRun(fs, image, d0, m0, s0, ok1, outs1, m1, s1)
    requires ImportRun(fs, image, d0, m0, s0, ok2, outs2, m2, s2)
    requires k <= |outs1| && k <= |outs2| && (k == |outs1| || k == |outs2|)
    requires MemAfter(outs1, m0, k) == MemAfter(outs2, m0, k) && TableAfter(outs1, s0, k) == TableAfter(outs2, s0, k)
    requires 0 < k ==> outs1[k - 1].ok == outs2[k - 1].ok
    ensures |outs1| == |outs2| && ok1 == ok2 && m1 == m2 && s1 == s2
  {
    StepInNonZero(fs, image, outs1);
    StepInNonZero(fs, image, outs2);
    if k < |outs2| {
      ChainGoesOn(StepIn(fs, image, outs2), d0, outs2, m0, s0, k);
    } else if k < |outs1| {
      ChainGoesOn(StepIn(fs, image, outs1), d0, outs1, m0, s0, k);
    }
  }

  /** An imported descriptor is non-zero. */
  lemma StepInNonZero(fs: nat, image: dword, outs: seq<DllImport>)
    ensures forall o: DllImport, d: nat :: StepIn(fs, image, outs)(o, d) ==> LE32(o.before, d) != 0
  {
  }

  /** A chain of imports reaches descriptor `k` only when it is non-zero
      and the one before it succeeded. */
  lemma ChainGoesOn(step: (DllImport, nat) -> bool, d0: nat, outs: seq<DllImport>, m0: seq<byte>, s0: seq<LoadState>, k: nat)
    requires Chain(step, d0, outs, m0, s0) && k < |outs|
    requires forall o: DllImport, d: nat :: step(o, d) ==> LE32(o.before, d) != 0
    ensures LE32(MemAfter(outs, m0, k), Descriptor(d0, k)) != 0
    ensures 0 < k ==> outs[k - 1].ok
  {
    ChainAt(step, d0, outs, m0, s0, k);
    if 0 < k {
      ChainAt(step, d0, outs, m0, s0, k - 1);
    }
  }

  /** One descriptor's import is a function of memory and table. */
  lemma StepUnique(fs: nat, o1: DllImport, o2: DllImport, image: dword, d: nat)
    requires ImportStep(fs, o1, image, d) && ImportStep(fs, o2, image, d)
    requires o1.before == o2.before && o1.table == o2.table
    ensures o1.ok == o2.ok && o1.after == o2.after && o1.loadedTable == o2.loadedTable
    decreases o1, 0
  {
    PeLoadedUnique(fs, o1.before, o1.table, DllPath(o1.before, image, d),
                   o1.loaded, o1.dll, o1.nested, o1.loadedMem, o1.loadedTable,
                   o2.loaded, o2.dll, o2.nested, o2.loadedMem, o2.loadedTable);
  }

  // ---------------------------------------------------------------------
  // The loader

  /** The loader's static context: the 17 load states, and the archive
      images are read from. */
  class Loader {
    const states: array<LoadState>
    const fs: Ramfs.Ramfs

    ghost predicate Valid()
      reads this, states
    {
      Table(states[..])
    }

    /** The zero-initialised context */
    constructor(fs: Ramfs.Ramfs)
      ensures Valid() && this.fs == fs && fresh(states)
      ensures forall k :: 0 <= k < states.Length ==> states[k] == EMPTY
    {
      this.fs := fs;
      states := new LoadState[STATES_MAX + 1](_ => EMPTY);
    }

    /** `pe_loader_init`: clears the table and sets slot 0's load address
        to `start`. It always succeeds. */
    method Init(start: dword) returns (ok: bool)
      requires states.Length == STATES_MAX + 1
      modifies states
      ensures ok && Valid()
      ensures forall k :: 0 <= k < states.Length ==> states[k] == if k == 0 then EMPTY.(loadAddr := start) else EMPTY
    {
      var k := 0;
      while k < states.Length
        invariant k <= states.Length
        invariant forall j :: 0 <= j < k ==> states[j] == EMPTY
      {
        states[k] := EMPTY;
        k := k + 1;
      }
      states[0] := EMPTY.(loadAddr := start);
      ok := true;
    }

    /** `pe_get_memory_range`: the start of the image area, and the end of
        the last slot with a non-zero load address; `None` when no slot
        has one (the source's loop does not stop there). */
    method MemoryRange() returns (begin: dword, end: Option<dword>)
      requires Valid()
      ensures begin == states[0].loadAddr
      ensures end == match LastLoaded(states[..], STATES_MAX)
        case None => None
        case Some(k) => Some(Add32(states[k].loadAddr, states[k].imageSize))
    {
      begin := states[0].loadAddr;
      assert |states[..]| == STATES_MAX + 1;
      var i: nat := STATES_MAX;
      while i > 0
        invariant i <= STATES_MAX
        invariant LastLoaded(states[..], i) == LastLoaded(states[..], STATES_MAX)
      {
        if states[i - 1].loadAddr != 0 {
          return begin, Some(Add32(states[i - 1].loadAddr, states[i - 1].imageSize));
        }
        i := i - 1;
      }
      end := None;
    }

    /** The lookup loop of `pe_load`. The stored name is compared with its
        NUL, so it must equal the whole file name. */
    method FindSlot(filename: seq<byte>) returns (r: Slot)
      requires Valid()
      ensures r == Lookup(states[..], filename, 0)
    {
      var i := 0;
      while i < STATES_MAX
        invariant i <= STATES_MAX
        invariant Lookup(states[..], filename, i) == Lookup(states[..], filename, 0)
      {
        if |states[i].name| == 0 {
          return Empty(i);
        } else if states[i].name == filename {
          return Hit(i);
        }
        i := i + 1;
      }
      r := Full;
    }

    /** Copies the headers and the sections of the file at `p` to `load`. */
    method CopyImage(mem: array<byte>, load: dword, p: nat)
      modifies mem
      ensures mem[..] == LoadImage(old(mem[..]), load, p)
    {
      var pe := PeHeader(mem[..], p);
      var count := SectionCount(mem[..], pe);
      var table := SectionTable(mem[..], pe);
      ghost var m1 := Strings.Copy(mem[..], load, p, SizeOfHeaders(mem[..], pe));
      var _ := Strings.MemCpy(mem, load, p, SizeOfHeaders(mem[..], pe));
      assert mem[..] == m1;
      var k := 0;
      while k < count
        invariant k <= count
        invariant Sections(mem[..], load, p, table, count, k) == LoadImage(old(mem[..]), load, p)
      {
        var s := table + SECTION_SIZE * k;
        var _ := Strings.MemCpy(mem, Add32(load, LE32(mem[..], s + 12)), Add32(p, LE32(mem[..], s + 20)), LE32(mem[..], s + 16));
        k := k + 1;
      }
    }

    /** Fills slot `i` with `r` and packs the next slot after it. */
    method Register(i: nat, r: LoadState)
      requires Valid() && i < STATES_MAX
      modifies states
      ensures states[..] == Registered(old(states[..]), i, r)
    {
      states[i] := r;
      if i + 1 < STATES_MAX {
        states[i + 1] := states[i + 1].(loadAddr := Add32(r.loadAddr, r.imageSize));
      }
    }

    /** Stores the 64-bit value `v` at `t`. */
    method Store64(mem: array<byte>, t: nat, v: dword)
      modifies mem
      ensures mem[..] == Write(old(mem[..]), t, Encode(v, 8))
    {
      var b := Encode(v, 8);
      var j := 0;
      while j < 8
        invariant j <= 8
        invariant mem[..] == Write(old(mem[..]), t, b[..j])
      {
        if t + j < mem.Length {
          mem[t + j] := b[j];
        }
        j := j + 1;
      }
    }

    /** The name-table index the import-by-name entry `v` resolves to. */
    method ResolveSymbol(mem: array<byte>, image: dword, e: Exports, v: qword) returns (r: Option<nat>)
      ensures r == Resolve(mem[..], Symbol(image, v), e, Hint(mem[..], image, v))
    {
      var m := mem[..];
      var sym := Symbol(image, v);
      var hint := Hint(m, image, v);
      if NameIs(m, sym, NameAddr(m, e, hint)) {
        return Some(hint);
      }
      var j := 0;
      while j < NameCount(m, e)
        invariant Scan(m, sym, e, j) == Scan(m, sym, e, 0)
        decreases NameCount(m, e) - j
      {
        if NameIs(m, sym, NameAddr(m, e, j)) {
          return Some(j);
        }
        j := j + 1;
      }
      r := None;
    }

    /** The address to bind into the non-zero slot at `t`, or `None` */
    method ResolveSlot(mem: array<byte>, image: dword, e: Exports, t: nat) returns (x: Option<dword>)
      ensures x == SlotValue(mem[..], image, e, t)
    {
      var v := LE64(mem[..], t);
      if v >= ORDINAL_FLAG {
        return None;
      }
      var k := ResolveSymbol(mem, image, e, v);
      if k.None? {
        return None;
      }
      x := Some(Target(mem[..], e, k.value));
    }

    /** The symbol loop of lines 256-300: binds the import address table
        at `t0` of the image at `image`. */
    method BindTable(mem: array<byte>, image: dword, e: Exports, t0: nat) returns (ok: bool)
      modifies mem
      ensures mem[..] == Bind(old(mem[..]), image, e, t0).0
      ensures ok == Bind(old(mem[..]), image, e, t0).1
    {
      var t := t0;
      while LE64(mem[..], t) != 0
        invariant Bind(mem[..], image, e, t) == Bind(old(mem[..]), image, e, t0)
        decreases mem.Length - t
      {
        LEInside(mem[..], t, 8);
        var x := ResolveSlot(mem, image, e, t);
        if x.None? {
          return false;
        }
        Store64(mem, t, x.value);
        t := t + 8;
      }
      ok := true;
    }

    /** `pe_load`: finds `filename` in the table, or loads it into the
        first free slot (`LoadNew`); `outs` is the import loop's run for
        a new image. */
    method Load(mem: array<byte>, filename: seq<byte>) returns (ok: bool, slot: nat, ghost outs: seq<DllImport>)
      requires Valid() && 0 < |filename| && NoNul(filename)
      modifies mem, states
      decreases Free(states[..]), 4
      ensures Valid()
      ensures PeLoaded(fs.addr, old(mem[..]), old(states[..]), filename, ok, slot, outs, mem[..], states[..])
    {
      outs := [];
      var look := FindSlot(filename);
      match look
      case Hit(i) =>
        assert Truncate(filename) == filename;
        return true, i, outs;
      case Full =>
        return false, 0, outs;
      case Empty(i) =>
        ok, outs := LoadNew(mem, filename, i);
        slot := i;
    }

    /** `ramfs_file` and the checks of the MZ, PE and PE32+ magic numbers:
        the address of the image's file, or `None`. */
    method Open(mem: array<byte>, filename: seq<byte>) returns (p: Option<nat>)
      ensures p == Opened(mem[..], fs.addr, filename)
    {
      var m := mem[..];
      ghost var found := Ramfs.Find(m, fs.addr, filename);
      var a, _ := fs.File(m, filename, false, 0);
      if a == 0 {
        return None;
      }
      OpenedAtHeader(m, found, a);
      if LE16(m, a) != MZ {
        return None;
      }
      var pe := PeHeader(m, a);
      if LE32(m, pe) != PE_SIGNATURE || LE16(m, pe + OPTIONAL) != PE32_PLUS {
        return None;
      }
      p := Some(a);
    }

    /** Copies the image of the file at `p` to slot `i`'s load address and
        registers it there under `filename`. */
    method Admit(mem: array<byte>, filename: seq<byte>, i: nat, p: nat) returns (ghost image: seq<byte>)
      requires Valid() && 0 < |filename| && NoNul(filename)
      requires Lookup(states[..], filename, 0) == Empty(i)
      modifies mem, states
      ensures image == LoadImage(old(mem[..]), old(states[i].loadAddr), p) && mem[..] == image
      ensures states[..] == Registered(old(states[..]), i, Record(image, old(states[i].loadAddr), filename, PeHeader(old(mem[..]), p)))
      ensures Valid() && Keeps(old(states[..]), states[..]) && Free(states[..]) < old(Free(states[..]))
    {
      var load := states[i].loadAddr;
      var pe := PeHeader(mem[..], p);
      CopyImage(mem, load, p);
      image := mem[..];
      var r := Record(mem[..], load, filename, pe);
      RegisterKeeps(states[..], i, r);
      Register(i, r);
    }

    /** `pe_load` for a name found nowhere in the table, with slot `i` the
        first free one: opens and checks the file, copies and registers
        the image, and resolves its imports. A load that fails after
        registration leaves the slot registered. */
    method LoadNew(mem: array<byte>, filename: seq<byte>, i: nat) returns (ok: bool, ghost outs: seq<DllImport>)
      requires Valid() && 0 < |filename| && NoNul(filename)
      requires Lookup(states[..], filename, 0) == Empty(i)
      modifies mem, states
      decreases Free(states[..]), 3
      ensures Valid() && Keeps(old(states[..]), states[..])
      ensures Free(states[..]) <= old(Free(states[..]))
      ensures Opened(old(mem[..]), fs.addr, filename).None? ==>
        !ok && outs == [] && mem[..] == old(mem[..]) && states[..] == old(states[..])
      ensures Opened(old(mem[..]), fs.addr, filename).Some? ==>
        var p := Opened(old(mem[..]), fs.addr, filename).value;
        states[i] == Record(LoadImage(old(mem[..]), old(states[i].loadAddr), p), old(states[i].loadAddr), filename, PeHeader(old(mem[..]), p))
        && LoadedNew(fs.addr, old(mem[..]), old(states[..]), filename, i, p, ok, outs, mem[..], states[..])
    {
      outs := [];
      ghost var s0 := states[..];
      ghost var f0 := Free(s0);
      var file := Open(mem, filename);
      if file.None? {
        return false, outs;
      }
      var p := file.value;
      var load := states[i].loadAddr;
      var pe := PeHeader(mem[..], p);
      ghost var image := Admit(mem, filename, i, p);
      ghost var s1 := states[..];
      assert s1[i] == Record(image, load, filename, pe);
      if DirSize(mem[..], pe, 1) != 0 {
        ok, outs := Imports(mem, i, Add32(load, DirRva(mem[..], pe, 1)), f0);
        KeepsTrans(s0, s1, states[..]);
      } else {
        ok := true;
      }
      assert fs.addr == old(fs.addr) && file == Opened(old(mem[..]), fs.addr, filename);
      LoadedNewOf(fs.addr, old(mem[..]), s0, filename, i, p, ok, outs, mem[..], states[..], image, s1);
    }

    /** The DLL loop of lines 213-301 from the descriptor at `d0`, run as
        `outs` says. */
    method Imports(mem: array<byte>, i: nat, d0: nat, ghost bound: nat) returns (ok: bool, ghost outs: seq<DllImport>)
      requires Valid() && i < STATES_MAX && Named(states[i]) && Free(states[..]) < bound
      modifies mem, states
      decreases bound, 2
      ensures Valid() && Keeps(old(states[..]), states[..])
      ensures Free(states[..]) <= old(Free(states[..]))
      ensures states[i] == old(states[i])
      ensures ImportRun(fs.addr, states[i].loadAddr, d0, old(mem[..]), old(states[..]), ok, outs, mem[..], states[..])
    {
      ghost var m0, s0 := mem[..], states[..];
      ghost var image := states[i].loadAddr;
      var d := d0;
      outs := [];
      while LE32(mem[..], d) != 0
        invariant Valid() && Keeps(s0, states[..]) && Free(states[..]) <= Free(s0)
        invariant states[i] == s0[i]
        invariant d == Descriptor(d0, |outs|)
        invariant Chain(StepAt(fs.addr, image), d0, outs, m0, s0)
        invariant 0 < |outs| ==> outs[|outs| - 1].ok
        invariant mem[..] == MemAfter(outs, m0, |outs|) && states[..] == TableAfter(outs, s0, |outs|)
        decreases mem.Length - d
      {
        LEInside(mem[..], d, 4);
        var imported;
        imported, outs := ImportNext(mem, i, d0, d, outs, m0, s0, bound);
        if !imported {
          assert states[i].loadAddr == image;
          RunExit(fs.addr, image, d0, m0, s0, false, outs, mem[..], states[..], d);
          return false, outs;
        }
        DescriptorNext(d0, |outs| - 1);
        d := d + IMPORT_SIZE;
      }
      assert states[i].loadAddr == image;
      RunExit(fs.addr, image, d0, m0, s0, true, outs, mem[..], states[..], d);
      ok := true;
    }

    /** One turn of the DLL loop: imports the descriptor at `d`, which
        follows the chain `outs` from `d0`, and extends the chain with it. */
    method ImportNext(mem: array<byte>, i: nat, d0: nat, d: nat, ghost outs: seq<DllImport>,
                      ghost m0: seq<byte>, ghost s0: seq<LoadState>, ghost bound: nat)
      returns (imported: bool, ghost outs': seq<DllImport>)
      requires Valid() && i < STATES_MAX && Named(states[i]) && Free(states[..]) < bound
      requires Keeps(s0, states[..]) && Free(states[..]) <= Free(s0) && states[i] == s0[i]
      requires LE32(mem[..], d) != 0 && d == Descriptor(d0, |outs|)
      requires Chain(StepAt(fs.addr, s0[i].loadAddr), d0, outs, m0, s0) && (0 < |outs| ==> outs[|outs| - 1].ok)
      requires mem[..] == MemAfter(outs, m0, |outs|) && states[..] == TableAfter(outs, s0, |outs|)
      modifies mem, states
      decreases bound, 1
      ensures Valid() && Keeps(s0, states[..]) && Free(states[..]) <= Free(s0) && states[i] == s0[i]
      ensures |outs'| == |outs| + 1 && outs'[|outs|].ok == imported
      ensures Chain(StepAt(fs.addr, s0[i].loadAddr), d0, outs', m0, s0)
      ensures mem[..] == MemAfter(outs', m0, |outs'|) && states[..] == TableAfter(outs', s0, |outs'|)
    {
      ghost var m1, s1 := mem[..], states[..];
      ghost var o;
      imported, o := ImportDll(mem, i, d, bound);
      KeepsTrans(s0, s1, states[..]);
      assert o.before == m1 && o.table == s1;
      assert ImportStep(fs.addr, o, s0[i].loadAddr, d);
      ChainSnoc(StepAt(fs.addr, s0[i].loadAddr), d0, outs, o, m0, s0, d);
      outs' := outs + [o];
    }

    /** Lines 238-300: the image's import address table bound against the
        exports of the DLL at `dll`, which fails with nothing bound when
        the DLL has no export directory; the table of load states is not
        touched. */
    method Link(mem: array<byte>, image: dword, dll: dword, d: nat) returns (ok: bool)
      modifies mem
      ensures Linked(old(mem[..]), mem[..], ok, image, dll, d)
      ensures states[..] == old(states[..])
    {
      if DirSize(mem[..], PeHeader(mem[..], dll), 0) == 0 {
        return false;
      }
      var e := ExportsOf(mem[..], dll);
      ok := BindTable(mem, image, e, Add32(image, LE32(mem[..], d + 16)));
    }

    /** One DLL of the import directory: loads `ramfs/<name>` and binds the
        image's import address table against the DLL's exports, as `o`
        records. */
    method ImportDll(mem: array<byte>, i: nat, d: nat, ghost bound: nat) returns (ok: bool, ghost o: DllImport)
      requires Valid() && i < STATES_MAX && Named(states[i]) && Free(states[..]) < bound
      requires LE32(mem[..], d) != 0
      modifies mem, states
      decreases bound, 0
      ensures Valid() && Keeps(old(states[..]), states[..])
      ensures Free(states[..]) <= old(Free(states[..]))
      ensures states[i] == old(states[i])
      ensures ImportStep(fs.addr, o, states[i].loadAddr, d)
      ensures o.before == old(mem[..]) && o.table == old(states[..])
      ensures o.after == mem[..] && o.loadedTable == states[..] && o.ok == ok
    {
      ghost var m0, s0 := mem[..], states[..];
      var image := states[i].loadAddr;
      var path := DllPath(mem[..], image, d);
      ghost var inner;
      var loaded, slot;
      loaded, slot, inner := Load(mem, path);
      ghost var m1, s1 := mem[..], states[..];
      LoadKeeps(fs.addr, m0, s0, path, loaded, slot, inner, m1, s1);
      assert states[i] == s0[i];
      ok := false;
      if loaded {
        ok := Link(mem, image, states[slot].loadAddr, d);
      }
      StepOf(fs.addr, image, d, m0, s0, loaded, slot, inner, m1, s1, mem[..], ok);
      o := DllImport(m0, s0, loaded, slot, m1, s1, mem[..], ok, inner);
    }
  }

  // ---------------------------------------------------------------------
  // pe_get_memory_range

  /** The highest slot below `i` with a non-zero load address */
  function LastLoaded(s: seq<LoadState>, i: nat): (r: Option<nat>)
    requires i <= |s|
    ensures r.Some? ==> r.value < i && s[r.value].loadAddr != 0
    ensures forall k :: 0 <= k < i && (r.None? || r.value < k) ==> s[k].loadAddr == 0
  {
    if i == 0 then None else if s[i - 1].loadAddr != 0 then Some(i - 1) else LastLoaded(s, i - 1)
  }

  /** Where the loop of lines 123-128, as written, stops */
  datatype Stop = Found(i: nat) | OutOfBounds(i: nat)

  /** The loop as written: `i` is a `size_t`, so `i >= 0` always holds and
      `--i` from 0 wraps around to 2^32 - 1, past the table. */
  function ScanAsWritten(s: seq<LoadState>, i: dword): Stop
    requires |s| == STATES_MAX + 1
    decreases if i < |s| then i + 1 else 0
  {
    if i >= |s| then OutOfBounds(i)
    else if s[i].loadAddr != 0 then Found(i)
    else ScanAsWritten(s, (i - 1) % U32)
  }

  /** With no load address set (a loader started at address 0 that has
      loaded nothing), the loop as written reads slot 2^32 - 1 of a
      17-slot table. */
  lemma {:induction false} ScanAsWrittenOverruns(s: seq<LoadState>)
    requires |s| == STATES_MAX + 1
    requires forall k :: 0 <= k < STATES_MAX ==> s[k].loadAddr == 0
    ensures ScanAsWritten(s, STATES_MAX - 1) == OutOfBounds(U32 - 1)
  {
    var i := STATES_MAX - 1;
    while i > 0
      invariant 0 <= i < STATES_MAX
      invariant ScanAsWritten(s, i) == ScanAsWritten(s, STATES_MAX - 1)
    {
      i := i - 1;
    }
    assert ScanAsWritten(s, 0) == ScanAsWritten(s, U32 - 1);
  }

  /** When some slot has a load address, the loop as written and
      `LastLoaded` stop at the same slot. */
  lemma {:induction false} ScanAgrees(s: seq<LoadState>, i: nat)
    requires i < STATES_MAX && |s| == STATES_MAX + 1
    requires LastLoaded(s, i + 1).Some?
    ensures ScanAsWritten(s, i) == Found(LastLoaded(s, i + 1).value)
    decreases i
  {
    if s[i].loadAddr == 0 {
      ScanAgrees(s, i - 1);
    }
  }
}
