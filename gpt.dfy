/** The GPT partition entry array: `get_partition_array` reads it from disk
    into the heap, removes the entries whose type GUID is all zero by an
    in-place compaction over `entry_size` strides and shrinks the buffer;
    `find_partition` searches the result. */
module Gpt {
  import opened Bytes
  import opened Wrappers
  import opened BlockList
  import Strings
  import Heap

  const SECTOR_SIZE: nat := 512
  /** Length of the partition type GUID, the first field of an entry. */
  const TYPE_SIZE: nat := 16
  /** sizeof(GPT_partition_array) on the 32-bit target: a pointer, a count
      and the entry size. */
  const ARRAY_SIZE: dword := 12

  /** The fields of the GPT header `get_partition_array` reads: the number
      of entries, the size of one entry and the LBA of the entry array. */
  datatype Header = Header(entriesCount: dword, entrySize: dword, partitionArray: qword)

  /** What `get_partition_array` returns: the address of its own block, the
      entry buffer, the number of entries kept and the entry size. */
  datatype PartitionArray = PartitionArray(addr: nat, table: nat, count: nat, entrySize: dword)

  /** The boot drive, as the BIOS extended read sees it: the 512-byte sector
      stored at each LBA. A read that touches an LBA not in the map fails. */
  type Disk = map<nat, seq<byte>>

  /** The bytes of `n` consecutive sectors from `lba`, or `None` when one of
      them cannot be read. */
  function ReadSectors(disk: Disk, lba: nat, n: nat): (r: Option<seq<byte>>)
    ensures r.Some? ==> |r.value| == n * SECTOR_SIZE
    ensures r.Some? <==> forall k :: lba <= k < lba + n ==> k in disk && |disk[k]| == SECTOR_SIZE
    decreases n
  {
    if n == 0 then Some([])
    else if lba !in disk || |disk[lba]| != SECTOR_SIZE then None
    else
      match ReadSectors(disk, lba + 1, n - 1)
      case None => None
      case Some(rest) => Some(disk[lba] + rest)
  }

  /** The BIOS transfer of a successful read: the bytes land at `dest`. */
  method Transfer(mem: array<byte>, dest: nat, data: seq<byte>)
    modifies mem
    ensures mem[..] == Write(old(mem[..]), dest, data)
  {
    forall k | 0 <= k < mem.Length && dest <= k < dest + |data| {
      mem[k] := data[k - dest];
    }
  }

  /** The DAP sector count: the table size entries_count * entry_size,
      computed in 32 bits, divided by 512 and rounded up, then truncated to
      the 16-bit `sectors` field. */
  function Sectors(h: Header): (r: word)
  {
    var size := h.entriesCount * h.entrySize % U32;
    (size / SECTOR_SIZE + (if size % SECTOR_SIZE == 0 then 0 else 1)) % U16
  }

  /** When the table size fits the 16-bit sector count, the read covers the
      table with less than one sector to spare. */
  lemma SectorsCover(h: Header)
    requires h.entriesCount * h.entrySize <= 0xFFFF * SECTOR_SIZE
    ensures h.entriesCount * h.entrySize <= Sectors(h) * SECTOR_SIZE < h.entriesCount * h.entrySize + SECTOR_SIZE
  {
    var size := h.entriesCount * h.entrySize;
    assert size % U32 == size;
    assert size / SECTOR_SIZE <= 0xFFFF;
    assert size / SECTOR_SIZE == 0xFFFF ==> size % SECTOR_SIZE == 0;
  }

  /** The sector count is truncated, not checked: a table of 2^18 entries of
      128 bytes reads no sector at all. */
  lemma SectorsTruncated()
    ensures Sectors(Header(0x4_0000, 128, 0)) == 0
  {
    assert 0x4_0000 * 128 % U32 == 0x200_0000;
  }

  /** Nor is the 128-sector limit of the extended read enforced: a table of
      1024 entries of 128 bytes asks for 256 sectors in one call. */
  lemma SectorsOverLimit()
    ensures Sectors(Header(1024, 128, 0)) == 256
  {
    assert 1024 * 128 % U32 == 0x2_0000;
  }

  /** The `n` strides of `size` bytes from `base`: the entries as the
      compaction sees them. */
  function Entries(m: seq<byte>, base: nat, size: nat, n: nat): (es: seq<seq<byte>>)
    ensures |es| == n && forall k :: 0 <= k < n ==> es[k] == Slice(m, base + k * size, size)
  {
    seq(n, k requires 0 <= k < n => Slice(m, base + k * size, size))
  }

  /** The `n` bytes at `a` are all zero: `memcmp` of them against the
      all-zero `null_partition_type` returns 0. */
  predicate ZeroBytes(m: seq<byte>, a: int, n: nat)
    decreases n
  {
    n == 0 || (At(m, a) == 0 && ZeroBytes(m, a + 1, n - 1))
  }

  /** An unused entry: its type GUID, its first 16 bytes, is all zero. */
  predicate IsEmpty(e: seq<byte>)
  {
    ZeroBytes(e, 0, TYPE_SIZE)
  }

  /** The used entries of `es`, in their order. */
  function Kept(es: seq<seq<byte>>): (r: seq<seq<byte>>)
    ensures |r| <= |es|
    ensures forall k :: 0 <= k < |r| ==> !IsEmpty(r[k])
  {
    if es == [] then []
    else
      var last := es[|es| - 1];
      Kept(es[..|es| - 1]) + if IsEmpty(last) then [] else [last]
  }

  /** What the compaction leaves in a stride it vacates: a used entry it
      moved away is zeroed, an unused one is left as it was. */
  function Gap(e: seq<byte>, size: nat): seq<byte>
  {
    if IsEmpty(e) then e else Zeros(size)
  }

  /** The entries after compaction: the used ones first, in order, then the
      remaining strides as `Gap` leaves them. */
  function Compacted(es: seq<seq<byte>>, size: nat): (r: seq<seq<byte>>)
    ensures |r| == |es|
  {
    var f := Kept(es);
    seq(|es|, j requires 0 <= j < |es| => if j < |f| then f[j] else Gap(es[j], size))
  }

  /** `m2` differs from `m1` only inside [base, base + len). */
  ghost predicate Outside(m1: seq<byte>, m2: seq<byte>, base: int, len: int)
  {
    |m1| == |m2| && forall a :: 0 <= a < |m1| && !(base <= a < base + len) ==> m1[a] == m2[a]
  }

  /** `Kept` distributes over concatenation. */
  lemma {:induction false} KeptAppend(a: seq<seq<byte>>, b: seq<seq<byte>>)
    ensures Kept(a + b) == Kept(a) + Kept(b)
    decreases |b|
  {
    if b == [] {
      assert a + b == a;
    } else {
      var b' := b[..|b| - 1];
      assert (a + b)[..|a + b| - 1] == a + b';
      KeptAppend(a, b');
    }
  }

  /** A table without unused entries is kept whole. */
  lemma {:induction false} KeptAllUsed(es: seq<seq<byte>>)
    requires forall k :: 0 <= k < |es| ==> !IsEmpty(es[k])
    ensures Kept(es) == es
  {
    if es != [] {
      KeptAllUsed(es[..|es| - 1]);
    }
  }

  /** A table of unused entries keeps nothing. */
  lemma {:induction false} KeptNoneUsed(es: seq<seq<byte>>)
    requires forall k :: 0 <= k < |es| ==> IsEmpty(es[k])
    ensures Kept(es) == []
  {
    if es != [] {
      KeptNoneUsed(es[..|es| - 1]);
    }
  }

  /** Zeroed strides are unused entries. */
  lemma ZerosEmpty(size: nat)
    requires size >= TYPE_SIZE
    ensures IsEmpty(Zeros(size))
  {
    ZeroBytesZeros(size, 0, TYPE_SIZE);
  }

  lemma {:induction false} ZeroBytesZeros(size: nat, j: nat, t: nat)
    requires j + t <= size
    ensures ZeroBytes(Zeros(size), j, t)
    decreases t
  {
    if t > 0 {
      ZeroBytesZeros(size, j + 1, t - 1);
    }
  }

  /** An input with no unused entry is left unchanged. */
  lemma CompactedAllUsed(es: seq<seq<byte>>, size: nat)
    requires forall k :: 0 <= k < |es| ==> !IsEmpty(es[k])
    ensures |Kept(es)| == |es| && Compacted(es, size) == es
  {
    KeptAllUsed(es);
  }

  /** Compacting a compacted table changes nothing. */
  lemma CompactedIdempotent(es: seq<seq<byte>>, size: nat)
    requires size >= TYPE_SIZE
    ensures Kept(Compacted(es, size)) == Kept(es)
    ensures Compacted(Compacted(es, size), size) == Compacted(es, size)
  {
    var c := Compacted(es, size);
    var f := Kept(es);
    CompactedShape(es, size);
    KeptEmptyTail(c, |f|);
    KeptAllUsed(f);
    StableWhenCompact(c, size, |f|);
  }

  /** A compacted table starts with the used entries, and every stride
      after them is unused. */
  lemma CompactedShape(es: seq<seq<byte>>, size: nat)
    requires size >= TYPE_SIZE
    ensures var c := Compacted(es, size); var f := Kept(es);
      c[..|f|] == f && forall k :: |f| <= k < |c| ==> IsEmpty(c[k])
  {
    var c := Compacted(es, size);
    var f := Kept(es);
    forall k | |f| <= k < |c| ensures IsEmpty(c[k]) {
      if !IsEmpty(es[k]) {
        ZerosEmpty(size);
      }
    }
  }

  /** Unused strides after the first `n` add nothing to the kept entries. */
  lemma {:induction false} KeptEmptyTail(c: seq<seq<byte>>, n: nat)
    requires n <= |c| && forall k :: n <= k < |c| ==> IsEmpty(c[k])
    ensures Kept(c) == Kept(c[..n])
    decreases |c|
  {
    if |c| == n {
      assert c[..n] == c;
    } else {
      var c' := c[..|c| - 1];
      assert c'[..n] == c[..n];
      KeptEmptyTail(c', n);
    }
  }

  /** A table whose first `n` strides are its used entries and whose other
      strides are unused is its own compaction. */
  lemma StableWhenCompact(c: seq<seq<byte>>, size: nat, n: nat)
    requires n <= |c| && Kept(c) == c[..n] && forall k :: n <= k < |c| ==> IsEmpty(c[k])
    ensures Compacted(c, size) == c
  {
    forall j | 0 <= j < |c| ensures Compacted(c, size)[j] == c[j] {
      if j < n {
        assert Kept(c)[j] == c[j];
      }
    }
  }

  /** The table once the compaction has dealt with the first `d` strides
      of `e0`: the used entries among them, then the gaps they leave, then
      the strides not yet reached. */
  ghost function Layout(e0: seq<seq<byte>>, size: nat, d: nat): (r: seq<seq<byte>>)
    requires d <= |e0|
    ensures |r| == |e0|
  {
    var f := Kept(e0[..d]);
    seq(|e0|, j requires 0 <= j < |e0| => if j < |f| then f[j] else if j < d then Gap(e0[j], size) else e0[j])
  }

  /** The state the compaction keeps between its steps: the table is the
      layout after `d` strides, and the left cursor has not passed the used
      entries. */
  ghost predicate Progress(es: seq<seq<byte>>, e0: seq<seq<byte>>, size: nat, li: nat, d: nat)
  {
    d <= |e0| && li <= |Kept(e0[..d])| && es == Layout(e0, size, d)
  }

  /** Before the first step nothing is dealt with. */
  lemma Start(e0: seq<seq<byte>>, size: nat)
    ensures Progress(e0, e0, size, 0, 0)
  {
    assert e0[..0] == [] && e0[0..] == e0;
  }

  /** Stride `j` of the layout. */
  lemma LayoutAt(e0: seq<seq<byte>>, size: nat, d: nat, j: nat)
    requires d <= |e0| && j < |e0|
    ensures |Layout(e0, size, d)| == |e0|
    ensures var f := Kept(e0[..d]);
      Layout(e0, size, d)[j] == if j < |f| then f[j] else if j < d then Gap(e0[j], size) else e0[j]
  {
  }

  /** Two layouts agree when they agree stride by stride. */
  lemma LayoutEq(es: seq<seq<byte>>, e0: seq<seq<byte>>, size: nat, d: nat)
    requires d <= |e0| && |es| == |e0|
    requires forall j :: 0 <= j < |e0| ==> es[j] == Layout(e0, size, d)[j]
    ensures es == Layout(e0, size, d)
  {
  }

  /** `Kept` of one more stride. */
  lemma KeptStep(e0: seq<seq<byte>>, d: nat)
    requires d < |e0|
    ensures Kept(e0[..d + 1]) == Kept(e0[..d]) + if IsEmpty(e0[d]) then [] else [e0[d]]
  {
    assert e0[..d + 1][..d] == e0[..d];
  }

  /** Dealing with one more stride, when the table already holds what the
      next layout needs at stride `d` and at the first gap. */
  lemma LayoutNext(e0: seq<seq<byte>>, size: nat, d: nat)
    requires d < |e0|
    ensures var f, l, l' := Kept(e0[..d]), Layout(e0, size, d), Layout(e0, size, d + 1);
      |f| <= d && forall j :: 0 <= j < |e0| && j != |f| && j != d ==> l'[j] == l[j]
    ensures var f, l' := Kept(e0[..d]), Layout(e0, size, d + 1);
      (IsEmpty(e0[d]) ==> l'[d] == e0[d] && Kept(e0[..d + 1]) == f)
      && (!IsEmpty(e0[d]) ==> l'[|f|] == e0[d] && Kept(e0[..d + 1]) == f + [e0[d]]
                              && (|f| < d ==> l'[d] == Zeros(size)))
  {
    KeptStep(e0, d);
    var f := Kept(e0[..d]);
    forall j | 0 <= j < |e0| && j != |f| && j != d ensures Layout(e0, size, d + 1)[j] == Layout(e0, size, d)[j] {
      LayoutAt(e0, size, d, j);
      LayoutAt(e0, size, d + 1, j);
      if j < |f| {
        assert Kept(e0[..d + 1])[j] == f[j];
      }
    }
    LayoutAt(e0, size, d + 1, d);
    LayoutAt(e0, size, d + 1, |f|);
  }

  /** The left cursor passes a used entry; when it stood at the first stride
      not yet dealt with, that stride is dealt with too. */
  lemma AdvanceLeft(es: seq<seq<byte>>, e0: seq<seq<byte>>, size: nat, li: nat, d: nat)
    requires size >= TYPE_SIZE && Progress(es, e0, size, li, d) && li < |es| && !IsEmpty(es[li])
    ensures Progress(es, e0, size, li + 1, if li == d then d + 1 else d)
  {
    var f := Kept(e0[..d]);
    LayoutAt(e0, size, d, li);
    ZerosEmpty(size);
    if li == d {
      LayoutNext(e0, size, d);
      LayoutEq(es, e0, size, d + 1);
    }
  }

  /** Where the left cursor stops: on the first stride past the used
      entries dealt with so far. */
  lemma LeftStop(es: seq<seq<byte>>, e0: seq<seq<byte>>, size: nat, li: nat, d: nat)
    requires Progress(es, e0, size, li, d) && (li == |es| || IsEmpty(es[li]))
    ensures li == |Kept(e0[..d])|
  {
    if li < |es| {
      LayoutAt(e0, size, d, li);
    }
  }

  /** The right cursor passes an unused entry; at the first stride not yet
      dealt with, that stride is dealt with too. */
  lemma AdvanceRight(es: seq<seq<byte>>, e0: seq<seq<byte>>, size: nat, li: nat, ri: nat, d: nat)
    requires Progress(es, e0, size, li, d) && li == |Kept(e0[..d])| && li <= ri <= d
    requires ri < |es| && IsEmpty(es[ri])
    ensures var d' := if ri == d then d + 1 else d;
      Progress(es, e0, size, li, d') && li == |Kept(e0[..d'])| && ri + 1 <= d'
  {
    if ri == d {
      LayoutAt(e0, size, d, d);
      LayoutNext(e0, size, d);
      LayoutEq(es, e0, size, d + 1);
    }
  }

  /** Where the right cursor stops: on the first used stride not yet dealt
      with. */
  lemma RightStop(es: seq<seq<byte>>, e0: seq<seq<byte>>, size: nat, li: nat, ri: nat, d: nat)
    requires size >= TYPE_SIZE && Progress(es, e0, size, li, d) && li == |Kept(e0[..d])| && li <= ri <= d
    requires ri < |es| && !IsEmpty(es[ri]) && IsEmpty(es[li])
    ensures ri == d && li < ri
  {
    ZerosEmpty(size);
    LayoutAt(e0, size, d, ri);
    LayoutAt(e0, size, d, li);
  }

  /** Moving the entry at the right cursor to the left cursor and zeroing
      its stride deals with one more stride. */
  lemma MoveStep(es: seq<seq<byte>>, e0: seq<seq<byte>>, size: nat, li: nat, ri: nat, d: nat)
    requires Progress(es, e0, size, li, d) && li == |Kept(e0[..d])| && li < d < |es| && !IsEmpty(es[d])
    requires ri == d
    ensures Progress(es[li := es[ri]][ri := Zeros(size)], e0, size, li, d + 1)
  {
    LayoutAt(e0, size, d, d);
    LayoutNext(e0, size, d);
    LayoutEq(es[li := es[d]][d := Zeros(size)], e0, size, d + 1);
  }

  /** Once every stride is dealt with, the table is the compacted one. */
  lemma Finished(es: seq<seq<byte>>, e0: seq<seq<byte>>, size: nat, li: nat)
    requires Progress(es, e0, size, li, |e0|) && li == |Kept(e0)|
    ensures es == Compacted(e0, size)
  {
    assert e0[..|e0|] == e0;
    forall j | 0 <= j < |es| ensures es[j] == Compacted(e0, size)[j] {
      LayoutAt(e0, size, |e0|, j);
    }
  }

  lemma MulLess(a: nat, b: nat, size: nat)
    requires a < b
    ensures a * size + size <= b * size
  {
    MulSub(size, b, a);
    if size > 0 {
      MulAtLeast(size, b - a);
    }
  }

  /** Reading back a range just written gives the bytes written. */
  lemma SliceWriteSame(m: seq<byte>, a: nat, e: seq<byte>)
    requires a + |e| <= |m|
    ensures Slice(Write(m, a, e), a, |e|) == e
  {
  }

  /** A write leaves a range it does not overlap alone. */
  lemma SliceWriteOther(m: seq<byte>, a: nat, e: seq<byte>, b: nat, n: nat)
    requires b + n <= a || a + |e| <= b
    ensures Slice(Write(m, a, e), b, n) == Slice(m, b, n)
  {
  }

  /** Writing one whole stride replaces that entry and nothing else. */
  lemma EntriesWrite(m: seq<byte>, base: nat, size: nat, n: nat, k: nat, e: seq<byte>)
    requires |e| == size && k < n && base + n * size <= |m|
    ensures Entries(Write(m, base + k * size, e), base, size, n) == Entries(m, base, size, n)[k := e]
    ensures Outside(m, Write(m, base + k * size, e), base, n * size)
  {
    var a := base + k * size;
    var m' := Write(m, a, e);
    var es, es' := Entries(m, base, size, n), Entries(m', base, size, n);
    forall j | 0 <= j < n ensures es'[j] == es[k := e][j] {
      StrideAfterWrite(m, base, size, n, k, e, j);
    }
    MulLess(k, n, size);
    WriteInside(m, a, e, base, n * size);
  }

  /** Stride `j` after stride `k` is overwritten with `e`. */
  lemma StrideAfterWrite(m: seq<byte>, base: nat, size: nat, n: nat, k: nat, e: seq<byte>, j: nat)
    requires |e| == size && k < n && j < n && base + n * size <= |m|
    ensures Slice(Write(m, base + k * size, e), base + j * size, size)
      == if j == k then e else Slice(m, base + j * size, size)
  {
    var a, b := base + k * size, base + j * size;
    if j == k {
      assert a + |e| <= |m| by { MulLess(k, n, size); }
      SliceWriteSame(m, a, e);
    } else {
      assert b + size <= a || a + |e| <= b by {
        if j < k { MulLess(j, k, size); } else { MulLess(k, j, size); }
      }
      SliceWriteOther(m, a, e, b, size);
    }
  }

  /** A write inside a range changes nothing outside it. */
  lemma WriteInside(m: seq<byte>, a: int, e: seq<byte>, base: int, len: int)
    requires base <= a && a + |e| <= base + len
    ensures Outside(m, Write(m, a, e), base, len)
  {
  }

  /** The type GUID of an entry is the first 16 bytes at its address. */
  lemma TypeAt(m: seq<byte>, a: nat, size: nat)
    requires size >= TYPE_SIZE
    ensures IsEmpty(Slice(m, a, size)) <==> ZeroBytes(m, a, TYPE_SIZE)
  {
    ZeroBytesSlice(m, a, size, 0, TYPE_SIZE);
  }

  lemma {:induction false} ZeroBytesSlice(m: seq<byte>, a: nat, size: nat, j: nat, t: nat)
    requires j + t <= size
    ensures ZeroBytes(Slice(m, a, size), j, t) <==> ZeroBytes(m, a + j, t)
    decreases t
  {
    if t > 0 {
      ZeroBytesSlice(m, a, size, j + 1, t - 1);
    }
  }

  /** The move of the compaction: memcpy of stride `ri` over stride `li`,
      then memset of stride `ri` to zero. */
  method MoveEntry(mem: array<byte>, base: nat, size: nat, n: nat, li: nat, ri: nat)
    requires li < ri < n && base + n * size <= mem.Length
    modifies mem
    ensures Entries(mem[..], base, size, n)
      == Entries(old(mem[..]), base, size, n)[li := Entries(old(mem[..]), base, size, n)[ri]][ri := Zeros(size)]
    ensures Outside(old(mem[..]), mem[..], base, n * size)
  {
    ghost var m0 := mem[..];
    CopyStride(mem, base, size, n, li, ri);
    ghost var m1 := mem[..];
    ClearStride(mem, base, size, n, ri);
    OutsideTrans(m0, m1, mem[..], base, n * size);
  }

  /** The memcpy of the move: stride `li` becomes a copy of stride `ri`. */
  method CopyStride(mem: array<byte>, base: nat, size: nat, n: nat, li: nat, ri: nat)
    requires li < ri < n && base + n * size <= mem.Length
    modifies mem
    ensures Entries(mem[..], base, size, n)
      == Entries(old(mem[..]), base, size, n)[li := Entries(old(mem[..]), base, size, n)[ri]]
    ensures Outside(old(mem[..]), mem[..], base, n * size)
  {
    MulLess(li, ri, size);
    ghost var m0 := mem[..];
    var _ := Strings.MemCpy(mem, base + li * size, base + ri * size, size);
    CopyAsWrite(m0, mem[..], base + li * size, base + ri * size, size);
    CopiedEntry(m0, mem[..], base, size, n, li, ri);
  }

  /** A memcpy between disjoint ranges, as a write of the source bytes. */
  lemma CopyAsWrite(m0: seq<byte>, m1: seq<byte>, dest: nat, src: nat, count: nat)
    requires dest + count <= src && m1 == Strings.Copy(m0, dest, src, count)
    ensures m1 == Write(m0, dest, Slice(m0, src, count))
  {
    Strings.CopyDisjoint(m0, dest, src, count);
  }

  /** The memset of the move: stride `k` becomes zeros. */
  method ClearStride(mem: array<byte>, base: nat, size: nat, n: nat, k: nat)
    requires k < n && base + n * size <= mem.Length
    modifies mem
    ensures Entries(mem[..], base, size, n) == Entries(old(mem[..]), base, size, n)[k := Zeros(size)]
    ensures Outside(old(mem[..]), mem[..], base, n * size)
  {
    ghost var m0 := mem[..];
    var _ := Strings.MemSet(mem, base + k * size, 0, size);
    ClearedEntry(m0, mem[..], base, size, n, k);
  }

  /** The memset of the move on values: stride `k` of `m1` is zeros. */
  lemma ClearedEntry(m0: seq<byte>, m1: seq<byte>, base: nat, size: nat, n: nat, k: nat)
    requires k < n && base + n * size <= |m0|
    requires m1 == Write(m0, base + k * size, Strings.Fill(0 % 256, size))
    ensures Entries(m1, base, size, n) == Entries(m0, base, size, n)[k := Zeros(size)]
    ensures Outside(m0, m1, base, n * size)
  {
    assert Strings.Fill(0 % 256, size) == Zeros(size);
    EntriesWrite(m0, base, size, n, k, Zeros(size));
  }

  /** The memcpy of `MoveEntry`: stride `li` becomes a copy of stride `ri`. */
  lemma CopiedEntry(m0: seq<byte>, m1: seq<byte>, base: nat, size: nat, n: nat, li: nat, ri: nat)
    requires li < ri < n && base + n * size <= |m0|
    requires m1 == Write(m0, base + li * size, Slice(m0, base + ri * size, size))
    ensures |m1| == |m0|
    ensures Entries(m1, base, size, n) == Entries(m0, base, size, n)[li := Entries(m0, base, size, n)[ri]]
    ensures Outside(m0, m1, base, n * size)
  {
    EntriesWrite(m0, base, size, n, li, Slice(m0, base + ri * size, size));
  }

  /** Two changes inside a range are a change inside it. */
  lemma OutsideTrans(m0: seq<byte>, m1: seq<byte>, m2: seq<byte>, base: int, len: int)
    requires Outside(m0, m1, base, len) && Outside(m1, m2, base, len)
    ensures Outside(m0, m2, base, len)
  {
  }

  /** Entry `k` of the table is unused exactly when the 16 bytes at its
      address `p` are zero. */
  lemma EmptyAt(m: seq<byte>, base: nat, size: nat, n: nat, k: nat, p: nat)
    requires size >= TYPE_SIZE && k < n && p == base + k * size
    ensures IsEmpty(Entries(m, base, size, n)[k]) <==> ZeroBytes(m, p, TYPE_SIZE)
  {
    TypeAt(m, p, size);
  }

  /** The stride after stride `k` starts `size` bytes further on. */
  lemma NextStride(k: nat, size: nat)
    ensures (k + 1) * size == k * size + size
  {
  }

  /** The left cursor's scan: from stride `li` to the first unused entry,
      or to the end of the table. */
  method ScanLeft(mem: array<byte>, base: nat, size: nat, n: nat, li: nat, ghost es: seq<seq<byte>>) returns (li': nat)
    requires li <= n && size >= TYPE_SIZE && es == Entries(mem[..], base, size, n)
    ensures li <= li' <= n
    ensures forall k :: li <= k < li' ==> !IsEmpty(es[k])
    ensures li' == n || IsEmpty(es[li'])
  {
    li' := li;
    var lp := base + li * size;
    while li' < n && !ZeroBytes(mem[..], lp, TYPE_SIZE)
      invariant li <= li' <= n && lp == base + li' * size
      invariant forall k :: li <= k < li' ==> !IsEmpty(es[k])
      decreases n - li'
    {
      EmptyAt(mem[..], base, size, n, li', lp);
      NextStride(li', size);
      li', lp := li' + 1, lp + size;
    }
    if li' < n {
      EmptyAt(mem[..], base, size, n, li', lp);
    }
  }

  /** The right cursor's scan: from stride `li` to the first used entry, or
      to the end of the table. */
  method ScanRight(mem: array<byte>, base: nat, size: nat, n: nat, li: nat, ghost es: seq<seq<byte>>) returns (ri: nat)
    requires li <= n && size >= TYPE_SIZE && es == Entries(mem[..], base, size, n)
    ensures li <= ri <= n
    ensures forall k :: li <= k < ri ==> IsEmpty(es[k])
    ensures ri == n || !IsEmpty(es[ri])
  {
    ri := li;
    var rp := base + li * size;
    while ri < n && ZeroBytes(mem[..], rp, TYPE_SIZE)
      invariant li <= ri <= n && rp == base + ri * size
      invariant forall k :: li <= k < ri ==> IsEmpty(es[k])
      decreases n - ri
    {
      EmptyAt(mem[..], base, size, n, ri, rp);
      NextStride(ri, size);
      ri, rp := ri + 1, rp + size;
    }
    if ri < n {
      EmptyAt(mem[..], base, size, n, ri, rp);
    }
  }

  /** The first half of `get_partition_array` after the result is
      allocated: a buffer of whole sectors, and the read of the entry array
      into it through the 16-bit DAP offset. Returns the buffer, or 0 when the
      allocation or the read fails, having released the buffer. */
  method ReadTable(h: Heap.Heap, mem: array<byte>, disk: Disk, hdr: Header) returns (buf: nat)
    requires h.Valid()
    modifies h, mem
    ensures h.Valid()
    ensures buf == 0 ==> Used(h.blocks, Heap.HDR) == Used(old(h.blocks), Heap.HDR) && mem[..] == old(mem[..])
    ensures ReadSectors(disk, hdr.partitionArray, Sectors(hdr)).None? ==> buf == 0
    ensures buf != 0 ==>
      buf !in Used(old(h.blocks), Heap.HDR) && Used(h.blocks, Heap.HDR) == Used(old(h.blocks), Heap.HDR) + {buf}
      && buf <= h.heap + h.heapSize
      && ReadSectors(disk, hdr.partitionArray, Sectors(hdr)).Some?
      && mem[..] == Write(old(mem[..]), buf % U16, ReadSectors(disk, hdr.partitionArray, Sectors(hdr)).value)
  {
    var sectors := Sectors(hdr);
    buf := h.Malloc(sectors * SECTOR_SIZE);
    if buf == 0 {
      return;
    }
    Heap.LiveBlock(h.State(), h.heap + h.heapSize, buf);
    var data := ReadSectors(disk, hdr.partitionArray, sectors);
    if data.None? {
      h.Free(buf);
      return 0;
    }
    Transfer(mem, buf % U16, data.value);
  }

  /** The entry table of `get_partition_array` once read into `buf`: the
      compaction, then `realloc` of the buffer to `entry_size * count`
      bytes, computed in 32 bits. Returns the reallocated buffer and the
      count, or 0 for the buffer when `realloc` fails, having then released
      the buffer. */
  method ShrinkTable(h: Heap.Heap, mem: array<byte>, buf: nat, hdr: Header) returns (table: nat, count: nat)
    requires h.Valid() && hdr.entrySize >= TYPE_SIZE && buf in Used(h.blocks, Heap.HDR)
    requires buf + hdr.entriesCount * hdr.entrySize <= mem.Length
    modifies h, mem
    ensures h.Valid()
    ensures count == |Kept(Entries(old(mem[..]), buf, hdr.entrySize, hdr.entriesCount))|
    ensures table == 0 ==> Used(h.blocks, Heap.HDR) == Used(old(h.blocks), Heap.HDR) - {buf}
    ensures table != 0 ==>
      table !in Used(old(h.blocks), Heap.HDR) - {buf}
      && Used(h.blocks, Heap.HDR) == Used(old(h.blocks), Heap.HDR) - {buf} + {table}
    ensures table == buf ==>
      Entries(mem[..], buf, hdr.entrySize, hdr.entriesCount)
      == Compacted(Entries(old(mem[..]), buf, hdr.entrySize, hdr.entriesCount), hdr.entrySize)
  {
    count := Compact(mem, buf, hdr.entrySize, hdr.entriesCount);
    Heap.LiveBlock(h.State(), h.heap + h.heapSize, buf);
    table := h.Realloc(mem, buf, (hdr.entrySize * count) % U32);
    if table == 0 {
      h.Free(buf);
    }
  }

  /** The part of `get_partition_array` after the result is allocated: the
      entry array read into a buffer, compacted and shrunk. Returns the
      shrunk table and the count kept, or 0 for the table, with the heap's
      allocations as they were, when an allocation or the read fails. `buf`
      is the buffer as first allocated and `loaded` the memory right after
      the read. */
  method LoadTable(h: Heap.Heap, mem: array<byte>, disk: Disk, hdr: Header)
    returns (table: nat, count: nat, ghost buf: nat, ghost loaded: seq<byte>)
    requires h.Valid() && hdr.entrySize >= TYPE_SIZE
    requires h.heap + h.heapSize + hdr.entriesCount * hdr.entrySize <= mem.Length
    modifies h, mem
    ensures h.Valid()
    ensures table == 0 ==> Used(h.blocks, Heap.HDR) == Used(old(h.blocks), Heap.HDR)
    ensures ReadSectors(disk, hdr.partitionArray, Sectors(hdr)).None? ==> table == 0
    ensures table != 0 ==>
      table !in Used(old(h.blocks), Heap.HDR)
      && Used(h.blocks, Heap.HDR) == Used(old(h.blocks), Heap.HDR) + {table}
      && ReadSectors(disk, hdr.partitionArray, Sectors(hdr)).Some?
      && loaded == Write(old(mem[..]), buf % U16, ReadSectors(disk, hdr.partitionArray, Sectors(hdr)).value)
      && count == |Kept(Entries(loaded, buf, hdr.entrySize, hdr.entriesCount))|
      && (table == buf ==>
            Entries(mem[..], buf, hdr.entrySize, hdr.entriesCount)
            == Compacted(Entries(loaded, buf, hdr.entrySize, hdr.entriesCount), hdr.entrySize))
  {
    buf, loaded, table, count := 0, mem[..], 0, 0;
    var b := ReadTable(h, mem, disk, hdr);
    buf, loaded := b, mem[..];
    if b != 0 {
      table, count := ShrinkTable(h, mem, b, hdr);
    }
  }

  /** `get_partition_array`: allocates the result, reads the entry array
      into a buffer of whole sectors, compacts it and shrinks the buffer to
      the entries kept. Returns `None` (NULL) when an allocation or the read
      fails, having released what it allocated. `buf` is the buffer as first
      allocated and `loaded` the memory right after the read. */
  method GetPartitionArray(h: Heap.Heap, mem: array<byte>, disk: Disk, hdr: Header)
    returns (r: Option<PartitionArray>, ghost buf: nat, ghost loaded: seq<byte>)
    requires h.Valid() && hdr.entrySize >= TYPE_SIZE
    requires h.heap + h.heapSize + hdr.entriesCount * hdr.entrySize <= mem.Length
    modifies h, mem
    ensures h.Valid()
    ensures r.None? ==> Used(h.blocks, Heap.HDR) == Used(old(h.blocks), Heap.HDR)
    ensures ReadSectors(disk, hdr.partitionArray, Sectors(hdr)).None? ==> r.None?
    ensures r.Some? ==>
      r.value.entrySize == hdr.entrySize && r.value.addr != r.value.table
      && r.value.addr !in Used(old(h.blocks), Heap.HDR) && r.value.table !in Used(old(h.blocks), Heap.HDR)
      && Used(h.blocks, Heap.HDR) == Used(old(h.blocks), Heap.HDR) + {r.value.addr, r.value.table}
    ensures r.Some? ==>
      ReadSectors(disk, hdr.partitionArray, Sectors(hdr)).Some?
      && loaded == Write(old(mem[..]), buf % U16, ReadSectors(disk, hdr.partitionArray, Sectors(hdr)).value)
      && r.value.count == |Kept(Entries(loaded, buf, hdr.entrySize, hdr.entriesCount))|
      && (r.value.table == buf ==>
            Entries(mem[..], buf, hdr.entrySize, hdr.entriesCount)
            == Compacted(Entries(loaded, buf, hdr.entrySize, hdr.entriesCount), hdr.entrySize))
  {
    buf, loaded := 0, mem[..];
    var addr := h.Malloc(ARRAY_SIZE);
    if addr == 0 {
      return None, buf, loaded;
    }
    var table, count;
    table, count, buf, loaded := LoadTable(h, mem, disk, hdr);
    if table != 0 {
      return Some(PartitionArray(addr, table, count, hdr.entrySize)), buf, loaded;
    }
    h.Free(addr);
    r := None;
  }

  /** The search of `find_partition` from entry `k` on: the index of the
      first of the entries `k` .. `count - 1` of the table at `base` whose
      type GUID `memcmp` finds equal to the 16 bytes at `guid`. */
  function FirstOfType(m: seq<byte>, base: nat, size: nat, count: nat, guid: nat, k: nat): (r: Option<nat>)
    ensures r.Some? ==> k <= r.value < count && Strings.SameBytes(m, base + r.value * size, guid, TYPE_SIZE)
    ensures forall j :: k <= j < count && (r.None? || j < r.value) ==>
      !Strings.SameBytes(m, base + j * size, guid, TYPE_SIZE)
    decreases count - k
  {
    if k >= count then None
    else if Strings.SameBytes(m, base + k * size, guid, TYPE_SIZE) then Some(k)
    else FirstOfType(m, base, size, count, guid, k + 1)
  }

  /** One step of the search: entry `k` lies below 2^32 and the search from
      `k` either stops there or goes on from `k + 1`. */
  lemma FindStep(m: seq<byte>, base: nat, size: nat, count: nat, guid: nat, k: nat)
    requires base + count * size < U32 && k < count
    ensures base + k * size < U32 && (k + 1) * size == k * size + size
    ensures FirstOfType(m, base, size, count, guid, k) ==
      if Strings.SameBytes(m, base + k * size, guid, TYPE_SIZE) then Some(k)
      else FirstOfType(m, base, size, count, guid, k + 1)
  {
    MulLess(k, count, size);
  }

  /** The pointer `get_partition_array` passes to `free` after a failed
      `realloc`, as written: the array field, which the failed call has
      just overwritten with its result. */
  function FreedAfterFailureAsWritten(buf: nat, result: nat): nat
  {
    result
  }

  /** As written, a failed `realloc` of the table frees address 0, which is
      no block's payload, and never the table buffer, which is still in use:
      the buffer leaks. `ShrinkTable` frees the buffer instead. */
  lemma ReallocFailureLeaks(s: BlockList.State, end: nat, buf: nat)
    requires Tiled(s.blocks, Heap.HDR, s.start, end) && buf in Used(s.blocks, Heap.HDR)
    ensures forall i :: 0 <= i < |s.blocks| ==> Payload(s, Heap.HDR, i) != FreedAfterFailureAsWritten(buf, 0)
    ensures FreedAfterFailureAsWritten(buf, 0) != buf && buf in Used(s.blocks, Heap.HDR)
  {
    Heap.LiveBlock(s, end, buf);
  }

  /** The test of `find_partition`: `memcmp(partition->type, GUID, 16) == 0`. */
  method TypeIs(mem: array<byte>, p: nat, guid: nat) returns (same: bool)
    requires p < U32 && guid < U32
    ensures same == Strings.SameBytes(mem[..], p, guid, TYPE_SIZE)
  {
    Strings.MemCmpSame(mem[..], p, guid, TYPE_SIZE);
    same := Strings.MemCmp(mem[..], p, guid, TYPE_SIZE) == 0;
  }

  /** `find_partition`: the address of the first kept entry whose type is
      the GUID at `guid`, or `None` (NULL). */
  method FindPartition(mem: array<byte>, pa: PartitionArray, guid: nat) returns (r: Option<nat>)
    requires pa.table + pa.count * pa.entrySize < U32 && guid < U32
    ensures r == match FirstOfType(mem[..], pa.table, pa.entrySize, pa.count, guid, 0)
                 case None => None
                 case Some(k) => Some(pa.table + k * pa.entrySize)
  {
    var p: nat := pa.table;
    var count: nat := pa.count;
    ghost var k: nat := 0;
    ghost var m := mem[..];
    ghost var found := FirstOfType(m, pa.table, pa.entrySize, pa.count, guid, 0);
    while count > 0
      invariant k + count == pa.count && p == pa.table + k * pa.entrySize
      invariant found == FirstOfType(m, pa.table, pa.entrySize, pa.count, guid, k)
      decreases count
    {
      FindStep(m, pa.table, pa.entrySize, pa.count, guid, k);
      var same := TypeIs(mem, p, guid);
      if same {
        return Some(p);
      }
      p, count, k := p + pa.entrySize, count - 1, k + 1;
    }
    r := None;
  }

  /** The larger of two numbers. */
  function Max(a: nat, b: nat): nat
  {
    if a < b then b else a
  }

  /** A left scan over used entries from `li` to `li'` deals with every
      stride it passes. */
  lemma {:induction false} LeftScan(es: seq<seq<byte>>, e0: seq<seq<byte>>, size: nat, li: nat, li': nat, d: nat)
    requires size >= TYPE_SIZE && Progress(es, e0, size, li, d) && li <= li' <= |es|
    requires forall k :: li <= k < li' ==> !IsEmpty(es[k])
    ensures Progress(es, e0, size, li', Max(d, li'))
    decreases li' - li
  {
    if li < li' {
      AdvanceLeft(es, e0, size, li, d);
      LeftScan(es, e0, size, li + 1, li', if li == d then d + 1 else d);
    }
  }

  /** A right scan over unused entries from the left cursor to `ri` deals
      with every stride it passes. */
  lemma {:induction false} RightScan(es: seq<seq<byte>>, e0: seq<seq<byte>>, size: nat, li: nat, ri: nat, ri': nat, d: nat)
    requires Progress(es, e0, size, li, d) && li == |Kept(e0[..d])| && li <= ri <= d && ri <= ri' <= |es|
    requires forall k :: ri <= k < ri' ==> IsEmpty(es[k])
    ensures Progress(es, e0, size, li, Max(d, ri')) && li == |Kept(e0[..Max(d, ri')])|
    decreases ri' - ri
  {
    if ri < ri' {
      AdvanceRight(es, e0, size, li, ri, d);
      RightScan(es, e0, size, li, ri + 1, ri', if ri == d then d + 1 else d);
    }
  }

  /** One round of the compaction: the left cursor passes the used entries
      from `li` and stops at `li'`, the right cursor passes the unused ones
      from there and stops at `ri`. Either both stopped inside the table and
      the move deals with stride `ri`, or the table is compacted. */
  lemma Round(es: seq<seq<byte>>, e0: seq<seq<byte>>, size: nat, li: nat, li': nat, ri: nat, d: nat)
    requires size >= TYPE_SIZE && Progress(es, e0, size, li, d) && li <= li' <= ri <= |es|
    requires forall k :: li <= k < li' ==> !IsEmpty(es[k])
    requires li' == |es| || IsEmpty(es[li'])
    requires forall k :: li' <= k < ri ==> IsEmpty(es[k])
    requires ri == |es| || !IsEmpty(es[ri])
    ensures li' < |es| && ri < |es| ==>
      d <= ri && li' < ri && Progress(es[li' := es[ri]][ri := Zeros(size)], e0, size, li', ri + 1)
    ensures li' == |es| || ri == |es| ==> es == Compacted(e0, size) && li' == |Kept(e0)|
  {
    LeftScan(es, e0, size, li, li', d);
    var d1 := Max(d, li');
    LeftStop(es, e0, size, li', d1);
    RightScan(es, e0, size, li', li', ri, d1);
    var d2 := Max(d1, ri);
    if li' < |es| && ri < |es| {
      RightStop(es, e0, size, li', ri, d2);
      MoveStep(es, e0, size, li', ri, d2);
    } else {
      assert d2 == |e0| && e0[..d2] == e0;
      Finished(es, e0, size, li');
    }
  }

  /** One pass of the outer loop of the compaction of `get_partition_array`:
      the left cursor looks for an unused entry, the right cursor for the
      next used one after it; when both stop inside the table the used entry
      is copied over the unused one and its own stride zeroed (`done` is
      false), otherwise the compaction is over (`done` is true). */
  method CompactRound(mem: array<byte>, base: nat, size: nat, n: nat, li: nat, ghost e0: seq<seq<byte>>, ghost d: nat)
    returns (li': nat, done: bool, ghost d': nat)
    requires size >= TYPE_SIZE && base + n * size <= mem.Length && li <= n
    requires Progress(Entries(mem[..], base, size, n), e0, size, li, d)
    modifies mem
    ensures Outside(old(mem[..]), mem[..], base, n * size)
    ensures li' <= n
    ensures !done ==> d < d' <= n && Progress(Entries(mem[..], base, size, n), e0, size, li', d')
    ensures done ==> Entries(mem[..], base, size, n) == Compacted(e0, size) && li' == |Kept(e0)|
  {
    ghost var es := Entries(mem[..], base, size, n);
    li' := ScanLeft(mem, base, size, n, li, es);
    var ri := ScanRight(mem, base, size, n, li', es);
    done := !(li' < n && ri < n);
    d' := ri + 1;
    if !done {
      MoveEntry(mem, base, size, n, li', ri);
    }
    RoundEnd(es, Entries(mem[..], base, size, n), e0, size, li, li', ri, d, d', done);
  }

  /** What a pass of `CompactRound` leaves behind, stated on the entries
      before (`es`) and after (`es'`) it. */
  lemma RoundEnd(es: seq<seq<byte>>, es': seq<seq<byte>>, e0: seq<seq<byte>>, size: nat,
                 li: nat, li': nat, ri: nat, d: nat, d': nat, done: bool)
    requires size >= TYPE_SIZE && Progress(es, e0, size, li, d) && li <= li' <= ri <= |es|
    requires forall k :: li <= k < li' ==> !IsEmpty(es[k])
    requires li' == |es| || IsEmpty(es[li'])
    requires forall k :: li' <= k < ri ==> IsEmpty(es[k])
    requires ri == |es| || !IsEmpty(es[ri])
    requires done == !(li' < |es| && ri < |es|)
    requires !done ==> es' == es[li' := es[ri]][ri := Zeros(size)]
    requires done ==> es' == es
    requires d' == ri + 1
    ensures !done ==> d < d' <= |es| && Progress(es', e0, size, li', d')
    ensures done ==> es' == Compacted(e0, size) && li' == |Kept(e0)|
  {
    Round(es, e0, size, li, li', ri, d);
  }

  /** The compaction of `get_partition_array`: moves the used entries of the
      table of `n` strides of `size` bytes at `base` to its front, in order,
      and returns their number. */
  method Compact(mem: array<byte>, base: nat, size: nat, n: nat) returns (count: nat)
    requires size >= TYPE_SIZE && base + n * size <= mem.Length
    modifies mem
    ensures count == |Kept(Entries(old(mem[..]), base, size, n))|
    ensures Entries(mem[..], base, size, n) == Compacted(Entries(old(mem[..]), base, size, n), size)
    ensures Outside(old(mem[..]), mem[..], base, n * size)
  {
    ghost var e0 := Entries(mem[..], base, size, n);
    ghost var d: nat := 0;
    var li: nat := 0;
    Start(e0, size);
    while true
      invariant li <= n && Progress(Entries(mem[..], base, size, n), e0, size, li, d)
      invariant Outside(old(mem[..]), mem[..], base, n * size)
      decreases n - d
    {
      var li', done, d' := CompactRound(mem, base, size, n, li, e0, d);
      if done {
        li := li';
        break;
      }
      li, d := li', d';
    }
    count := li;
  }
}
