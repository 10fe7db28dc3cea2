/** `load_kernel`: copies the kernel partition from disk to memory, one
    sector at a time through a 512-byte bounce buffer on the heap. */
module Kernel {
  import opened Bytes
  import opened Wrappers
  import opened BlockList
  import Heap
  import Gpt
  import Strings

  const SECTOR_SIZE: nat := 512

  /** One round of the loop: the BIOS puts `sector` in the bounce buffer,
      whose DAP offset is the low word of `buf`, and `memcpy` then copies
      the buffer's 512 bytes to `dst` in ascending order. The copy is
      written byte by byte so that the lemmas about the loop, which do not
      look inside a round, need not unfold it (`StepCopy`). */
  function Step(m: seq<byte>, sector: seq<byte>, buf: nat, dst: nat): (r: seq<byte>)
    ensures |r| == |m|
  {
    var m1 := Write(m, buf % U16, sector);
    seq(|m|, k requires 0 <= k < |m| => Strings.Copy(m1, dst, buf, SECTOR_SIZE)[k])
  }

  /** A round is the bounce-buffer write followed by the ascending copy. */
  lemma StepCopy(m: seq<byte>, sector: seq<byte>, buf: nat, dst: nat)
    ensures Step(m, sector, buf, dst) == Strings.Copy(Write(m, buf % U16, sector), dst, buf, SECTOR_SIZE)
  {
  }

  /** The 512 bytes of sector `k` of an image copied to `dst`. */
  function Image(m: seq<byte>, dst: nat, k: nat): (r: seq<byte>)
    ensures |r| == SECTOR_SIZE
  {
    seq(SECTOR_SIZE, j requires 0 <= j < SECTOR_SIZE => ImageByte(m, dst, k, j))
  }

  /** Byte `j` of sector `k` of an image copied to `dst`. */
  function ImageByte(m: seq<byte>, dst: nat, k: nat, j: nat): byte
  {
    At(m, dst + k * SECTOR_SIZE + j)
  }

  /** Sector `k` from `dst` is sector `k - 1` from the next sector on. */
  lemma ImageShift(m: seq<byte>, dst: nat, k: nat)
    requires k >= 1
    ensures Image(m, dst, k) == Image(m, dst + SECTOR_SIZE, k - 1)
  {
    assert dst + k * SECTOR_SIZE == dst + SECTOR_SIZE + (k - 1) * SECTOR_SIZE;
  }

  /** The loop from a given round on: `n` sectors remain, the next read is
      at `lba` and the next copy goes to `dst`. The result is the memory at
      the end and whether every read succeeded; a failed read ends the loop
      with the memory as it was then. LBA and destination wrap around at
      64 and 32 bits as the `qword_t` counter and the pointer do. */
  function Load(m: seq<byte>, disk: Gpt.Disk, lba: nat, buf: nat, dst: nat, n: nat): (r: (seq<byte>, bool))
    ensures |r.0| == |m|
    decreases n
  {
    if n == 0 then (m, true)
    else
      match Gpt.ReadSectors(disk, lba % U64, 1)
      case None => (m, false)
      case Some(s) =>
        Load(Step(m, s, buf, dst), disk, lba + 1, buf, (dst + SECTOR_SIZE) % U32, n - 1)
  }

  /** A round whose read succeeds leaves the rest of the loop to run on
      the memory after that round. */
  lemma LoadRound(m: seq<byte>, disk: Gpt.Disk, lba: nat, buf: nat, dst: nat, n: nat, s: seq<byte>)
    requires n > 0 && Gpt.ReadSectors(disk, lba % U64, 1) == Some(s)
    ensures Load(m, disk, lba, buf, dst, n)
      == Load(Step(m, s, buf, dst), disk, lba + 1, buf, (dst + SECTOR_SIZE) % U32, n - 1)
  {
  }

  /** Without wrap-around of the LBA, the loop runs to the end exactly when
      all `n` sectors can be read. */
  lemma {:induction false} LoadOk(m: seq<byte>, disk: Gpt.Disk, lba: nat, buf: nat, dst: nat, n: nat)
    requires lba + n <= U64
    ensures Load(m, disk, lba, buf, dst, n).1 <==> Gpt.ReadSectors(disk, lba, n).Some?
    decreases n
  {
    if n > 0 {
      match Gpt.ReadSectors(disk, lba, 1)
      case None =>
      case Some(s) =>
        LoadOk(Step(m, s, buf, dst), disk, lba + 1, buf, (dst + SECTOR_SIZE) % U32, n - 1);
    }
  }

  /** The loop writes nothing outside the bounce buffer and the `n` sectors
      from `dst`. */
  lemma {:induction false} LoadFrame(m: seq<byte>, disk: Gpt.Disk, lba: nat, buf: nat, dst: nat, n: nat, a: nat)
    requires buf < U16 && dst + n * SECTOR_SIZE < U32
    requires !(buf <= a < buf + SECTOR_SIZE) && !(dst <= a < dst + n * SECTOR_SIZE)
    ensures At(Load(m, disk, lba, buf, dst, n).0, a) == At(m, a)
    decreases n
  {
    if n > 0 {
      match Gpt.ReadSectors(disk, lba % U64, 1)
      case None =>
      case Some(s) =>
        assert (dst + SECTOR_SIZE) % U32 == dst + SECTOR_SIZE;
        StepFrame(m, s, buf, dst, a);
        LoadFrame(Step(m, s, buf, dst), disk, lba + 1, buf, dst + SECTOR_SIZE, n - 1, a);
    }
  }

  /** One round writes nothing outside the bounce buffer and the sector at
      `dst`. */
  lemma StepFrame(m: seq<byte>, s: seq<byte>, buf: nat, dst: nat, a: nat)
    requires buf < U16 && |s| == SECTOR_SIZE
    requires !(buf <= a < buf + SECTOR_SIZE) && !(dst <= a < dst + SECTOR_SIZE)
    ensures At(Step(m, s, buf, dst), a) == At(m, a)
  {
    assert buf % U16 == buf;
    if a < |m| {
      Strings.CopyFrame(Write(m, buf, s), dst, buf, SECTOR_SIZE, a);
    }
  }

  /** Byte `j` of the sector copied in a round sits at `dst + j`, when the
      bounce buffer and the destination do not overlap. */
  lemma StepAt(m: seq<byte>, s: seq<byte>, buf: nat, dst: nat, j: nat)
    requires |s| == SECTOR_SIZE && j < SECTOR_SIZE && buf < U16 && buf + SECTOR_SIZE <= |m| && dst + SECTOR_SIZE <= |m|
    requires buf + SECTOR_SIZE <= dst || dst + SECTOR_SIZE <= buf
    ensures At(Step(m, s, buf, dst), dst + j) == s[j]
  {
    assert buf % U16 == buf;
    StepCopy(m, s, buf, dst);
    Strings.WriteCopyAt(m, s, buf, dst, j);
  }

  /** When the destination starts one byte past the bounce buffer, the
      ascending copy repeats the sector's first byte over all 512 bytes. */
  lemma StepOverlap(m: seq<byte>, s: seq<byte>, buf: nat, j: nat)
    requires |s| == SECTOR_SIZE && j < SECTOR_SIZE && buf < U16 && buf + SECTOR_SIZE + 1 <= |m|
    ensures At(Step(m, s, buf, buf + 1), buf + 1 + j) == s[0]
  {
    assert buf % U16 == buf;
    var m1 := Write(m, buf, s);
    Strings.CopySmear(m1, buf, SECTOR_SIZE, j);
  }

  /** When every read succeeds, the bounce buffer lies in the data segment
      apart from the destination and nothing wraps around, sector `k` of the
      partition ends up at `dst + k * 512`. */
  lemma {:induction false} LoadPlaces(m: seq<byte>, disk: Gpt.Disk, lba: nat, buf: nat, dst: nat, n: nat, k: nat)
    requires buf < U16 && buf + SECTOR_SIZE <= |m| && dst + n * SECTOR_SIZE <= |m|
    requires dst + n * SECTOR_SIZE < U32 && lba + n <= U64
    requires buf + SECTOR_SIZE <= dst || dst + n * SECTOR_SIZE <= buf
    requires Load(m, disk, lba, buf, dst, n).1 && k < n
    ensures lba + k in disk && Image(Load(m, disk, lba, buf, dst, n).0, dst, k) == disk[lba + k]
    decreases n
  {
    if k == 0 {
      FirstPlaced(m, disk, lba, buf, dst, n);
    } else {
      var m1 := LoadUnfold(m, disk, lba, buf, dst, n);
      var r := Load(m, disk, lba, buf, dst, n).0;
      assert r == Load(m1, disk, lba + 1, buf, dst + SECTOR_SIZE, n - 1).0;
      LoadPlaces(m1, disk, lba + 1, buf, dst + SECTOR_SIZE, n - 1, k - 1);
      ImageShift(r, dst, k);
      assert lba + 1 + (k - 1) == lba + k;
    }
  }

  /** The first round of a successful load, when nothing wraps around. */
  lemma LoadUnfold(m: seq<byte>, disk: Gpt.Disk, lba: nat, buf: nat, dst: nat, n: nat) returns (m1: seq<byte>)
    requires 0 < n && dst + n * SECTOR_SIZE < U32 && lba + n <= U64
    requires Load(m, disk, lba, buf, dst, n).1
    ensures lba in disk && |disk[lba]| == SECTOR_SIZE && m1 == Step(m, disk[lba], buf, dst)
    ensures Load(m, disk, lba, buf, dst, n) == Load(m1, disk, lba + 1, buf, dst + SECTOR_SIZE, n - 1)
  {
    assert lba % U64 == lba && (dst + SECTOR_SIZE) % U32 == dst + SECTOR_SIZE;
    var s := Gpt.ReadSectors(disk, lba, 1).value;
    assert lba in disk && s == disk[lba];
    m1 := Step(m, s, buf, dst);
  }

  /** After a successful load the first sector sits at `dst`. */
  lemma FirstPlaced(m: seq<byte>, disk: Gpt.Disk, lba: nat, buf: nat, dst: nat, n: nat)
    requires 0 < n && buf < U16 && buf + SECTOR_SIZE <= |m| && dst + n * SECTOR_SIZE <= |m|
    requires dst + n * SECTOR_SIZE < U32 && lba + n <= U64
    requires buf + SECTOR_SIZE <= dst || dst + n * SECTOR_SIZE <= buf
    requires Load(m, disk, lba, buf, dst, n).1
    ensures lba in disk && Image(Load(m, disk, lba, buf, dst, n).0, dst, 0) == disk[lba]
  {
    var m1 := LoadUnfold(m, disk, lba, buf, dst, n);
    var r := Load(m, disk, lba, buf, dst, n).0;
    assert r == Load(m1, disk, lba + 1, buf, dst + SECTOR_SIZE, n - 1).0;
    forall j | 0 <= j < SECTOR_SIZE
      ensures Image(r, dst, 0)[j] == disk[lba][j]
    {
      LoadFrame(m1, disk, lba + 1, buf, dst + SECTOR_SIZE, n - 1, dst + j);
      StepAt(m, disk[lba], buf, dst, j);
    }
  }

  /** Number of sectors of a partition: end_lba - start_lba + 1 on 64 bits. */
  function SectorCount(startLba: qword, endLba: qword): (r: nat)
    ensures startLba <= endLba ==> r == if endLba - startLba + 1 == U64 then 0 else endLba - startLba + 1
  {
    (endLba - startLba + 1) % U64
  }

  /** Where the kernel goes, as an offset in the data segment: `address`
      minus `ds << 4` on 32 bits. */
  function Destination(address: dword, ds: word): (r: dword)
    ensures ds * 16 <= address ==> r == address - ds * 16
  {
    (address - ds * 16) % U32
  }

  /** The loop of `load_kernel`: `count` rounds of reading the sector at
      `lba + i` into the buffer at `buf` and copying it to `dst + i * 512`,
      stopping at the first failed read. */
  method CopySectors(mem: array<byte>, disk: Gpt.Disk, lba: nat, buf: nat, dst: dword, count: nat) returns (ok: bool)
    modifies mem
    ensures mem[..] == Load(old(mem[..]), disk, lba, buf, dst, count).0
    ensures ok == Load(old(mem[..]), disk, lba, buf, dst, count).1
  {
    ghost var target := Load(mem[..], disk, lba, buf, dst, count);
    var next: nat := lba;
    var to: nat := dst;
    var i: nat := 0;
    while i < count
      invariant i <= count
      invariant target == Load(mem[..], disk, next, buf, to, count - i)
      decreases count - i
    {
      var data := Gpt.ReadSectors(disk, next % U64, 1);
      if data.None? {
        return false;
      }
      LoadRound(mem[..], disk, next, buf, to, count - i, data.value);
      Round(mem, data.value, buf, to);
      next, to, i := next + 1, (to + SECTOR_SIZE) % U32, i + 1;
    }
    ok := true;
  }

  /** The body of the loop once the read has succeeded: the sector goes
      to the bounce buffer, then `memcpy` copies it to `dst`. */
  method Round(mem: array<byte>, sector: seq<byte>, buf: nat, dst: nat)
    modifies mem
    ensures mem[..] == Step(old(mem[..]), sector, buf, dst)
  {
    StepCopy(mem[..], sector, buf, dst);
    Gpt.Transfer(mem, buf % U16, sector);
    var _ := Strings.MemCpy(mem, dst, buf, SECTOR_SIZE);
  }

  /** `load_kernel`: reads the partition's sectors into a bounce buffer one
      by one and copies sector `k` to `Destination(address, ds) + k * 512`.
      `ok` tells whether every read succeeded; the buffer is freed on both
      paths. When the buffer cannot be allocated (`buf` is 0) nothing is
      read or written. */
  method LoadKernel(h: Heap.Heap, mem: array<byte>, disk: Gpt.Disk, startLba: qword, endLba: qword,
                    address: dword, ds: word)
    returns (ok: bool, ghost buf: nat)
    requires h.Valid()
    modifies h, mem
    ensures h.Valid() && Used(h.blocks, Heap.HDR) == Used(old(h.blocks), Heap.HDR)
    ensures buf == 0 <==> FirstFit(old(h.blocks), Heap.Align16(SECTOR_SIZE)).None?
    ensures buf != 0 ==> buf !in Used(old(h.blocks), Heap.HDR) && buf !in Used(h.blocks, Heap.HDR)
    ensures buf == 0 ==> !ok && mem[..] == old(mem[..])
    ensures buf != 0 ==>
      mem[..] == Load(old(mem[..]), disk, startLba, buf, Destination(address, ds), SectorCount(startLba, endLba)).0
    ensures buf != 0 ==>
      ok == Load(old(mem[..]), disk, startLba, buf, Destination(address, ds), SectorCount(startLba, endLba)).1
  {
    var count := SectorCount(startLba, endLba);
    var dst := Destination(address, ds);
    var b := h.Malloc(SECTOR_SIZE);
    buf := b;
    if b == 0 {
      return false, b;
    }
    ok := CopySectors(mem, disk, startLba, b, dst, count);
    h.Free(b);
  }
}
