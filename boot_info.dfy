/** `create_boot_info`: the record the second stage hands to the third.
    It holds its own size, the GUID of the boot drive, the memory map
    flattened into a heap array, and the video descriptor; the array and
    video addresses are turned from data-segment offsets into linear
    addresses by adding `ds << 4`. */
module BootInfo {
  import opened Bytes
  import opened BlockList
  import Heap
  import MemoryMap

  /** sizeof(boot_info_t), taken as 48: the header that lays out
      `boot_info_t` is not part of this model. */
  const INFO_SIZE: dword := 48
  /** sizeof(memory_map_entry): base, length, type and attributes. */
  const ENTRY_SIZE: dword := 24
  /** Length of the drive GUID. */
  const GUID_SIZE: nat := 16

  /** The fields of `boot_info_t`. */
  datatype Info = Info(size: dword, guid: seq<byte>, mapCount: dword, mapEntrySize: dword,
                       mapAddress: dword, videoType: dword, videoAddress: dword)

  /** `BOOT_VIDEO_NOVIDEO` and `BOOT_VIDEO_LINTEXT`, taken as 0 and 1, and
      sizeof(video_lintext), taken as 8: the header that defines them is
      not part of this model. */
  const NOVIDEO: dword := 0
  const LINTEXT: dword := 1
  const LINTEXT_SIZE: dword := 8
  /** The segment of the colour text screen, and its number of rows. */
  const TEXT_SEGMENT: word := 0xB800
  const TEXT_ROWS: byte := 25

  /** What the video query leaves in its two out-parameters: the descriptor
      type and the descriptor's address, 0 when there is no descriptor. */
  datatype Video = Video(kind: dword, address: nat)

  /** The fields of a `video_lintext` descriptor. */
  datatype Lintext = Lintext(mode: byte, seg: word, cols: byte, rows: byte)

  /** The descriptor filled from the reply of BIOS function 0Fh (get video
      mode): the mode is AL and the number of columns AH. */
  function TextMode(ax: word): (r: Lintext)
    ensures r.mode + 0x100 * r.cols == ax
    ensures r.seg == TEXT_SEGMENT && r.rows == TEXT_ROWS
  {
    Lintext(ax % 0x100, TEXT_SEGMENT, ax / 0x100, TEXT_ROWS)
  }

  /** A data-segment offset as a linear address: `offset + (ds << 4)` on 32
      bits. */
  function Linear(offset: nat, ds: word): (r: dword)
    ensures offset + ds * 16 < U32 ==> r == offset + ds * 16
  {
    (offset + ds * 16) % U32
  }

  /** The smaller of two numbers. */
  function Min(a: nat, b: nat): nat
  {
    if a < b then a else b
  }

  /** The copy loop of `create_boot_info`: the list entries go into the
      array in list order, until the array is full or the list ends. */
  method Flatten(entries: array<MemoryMap.Entry>, list: seq<MemoryMap.Entry>) returns (copied: nat)
    modifies entries
    ensures copied == Min(entries.Length, |list|)
    ensures entries[..copied] == list[..copied]
    ensures entries[copied..] == old(entries[copied..])
  {
    var i := 0;
    while i < entries.Length && i < |list|
      invariant i <= entries.Length && i <= |list|
      invariant entries[..i] == list[..i]
      invariant entries[i..] == old(entries[i..])
    {
      entries[i] := list[i];
      assert entries[i + 1..] == old(entries[i + 1..]);
      i := i + 1;
    }
    copied := i;
  }

  /** The two allocations of `create_boot_info`, the record and then the
      array: when the second fails the first is freed, and `addr` is 0. */
  method Allocate(h: Heap.Heap, count: dword) returns (addr: nat, table: nat)
    requires h.Valid()
    modifies h
    ensures h.Valid()
    ensures addr == 0 ==> Used(h.blocks, Heap.HDR) == Used(old(h.blocks), Heap.HDR)
    ensures addr != 0 ==>
      (addr != table && addr !in Used(old(h.blocks), Heap.HDR) && table !in Used(old(h.blocks), Heap.HDR)
       && Used(h.blocks, Heap.HDR) == Used(old(h.blocks), Heap.HDR) + {addr, table})
  {
    table := 0;
    addr := h.Malloc(INFO_SIZE);
    if addr == 0 {
      return;
    }
    table := h.Malloc(ENTRY_SIZE * count % U32);
    if table == 0 {
      h.Free(addr);
      addr := 0;
    }
  }

  /** `_query_video` with `_query_video_bios`: BIOS function 0Fh answers
      with the carry flag `cf` and `ax`. When it succeeds and the
      descriptor can be allocated, the descriptor `text` is filled from
      `ax` and its address reported as a text-mode descriptor; otherwise
      the answer is no video at address 0 and the heap is unchanged. */
  method QueryVideo(h: Heap.Heap, cf: bool, ax: word) returns (video: Video, text: Lintext)
    requires h.Valid()
    modifies h
    ensures h.Valid()
    ensures video.kind == LINTEXT <==> !cf && FirstFit(old(h.blocks), Heap.Align16(LINTEXT_SIZE)).Some?
    ensures video.kind != LINTEXT ==>
      video == Video(NOVIDEO, 0) && Used(h.blocks, Heap.HDR) == Used(old(h.blocks), Heap.HDR)
    ensures video.kind == LINTEXT ==>
      (video.address != 0 && video.address !in Used(old(h.blocks), Heap.HDR)
       && Used(h.blocks, Heap.HDR) == Used(old(h.blocks), Heap.HDR) + {video.address}
       && text == TextMode(ax))
  {
    video, text := Video(NOVIDEO, 0), Lintext(0, 0, 0, 0);
    if cf {
      return;
    }
    var p := h.Malloc(LINTEXT_SIZE);
    if p == 0 {
      return;
    }
    text := TextMode(ax);
    video := Video(LINTEXT, p);
  }

  /** `create_boot_info`: allocates the record and an array of `count`
      entries (`count` is the map's own count, `list` its nodes' entries in
      list order), copies the GUID from `drive`, flattens the list, queries
      the video mode (the BIOS answers `cf` and `ax`) and fills in the
      record. On a failed allocation of the record or the array everything
      allocated is freed and `addr` is 0; a failed video query leaves no
      descriptor. */
  method CreateBootInfo(h: Heap.Heap, mem: seq<byte>, drive: nat, count: dword, list: seq<MemoryMap.Entry>,
                        ds: word, cf: bool, ax: word)
    returns (addr: nat, info: Info, entries: array<MemoryMap.Entry>, video: Video, text: Lintext, ghost table: nat)
    requires h.Valid()
    modifies h
    ensures h.Valid()
    ensures addr == 0 ==> Used(h.blocks, Heap.HDR) == Used(old(h.blocks), Heap.HDR)
    ensures addr != 0 ==>
      (addr != table && addr !in Used(old(h.blocks), Heap.HDR) && table !in Used(old(h.blocks), Heap.HDR)
       && (video.kind == LINTEXT ==> video.address !in Used(old(h.blocks), Heap.HDR) + {addr, table})
       && Used(h.blocks, Heap.HDR) == Used(old(h.blocks), Heap.HDR) + {addr, table}
                                      + (if video.kind == LINTEXT then {video.address} else {}))
    ensures addr != 0 ==>
      info == Info(INFO_SIZE, Slice(mem, drive, GUID_SIZE), count, ENTRY_SIZE, Linear(table, ds),
                   video.kind, Linear(video.address, ds))
    ensures addr != 0 ==>
      (video.kind == LINTEXT || video == Video(NOVIDEO, 0))
      && (video.kind == LINTEXT ==> !cf && video.address != 0 && text == TextMode(ax))
      && (cf ==> video == Video(NOVIDEO, 0))
    ensures addr != 0 ==>
      (fresh(entries) && entries.Length == count && entries[..Min(count, |list|)] == list[..Min(count, |list|)])
  {
    info := Info(0, [], 0, 0, 0, 0, 0);
    entries := new MemoryMap.Entry[0];
    video, text := Video(NOVIDEO, 0), Lintext(0, 0, 0, 0);
    var t;
    addr, t := Allocate(h, count);
    table := t;
    if addr == 0 {
      return;
    }
    var guid := Slice(mem, drive, GUID_SIZE);
    entries := new MemoryMap.Entry[count](_ => MemoryMap.Entry(0, 0, 0, 0));
    var copied := Flatten(entries, list);
    video, text := QueryVideo(h, cf, ax);
    info := Info(INFO_SIZE, guid, count, ENTRY_SIZE, Linear(t, ds), video.kind, Linear(video.address, ds));
  }
}
