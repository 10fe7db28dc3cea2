/** The block list shared by both first-fit allocators.

    Each block is a header at address `addr` followed by `size` payload
    bytes; the next block's header starts right after that payload. The
    intrusive doubly-linked list of the C code is the sequence order here:
    `prev` of block i is block i-1 and `next` is block i+1. */
module BlockList {
  import opened Wrappers

  datatype Block = Block(addr: nat, free: bool, size: nat)

  /** The allocator context: the first header's address, the cached
      `max_alloc`, and the blocks in list order. */
  datatype State = State(start: nat, maxAlloc: nat, blocks: seq<Block>)

  /** The address just past a block's payload. */
  function End(b: Block, hdr: nat): nat
  {
    b.addr + hdr + b.size
  }

  /** The blocks tile [start, end): the first header is at `start`, each
      header follows the previous payload, and the last payload ends at `end`. */
  predicate Tiled(bs: seq<Block>, hdr: nat, start: nat, end: nat)
  {
    |bs| >= 1 && bs[0].addr == start && End(bs[|bs| - 1], hdr) == end
    && forall i :: 0 <= i < |bs| - 1 ==> bs[i + 1].addr == End(bs[i], hdr)
  }

  /** In a tiling, blocks lie in increasing address order and do not overlap. */
  lemma {:induction false} AddrMono(bs: seq<Block>, hdr: nat, start: nat, end: nat, i: nat, j: nat)
    requires Tiled(bs, hdr, start, end) && i < j < |bs|
    ensures End(bs[i], hdr) <= bs[j].addr
    decreases j - i
  {
    if i + 1 < j {
      AddrMono(bs, hdr, start, end, i + 1, j);
    }
  }

  /** The address of block `i`'s payload, as `malloc` returns it. */
  function Payload(s: State, hdr: nat, i: nat): nat
    requires i < |s.blocks|
  {
    s.blocks[i].addr + hdr
  }

  /** Payloads of distinct blocks are disjoint, and a header separates them. */
  lemma PayloadsDisjoint(s: State, hdr: nat, end: nat, i: nat, j: nat)
    requires Tiled(s.blocks, hdr, s.start, end) && i < |s.blocks| && j < |s.blocks| && i != j
    ensures Payload(s, hdr, i) + s.blocks[i].size + hdr <= Payload(s, hdr, j)
         || Payload(s, hdr, j) + s.blocks[j].size + hdr <= Payload(s, hdr, i)
  {
    if i < j { AddrMono(s.blocks, hdr, s.start, end, i, j); } else { AddrMono(s.blocks, hdr, s.start, end, j, i); }
  }

  /** A block that can serve a request for `n` bytes. */
  predicate Fits(b: Block, n: nat)
  {
    b.free && b.size >= n
  }

  /** The first block in list order that is free and at least `n` bytes long. */
  function FirstFit(bs: seq<Block>, n: nat): (r: Option<nat>)
    ensures r.Some? ==> r.value < |bs| && Fits(bs[r.value], n)
    ensures r.Some? ==> forall j :: 0 <= j < r.value ==> !Fits(bs[j], n)
    ensures r.None? <==> forall j :: 0 <= j < |bs| ==> !Fits(bs[j], n)
    decreases |bs|
  {
    if bs == [] then None
    else if Fits(bs[0], n) then Some(0)
    else
      match FirstFit(bs[1..], n)
      case None => None
      case Some(k) => Some(k + 1)
  }

  /** The scan of `malloc` in both heaps: the index of the first free block
      of at least `n` bytes, or the number of blocks when there is none. */
  method FindFree(bs: seq<Block>, n: nat) returns (i: nat)
    ensures i <= |bs|
    ensures FirstFit(bs, n) == if i == |bs| then None else Some(i)
  {
    i := 0;
    while i < |bs| && !(bs[i].free && bs[i].size >= n)
      invariant i <= |bs|
      invariant forall j :: 0 <= j < i ==> !Fits(bs[j], n)
    {
      i := i + 1;
    }
  }

  /** The largest size over all blocks, free or used (0 for no blocks). */
  function MaxSize(bs: seq<Block>): (r: nat)
    ensures forall i :: 0 <= i < |bs| ==> bs[i].size <= r
    ensures bs != [] ==> exists i :: 0 <= i < |bs| && bs[i].size == r
    ensures bs == [] ==> r == 0
    decreases |bs|
  {
    if bs == [] then 0
    else
      var m := MaxSize(bs[..|bs| - 1]);
      assert forall i :: 0 <= i < |bs| - 1 ==> bs[i] == bs[..|bs| - 1][i];
      if bs[|bs| - 1].size > m then bs[|bs| - 1].size else m
  }

  /** No two neighbouring blocks are both free. */
  predicate NoAdjacentFree(bs: seq<Block>)
  {
    forall i :: 0 <= i < |bs| - 1 ==> !(bs[i].free && bs[i + 1].free)
  }

  /** `_allocate_block` after the size update: block `i` keeps `n` bytes and a
      new free block of the remainder, less one header, is linked right after
      it, its header just past block `i`'s `n` bytes. */
  function Split(bs: seq<Block>, hdr: nat, i: nat, n: nat): (r: seq<Block>)
    requires i < |bs| && n + hdr <= bs[i].size
    ensures |r| == |bs| + 1
  {
    var b := bs[i];
    bs[..i] + [Block(b.addr, b.free, n), Block(b.addr + hdr + n, true, b.size - n - hdr)] + bs[i + 1..]
  }

  /** `_merge_blocks`: block `i` absorbs block `i+1` together with its header. */
  function MergeNext(bs: seq<Block>, hdr: nat, i: nat): (r: seq<Block>)
    requires i + 1 < |bs|
    ensures |r| == |bs| - 1
  {
    bs[..i] + [Block(bs[i].addr, bs[i].free, bs[i].size + hdr + bs[i + 1].size)] + bs[i + 2..]
  }

  /** Block `i` with its free flag set to `f`. */
  function Mark(bs: seq<Block>, i: nat, f: bool): (r: seq<Block>)
    requires i < |bs|
    ensures |r| == |bs|
  {
    bs[i := Block(bs[i].addr, f, bs[i].size)]
  }

  /** The allocation step of `malloc` on block `i`: it is marked used; when at
      least `minSplit` bytes would be left over it is cut to `n` bytes and the
      rest becomes a new free block, otherwise it is granted whole. */
  function Grant(bs: seq<Block>, hdr: nat, minSplit: nat, i: nat, n: nat): (r: seq<Block>)
    requires i < |bs| && n <= bs[i].size && hdr <= minSplit
  {
    if bs[i].size - n < minSplit then Mark(bs, i, false) else Split(Mark(bs, i, false), hdr, i, n)
  }

  /** Where block `k` of `bs` sits after `Grant(bs, hdr, minSplit, i, n)`. */
  function GrantIndex(bs: seq<Block>, minSplit: nat, i: nat, n: nat, k: nat): nat
    requires i < |bs| && n <= bs[i].size
  {
    if k > i && bs[i].size - n >= minSplit then k + 1 else k
  }

  /** Splitting keeps the tiling. */
  lemma TiledSplit(bs: seq<Block>, hdr: nat, start: nat, end: nat, i: nat, n: nat)
    requires Tiled(bs, hdr, start, end) && i < |bs| && n + hdr <= bs[i].size
    ensures Tiled(Split(bs, hdr, i, n), hdr, start, end)
  {
    var r := Split(bs, hdr, i, n);
    forall q | 0 <= q < |r| - 1 ensures r[q + 1].addr == End(r[q], hdr) {
      if q < i - 1 { assert r[q] == bs[q] && r[q + 1] == bs[q + 1]; }
      else if q == i - 1 { assert r[q] == bs[q]; }
      else if q > i + 1 { assert r[q] == bs[q - 1] && r[q + 1] == bs[q]; }
      else if q == i + 1 { assert r[q + 1] == bs[i + 1]; }
    }
  }

  /** Merging keeps the tiling. */
  lemma TiledMerge(bs: seq<Block>, hdr: nat, start: nat, end: nat, i: nat)
    requires Tiled(bs, hdr, start, end) && i + 1 < |bs|
    ensures Tiled(MergeNext(bs, hdr, i), hdr, start, end)
  {
    var r := MergeNext(bs, hdr, i);
    forall q | 0 <= q < |r| - 1 ensures r[q + 1].addr == End(r[q], hdr) {
      if q < i - 1 { assert r[q] == bs[q] && r[q + 1] == bs[q + 1]; }
      else if q == i - 1 { assert r[q] == bs[q]; }
      else if q > i { assert r[q] == bs[q + 1] && r[q + 1] == bs[q + 2]; }
      else { assert r[q + 1] == bs[i + 2]; }
    }
  }

  /** Changing a free flag keeps the tiling. */
  lemma TiledMark(bs: seq<Block>, hdr: nat, start: nat, end: nat, i: nat, f: bool)
    requires Tiled(bs, hdr, start, end) && i < |bs|
    ensures Tiled(Mark(bs, i, f), hdr, start, end)
  {
    var r := Mark(bs, i, f);
    assert forall q :: 0 <= q < |r| ==> r[q].addr == bs[q].addr && End(r[q], hdr) == End(bs[q], hdr);
  }

  /** The split rule keeps the tiling and the blocks before `i`; block `i`
      becomes used and keeps at least `n` and fewer than `n + minSplit` bytes,
      exactly `n` when the remainder became a block of its own. */
  lemma GrantBlock(bs: seq<Block>, hdr: nat, minSplit: nat, start: nat, end: nat, i: nat, n: nat)
    requires Tiled(bs, hdr, start, end)
    requires i < |bs| && n <= bs[i].size && 0 < hdr <= minSplit
    ensures var r := Grant(bs, hdr, minSplit, i, n);
      Tiled(r, hdr, start, end) && r[..i] == bs[..i] && r[i].addr == bs[i].addr && !r[i].free
      && n <= r[i].size < n + minSplit
      && (bs[i].size - n >= minSplit ==> r[i].size == n)
  {
    TiledMark(bs, hdr, start, end, i, false);
    if bs[i].size - n >= minSplit {
      TiledSplit(Mark(bs, i, false), hdr, start, end, i, n);
    }
  }

  /** Every block other than `i` keeps its contents, address included, at
      the index `GrantIndex` gives. */
  lemma GrantKeepsOthers(bs: seq<Block>, hdr: nat, minSplit: nat, i: nat, n: nat, k: nat)
    requires i < |bs| && n <= bs[i].size && hdr <= minSplit
    requires k < |bs| && k != i
    ensures var r, k' := Grant(bs, hdr, minSplit, i, n), GrantIndex(bs, minSplit, i, n, k);
      k' < |r| && r[k'] == bs[k]
  {
  }

  /** What both allocators keep true of their context: the blocks tile the
      arena from `start` to `end`, no free block is larger than `max_alloc`,
      and no two neighbouring blocks are both free. */
  predicate Inv(s: State, hdr: nat, end: nat)
  {
    Tiled(s.blocks, hdr, s.start, end)
    && (forall i :: 0 <= i < |s.blocks| && s.blocks[i].free ==> s.blocks[i].size <= s.maxAlloc)
    && NoAdjacentFree(s.blocks)
  }

  /** `malloc` for a request already rounded to `n` bytes: the new context and
      the returned pointer, 0 standing for NULL. */
  function Malloc(s: State, hdr: nat, minSplit: nat, n: nat): (r: (State, nat))
    requires hdr <= minSplit
  {
    if n > s.maxAlloc then (s, 0)
    else
      match FirstFit(s.blocks, n)
      case None => (s, 0)
      case Some(i) =>
        var bs := Grant(s.blocks, hdr, minSplit, i, n);
        (State(s.start, MaxSize(bs), bs), Payload(s, hdr, i))
  }

  /** `malloc` returns NULL exactly when no block is free and large enough, and
      then changes nothing: the early exit on `max_alloc` never refuses a
      request that the scan would have served. */
  lemma MallocNull(s: State, hdr: nat, minSplit: nat, n: nat, end: nat)
    requires Inv(s, hdr, end) && 0 < hdr <= minSplit
    ensures Malloc(s, hdr, minSplit, n).1 == 0 <==> FirstFit(s.blocks, n).None?
    ensures Malloc(s, hdr, minSplit, n).1 == 0 ==> Malloc(s, hdr, minSplit, n).0 == s
  {
    if n > s.maxAlloc {
      assert forall j :: 0 <= j < |s.blocks| ==> !Fits(s.blocks[j], n);
    }
  }

  /** `malloc` is first-fit: the pointer is the payload of the first free
      block of at least `n` bytes, now used; blocks before it are untouched;
      it keeps at least `n` bytes and fewer than `n + minSplit`; and
      `max_alloc` becomes the largest size over all blocks. */
  lemma MallocFirstFit(s: State, hdr: nat, minSplit: nat, n: nat, end: nat)
    requires Tiled(s.blocks, hdr, s.start, end) && 0 < hdr <= minSplit
    requires Malloc(s, hdr, minSplit, n).1 != 0
    ensures FirstFit(s.blocks, n).Some?
    ensures var (s', p) := Malloc(s, hdr, minSplit, n); var i := FirstFit(s.blocks, n).value;
      i < |s'.blocks| && p == Payload(s', hdr, i) && !s'.blocks[i].free
      && n <= s'.blocks[i].size < n + minSplit && s'.blocks[..i] == s.blocks[..i]
      && s'.maxAlloc == MaxSize(s'.blocks) && s'.start == s.start
  {
    var i := FirstFit(s.blocks, n).value;
    GrantBlock(s.blocks, hdr, minSplit, s.start, end, i, n);
  }

  /** `malloc` keeps the allocator invariant. */
  lemma MallocInv(s: State, hdr: nat, minSplit: nat, n: nat, end: nat)
    requires Inv(s, hdr, end) && 0 < hdr <= minSplit
    ensures Inv(Malloc(s, hdr, minSplit, n).0, hdr, end)
  {
    if n <= s.maxAlloc && FirstFit(s.blocks, n).Some? {
      var i := FirstFit(s.blocks, n).value;
      GrantBlock(s.blocks, hdr, minSplit, s.start, end, i, n);
      GrantNoAdjacent(s.blocks, hdr, minSplit, i, n);
    }
  }

  /** Granting a free block whose neighbours are used leaves no two free
      blocks side by side: a split-off remainder follows a used block and
      precedes a used one. */
  lemma GrantNoAdjacent(bs: seq<Block>, hdr: nat, minSplit: nat, i: nat, n: nat)
    requires NoAdjacentFree(bs) && i < |bs| && bs[i].free && n <= bs[i].size && hdr <= minSplit
    ensures NoAdjacentFree(Grant(bs, hdr, minSplit, i, n))
  {
    var r := Grant(bs, hdr, minSplit, i, n);
    assert i > 0 ==> !bs[i - 1].free;
    assert i + 1 < |bs| ==> !bs[i + 1].free;
    if bs[i].size - n < minSplit {
      forall k | 0 <= k < |r| - 1 ensures !(r[k].free && r[k + 1].free) {
        assert k != i && k + 1 != i ==> r[k] == bs[k] && r[k + 1] == bs[k + 1];
      }
    } else {
      forall k | 0 <= k < |r| - 1 ensures !(r[k].free && r[k + 1].free) {
        if k < i - 1 {
          assert r[k] == bs[k] && r[k + 1] == bs[k + 1];
        } else if k > i + 1 {
          assert r[k] == bs[k - 1] && r[k + 1] == bs[k];
        } else if k == i + 1 {
          assert r[k + 1] == bs[i + 1];
        }
      }
    }
  }

  /** `free` of block `i`, as the list surgery leaves it: the block is marked
      free, merged into a free predecessor, and then absorbs a free successor.
      Returns the new blocks and the index of the resulting block. */
  function Release(bs: seq<Block>, hdr: nat, i: nat): (r: (seq<Block>, nat))
    requires i < |bs|
    ensures r.1 < |r.0|
  {
    var b0 := Mark(bs, i, true);
    var (b1, j) := if i > 0 && b0[i - 1].free then (MergeNext(b0, hdr, i - 1), i - 1) else (b0, i);
    if j + 1 < |b1| && b1[j + 1].free then (MergeNext(b1, hdr, j), j) else (b1, j)
  }

  /** `free` of block `i`: `max_alloc` is raised to the resulting block's size
      when that is larger, and never lowered. */
  function Free(s: State, hdr: nat, i: nat): (r: State)
    requires i < |s.blocks|
    ensures r.maxAlloc >= s.maxAlloc && r.start == s.start
  {
    var (bs, j) := Release(s.blocks, hdr, i);
    State(s.start, if bs[j].size > s.maxAlloc then bs[j].size else s.maxAlloc, bs)
  }

  /** The index just past the run of blocks that `free` of block `i` coalesces. */
  function RunEnd(bs: seq<Block>, i: nat): nat
    requires i < |bs|
  {
    if i + 1 < |bs| && bs[i + 1].free then i + 2 else i + 1
  }

  /** `free` coalesces: the freed block and its free neighbours become one free
      block at the address of the first of them (the predecessor's when that
      was free), ending where the last of them ended; every other block keeps
      its place. */
  lemma ReleaseShape(bs: seq<Block>, hdr: nat, start: nat, end: nat, i: nat)
    requires Tiled(bs, hdr, start, end) && i < |bs|
    ensures var rel := Release(bs, hdr, i); var r, j, k := rel.0, rel.1, RunEnd(bs, i);
      (j == i || (j == i - 1 && bs[i - 1].free)) && (j == i ==> i == 0 || !bs[i - 1].free)
      && End(bs[k - 1], hdr) >= bs[j].addr + hdr
      && r == bs[..j] + [Block(bs[j].addr, true, End(bs[k - 1], hdr) - bs[j].addr - hdr)] + bs[k..]
  {
    var prev := i > 0 && bs[i - 1].free;
    var next := i + 1 < |bs| && bs[i + 1].free;
    if prev { assert bs[i].addr == End(bs[i - 1], hdr); }
    if next { assert bs[i + 1].addr == End(bs[i], hdr); }
    ReleaseCases(bs, hdr, i);
  }

  /** `Release` in each of its four cases, by sizes. */
  lemma ReleaseCases(bs: seq<Block>, hdr: nat, i: nat)
    requires i < |bs|
    ensures var prev, next := i > 0 && bs[i - 1].free, i + 1 < |bs| && bs[i + 1].free;
      Release(bs, hdr, i) ==
        if prev && next then
          (bs[..i - 1] + [Block(bs[i - 1].addr, true, bs[i - 1].size + hdr + bs[i].size + hdr + bs[i + 1].size)] + bs[i + 2..], i - 1)
        else if prev then
          (bs[..i - 1] + [Block(bs[i - 1].addr, true, bs[i - 1].size + hdr + bs[i].size)] + bs[i + 1..], i - 1)
        else if next then
          (bs[..i] + [Block(bs[i].addr, true, bs[i].size + hdr + bs[i + 1].size)] + bs[i + 2..], i)
        else
          (bs[..i] + [Block(bs[i].addr, true, bs[i].size)] + bs[i + 1..], i)
  {
    var prev := i > 0 && bs[i - 1].free;
    var next := i + 1 < |bs| && bs[i + 1].free;
    if prev {
      ReleasePrev(bs, hdr, i, next);
    } else if next {
      ReleaseNext(bs, hdr, i);
    } else {
      MarkSplit(bs, i);
    }
  }

  /** Marking block `i` free, as a splice. */
  lemma MarkSplit(bs: seq<Block>, i: nat)
    requires i < |bs|
    ensures Mark(bs, i, true) == bs[..i] + [Block(bs[i].addr, true, bs[i].size)] + bs[i + 1..]
  {
  }

  /** `Release` when the predecessor is free: it absorbs block `i`, and the
      successor too when that is free. */
  lemma ReleasePrev(bs: seq<Block>, hdr: nat, i: nat, next: bool)
    requires 0 < i < |bs| && bs[i - 1].free && next == (i + 1 < |bs| && bs[i + 1].free)
    ensures Release(bs, hdr, i) ==
      if next then
        (bs[..i - 1] + [Block(bs[i - 1].addr, true, bs[i - 1].size + hdr + bs[i].size + hdr + bs[i + 1].size)] + bs[i + 2..], i - 1)
      else
        (bs[..i - 1] + [Block(bs[i - 1].addr, true, bs[i - 1].size + hdr + bs[i].size)] + bs[i + 1..], i - 1)
  {
    var y := MergePrev(bs, hdr, i);
    var b1 := bs[..i - 1] + [y] + bs[i + 1..];
    if next {
      MergeAt(bs[..i - 1], y, bs[i + 1..], hdr);
    } else {
      assert !(i < |b1| && b1[i].free);
    }
  }

  /** Marking block `i` free and merging it into its free predecessor
      gives the predecessor grown by a header and block `i`. */
  lemma MergePrev(bs: seq<Block>, hdr: nat, i: nat) returns (y: Block)
    requires 0 < i < |bs|
    ensures y == Block(bs[i - 1].addr, bs[i - 1].free, bs[i - 1].size + hdr + bs[i].size)
    ensures MergeNext(Mark(bs, i, true), hdr, i - 1) == bs[..i - 1] + [y] + bs[i + 1..]
  {
    var x := Block(bs[i].addr, true, bs[i].size);
    MarkSplit(bs, i);
    assert Mark(bs, i, true) == bs[..i - 1] + [bs[i - 1]] + ([x] + bs[i + 1..]);
    MergeAt(bs[..i - 1], bs[i - 1], [x] + bs[i + 1..], hdr);
    y := Block(bs[i - 1].addr, bs[i - 1].free, bs[i - 1].size + hdr + bs[i].size);
  }

  /** `Release` when only the successor is free: block `i` absorbs it. */
  lemma ReleaseNext(bs: seq<Block>, hdr: nat, i: nat)
    requires i + 1 < |bs| && bs[i + 1].free && (i == 0 || !bs[i - 1].free)
    ensures Release(bs, hdr, i) == (bs[..i] + [Block(bs[i].addr, true, bs[i].size + hdr + bs[i + 1].size)] + bs[i + 2..], i)
  {
    var x := Block(bs[i].addr, true, bs[i].size);
    MarkSplit(bs, i);
    MergeAt(bs[..i], x, bs[i + 1..], hdr);
  }

  /** Merging the block that follows `pre`. */
  lemma MergeAt(pre: seq<Block>, x: Block, post: seq<Block>, hdr: nat)
    requires |post| >= 1
    ensures MergeNext(pre + [x] + post, hdr, |pre|) == pre + [Block(x.addr, x.free, x.size + hdr + post[0].size)] + post[1..]
  {
    var bs := pre + [x] + post;
    assert bs[..|pre|] == pre && bs[|pre|] == x && bs[|pre| + 1] == post[0] && bs[|pre| + 2..] == post[1..];
  }

  /** `free` keeps the allocator invariant: no free neighbours remain unmerged. */
  lemma FreeInv(s: State, hdr: nat, i: nat, end: nat)
    requires Inv(s, hdr, end) && i < |s.blocks|
    ensures Inv(Free(s, hdr, i), hdr, end)
  {
    var j, k, r, max := FreeRun(s, hdr, end, i);
    RunInv(s, hdr, end, j, k, r, max);
  }

  /** `free` of block `i` replaces a run `bs[j..k]` bordered by used blocks
      with one free block spanning it, and raises `max_alloc` to cover it. */
  lemma FreeRun(s: State, hdr: nat, end: nat, i: nat) returns (j: nat, k: nat, r: seq<Block>, max: nat)
    requires Inv(s, hdr, end) && i < |s.blocks|
    ensures Free(s, hdr, i) == State(s.start, max, r)
    ensures j < k <= |s.blocks| && End(s.blocks[k - 1], hdr) >= s.blocks[j].addr + hdr
    ensures r == s.blocks[..j] + [Block(s.blocks[j].addr, true, End(s.blocks[k - 1], hdr) - s.blocks[j].addr - hdr)] + s.blocks[k..]
    ensures (j > 0 ==> !s.blocks[j - 1].free) && (k < |s.blocks| ==> !s.blocks[k].free)
    ensures max >= s.maxAlloc && max >= r[j].size
  {
    var bs := s.blocks;
    var rel := Release(bs, hdr, i);
    r, j, k := rel.0, rel.1, RunEnd(bs, i);
    ReleaseShape(bs, hdr, s.start, end, i);
    RunBorders(bs, i, j, k);
    max := Free(s, hdr, i).maxAlloc;
  }

  /** The run `free` of block `i` coalesces has a used block, or the end of
      the list, on either side, when no two free blocks were adjacent. */
  lemma RunBorders(bs: seq<Block>, i: nat, j: nat, k: nat)
    requires NoAdjacentFree(bs) && i < |bs| && k == RunEnd(bs, i)
    requires (j == i || (j == i - 1 && bs[i - 1].free)) && (j == i ==> i == 0 || !bs[i - 1].free)
    ensures j > 0 ==> !bs[j - 1].free
    ensures k < |bs| ==> !bs[k].free
  {
    if k == i + 2 && k < |bs| {
      assert !(bs[k - 1].free && bs[k].free);
    }
  }

  /** Replacing the run `bs[j..k]` by one free block spanning it, with a free
      neighbour on neither side, keeps the invariant when `max_alloc` covers
      the new block. */
  lemma RunInv(s: State, hdr: nat, end: nat, j: nat, k: nat, r: seq<Block>, max: nat)
    requires Inv(s, hdr, end) && j < k <= |s.blocks|
    requires End(s.blocks[k - 1], hdr) >= s.blocks[j].addr + hdr
    requires r == s.blocks[..j] + [Block(s.blocks[j].addr, true, End(s.blocks[k - 1], hdr) - s.blocks[j].addr - hdr)] + s.blocks[k..]
    requires j > 0 ==> !s.blocks[j - 1].free
    requires k < |s.blocks| ==> !s.blocks[k].free
    requires max >= s.maxAlloc && max >= r[j].size
    ensures Inv(State(s.start, max, r), hdr, end)
  {
    var bs := s.blocks;
    RunTiled(bs, hdr, s.start, end, j, k, r);
    RunNoAdjacent(bs, j, k, r);
    RunSizes(bs, j, k, r, max);
  }

  /** After the run `bs[j..k]` is replaced, a free block other than the
      new one is a free block of `bs`, so a bound on those bounds it too. */
  lemma RunSizes(bs: seq<Block>, j: nat, k: nat, r: seq<Block>, max: nat)
    requires j < k <= |bs| && |r| == j + 1 + |bs| - k
    requires r[..j] == bs[..j] && r[j + 1..] == bs[k..]
    requires forall q :: 0 <= q < |bs| && bs[q].free ==> bs[q].size <= max
    requires r[j].size <= max
    ensures forall q :: 0 <= q < |r| && r[q].free ==> r[q].size <= max
  {
    forall q | 0 <= q < |r| && r[q].free ensures r[q].size <= max {
      if q < j { assert r[q] == bs[q]; }
      else if q > j { assert r[q] == r[j + 1..][q - j - 1] == bs[q - j - 1 + k]; }
    }
  }

  /** Replacing the run `bs[j..k]` by one block spanning it keeps the tiling. */
  lemma RunTiled(bs: seq<Block>, hdr: nat, start: nat, end: nat, j: nat, k: nat, r: seq<Block>)
    requires Tiled(bs, hdr, start, end) && j < k <= |bs| && End(bs[k - 1], hdr) >= bs[j].addr + hdr
    requires r == bs[..j] + [Block(bs[j].addr, true, End(bs[k - 1], hdr) - bs[j].addr - hdr)] + bs[k..]
    ensures Tiled(r, hdr, start, end)
  {
    forall q | 0 <= q < |r| - 1 ensures r[q + 1].addr == End(r[q], hdr) {
      if q + 1 < j { assert r[q] == bs[q] && r[q + 1] == bs[q + 1]; }
      else if q + 1 == j { assert r[q] == bs[q]; }
      else if q > j { assert r[q] == bs[q - j - 1 + k] && r[q + 1] == bs[q - j + k]; }
      else { assert r[q + 1] == bs[k]; }
    }
    if k < |bs| { assert r[|r| - 1] == bs[|bs| - 1]; }
  }

  lemma RunNoAdjacent(bs: seq<Block>, j: nat, k: nat, r: seq<Block>)
    requires NoAdjacentFree(bs) && j < k <= |bs| && |r| == j + 1 + |bs| - k
    requires j > 0 ==> !bs[j - 1].free
    requires k < |bs| ==> !bs[k].free
    requires r[..j] == bs[..j] && r[j + 1..] == bs[k..]
    ensures NoAdjacentFree(r)
  {
    forall q | 0 <= q < |r| - 1 ensures !(r[q].free && r[q + 1].free) {
      if q + 1 < j {
        assert r[q] == bs[q] && r[q + 1] == bs[q + 1];
      } else if q > j {
        assert r[q] == r[j + 1..][q - j - 1] == bs[q - j - 1 + k];
        assert r[q + 1] == r[j + 1..][q - j] == bs[q - j + k];
      } else if q + 1 == j {
        assert r[q] == bs[j - 1];
      } else {
        assert r[q + 1] == r[j + 1..][0] == bs[k];
      }
    }
  }

  /** A used block survives `free` of another block with its contents and
      its address, at the index the coalescing leaves it. */
  lemma ReleaseKeepsUsed(bs: seq<Block>, hdr: nat, start: nat, end: nat, i: nat, x: nat)
    requires Tiled(bs, hdr, start, end) && i < |bs| && x < |bs| && x != i && !bs[x].free
    ensures var rel := Release(bs, hdr, i); var r, j, k := rel.0, rel.1, RunEnd(bs, i);
      (x < j || x >= k) && (if x < j then x else x - (k - j - 1)) < |r|
      && r[if x < j then x else x - (k - j - 1)] == bs[x]
  {
    var rel := Release(bs, hdr, i);
    var j, k := rel.1, RunEnd(bs, i);
    assert j < k <= |bs| && (x < j || k <= x < |bs|)
      && rel.0 == bs[..j] + [Block(bs[j].addr, true, End(bs[k - 1], hdr) - bs[j].addr - hdr)] + bs[k..] by {
      ReleaseShape(bs, hdr, start, end, i);
    }
    SpliceIndex(bs, rel.0, j, k, Block(bs[j].addr, true, End(bs[k - 1], hdr) - bs[j].addr - hdr), x);
  }

  /** Outside the replaced run, a block of a splice sits where the run's
      shortening moves it. */
  lemma SpliceIndex(bs: seq<Block>, r: seq<Block>, j: nat, k: nat, b: Block, x: nat)
    requires j < k <= |bs| && r == bs[..j] + [b] + bs[k..] && (x < j || k <= x < |bs|)
    ensures (if x < j then x else x - (k - j - 1)) < |r| && r[if x < j then x else x - (k - j - 1)] == bs[x]
  {
    if x >= k {
      assert r[x - (k - j - 1)] == bs[k..][x - k];
    }
  }

  /** The payload addresses of the used blocks: the allocations the program
      holds. */
  function Used(bs: seq<Block>, hdr: nat): (r: set<nat>)
    decreases |bs|
  {
    if bs == [] then {} else (if bs[0].free then {} else {bs[0].addr + hdr}) + Used(bs[1..], hdr)
  }

  lemma {:induction false} UsedConcat(a: seq<Block>, b: seq<Block>, hdr: nat)
    ensures Used(a + b, hdr) == Used(a, hdr) + Used(b, hdr)
    decreases |a|
  {
    if a == [] {
      assert a + b == b;
    } else {
      assert (a + b)[1..] == a[1..] + b;
      UsedConcat(a[1..], b, hdr);
    }
  }

  /** An address is in `Used` exactly when some used block has it as payload. */
  lemma {:induction false} UsedMember(bs: seq<Block>, hdr: nat, x: nat)
    ensures x in Used(bs, hdr) <==> exists k :: 0 <= k < |bs| && !bs[k].free && bs[k].addr + hdr == x
    decreases |bs|
  {
    if bs != [] {
      UsedMember(bs[1..], hdr, x);
      if x in Used(bs[1..], hdr) {
        var k :| 0 <= k < |bs[1..]| && !bs[1..][k].free && bs[1..][k].addr + hdr == x;
        assert bs[k + 1] == bs[1..][k];
      }
      if exists k :: 0 <= k < |bs| && !bs[k].free && bs[k].addr + hdr == x {
        var k :| 0 <= k < |bs| && !bs[k].free && bs[k].addr + hdr == x;
        if k > 0 {
          assert bs[1..][k - 1] == bs[k];
        }
      }
    }
  }

  /** A live pointer lies inside the heap, past the first header. */
  lemma UsedBelow(bs: seq<Block>, hdr: nat, start: nat, end: nat, x: nat)
    requires Tiled(bs, hdr, start, end) && x in Used(bs, hdr)
    ensures start + hdr <= x <= end
  {
    UsedMember(bs, hdr, x);
    var k :| 0 <= k < |bs| && !bs[k].free && bs[k].addr + hdr == x;
    if k < |bs| - 1 {
      AddrMono(bs, hdr, start, end, k, |bs| - 1);
    }
    if k > 0 {
      AddrMono(bs, hdr, start, end, 0, k);
    }
  }

  /** `Used` of a list cut around position `i`. */
  lemma UsedAround(pre: seq<Block>, mid: seq<Block>, post: seq<Block>, hdr: nat)
    ensures Used(pre + mid + post, hdr) == Used(pre, hdr) + Used(mid, hdr) + Used(post, hdr)
  {
    UsedConcat(pre + mid, post, hdr);
    UsedConcat(pre, mid, hdr);
  }

  /** In a tiling no block before `j` or from `k` on has the payload
      address of block `i`, for `j <= i < k`. */
  lemma PayloadNotElsewhere(bs: seq<Block>, hdr: nat, start: nat, end: nat, i: nat, j: nat, k: nat)
    requires Tiled(bs, hdr, start, end) && 0 < hdr && j <= i < k <= |bs|
    ensures bs[i].addr + hdr !in Used(bs[..j], hdr) && bs[i].addr + hdr !in Used(bs[k..], hdr)
  {
    var x := bs[i].addr + hdr;
    UsedMember(bs[..j], hdr, x);
    UsedMember(bs[k..], hdr, x);
    if x in Used(bs[..j], hdr) {
      var q :| 0 <= q < j && !bs[..j][q].free && bs[..j][q].addr + hdr == x;
      PayloadsDisjoint(State(start, 0, bs), hdr, end, i, q);
    }
    if x in Used(bs[k..], hdr) {
      var q :| 0 <= q < |bs| - k && !bs[k..][q].free && bs[k..][q].addr + hdr == x;
      assert bs[k + q] == bs[k..][q];
      PayloadsDisjoint(State(start, 0, bs), hdr, end, i, k + q);
    }
  }

  /** The set algebra behind `MallocUsed` and `FreeUsed`. */
  lemma SwapOne(a: set<nat>, b: set<nat>, before: set<nat>, after: set<nat>, p: nat)
    requires p !in a && p !in b
    ensures before == a + b && after == a + {p} + b ==> p !in before && after == before + {p}
    ensures before == a + {p} + b && after == a + b ==> after == before - {p}
    ensures before == a + b && after == a + b ==> after == before - {p}
  {
  }

  lemma MallocIs(s: State, hdr: nat, minSplit: nat, n: nat)
    requires 0 < hdr <= minSplit && Malloc(s, hdr, minSplit, n).1 != 0
    ensures FirstFit(s.blocks, n).Some?
    ensures var i := FirstFit(s.blocks, n).value;
      Malloc(s, hdr, minSplit, n).0.blocks == Grant(s.blocks, hdr, minSplit, i, n)
      && Malloc(s, hdr, minSplit, n).1 == s.blocks[i].addr + hdr
  {
  }

  lemma UsedOne(b: Block, hdr: nat)
    ensures Used([b], hdr) == if b.free then {} else {b.addr + hdr}
  {
    assert [b][1..] == [];
  }

  /** `Used` of a list split at block `i`. */
  lemma UsedAt(bs: seq<Block>, hdr: nat, i: nat)
    requires i < |bs|
    ensures Used(bs, hdr) == Used(bs[..i], hdr) + (if bs[i].free then {} else {bs[i].addr + hdr}) + Used(bs[i + 1..], hdr)
  {
    assert bs == bs[..i] + [bs[i]] + bs[i + 1..];
    UsedAround(bs[..i], [bs[i]], bs[i + 1..], hdr);
    UsedOne(bs[i], hdr);
  }

  /** Granting block `i` adds its payload address to the allocations around it. */
  lemma GrantUsed(bs: seq<Block>, hdr: nat, minSplit: nat, i: nat, n: nat)
    requires i < |bs| && n <= bs[i].size && hdr <= minSplit
    ensures Used(Grant(bs, hdr, minSplit, i, n), hdr) == Used(bs[..i], hdr) + {bs[i].addr + hdr} + Used(bs[i + 1..], hdr)
  {
    var mid := GrantShape(bs, hdr, minSplit, i, n);
    UsedAround(bs[..i], mid, bs[i + 1..], hdr);
  }

  /** `Grant` replaces block `i` by a run whose only allocation is the
      payload of block `i`. */
  lemma GrantShape(bs: seq<Block>, hdr: nat, minSplit: nat, i: nat, n: nat) returns (mid: seq<Block>)
    requires i < |bs| && n <= bs[i].size && hdr <= minSplit
    ensures Grant(bs, hdr, minSplit, i, n) == bs[..i] + mid + bs[i + 1..]
    ensures Used(mid, hdr) == {bs[i].addr + hdr}
  {
    var b := bs[i];
    var m := Mark(bs, i, false);
    assert m[..i] == bs[..i] && m[i + 1..] == bs[i + 1..];
    if b.size - n < minSplit {
      mid := [Block(b.addr, false, b.size)];
      UsedOne(mid[0], hdr);
    } else {
      var u, f := Block(b.addr, false, n), Block(b.addr + hdr + n, true, b.size - n - hdr);
      mid := [u, f];
      assert mid == [u] + [f];
      UsedConcat([u], [f], hdr);
      UsedOne(u, hdr);
      UsedOne(f, hdr);
    }
  }

  /** `malloc` hands out a payload address no allocation holds, and adds
      exactly that address to the allocations. */
  lemma MallocUsed(s: State, hdr: nat, minSplit: nat, n: nat, end: nat)
    requires Tiled(s.blocks, hdr, s.start, end) && 0 < hdr <= minSplit
    requires Malloc(s, hdr, minSplit, n).1 != 0
    ensures Malloc(s, hdr, minSplit, n).1 !in Used(s.blocks, hdr)
    ensures Used(Malloc(s, hdr, minSplit, n).0.blocks, hdr) == Used(s.blocks, hdr) + {Malloc(s, hdr, minSplit, n).1}
  {
    MallocIs(s, hdr, minSplit, n);
    GrantAdds(s.blocks, hdr, minSplit, s.start, end, FirstFit(s.blocks, n).value, n);
  }

  /** What `malloc` guarantees, gathered for one rounded request `n`. */
  lemma MallocFacts(s: State, hdr: nat, minSplit: nat, n: nat, end: nat)
    requires Inv(s, hdr, end) && 0 < hdr <= minSplit
    ensures var m := Malloc(s, hdr, minSplit, n);
      Inv(m.0, hdr, end) && (m.1 == 0 <==> FirstFit(s.blocks, n).None?) && (m.1 == 0 ==> m.0 == s)
      && (m.1 != 0 ==> m.1 !in Used(s.blocks, hdr) && Used(m.0.blocks, hdr) == Used(s.blocks, hdr) + {m.1})
  {
    MallocNull(s, hdr, minSplit, n, end);
    MallocInv(s, hdr, minSplit, n, end);
    if Malloc(s, hdr, minSplit, n).1 != 0 {
      MallocUsed(s, hdr, minSplit, n, end);
    }
  }

  /** Granting a block that fits adds its payload address, which no block
      held before, to the allocations. */
  lemma GrantAdds(bs: seq<Block>, hdr: nat, minSplit: nat, start: nat, end: nat, i: nat, n: nat)
    requires Tiled(bs, hdr, start, end) && 0 < hdr <= minSplit && i < |bs| && Fits(bs[i], n)
    ensures bs[i].addr + hdr !in Used(bs, hdr)
    ensures Used(Grant(bs, hdr, minSplit, i, n), hdr) == Used(bs, hdr) + {bs[i].addr + hdr}
  {
    var p := bs[i].addr + hdr;
    var a, b := Used(bs[..i], hdr), Used(bs[i + 1..], hdr);
    assert Used(bs, hdr) == a + b && Used(Grant(bs, hdr, minSplit, i, n), hdr) == a + {p} + b
      && p !in a && p !in b by {
      GrantUsed(bs, hdr, minSplit, i, n);
      UsedAt(bs, hdr, i);
      PayloadNotElsewhere(bs, hdr, start, end, i, i, i + 1);
    }
    SwapOne(a, b, Used(bs, hdr), Used(Grant(bs, hdr, minSplit, i, n), hdr), p);
  }

  /** The run `free` coalesces holds no allocation other than the freed block's. */
  lemma RunUsed(bs: seq<Block>, hdr: nat, start: nat, end: nat, i: nat)
    requires Tiled(bs, hdr, start, end) && i < |bs|
    ensures var j, k := Release(bs, hdr, i).1, RunEnd(bs, i);
      j <= i < k <= |bs| && Used(bs[j..k], hdr) == if bs[i].free then {} else {bs[i].addr + hdr}
  {
    ReleaseShape(bs, hdr, start, end, i);
    var j, k := Release(bs, hdr, i).1, RunEnd(bs, i);
    UsedAt(bs[j..k], hdr, i - j);
    assert bs[j..k][..i - j] == if j < i then [bs[j]] else [];
    assert bs[j..k][i - j + 1..] == if i + 1 < k then [bs[i + 1]] else [];
    assert bs[j..k][i - j] == bs[i];
    UsedOne(bs[j], hdr);
    if i + 1 < k {
      UsedOne(bs[i + 1], hdr);
    }
  }

  /** Replacing the run `bs[j..k]` by one free block drops the run's
      allocations and keeps the others. */
  lemma ReplaceRun(bs: seq<Block>, hdr: nat, j: nat, k: nat, m: Block, r: seq<Block>)
    requires j <= k <= |bs| && m.free && r == bs[..j] + [m] + bs[k..]
    ensures Used(r, hdr) == Used(bs[..j], hdr) + Used(bs[k..], hdr)
    ensures Used(bs, hdr) == Used(bs[..j], hdr) + Used(bs[j..k], hdr) + Used(bs[k..], hdr)
  {
    UsedAround(bs[..j], [m], bs[k..], hdr);
    UsedOne(m, hdr);
    UsedThirds(bs, hdr, j, k);
  }

  /** The allocations of a list are those of its three parts. */
  lemma UsedThirds(bs: seq<Block>, hdr: nat, j: nat, k: nat)
    requires j <= k <= |bs|
    ensures Used(bs, hdr) == Used(bs[..j], hdr) + Used(bs[j..k], hdr) + Used(bs[k..], hdr)
  {
    assert bs == bs[..j] + bs[j..k] + bs[k..];
    UsedAround(bs[..j], bs[j..k], bs[k..], hdr);
  }

  /** The list surgery of `free` removes exactly the freed block's payload
      address from the allocations. */
  lemma ReleaseUsed(bs: seq<Block>, hdr: nat, start: nat, end: nat, i: nat)
    requires Tiled(bs, hdr, start, end) && 0 < hdr && i < |bs|
    ensures Used(Release(bs, hdr, i).0, hdr) == Used(bs, hdr) - {bs[i].addr + hdr}
  {
    ReleaseShape(bs, hdr, start, end, i);
    RunUsed(bs, hdr, start, end, i);
    var j, k := Release(bs, hdr, i).1, RunEnd(bs, i);
    ReplaceRun(bs, hdr, j, k, Block(bs[j].addr, true, End(bs[k - 1], hdr) - bs[j].addr - hdr), Release(bs, hdr, i).0);
    PayloadNotElsewhere(bs, hdr, start, end, i, j, k);
    SwapOne(Used(bs[..j], hdr), Used(bs[k..], hdr), Used(bs, hdr), Used(Release(bs, hdr, i).0, hdr), bs[i].addr + hdr);
  }

  /** `free` removes exactly the freed block's payload address from the
      allocations (and changes none of them when that block was free). */
  lemma FreeUsed(s: State, hdr: nat, i: nat, end: nat)
    requires Tiled(s.blocks, hdr, s.start, end) && 0 < hdr && i < |s.blocks|
    ensures Used(Free(s, hdr, i).blocks, hdr) == Used(s.blocks, hdr) - {Payload(s, hdr, i)}
  {
    ReleaseUsed(s.blocks, hdr, s.start, end, i);
  }

  /** `max_alloc` is only an upper bound on the largest free block: after a
      request that takes a whole block it still counts that used block, so a
      later request passes the early check and fails in the scan. */
  lemma MaxAllocOverstates()
    ensures var s := State(0, 100, [Block(0, true, 100)]);
      var (s', p) := Malloc(s, 16, 32, 96);
      p == 16 && s'.blocks == [Block(0, false, 100)] && s'.maxAlloc == 100
      && Malloc(s', 16, 32, 16).1 == 0
  {
    var s := State(0, 100, [Block(0, true, 100)]);
    assert FirstFit(s.blocks, 96) == Some(0);
    var s' := Malloc(s, 16, 32, 96).0;
    assert s'.blocks == [Block(0, false, 100)];
    assert FirstFit(s'.blocks, 16) == None;
  }
}
