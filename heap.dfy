/** The second stage's first-fit heap: `mem_init`, `malloc`, `realloc` and
    `free` over one static arena, with 16-byte aligned block headers. */
module Heap {
  import opened Bytes
  import opened Wrappers
  import opened BlockList
  import Strings

  /** sizeof(_block_hdr): four 4-byte fields, padded to a 16-byte alignment. */
  const HDR: nat := 16
  /** A block is split only when at least a header and 16 bytes are left over. */
  const MIN_SPLIT: nat := HDR + 16

  /** `_align16`: (val + 15) & -16 in 32-bit arithmetic. Rounds up to a
      multiple of 16, except that values above 0xFFFFFFF0 wrap to 0. */
  function Align16(val: dword): (r: dword)
    ensures r % 16 == 0 && r <= 0xFFFF_FFF0
    ensures val <= 0xFFFF_FFF0 ==> val <= r < val + 16
    ensures val > 0xFFFF_FFF0 ==> r == 0
  {
    ((val + 15) % U32) / 16 * 16
  }

  /** No multiple of 16 between `val` and `Align16(val)`: it is the least one. */
  lemma Align16Least(val: dword, m: nat)
    requires val <= 0xFFFF_FFF0 && m % 16 == 0 && m >= val
    ensures m >= Align16(val)
  {
    var r := Align16(val);
  }

  /** Rounding twice is rounding once (as `realloc` does before calling `malloc`). */
  lemma Align16Idempotent(val: dword)
    ensures Align16(Align16(val)) == Align16(val)
  {
  }

  /** The shrinking branch of `realloc` when the remainder is worth a block:
      block `i` keeps `n` bytes, the rest becomes a free block after it, and
      that block is merged with its successor when the successor is free. */
  function Shrink(bs: seq<Block>, i: nat, n: nat): (r: seq<Block>)
    requires i < |bs| && n + MIN_SPLIT <= bs[i].size
  {
    var bs1 := Split(bs, HDR, i, n);
    if i + 2 < |bs1| && bs1[i + 2].free then MergeNext(bs1, HDR, i + 1) else bs1
  }

  /** The growing branch of `realloc`: `malloc` the rounded size, and on
      success release the old block, which `malloc` may have moved one place
      to the right by inserting a block before it. */
  function Grow(s: State, i: nat, n: nat): (r: (State, nat))
    requires i < |s.blocks| && !s.blocks[i].free && n < U32
  {
    var m := Align16(n);
    var a := Malloc(s, HDR, MIN_SPLIT, m);
    if a.1 == 0 || FirstFit(s.blocks, m).None? then (s, 0)
    else
      var j := FirstFit(s.blocks, m).value;
      GrantKeepsOthers(s.blocks, HDR, MIN_SPLIT, j, m, i);
      (Free(a.0, HDR, GrantIndex(s.blocks, MIN_SPLIT, j, m, i)), a.1)
  }

  /** `realloc` on the used block `i` for a request already rounded to `n`. */
  function ReallocState(s: State, i: nat, n: nat): (r: (State, nat))
    requires i < |s.blocks| && !s.blocks[i].free && n < U32
  {
    var b := s.blocks[i];
    if b.size > n then (Shrunk(s, i, n), Payload(s, HDR, i))
    else if b.size < n then Grow(s, i, n)
    else (s, Payload(s, HDR, i))
  }

  /** The shrinking branch of `realloc` on block `i`: the context is left
      alone when fewer than a header and 16 bytes would be left over;
      otherwise the block is cut to `n` bytes and `max_alloc` recomputed. */
  function Shrunk(s: State, i: nat, n: nat): State
    requires i < |s.blocks| && s.blocks[i].size > n
  {
    if s.blocks[i].size - n < MIN_SPLIT then s
    else
      var bs := Shrink(s.blocks, i, n);
      State(s.start, MaxSize(bs), bs)
  }

  /** Shrinking keeps the tiling and the blocks before `i`, leaves block `i`
      used at the same address with exactly `n` bytes, and leaves no two free
      neighbours. */
  lemma ShrinkShape(bs: seq<Block>, start: nat, end: nat, i: nat, n: nat)
    requires Tiled(bs, HDR, start, end) && NoAdjacentFree(bs)
    requires i < |bs| && n + MIN_SPLIT <= bs[i].size && !bs[i].free
    ensures var r := Shrink(bs, i, n);
      Tiled(r, HDR, start, end) && i < |r| && r[..i] == bs[..i] && r[i] == Block(bs[i].addr, false, n)
      && NoAdjacentFree(r)
  {
    ShrinkTiled(bs, start, end, i, n);
    ShrinkNoAdjacent(bs, i, n);
  }

  /** Shrinking keeps the tiling, the blocks before `i`, and block `i`'s
      address, now with `n` bytes. */
  lemma ShrinkTiled(bs: seq<Block>, start: nat, end: nat, i: nat, n: nat)
    requires Tiled(bs, HDR, start, end)
    requires i < |bs| && n + MIN_SPLIT <= bs[i].size && !bs[i].free
    ensures var r := Shrink(bs, i, n);
      Tiled(r, HDR, start, end) && i < |r| && r[..i] == bs[..i] && r[i] == Block(bs[i].addr, false, n)
  {
    var bs1 := Split(bs, HDR, i, n);
    TiledSplit(bs, HDR, start, end, i, n);
    if i + 2 < |bs1| && bs1[i + 2].free {
      TiledMerge(bs1, HDR, start, end, i + 1);
    }
  }

  /** Shrinking leaves no two free neighbours: the split-off block follows
      the used block `i` and, merged with a free successor or not, is
      followed by a used block. */
  lemma ShrinkNoAdjacent(bs: seq<Block>, i: nat, n: nat)
    requires NoAdjacentFree(bs)
    requires i < |bs| && n + MIN_SPLIT <= bs[i].size && !bs[i].free
    ensures NoAdjacentFree(Shrink(bs, i, n))
  {
    var bs1 := Split(bs, HDR, i, n);
    var r := Shrink(bs, i, n);
    var f := Block(bs[i].addr + HDR + n, true, bs[i].size - n - HDR);
    if i + 2 < |bs1| && bs1[i + 2].free {
      var f' := Block(f.addr, true, f.size + HDR + bs[i + 1].size);
      assert r == bs[..i] + [Block(bs[i].addr, false, n), f'] + bs[i + 2..];
      assert i + 2 < |bs| ==> !bs[i + 2].free;
      PairNoAdjacent(bs, i, i + 2, Block(bs[i].addr, false, n), f', r);
    } else {
      assert r == bs[..i] + [Block(bs[i].addr, false, n), f] + bs[i + 1..];
      PairNoAdjacent(bs, i, i + 1, Block(bs[i].addr, false, n), f, r);
    }
  }

  /** Replacing `bs[i..k]` by a used block and a block after it leaves no
      two free neighbours when the block that then follows is used. */
  lemma PairNoAdjacent(bs: seq<Block>, i: nat, k: nat, u: Block, f: Block, r: seq<Block>)
    requires NoAdjacentFree(bs) && i < k <= |bs| && !u.free
    requires k < |bs| ==> !bs[k].free
    requires r == bs[..i] + [u, f] + bs[k..]
    ensures NoAdjacentFree(r)
  {
    forall q | 0 <= q < |r| - 1 ensures !(r[q].free && r[q + 1].free) {
      if q + 1 < i { assert r[q] == bs[q] && r[q + 1] == bs[q + 1]; }
      else if q + 1 == i { assert r[q + 1] == u; }
      else if q == i + 1 { assert r[q + 1] == bs[k]; }
      else if q > i + 1 { assert r[q] == bs[q - i - 2 + k] && r[q + 1] == bs[q - i - 1 + k]; }
    }
  }

  /** Shrinking frees no allocation and makes none: the payload addresses
      of the used blocks stay the same. */
  lemma ShrinkUsed(bs: seq<Block>, i: nat, n: nat)
    requires i < |bs| && n + MIN_SPLIT <= bs[i].size && !bs[i].free
    ensures Used(Shrink(bs, i, n), HDR) == Used(bs, HDR)
  {
    var bs1 := Split(bs, HDR, i, n);
    SplitUsed(bs, i, n);
    if i + 2 < |bs1| && bs1[i + 2].free {
      MergeFreeUsed(bs1, i + 1);
    }
  }

  /** Cutting a used block in two adds only a free block. */
  lemma SplitUsed(bs: seq<Block>, i: nat, n: nat)
    requires i < |bs| && n + HDR <= bs[i].size && !bs[i].free
    ensures Used(Split(bs, HDR, i, n), HDR) == Used(bs, HDR)
  {
    var b := bs[i];
    var u, f := Block(b.addr, false, n), Block(b.addr + HDR + n, true, b.size - n - HDR);
    assert Split(bs, HDR, i, n) == bs[..i] + [u, f] + bs[i + 1..];
    UsedAround(bs[..i], [u, f], bs[i + 1..], HDR);
    assert [u, f] == [u] + [f];
    UsedConcat([u], [f], HDR);
    UsedOne(u, HDR);
    UsedOne(f, HDR);
    UsedAt(bs, HDR, i);
  }

  /** Merging two free blocks changes no allocation. */
  lemma MergeFreeUsed(bs: seq<Block>, j: nat)
    requires j + 1 < |bs| && bs[j].free && bs[j + 1].free
    ensures Used(MergeNext(bs, HDR, j), HDR) == Used(bs, HDR)
  {
    var f, g := bs[j], bs[j + 1];
    var m := Block(f.addr, f.free, f.size + HDR + g.size);
    var pre, post := bs[..j], bs[j + 2..];
    PairAt(bs, j);
    UsedAround(pre, [f, g], post, HDR);
    FreePairUsed(f, g);
    UsedAround(pre, [m], post, HDR);
    UsedOne(m, HDR);
  }

  /** A sequence around its elements `j` and `j + 1`. */
  lemma PairAt(bs: seq<Block>, j: nat)
    requires j + 1 < |bs|
    ensures bs == bs[..j] + [bs[j], bs[j + 1]] + bs[j + 2..]
  {
  }

  /** The payload of a used block is an allocation. */
  lemma LiveUsed(bs: seq<Block>, i: nat)
    requires i < |bs| && !bs[i].free
    ensures bs[i].addr + HDR in Used(bs, HDR)
  {
    UsedAt(bs, HDR, i);
  }

  /** Two free blocks hold no allocation. */
  lemma FreePairUsed(f: Block, g: Block)
    requires f.free && g.free
    ensures Used([f, g], HDR) == {}
  {
    assert [f, g] == [f] + [g];
    UsedConcat([f], [g], HDR);
    UsedOne(f, HDR);
    UsedOne(g, HDR);
  }

  /** Shrinking keeps the pointer and the invariant; the block keeps the
      rounded size, or everything stays as it was when fewer than a header
      and 16 bytes would be left over. */
  lemma ReallocShrink(s: State, i: nat, n: nat, end: nat)
    requires Inv(s, HDR, end) && i < |s.blocks| && !s.blocks[i].free
    requires n < U32 && s.blocks[i].size > n
    ensures var r := ReallocState(s, i, n); var s', q := r.0, r.1;
      Inv(s', HDR, end) && q == Payload(s, HDR, i) && i < |s'.blocks| && q == Payload(s', HDR, i)
      && s'.blocks[..i] == s.blocks[..i] && !s'.blocks[i].free
      && (s'.blocks[i].size == n || s' == s) && Used(s'.blocks, HDR) == Used(s.blocks, HDR)
  {
    ShrunkShape(s, i, n, end);
  }

  /** The shrinking branch keeps the invariant and the allocations. */
  lemma ShrunkInv(s: State, i: nat, n: nat, end: nat)
    requires Inv(s, HDR, end) && i < |s.blocks| && !s.blocks[i].free && s.blocks[i].size > n
    ensures Inv(Shrunk(s, i, n), HDR, end) && Used(Shrunk(s, i, n).blocks, HDR) == Used(s.blocks, HDR)
  {
    ShrunkShape(s, i, n, end);
  }

  /** The shrinking branch keeps the invariant, the blocks before `i`, block
      `i` used at its address, and the allocations. */
  lemma ShrunkShape(s: State, i: nat, n: nat, end: nat)
    requires Inv(s, HDR, end) && i < |s.blocks| && !s.blocks[i].free && s.blocks[i].size > n
    ensures var s' := Shrunk(s, i, n);
      Inv(s', HDR, end) && i < |s'.blocks| && s'.blocks[i].addr == s.blocks[i].addr
      && s'.blocks[..i] == s.blocks[..i] && !s'.blocks[i].free
      && (s'.blocks[i].size == n || s' == s) && Used(s'.blocks, HDR) == Used(s.blocks, HDR)
  {
    if s.blocks[i].size - n >= MIN_SPLIT {
      ShrinkShape(s.blocks, s.start, end, i, n);
      ShrinkUsed(s.blocks, i, n);
    }
  }

  /** Growing fails, returning NULL and changing nothing, exactly when no
      free block can hold the rounded size. */
  lemma GrowFails(s: State, i: nat, n: nat, end: nat)
    requires Inv(s, HDR, end) && i < |s.blocks| && !s.blocks[i].free && n < U32
    ensures Grow(s, i, n).1 == 0 <==> FirstFit(s.blocks, Align16(n)).None?
    ensures Grow(s, i, n).1 == 0 ==> Grow(s, i, n).0 == s
  {
    MallocNull(s, HDR, MIN_SPLIT, Align16(n), end);
  }

  /** Growing keeps the allocator invariant. */
  lemma GrowInv(s: State, i: nat, n: nat, end: nat)
    requires Inv(s, HDR, end) && i < |s.blocks| && !s.blocks[i].free && n < U32
    ensures Inv(Grow(s, i, n).0, HDR, end)
  {
    var m := Align16(n);
    MallocInv(s, HDR, MIN_SPLIT, m, end);
    var a := Malloc(s, HDR, MIN_SPLIT, m);
    if a.1 != 0 && FirstFit(s.blocks, m).Some? {
      var j := FirstFit(s.blocks, m).value;
      GrantKeepsOthers(s.blocks, HDR, MIN_SPLIT, j, m, i);
      FreeInv(a.0, HDR, GrantIndex(s.blocks, MIN_SPLIT, j, m, i), end);
    }
  }

  /** Once `malloc` has succeeded, the old block sits at index `k` of the
      new context, its payload still allocated, and releasing it there
      completes the growth. */
  lemma GrowStep(s: State, i: nat, n: nat, end: nat) returns (k: nat)
    requires Inv(s, HDR, end) && i < |s.blocks| && !s.blocks[i].free && n < U32
    requires Malloc(s, HDR, MIN_SPLIT, Align16(n)).1 != 0
    ensures var a := Malloc(s, HDR, MIN_SPLIT, Align16(n));
      k < |a.0.blocks| && Payload(a.0, HDR, k) == Payload(s, HDR, i)
      && Payload(s, HDR, i) in Used(a.0.blocks, HDR)
      && Grow(s, i, n) == (Free(a.0, HDR, k), a.1)
  {
    MallocNull(s, HDR, MIN_SPLIT, Align16(n), end);
    k := GrowFrees(s, i, n, end);
    MallocKeepsLive(s, n, end, i);
  }

  /** `malloc` keeps every allocation, here the payload of block `i`. */
  lemma MallocKeepsLive(s: State, n: nat, end: nat, i: nat)
    requires Inv(s, HDR, end) && i < |s.blocks| && !s.blocks[i].free && n < U32
    ensures Payload(s, HDR, i) in Used(Malloc(s, HDR, MIN_SPLIT, Align16(n)).0.blocks, HDR)
  {
    LiveUsed(s.blocks, i);
    MallocFacts(s, HDR, MIN_SPLIT, Align16(n), end);
  }

  /** A successful growth returns a pointer other than the old one. */
  lemma GrowMoves(s: State, i: nat, n: nat, end: nat)
    requires Inv(s, HDR, end) && i < |s.blocks| && !s.blocks[i].free && n < U32
    requires Grow(s, i, n).1 != 0
    ensures Grow(s, i, n).1 != Payload(s, HDR, i)
  {
    GrowUsed(s, i, n, end);
    LiveUsed(s.blocks, i);
  }

  /** A successful growth trades the old allocation for a fresh one. */
  lemma GrowUsed(s: State, i: nat, n: nat, end: nat)
    requires Inv(s, HDR, end) && i < |s.blocks| && !s.blocks[i].free && n < U32
    requires Grow(s, i, n).1 != 0
    ensures var q, p := Grow(s, i, n).1, Payload(s, HDR, i);
      q !in Used(s.blocks, HDR) && Used(Grow(s, i, n).0.blocks, HDR) == Used(s.blocks, HDR) - {p} + {q}
  {
    var a := Malloc(s, HDR, MIN_SPLIT, Align16(n));
    var k := GrowFrees(s, i, n, end);
    MallocUsed(s, HDR, MIN_SPLIT, Align16(n), end);
    MallocInv(s, HDR, MIN_SPLIT, Align16(n), end);
    FreeUsed(a.0, HDR, k, end);
    UsedMember(s.blocks, HDR, Payload(s, HDR, i));
  }

  /** A successful growth frees, in the heap after `malloc`, the block that
      was block `i` before it. */
  lemma GrowFrees(s: State, i: nat, n: nat, end: nat) returns (k: nat)
    requires Inv(s, HDR, end) && i < |s.blocks| && !s.blocks[i].free && n < U32
    requires Grow(s, i, n).1 != 0
    ensures var a := Malloc(s, HDR, MIN_SPLIT, Align16(n));
      k < |a.0.blocks| && Payload(a.0, HDR, k) == Payload(s, HDR, i)
      && Grow(s, i, n) == (Free(a.0, HDR, k), a.1)
  {
    var m := Align16(n);
    var a := Malloc(s, HDR, MIN_SPLIT, m);
    var j := FirstFit(s.blocks, m).value;
    MallocFirstFit(s, HDR, MIN_SPLIT, m, end);
    GrantKeepsOthers(s.blocks, HDR, MIN_SPLIT, j, m, i);
    k := GrantIndex(s.blocks, MIN_SPLIT, j, m, i);
    assert Payload(a.0, HDR, k) == Payload(s, HDR, i);
  }

  /** A successful growth returns the payload of a used block of at least the
      rounded size, which survives the release of the old block. */
  lemma GrowResult(s: State, i: nat, n: nat, end: nat)
    requires Inv(s, HDR, end) && i < |s.blocks| && !s.blocks[i].free && n < U32
    requires Grow(s, i, n).1 != 0
    ensures var s', q := Grow(s, i, n).0, Grow(s, i, n).1;
      exists k :: 0 <= k < |s'.blocks| && Payload(s', HDR, k) == q && !s'.blocks[k].free && s'.blocks[k].size >= Align16(n)
  {
    var m := Align16(n);
    var a := Malloc(s, HDR, MIN_SPLIT, m);
    MallocFirstFit(s, HDR, MIN_SPLIT, m, end);
    var j := FirstFit(s.blocks, m).value;
    GrantKeepsOthers(s.blocks, HDR, MIN_SPLIT, j, m, i);
    var k := GrantIndex(s.blocks, MIN_SPLIT, j, m, i);
    var s1 := a.0;
    GrantBlock(s.blocks, HDR, MIN_SPLIT, s.start, end, j, m);
    ReleaseKeepsUsed(s1.blocks, HDR, s1.start, end, k, j);
    var rel := Release(s1.blocks, HDR, k);
    var jn := if j < rel.1 then j else j - (RunEnd(s1.blocks, k) - rel.1 - 1);
    var s' := Free(s1, HDR, k);
    assert s'.blocks[jn] == s1.blocks[j];
    assert Payload(s', HDR, jn) == a.1;
  }

  /** `realloc` growing a block: what `GrowSpec` states of `Grow`. */
  lemma ReallocGrow(s: State, i: nat, n: nat, end: nat)
    requires Inv(s, HDR, end) && i < |s.blocks| && !s.blocks[i].free
    requires n < U32 && s.blocks[i].size < n
    ensures ReallocState(s, i, n) == Grow(s, i, n)
    ensures Inv(ReallocState(s, i, n).0, HDR, end)
    ensures ReallocState(s, i, n).1 == 0 <==> FirstFit(s.blocks, Align16(n)).None?
    ensures ReallocState(s, i, n).1 == 0 ==> ReallocState(s, i, n).0 == s
  {
    GrowFails(s, i, n, end);
    GrowInv(s, i, n, end);
  }

  /** The bytes `realloc` copies never overlap: the new block and the old one
      are distinct blocks, and the new one is larger. */
  lemma ReallocGrowDisjoint(s: State, i: nat, n: nat, end: nat)
    requires Inv(s, HDR, end) && i < |s.blocks| && !s.blocks[i].free
    requires n <= 0xFFFF_FFF0 && s.blocks[i].size < n
    requires Grow(s, i, n).1 != 0
    ensures var q, p, size := Grow(s, i, n).1, Payload(s, HDR, i), s.blocks[i].size;
      q + size <= p || p + size <= q
  {
    var m := Align16(n);
    var q := Malloc(s, HDR, MIN_SPLIT, m).1;
    MallocFirstFit(s, HDR, MIN_SPLIT, m, end);
    var j := FirstFit(s.blocks, m).value;
    PayloadsDisjoint(s, HDR, end, i, j);
    assert Payload(s, HDR, j) == q;
  }

  /** Distinct blocks have distinct payload addresses, so a pointer names at
      most one block. */
  lemma PayloadUnique(s: State, end: nat, i: nat)
    requires Tiled(s.blocks, HDR, s.start, end) && i < |s.blocks|
    ensures forall k :: 0 <= k < |s.blocks| && Payload(s, HDR, k) == Payload(s, HDR, i) ==> k == i
  {
    forall k | 0 <= k < |s.blocks| && Payload(s, HDR, k) == Payload(s, HDR, i) ensures k == i {
      if k != i { PayloadsDisjoint(s, HDR, end, i, k); }
    }
  }

  /** A live pointer is what `free` and `realloc` accept: the payload of a
      used block, and a pointer inside the heap. */
  lemma LiveBlock(s: State, end: nat, x: nat)
    requires Tiled(s.blocks, HDR, s.start, end) && x in Used(s.blocks, HDR)
    ensures exists i :: 0 <= i < |s.blocks| && Payload(s, HDR, i) == x && !s.blocks[i].free
    ensures s.start + HDR <= x <= end
  {
    UsedMember(s.blocks, HDR, x);
    UsedBelow(s.blocks, HDR, s.start, end, x);
  }

  /** `malloc` once the scan found block `i`. */
  lemma MallocTaken(s: State, n: nat, i: nat)
    requires n <= s.maxAlloc && FirstFit(s.blocks, n) == Some(i)
    ensures var g := Grant(s.blocks, HDR, MIN_SPLIT, i, n);
      BlockList.Malloc(s, HDR, MIN_SPLIT, n) == (State(s.start, MaxSize(g), g), s.blocks[i].addr + HDR)
  {
  }

  class Heap {
    /** &_heap and _heap_size, fixed by the linker */
    const heap: nat
    const heapSize: word
    var start: nat
    var maxAlloc: nat
    var blocks: seq<Block>

    function State(): BlockList.State
      reads this
    {
      BlockList.State(start, maxAlloc, blocks)
    }

    ghost predicate Valid()
      reads this
    {
      Inv(State(), HDR, heap + heapSize)
    }

    /** `mem_init`: one free block at the first 16-byte aligned address,
        reaching the end of the arena, and `max_alloc` its size. The arena
        must hold the alignment padding and one header. */
    constructor Init(heap: dword, heapSize: word)
      requires heap <= 0xFFFF_FFF0 && Align16(heap) - heap + HDR <= heapSize
      ensures Valid() && this.heap == heap && this.heapSize == heapSize
      ensures start == Align16(heap) && start % 16 == 0
      ensures blocks == [Block(start, true, heapSize - (start - heap) - HDR)]
      ensures maxAlloc == blocks[0].size
    {
      this.heap := heap;
      this.heapSize := heapSize;
      start := Align16(heap);
      var size := heapSize - (Align16(heap) - heap) - HDR;
      blocks := [Block(Align16(heap), true, size)];
      maxAlloc := size;
    }

    /** `_find_max_block`: `max_alloc` becomes the largest size over all
        blocks, used ones included. */
    method FindMaxBlock()
      modifies this`maxAlloc
      ensures maxAlloc == MaxSize(blocks)
    {
      maxAlloc := 0;
      var k := 0;
      while k < |blocks|
        invariant k <= |blocks|
        invariant maxAlloc == MaxSize(blocks[..k])
      {
        assert blocks[..k + 1][..k] == blocks[..k];
        if blocks[k].size > maxAlloc {
          maxAlloc := blocks[k].size;
        }
        k := k + 1;
      }
      assert blocks[..k] == blocks;
    }

    /** `_allocate_block`: links a new free block of `size` bytes right after
        block `i`, its header just past block `i`'s payload. */
    method AllocateBlock(i: nat, size: nat)
      requires i < |blocks|
      modifies this`blocks
      ensures blocks == old(blocks[..i + 1]) + [Block(End(old(blocks[i]), HDR), true, size)] + old(blocks[i + 1..])
    {
      blocks := blocks[..i + 1] + [Block(blocks[i].addr + blocks[i].size + HDR, true, size)] + blocks[i + 1..];
    }

    /** `_merge_blocks`: block `up` absorbs its successor and its header. */
    method MergeBlocks(up: nat) returns (r: nat)
      requires up + 1 < |blocks|
      modifies this`blocks
      ensures r == up && blocks == MergeNext(old(blocks), HDR, up)
    {
      blocks := blocks[..up] + [Block(blocks[up].addr, blocks[up].free, blocks[up].size + HDR + blocks[up + 1].size)]
        + blocks[up + 2..];
      r := up;
    }

    /** The allocation step of `malloc` on block `i`: marks it used with `n`
        bytes, then either gives it the whole remainder back or links the
        remainder, less a header, as a new free block. */
    method TakeBlock(i: nat, n: nat)
      requires i < |blocks| && n <= blocks[i].size
      modifies this`blocks
      ensures blocks == Grant(old(blocks), HDR, MIN_SPLIT, i, n)
    {
      ghost var was := blocks;
      var left := blocks[i].size - n;
      blocks := blocks[i := Block(blocks[i].addr, false, n)];
      if left < MIN_SPLIT {
        blocks := blocks[i := Block(blocks[i].addr, false, blocks[i].size + left)];
        assert blocks == Mark(was, i, false);
      } else {
        AllocateBlock(i, left - HDR);
        assert blocks == Split(Mark(was, i, false), HDR, i, n);
      }
    }

    /** The body of `malloc`: rounds the request, refuses it when above
        `max_alloc`, takes the first free block large enough, and returns its
        payload, or NULL. */
    method Allocate(count: dword) returns (p: nat)
      modifies this
      ensures State() == BlockList.Malloc(old(State()), HDR, MIN_SPLIT, Align16(count)).0
      ensures p == BlockList.Malloc(old(State()), HDR, MIN_SPLIT, Align16(count)).1
    {
      ghost var s0 := State();
      var n := Align16(count);
      if n > maxAlloc {
        return 0;
      }
      var i := FindFree(blocks, n);
      if i == |blocks| {
        return 0;
      }
      MallocTaken(s0, n, i);
      TakeBlock(i, n);
      FindMaxBlock();
      p := blocks[i].addr + HDR;
    }

    /** `malloc`, with what it guarantees: NULL exactly when no free block
        fits, and then no change; otherwise a fresh payload address joins the
        allocations; the invariant holds throughout. */
    method Malloc(count: dword) returns (p: nat)
      requires Valid()
      modifies this
      ensures State() == BlockList.Malloc(old(State()), HDR, MIN_SPLIT, Align16(count)).0
      ensures p == BlockList.Malloc(old(State()), HDR, MIN_SPLIT, Align16(count)).1
      ensures p == 0 <==> FirstFit(old(blocks), Align16(count)).None?
      ensures p == 0 ==> State() == old(State())
      ensures p != 0 ==> p !in Used(old(blocks), HDR) && Used(blocks, HDR) == Used(old(blocks), HDR) + {p}
      ensures Valid()
    {
      MallocFacts(State(), HDR, MIN_SPLIT, Align16(count), heap + heapSize);
      p := Allocate(count);
    }

    /** The coalescing step of `free` on block `i`: marks it free, merges it
        into a free predecessor, then merges a free successor into it, and
        returns the index of the resulting block. */
    method Coalesce(i: nat) returns (j: nat)
      requires i < |blocks|
      modifies this`blocks
      ensures (blocks, j) == Release(old(blocks), HDR, i)
    {
      blocks := blocks[i := Block(blocks[i].addr, true, blocks[i].size)];
      j := i;
      if i > 0 && blocks[i - 1].free {
        j := MergeBlocks(i - 1);
      }
      if j + 1 < |blocks| && blocks[j + 1].free {
        j := MergeBlocks(j);
      }
    }

    /** `free`: the header sits just below the pointer; the block is
        released as `FreeBlock` does. */
    method Free(p: nat)
      requires Valid() && p in Used(blocks, HDR)
      modifies this
      ensures Valid()
      ensures forall i :: 0 <= i < |old(blocks)| && Payload(old(State()), HDR, i) == p ==>
        State() == BlockList.Free(old(State()), HDR, i)
      ensures Used(blocks, HDR) == Used(old(blocks), HDR) - {p}
    {
      LiveBlock(State(), heap + heapSize, p);
      var i :| 0 <= i < |blocks| && Payload(State(), HDR, i) == p;
      PayloadUnique(State(), heap + heapSize, i);
      FreeBlock(i);
    }

    /** The body of `free` on block `i`: coalesces it with its free
        neighbours and raises `max_alloc` to the size of the result when
        that is larger. */
    method FreeBlock(i: nat)
      requires Valid() && i < |blocks|
      modifies this
      ensures Valid()
      ensures State() == BlockList.Free(old(State()), HDR, i)
      ensures Used(blocks, HDR) == Used(old(blocks), HDR) - {Payload(old(State()), HDR, i)}
    {
      ghost var s0 := State();
      FreeInv(s0, HDR, i, heap + heapSize);
      FreeUsed(s0, HDR, i, heap + heapSize);
      var j := Coalesce(i);
      if blocks[j].size > maxAlloc {
        maxAlloc := blocks[j].size;
      }
      assert State() == BlockList.Free(s0, HDR, i);
    }

    /** The in-place branch of `realloc` that splits: block `i` keeps `n`
        bytes, the remainder less a header is linked after it, and merged with
        the following block when that one is free. */
    method ShrinkBlock(i: nat, n: nat)
      requires i < |blocks| && n + MIN_SPLIT <= blocks[i].size
      modifies this`blocks
      ensures blocks == Shrink(old(blocks), i, n)
    {
      ghost var was := blocks;
      var left := blocks[i].size - n;
      blocks := blocks[i := Block(blocks[i].addr, blocks[i].free, n)];
      AllocateBlock(i, left - HDR);
      assert blocks == Split(was, HDR, i, n);
      if i + 2 < |blocks| && blocks[i + 2].free {
        var _ := MergeBlocks(i + 1);
      }
    }

    /** The growing branch of `realloc` on block `i`: `malloc` a new block,
        copy the old payload into it and `free` the old block; on a failed
        `malloc` nothing changes and NULL is returned. */
    method Move(mem: array<byte>, i: nat, n: dword) returns (q: nat)
      requires Valid() && i < |blocks| && !blocks[i].free
      modifies this, mem
      ensures Valid()
      ensures State() == Grow(old(State()), i, n).0
      ensures q == Grow(old(State()), i, n).1
      ensures mem[..] == if q == 0 then old(mem[..])
                         else Strings.Copy(old(mem[..]), q, Payload(old(State()), HDR, i), old(blocks[i].size))
    {
      ghost var s0 := State();
      var p := blocks[i].addr + HDR;
      var size := blocks[i].size;
      q := Malloc(n);
      if q == 0 {
        GrowFails(s0, i, n, heap + heapSize);
        return 0;
      }
      Settle(mem, s0, i, n, p, size, q);
    }

    /** The rest of the growing branch once `malloc` succeeded in state `s0`:
        copy the old payload to `q` and `free` the old block. */
    method Settle(mem: array<byte>, ghost s0: State, i: nat, n: dword, p: nat, size: nat, q: nat)
      requires Valid() && Inv(s0, HDR, heap + heapSize) && i < |s0.blocks| && !s0.blocks[i].free
      requires p == Payload(s0, HDR, i) && size == s0.blocks[i].size
      requires State() == BlockList.Malloc(s0, HDR, MIN_SPLIT, Align16(n)).0
      requires q == BlockList.Malloc(s0, HDR, MIN_SPLIT, Align16(n)).1 && q != 0
      modifies this, mem
      ensures Valid()
      ensures State() == Grow(s0, i, n).0 && q == Grow(s0, i, n).1
      ensures mem[..] == Strings.Copy(old(mem[..]), q, p, size)
    {
      ghost var k := GrowStep(s0, i, n, heap + heapSize);
      Relocate(mem, p, k, q, size);
    }

    /** The tail of the growing branch: copy `size` bytes of the payload at
        the payload `p` of live block `k` to `q`, then `free(p)`. */
    method Relocate(mem: array<byte>, p: nat, ghost k: nat, q: nat, size: nat)
      requires Valid() && p in Used(blocks, HDR)
      requires k < |blocks| && Payload(State(), HDR, k) == p
      modifies this, mem
      ensures Valid()
      ensures State() == BlockList.Free(old(State()), HDR, k)
      ensures mem[..] == Strings.Copy(old(mem[..]), q, p, size)
    {
      var _ := Strings.MemCpy(mem, q, p, size);
      Free(p);
    }

    /** The shrinking branch of `realloc` on block `i`: when enough is left
        over, the block is cut down in place and `max_alloc` recomputed. */
    method ShrinkInPlace(i: nat, n: dword)
      requires Valid() && i < |blocks| && !blocks[i].free && blocks[i].size > n
      modifies this
      ensures Valid()
      ensures State() == Shrunk(old(State()), i, n)
      ensures Used(blocks, HDR) == Used(old(blocks), HDR)
    {
      ghost var s0 := State();
      ShrunkInv(s0, i, n, heap + heapSize);
      if blocks[i].size - n >= MIN_SPLIT {
        ShrinkBlock(i, n);
        FindMaxBlock();
      }
    }

    /** `realloc`: rounds the size, then shrinks in place, grows by `malloc` +
        copy + `free`, or returns the same pointer when the rounded size is
        unchanged. On a failed growth it returns NULL and leaves the old block
        and the bytes alone. */
    method Realloc(mem: array<byte>, p: nat, newSize: dword) returns (q: nat)
      requires Valid()
      requires exists i :: 0 <= i < |blocks| && Payload(State(), HDR, i) == p && !blocks[i].free
      modifies this, mem
      ensures Valid()
      ensures forall i :: 0 <= i < |old(blocks)| && Payload(old(State()), HDR, i) == p && !old(blocks)[i].free ==>
        State() == ReallocState(old(State()), i, Align16(newSize)).0
        && q == ReallocState(old(State()), i, Align16(newSize)).1
        && mem[..] == if q != 0 && old(blocks[i].size) < Align16(newSize)
                      then Strings.Copy(old(mem[..]), q, p, old(blocks[i].size))
                      else old(mem[..])
      ensures q == 0 ==> State() == old(State()) && mem[..] == old(mem[..])
      ensures q == p ==> mem[..] == old(mem[..])
      ensures q != 0 ==> (q !in Used(old(blocks), HDR) - {p}
        && Used(blocks, HDR) == Used(old(blocks), HDR) - {p} + {q})
    {
      var i :| 0 <= i < |blocks| && Payload(State(), HDR, i) == p && !blocks[i].free;
      PayloadUnique(State(), heap + heapSize, i);
      q := ReallocAt(mem, i, Align16(newSize));
    }

    /** `realloc` once the block of the pointer is known to be block `i`,
        for a size already rounded to `n`. */
    method ReallocAt(mem: array<byte>, i: nat, n: nat) returns (q: nat)
      requires Valid() && i < |blocks| && !blocks[i].free && n < U32
      modifies this, mem
      ensures Valid()
      ensures State() == ReallocState(old(State()), i, n).0 && q == ReallocState(old(State()), i, n).1
      ensures mem[..] == if q != 0 && old(blocks[i].size) < n
                         then Strings.Copy(old(mem[..]), q, Payload(old(State()), HDR, i), old(blocks[i].size))
                         else old(mem[..])
      ensures q == 0 ==> State() == old(State())
      ensures q == Payload(old(State()), HDR, i) ==> mem[..] == old(mem[..])
      ensures q != 0 ==> (q !in Used(old(blocks), HDR) - {Payload(old(State()), HDR, i)}
        && Used(blocks, HDR) == Used(old(blocks), HDR) - {Payload(old(State()), HDR, i)} + {q})
    {
      ghost var s0 := State();
      var p := blocks[i].addr + HDR;
      LiveUsed(blocks, i);
      if blocks[i].size > n {
        ReallocShrink(s0, i, n, heap + heapSize);
        ShrinkInPlace(i, n);
        q := p;
      } else if blocks[i].size < n {
        ReallocGrow(s0, i, n, heap + heapSize);
        if Grow(s0, i, n).1 != 0 {
          GrowUsed(s0, i, n, heap + heapSize);
          GrowMoves(s0, i, n, heap + heapSize);
        }
        q := Move(mem, i, n);
      } else {
        q := p;
      }
    }
  }
}
