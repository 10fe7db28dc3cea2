/** The first-generation heap of the legacy second stage: the same
    first-fit block list as `Heap`, with the header stride kept in the
    context (`hdr_aligned_size`), a split threshold of that stride plus 2,
    and no `realloc`. */
module LegacyHeap {
  import opened Bytes
  import opened Wrappers
  import opened BlockList
  import Heap

  /** sizeof(_block_hdr) on the 32-bit target: a padded bool, a size and two pointers. */
  const HDR_SIZE: dword := 16

  /** Legacy `_align16`: ((val - 1) / 16) * 16 + 16 in 32-bit arithmetic. */
  function Align16(val: dword): (r: dword)
    ensures val >= 1 && val <= 0xFFFF_FFF0 ==> r % 16 == 0 && val <= r < val + 16
    ensures val == 0 || val > 0xFFFF_FFF0 ==> r == 0
  {
    (((val - 1) % U32) / 16 * 16 + 16) % U32
  }

  /** Both generations of `_align16` agree on every 32-bit value, 0 included
      (where the legacy one wraps around to 0). */
  lemma Align16Agrees(val: dword)
    ensures Align16(val) == Heap.Align16(val)
  {
  }

  class LegacyHeap {
    /** &_heap and _heap_size, fixed by the linker */
    const heap: nat
    const heapSize: word
    /** `hdr_aligned_size`, set once by `mem_init` */
    const hdrSize: nat
    var start: nat
    var maxAlloc: nat
    var blocks: seq<Block>

    function State(): BlockList.State
      reads this
    {
      BlockList.State(start, maxAlloc, blocks)
    }

    /** The split threshold of `malloc`. */
    function MinSplit(): nat
    {
      hdrSize + 2
    }

    ghost predicate Valid()
      reads this
    {
      hdrSize == 16 && Inv(State(), hdrSize, heap + heapSize)
    }

    /** `mem_init`: the header stride is the rounded header size, and one
        free block runs from the first 16-byte aligned address to the end of
        the arena. */
    constructor Init(heap: dword, heapSize: word)
      requires heap <= 0xFFFF_FFF0 && Align16(heap) - heap + HDR_SIZE <= heapSize
      ensures Valid() && this.heap == heap && this.heapSize == heapSize
      ensures hdrSize == Align16(HDR_SIZE) && start == Align16(heap)
      ensures blocks == [Block(start, true, heapSize - (start - heap) - hdrSize)]
      ensures maxAlloc == blocks[0].size
    {
      this.heap := heap;
      this.heapSize := heapSize;
      start := Align16(heap);
      hdrSize := Align16(HDR_SIZE);
      var size := heapSize - (Align16(heap) - heap) - Align16(HDR_SIZE);
      blocks := [Block(Align16(heap), true, size)];
      maxAlloc := size;
    }

    /** `_find_max_block`: the largest size over all blocks, used or free. */
    method FindMaxBlock()
      modifies this`maxAlloc
      ensures maxAlloc == MaxSize(blocks)
    {
      maxAlloc := 0;
      var k := 0;
      while k < |blocks|
        invariant k <= |blocks|
        invariant maxAlloc == MaxSize(blocks[..k])
      {
        assert blocks[..k + 1][..k] == blocks[..k];
        if blocks[k].size > maxAlloc {
          maxAlloc := blocks[k].size;
        }
        k := k + 1;
      }
      assert blocks[..k] == blocks;
    }

    /** `_allocate_block`: a new free block of `size` bytes linked right
        after block `i`, one header stride past its payload. */
    method AllocateBlock(i: nat, size: nat)
      requires i < |blocks|
      modifies this`blocks
      ensures blocks == old(blocks[..i + 1]) + [Block(End(old(blocks[i]), hdrSize), true, size)] + old(blocks[i + 1..])
    {
      blocks := blocks[..i + 1] + [Block(blocks[i].addr + blocks[i].size + hdrSize, true, size)] + blocks[i + 1..];
    }

    /** `_merge_blocks`: block `up` absorbs its successor and its header. */
    method MergeBlocks(up: nat) returns (r: nat)
      requires up + 1 < |blocks|
      modifies this`blocks
      ensures r == up && blocks == MergeNext(old(blocks), hdrSize, up)
    {
      blocks := blocks[..up] + [Block(blocks[up].addr, blocks[up].free, blocks[up].size + hdrSize + blocks[up + 1].size)]
        + blocks[up + 2..];
      r := up;
    }

    /** The allocation step of `malloc` on block `i`. */
    method TakeBlock(i: nat, n: nat)
      requires i < |blocks| && n <= blocks[i].size
      modifies this`blocks
      ensures blocks == Grant(old(blocks), hdrSize, MinSplit(), i, n)
    {
      ghost var was := blocks;
      var left := blocks[i].size - n;
      blocks := blocks[i := Block(blocks[i].addr, false, n)];
      if left < hdrSize + 2 {
        blocks := blocks[i := Block(blocks[i].addr, false, blocks[i].size + left)];
        assert blocks == Mark(was, i, false);
      } else {
        AllocateBlock(i, left - hdrSize);
        assert blocks == Split(Mark(was, i, false), hdrSize, i, n);
      }
    }

    /** The body of legacy `malloc`: rounds the request, refuses it when
        above `max_alloc`, takes the first free block large enough, and
        returns its payload one header stride further, or NULL. */
    method Allocate(count: dword) returns (p: nat)
      modifies this`blocks, this`maxAlloc
      ensures State() == BlockList.Malloc(old(State()), hdrSize, MinSplit(), Align16(count)).0
      ensures p == BlockList.Malloc(old(State()), hdrSize, MinSplit(), Align16(count)).1
    {
      ghost var s0 := State();
      var n := Align16(count);
      if n > maxAlloc {
        return 0;
      }
      var i := FindFree(blocks, n);
      if i == |blocks| {
        return 0;
      }
      TakeBlock(i, n);
      FindMaxBlock();
      p := blocks[i].addr + hdrSize;
    }

    /** Legacy `malloc`: first-fit on the rounded size, NULL exactly when no
        free block fits (the `max_alloc` test never refuses a request that
        would fit), and the invariant holds throughout. */
    method Malloc(count: dword) returns (p: nat)
      requires Valid()
      modifies this
      ensures State() == BlockList.Malloc(old(State()), hdrSize, MinSplit(), Align16(count)).0
      ensures p == BlockList.Malloc(old(State()), hdrSize, MinSplit(), Align16(count)).1
      ensures p == 0 <==> FirstFit(old(blocks), Align16(count)).None?
      ensures p == 0 ==> State() == old(State())
      ensures p != 0 ==> p !in Used(old(blocks), hdrSize) && Used(blocks, hdrSize) == Used(old(blocks), hdrSize) + {p}
      ensures Valid()
    {
      MallocFacts(State(), hdrSize, MinSplit(), Align16(count), heap + heapSize);
      p := Allocate(count);
    }

    /** The coalescing step of `free` on block `i`. */
    method Coalesce(i: nat) returns (j: nat)
      requires i < |blocks|
      modifies this`blocks
      ensures (blocks, j) == Release(old(blocks), hdrSize, i)
    {
      blocks := blocks[i := Block(blocks[i].addr, true, blocks[i].size)];
      j := i;
      if i > 0 && blocks[i - 1].free {
        j := MergeBlocks(i - 1);
      }
      if j + 1 < |blocks| && blocks[j + 1].free {
        j := MergeBlocks(j);
      }
    }

    /** Legacy `free`: coalesces with free neighbours and only raises
        `max_alloc`. */
    method Free(p: nat)
      requires Valid()
      requires exists i :: 0 <= i < |blocks| && Payload(State(), hdrSize, i) == p
      modifies this
      ensures Valid()
      ensures forall i :: 0 <= i < |old(blocks)| && Payload(old(State()), hdrSize, i) == p ==>
        State() == BlockList.Free(old(State()), hdrSize, i)
      ensures Used(blocks, hdrSize) == Used(old(blocks), hdrSize) - {p}
    {
      var i :| 0 <= i < |blocks| && Payload(State(), hdrSize, i) == p;
      ghost var s0 := State();
      forall k | 0 <= k < |s0.blocks| && Payload(s0, hdrSize, k) == p ensures k == i {
        if k != i { PayloadsDisjoint(s0, hdrSize, heap + heapSize, i, k); }
      }
      FreeInv(s0, hdrSize, i, heap + heapSize);
      FreeUsed(s0, hdrSize, i, heap + heapSize);
      var j := Coalesce(i);
      if blocks[j].size > maxAlloc {
        maxAlloc := blocks[j].size;
      }
      assert State() == BlockList.Free(s0, hdrSize, i);
    }
  }
}
