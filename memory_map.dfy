/** `get_memory_map`: the BIOS E820 memory map, collected into a heap
    allocated list with one node per reported range. */
module MemoryMap {
  import opened Bytes
  import opened Wrappers
  import opened BlockList
  import Heap

  /** One E820 address range descriptor: base, length, type and extended
      attributes (24 bytes). */
  datatype Entry = Entry(base: qword, length: qword, kind: dword, attributes: dword)

  /** What one `bios_get_e820` call stores: the descriptor and the
      continuation offset, 0 after the last range. */
  datatype Reply = Reply(entry: Entry, next: dword)

  /** The BIOS is modelled by its answers to successive calls: `None` for a
      call that fails; calls past the end of the sequence fail too. */
  type Bios = seq<Option<Reply>>

  /** The list returned: the `memory_map` block, its nodes in list order and
      the entry stored in each. `count` is the number of nodes. */
  datatype Map = Map(addr: nat, nodes: seq<nat>, entries: seq<Entry>)

  /** sizeof(memory_map) and sizeof(memory_map_node) on the 32-bit target. */
  const MAP_SIZE: dword := 8
  const NODE_SIZE: dword := 32

  /** The ranges the BIOS reports from call `k` on, or `None` when a call
      fails before one answers with offset 0. */
  function Walk(bios: Bios, k: nat): (r: Option<seq<Entry>>)
    ensures r.Some? ==> |r.value| >= 1 && k < |bios|
    decreases |bios| - k
  {
    if k >= |bios| || bios[k].None? then None
    else if bios[k].value.next == 0 then Some([bios[k].value.entry])
    else
      match Walk(bios, k + 1)
      case None => None
      case Some(rest) => Some([bios[k].value.entry] + rest)
  }

  /** `es` followed by what `o` holds, when it holds something. */
  function Prepend(es: seq<Entry>, o: Option<seq<Entry>>): Option<seq<Entry>>
  {
    match o
    case None => None
    case Some(rest) => Some(es + rest)
  }

  /** The addresses in `xs`. */
  function Elems(xs: seq<nat>): set<nat>
  {
    if xs == [] then {} else Elems(xs[..|xs| - 1]) + {xs[|xs| - 1]}
  }

  /** `Elems` holds exactly the entries of the sequence. */
  lemma {:induction false} ElemsMember(xs: seq<nat>, x: nat)
    ensures x in Elems(xs) <==> exists k :: 0 <= k < |xs| && xs[k] == x
  {
    if xs != [] {
      var init := xs[..|xs| - 1];
      ElemsMember(init, x);
      if exists k :: 0 <= k < |init| && init[k] == x {
        var k :| 0 <= k < |init| && init[k] == x;
        assert xs[k] == x;
      }
      if exists k :: 0 <= k < |xs| && xs[k] == x {
        var k :| 0 <= k < |xs| && xs[k] == x;
        if k < |init| {
          assert init[k] == x;
        }
      }
    }
  }

  /** `xs` are pairwise distinct addresses, none in `held`. */
  predicate FreshAll(xs: seq<nat>, held: set<nat>)
  {
    (forall k :: 0 <= k < |xs| ==> xs[k] !in held)
    && forall j, k :: 0 <= j < k < |xs| ==> xs[j] != xs[k]
  }

  /** Adding one more fresh address keeps `FreshAll`. */
  lemma FreshAppend(xs: seq<nat>, held: set<nat>, x: nat)
    requires FreshAll(xs, held) && x !in held && x !in Elems(xs)
    ensures FreshAll(xs + [x], held)
  {
    ElemsMember(xs, x);
    var ys := xs + [x];
    forall j, k | 0 <= j < k < |ys| ensures ys[j] != ys[k] {
      if k == |xs| {
        assert ys[j] == xs[j];
      }
    }
  }

  /** Appending one address adds it to `Elems`. */
  lemma ElemsAppend(xs: seq<nat>, x: nat)
    ensures Elems(xs + [x]) == Elems(xs) + {x}
  {
    assert (xs + [x])[..|xs|] == xs;
  }

  /** The addresses a list holds: its `memory_map` block and its nodes. */
  function Held(addr: nat, nodes: seq<nat>): set<nat>
  {
    {addr} + Elems(nodes)
  }

  /** The addresses of a list, as one sequence, are those it holds. */
  lemma HeldElems(addr: nat, nodes: seq<nat>)
    ensures Elems([addr] + nodes) == Held(addr, nodes)
  {
    forall x ensures x in Elems([addr] + nodes) <==> x in Held(addr, nodes) {
      ElemsMember([addr] + nodes, x);
      ElemsMember(nodes, x);
      if x in Elems(nodes) {
        var k :| 0 <= k < |nodes| && nodes[k] == x;
        assert ([addr] + nodes)[k + 1] == x;
      }
      if exists k :: 0 <= k < |nodes| + 1 && ([addr] + nodes)[k] == x {
        var k :| 0 <= k < |nodes| + 1 && ([addr] + nodes)[k] == x;
        if k > 0 {
          assert nodes[k - 1] == x;
        }
      }
    }
  }

  /** The failure path of `get_memory_map`: frees the nodes from the last
      back to the first, then the `memory_map` block, giving back exactly
      what the call had allocated. */
  method ReleaseAll(h: Heap.Heap, addr: nat, nodes: seq<nat>, ghost held: set<nat>)
    requires h.Valid()
    requires FreshAll([addr] + nodes, held)
    requires Used(h.blocks, Heap.HDR) == held + Held(addr, nodes)
    modifies h
    ensures h.Valid() && Used(h.blocks, Heap.HDR) == held
  {
    var all := [addr] + nodes;
    var k := |nodes|;
    assert nodes[..k] == nodes;
    while k > 0
      invariant 0 <= k <= |nodes| && h.Valid()
      invariant Used(h.blocks, Heap.HDR) == held + {addr} + Elems(nodes[..k])
      decreases k
    {
      k := k - 1;
      assert nodes[..k + 1][..k] == nodes[..k];
      ElemsMember(nodes[..k], nodes[k]);
      assert all[0] == addr && all[k + 1] == nodes[k];
      assert forall q :: 0 <= q < k ==> nodes[..k][q] == all[q + 1];
      h.Free(nodes[k]);
    }
    assert all[0] == addr;
    h.Free(addr);
  }

  /** One step of `Walk`: the reply to call `k` followed by the rest. */
  lemma WalkStep(bios: Bios, k: nat)
    requires k < |bios| && bios[k].Some?
    ensures Walk(bios, k) == Prepend([bios[k].value.entry], if bios[k].value.next == 0 then Some([]) else Walk(bios, k + 1))
  {
    assert [bios[k].value.entry] + [] == [bios[k].value.entry];
  }

  /** `Prepend` composes by concatenation. */
  lemma PrependPrepend(a: seq<Entry>, b: seq<Entry>, o: Option<seq<Entry>>)
    ensures Prepend(a, Prepend(b, o)) == Prepend(a + b, o)
  {
    if o.Some? {
      assert a + (b + o.value) == a + b + o.value;
    }
  }

  /** The allocation of a further node in `get_memory_map`: on success the
      node is appended and the allocations grow by it alone; on failure
      nothing changes. */
  method AddNode(h: Heap.Heap, addr: nat, nodes: seq<nat>, ghost held: set<nat>) returns (ok: bool, nodes': seq<nat>)
    requires h.Valid() && FreshAll([addr] + nodes, held)
    requires Used(h.blocks, Heap.HDR) == held + Held(addr, nodes)
    modifies h
    ensures h.Valid() && FreshAll([addr] + nodes', held)
    ensures Used(h.blocks, Heap.HDR) == held + Held(addr, nodes')
    ensures ok ==> |nodes'| == |nodes| + 1 && nodes'[..|nodes|] == nodes
    ensures !ok ==> nodes' == nodes
  {
    var next := h.Malloc(NODE_SIZE);
    if next == 0 {
      return false, nodes;
    }
    HeldElems(addr, nodes);
    FreshAppend([addr] + nodes, held, next);
    nodes' := nodes + [next];
    ElemsAppend(nodes, next);
    assert [addr] + nodes + [next] == [addr] + nodes';
    assert nodes'[..|nodes|] == nodes;
    ok := true;
  }

  /** The allocations `get_memory_map` makes before its first BIOS call:
      the `memory_map` block and one node; when either fails, what was
      allocated is freed again. */
  method Begin(h: Heap.Heap) returns (ok: bool, addr: nat, nodes: seq<nat>)
    requires h.Valid()
    modifies h
    ensures h.Valid()
    ensures ok ==> |nodes| == 1 && FreshAll([addr] + nodes, Used(old(h.blocks), Heap.HDR))
    ensures ok ==> Used(h.blocks, Heap.HDR) == Used(old(h.blocks), Heap.HDR) + Held(addr, nodes)
    ensures !ok ==> Used(h.blocks, Heap.HDR) == Used(old(h.blocks), Heap.HDR)
  {
    ghost var held := Used(h.blocks, Heap.HDR);
    addr := h.Malloc(MAP_SIZE);
    if addr == 0 {
      return false, 0, [];
    }
    assert Elems([]) == {};
    ok, nodes := AddNode(h, addr, [], held);
    if !ok {
      h.Free(addr);
    }
  }

  /** `get_memory_map`: allocates the map and a first node, then stores one
      E820 reply per node, allocating a further node while the continuation
      offset is non-zero. Any failed call or allocation frees everything the
      call allocated and returns NULL. */
  method GetMemoryMap(h: Heap.Heap, bios: Bios) returns (r: Option<Map>)
    requires h.Valid()
    modifies h
    ensures h.Valid()
    ensures r.Some? ==> Walk(bios, 0) == Some(r.value.entries) && |r.value.nodes| == |r.value.entries|
    ensures r.Some? ==> FreshAll([r.value.addr] + r.value.nodes, Used(old(h.blocks), Heap.HDR))
    ensures r.Some? ==> Used(h.blocks, Heap.HDR) == Used(old(h.blocks), Heap.HDR) + Held(r.value.addr, r.value.nodes)
    ensures Walk(bios, 0).None? ==> r.None?
    ensures r.None? ==> Used(h.blocks, Heap.HDR) == Used(old(h.blocks), Heap.HDR)
  {
    ghost var held := Used(h.blocks, Heap.HDR);
    var ok, addr, nodes := Begin(h);
    if !ok {
      return None;
    }
    var entries: seq<Entry> := [];
    var k := 0;
    assert Walk(bios, 0) == Prepend([], Walk(bios, 0)) by {
      if Walk(bios, 0).Some? {
        assert [] + Walk(bios, 0).value == Walk(bios, 0).value;
      }
    }
    while true
      invariant h.Valid() && |nodes| == |entries| + 1 && k == |entries|
      invariant FreshAll([addr] + nodes, held)
      invariant Used(h.blocks, Heap.HDR) == held + Held(addr, nodes)
      invariant Walk(bios, 0) == Prepend(entries, Walk(bios, k))
      decreases |bios| - k
    {
      if k >= |bios| || bios[k].None? {
        ReleaseAll(h, addr, nodes, held);
        return None;
      }
      var reply := bios[k].value;
      WalkStep(bios, k);
      PrependPrepend(entries, [reply.entry], if reply.next == 0 then Some([]) else Walk(bios, k + 1));
      entries := entries + [reply.entry];
      k := k + 1;
      if reply.next == 0 {
        assert entries + [] == entries;
        return Some(Map(addr, nodes, entries));
      }
      ok, nodes := AddNode(h, addr, nodes, held);
      if !ok {
        ReleaseAll(h, addr, nodes, held);
        return None;
      }
    }
  }
}
