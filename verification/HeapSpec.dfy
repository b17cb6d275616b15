/** What each allocator call does to the block list and the counters. */
module HeapSpec {
  import opened Machine
  import opened HeapBlocks

  // sizeof(void*)
  const PTR_SIZE := 4

  datatype State = State(blocks: seq<Block>, used: uint32, unused: uint32, allocs: uint32, frees: uint32)

  const Init := State([Block(HEAP_START, HEAP_SIZE - HEADER, true)], 0, HEAP_SIZE - HEADER, 0, 0)

  /** `(n + 7) & ~7` in 32 bits. */
  function RoundUp8(n: uint32): uint32 {
    And(Wrap(n + 7), Not(7))
  }

  /** The largest request that rounding up does not wrap to nothing. */
  const MAX_REQUEST := 0xFFFF_FFF8

  function AllocBlocks(bs: seq<Block>, i: nat, n: nat): (cs: seq<Block>)
    requires i < |bs|
    ensures i < |cs|
  {
    SetFree(Split(bs, i, n), i, false)
  }

  function FreeBlocks(bs: seq<Block>, i: nat): seq<Block>
    requires i < |bs|
  {
    Collapse(SetFree(bs, i, true), RunStart(bs, i), RunEnd(bs, i))
  }

  lemma AllocTiles(bs: seq<Block>, i: nat, n: nat)
    requires Tiles(bs) && i < |bs|
    ensures Tiles(AllocBlocks(bs, i, n))
  {
    SplitTiles(bs, i, n);
    SetFreeTiles(Split(bs, i, n), i, false);
  }

  lemma FreeTiles(bs: seq<Block>, i: nat)
    requires Tiles(bs) && i < |bs|
    ensures Tiles(FreeBlocks(bs, i))
  {
    SetFreeTiles(bs, i, true);
    CollapseTiles(SetFree(bs, i, true), RunStart(bs, i), RunEnd(bs, i));
  }

  function Kmalloc(s: State, size: uint32): (State, uint32)
    requires Tiles(s.blocks)
  {
    if size == 0 then (s, 0) else
    var n := RoundUp8(size);
    var i := FirstFit(s.blocks, n);
    if i == |s.blocks| then (s, 0) else
    BlockInHeap(s.blocks, i);
    var cs := AllocBlocks(s.blocks, i, n);
    (State(cs, Wrap(s.used + cs[i].size), Wrap(s.unused - cs[i].size), Wrap(s.allocs + 1), s.frees),
     s.blocks[i].Payload())
  }

  /** Freeing a live block. NULL and already freed pointers change nothing. */
  function Kfree(s: State, p: int): State {
    if !IsLive(s.blocks, p) then s else
    var i := BlockAt(s.blocks, p);
    var size := s.blocks[i].size;
    State(FreeBlocks(s.blocks, i), Wrap(s.used - size), Wrap(s.unused + size), s.allocs, Wrap(s.frees + 1))
  }

  function Krealloc(s: State, p: uint32, size: uint32): (State, uint32)
    requires Tiles(s.blocks) && (p == 0 || IsLive(s.blocks, p))
  {
    if p == 0 then Kmalloc(s, size) else
    if size == 0 then (Kfree(s, p), 0) else
    var i := BlockAt(s.blocks, p);
    if s.blocks[i].size >= size then
      (s.(blocks := Split(s.blocks, i, size)), p)
    else
      var (s', q) := Kmalloc(s, size);
      if q == 0 then (s', 0) else (Kfree(s', p), q)
  }

  function Kcalloc(s: State, count: uint32, size: uint32): (State, uint32)
    requires Tiles(s.blocks) && count > 0
  {
    var total := Wrap(count * size);
    if total / count != size then (s, 0) else Kmalloc(s, total)
  }

  function KmallocAligned(s: State, size: uint32, alignment: uint32): (State, uint32)
    requires Tiles(s.blocks)
  {
    if alignment == 0 || And(alignment, alignment - 1) != 0 then (s, 0) else
    var (s', raw) := Kmalloc(s, Wrap(size + alignment + PTR_SIZE));
    if raw == 0 then (s', 0) else
    (s', And(Wrap(raw + PTR_SIZE + alignment - 1), Not(alignment - 1)))
  }
}
