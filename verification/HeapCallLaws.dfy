/** What each allocator call does, told by the blocks in use and free, the pointer and the
    counters. */
module HeapCallLaws {
  import opened Machine
  import opened HeapBlocks
  import opened HeapSpec
  import opened HeapLaws
  import opened HeapRoom
  import opened HeapCanonical
  import opened HeapRuns

  /** The heap as `mm_init` leaves it: one megabyte from two megabytes on, one free block. */
  lemma InitLaw()
    ensures Init.blocks == [Block(0x20_0000, 0x10_0000 - 16, true)] && Tiles(Init.blocks)
    ensures Init.used == 0 && Init.unused == 0x10_0000 - 16 && Init.allocs == 0 && Init.frees == 0
  {}

  function FreeSet(bs: seq<Block>): set<Block> {
    set b | b in bs && b.free
  }

  /** Some free block holds the rounded request. */
  ghost predicate Room(s: State, n: uint32) {
    exists f :: f in s.blocks && f.free && f.size >= RoundUp8(n)
  }

  /** `f` is the one with the lowest address. */
  ghost predicate Lowest(s: State, n: uint32, f: Block) {
    && f in s.blocks && f.free && f.size >= RoundUp8(n)
    && forall g :: g in s.blocks && g.free && g.size >= RoundUp8(n) ==> f.addr <= g.addr
  }

  /** The free block `f` has given way to the block in use `b`, and to a free block behind it
      if more than 48 bytes were left over; nothing else has changed. */
  ghost predicate Carved(s: State, s': State, n: uint32, f: Block, b: Block) {
    var r := RoundUp8(n);
    && b == Block(f.addr, if f.size > r + 48 then r else f.size, false) && b !in Live(s.blocks)
    && Live(s'.blocks) == Live(s.blocks) + {b}
    && FreeSet(s'.blocks) == FreeSet(s.blocks) - {f}
         + (if f.size > r + 48 then {Block(f.addr + 16 + r, f.size - r - 16, true)} else {})
    && s'.used == Wrap(s.used + b.size) && s'.unused == Wrap(s.unused - b.size)
    && s'.allocs == Wrap(s.allocs + 1) && s'.frees == s.frees
  }

  /** `kmalloc` succeeds exactly for requests other than 0 that some free block holds. It
      then carves the block out of the lowest one, and otherwise changes nothing. */
  lemma KmallocLaw(s: State, n: uint32) returns (f: Block, b: Block)
    requires Tiles(s.blocks)
    ensures Kmalloc(s, n).1 != 0 <==> n > 0 && Room(s, n)
    ensures Kmalloc(s, n).1 == 0 ==> Kmalloc(s, n).0 == s
    ensures Kmalloc(s, n).1 != 0 ==>
      && Lowest(s, n, f) && Carved(s, Kmalloc(s, n).0, n, f, b) && Kmalloc(s, n).1 == f.addr + 16
      && b == Taken(s, n)
  {
    hide Kmalloc, Taken, Live, FreeSet, AllocBlocks, RoundUp8, Tiles;
    f, b := Block(0, 0, true), Block(0, 0, true);
    FitExists(s, n);
    KmallocFails(s, n);
    KmallocTakes(s, n);
    if Kmalloc(s, n).1 != 0 {
      var i, r := FirstFit(s.blocks, RoundUp8(n)), RoundUp8(n);
      f, b := s.blocks[i], Taken(s, n);
      TakenSize(s, n);
      KmallocPlaces(s, n);
      LowestFit(s, n);
      AllocFreeSet(s.blocks, i, r);
    }
  }

  lemma FitExists(s: State, n: uint32)
    ensures Room(s, n) <==> FirstFit(s.blocks, RoundUp8(n)) < |s.blocks|
  {
    hide RoundUp8;
    var i := FirstFit(s.blocks, RoundUp8(n));
    if i < |s.blocks| {
      assert s.blocks[i] in s.blocks;
    }
  }

  lemma LowestFit(s: State, n: uint32)
    requires Tiles(s.blocks) && FirstFit(s.blocks, RoundUp8(n)) < |s.blocks|
    ensures Lowest(s, n, s.blocks[FirstFit(s.blocks, RoundUp8(n))])
  {
    hide RoundUp8;
    var i := FirstFit(s.blocks, RoundUp8(n));
    forall g | g in s.blocks && g.free && g.size >= RoundUp8(n) ensures s.blocks[i].addr <= g.addr {
      var k :| 0 <= k < |s.blocks| && s.blocks[k] == g;
      if i < k {
        BlocksApart(s.blocks, i, k);
      }
    }
  }

  lemma AllocFreeSet(bs: seq<Block>, i: nat, r: nat)
    requires Tiles(bs) && i < |bs| && bs[i].free && r <= bs[i].size
    ensures FreeSet(AllocBlocks(bs, i, r)) == FreeSet(bs) - {bs[i]}
         + (if bs[i].size > r + 48 then {Block(bs[i].addr + 16 + r, bs[i].size - r - 16, true)} else {})
  {
    hide AllocBlocks, FreeSet;
    var f, u, v := bs[i], bs[..i], bs[i + 1..];
    SeqSplitAt(bs, i);
    AllocShape(u, f, v, r);
    OnlyOnce(bs, i);
    FreeSetWithout(u, f, v);
    if f.size > r + 48 {
      FreeSetBetween(u, Block(f.addr, r, false), [Block(f.Payload() + r, f.size - r - 16, true)] + v);
      FreeSetConcat([Block(f.Payload() + r, f.size - r - 16, true)], v);
      FreeSetOne(Block(f.Payload() + r, f.size - r - 16, true));
    } else {
      FreeSetBetween(u, f.(free := false), v);
    }
  }

  lemma OnlyOnce(bs: seq<Block>, i: nat)
    requires Tiles(bs) && i < |bs|
    ensures bs[i] !in bs[..i] && bs[i] !in bs[i + 1..]
  {
    forall k | 0 <= k < |bs| && k != i ensures bs[k] != bs[i] {
      if bs[k] == bs[i] {
        AddrInjective(bs, i, k);
      }
    }
  }

  lemma FreeSetOne(b: Block)
    ensures FreeSet([b]) == if b.free then {b} else {}
  {}

  /** A block in use adds nothing. */
  lemma FreeSetBetween(u: seq<Block>, b: Block, v: seq<Block>)
    requires !b.free
    ensures FreeSet(u + [b] + v) == FreeSet(u) + FreeSet(v)
  {}

  lemma FreeSetConcat(a: seq<Block>, b: seq<Block>)
    ensures FreeSet(a + b) == FreeSet(a) + FreeSet(b)
  {}

  lemma FreeSetWithout(u: seq<Block>, f: Block, v: seq<Block>)
    requires f !in u && f !in v
    ensures FreeSet(u + [f] + v) - {f} == FreeSet(u) + FreeSet(v)
  {}

  // ----- krealloc

  /** `krealloc(p, 0)` frees. */
  lemma KreallocZeroFrees(s: State, p: uint32)
    requires Tiles(s.blocks) && IsLive(s.blocks, p)
    ensures var (s', r), b := Krealloc(s, p, 0), s.blocks[BlockAt(s.blocks, p)];
      && r == 0 && Live(s'.blocks) == Live(s.blocks) - {b} && !IsLive(s'.blocks, p)
      && s'.used == Wrap(s.used - b.size) && s'.unused == Wrap(s.unused + b.size)
      && s'.allocs == s.allocs && s'.frees == Wrap(s.frees + 1)
  {
    hide Live, FreeBlocks, Tiles;
    PointerNotNull(s.blocks, p);
    KfreeReleases(s, p);
  }

  lemma PointerNotNull(bs: seq<Block>, p: int)
    requires IsLive(bs, p)
    ensures p != 0
  {}

  /** A block that is large enough stays where it is. If more than 48 bytes are to spare it
      is cut to the very size asked for; the counters do not notice. */
  lemma KreallocInPlace(s: State, p: uint32, size: uint32)
    requires Tiles(s.blocks) && IsLive(s.blocks, p) && 0 < size <= s.blocks[BlockAt(s.blocks, p)].size
    ensures var (s', r), b := Krealloc(s, p, size), s.blocks[BlockAt(s.blocks, p)];
      var b' := Block(b.addr, if b.size > size + 48 then size else b.size, false);
      && r == p && Live(s'.blocks) == Live(s.blocks) - {b} + {b'}
      && FreeSet(s'.blocks) == FreeSet(s.blocks)
           + (if b.size > size + 48 then {Block(b.addr + 16 + size, b.size - size - 16, true)} else {})
      && s'.used == s.used && s'.unused == s.unused && s'.allocs == s.allocs && s'.frees == s.frees
  {
    hide Live, FreeSet, Tiles, Kmalloc, Kfree;
    PointerNotNull(s.blocks, p);
    var i := BlockAt(s.blocks, p);
    TrimLive(s.blocks, i, size);
    TrimFreeSet(s.blocks, i, size);
  }

  lemma TrimFreeSet(bs: seq<Block>, i: nat, n: nat)
    requires i < |bs| && !bs[i].free
    ensures FreeSet(Split(bs, i, n)) == FreeSet(bs)
         + (if bs[i].size > n + 48 then {Block(bs[i].addr + 16 + n, bs[i].size - n - 16, true)} else {})
  {
    if bs[i].size > n + 48 {
      var rest := Block(bs[i].addr + 16 + n, bs[i].size - n - 16, true);
      SeqSplitAt(bs, i);
      FreeSetConcat(bs[..i] + [bs[i]], bs[i + 1..]);
      FreeSetConcat(bs[..i], [bs[i]]);
      FreeSetConcat(bs[..i] + [bs[i].(size := n), rest], bs[i + 1..]);
      FreeSetConcat(bs[..i], [bs[i].(size := n), rest]);
      assert FreeSet([bs[i].(size := n), rest]) == {rest};
    }
  }

  /** A block that is too small moves: a new one is carved out and the old one freed. */
  lemma KreallocMoves(s: State, p: uint32, size: uint32) returns (f: Block, b': Block)
    requires Tiles(s.blocks) && IsLive(s.blocks, p) && s.blocks[BlockAt(s.blocks, p)].size < size && Room(s, size)
    ensures Lowest(s, size, f)
    ensures b' == Block(f.addr, if f.size > RoundUp8(size) + 48 then RoundUp8(size) else f.size, false)
    ensures b' !in Live(s.blocks)
    ensures var (s', r), b := Krealloc(s, p, size), s.blocks[BlockAt(s.blocks, p)];
      && r == b'.Payload() && r != p && Live(s'.blocks) == Live(s.blocks) - {b} + {b'}
      && s'.used == Wrap(s.used + b'.size - b.size) && s'.unused == Wrap(s.unused - b'.size + b.size)
      && s'.allocs == Wrap(s.allocs + 1) && s'.frees == Wrap(s.frees + 1)
  {
    hide Live, FreeSet, Tiles, Kmalloc, FreeBlocks, RoundUp8, Room, Lowest, BlockAt, Wrap;
    PointerNotNull(s.blocks, p);
    f, b' := KmallocLaw(s, size);
    var s1, b := Kmalloc(s, size).0, s.blocks[BlockAt(s.blocks, p)];
    KmallocKeepsLive(s, size, p);
    KmallocTakes(s, size);
    KfreeReleases(s1, p);
    LiveIndex(s.blocks, BlockAt(s.blocks, p));
    WrapBoth(s.used, b'.size, b.size);
    WrapBoth(s.unused, 0 - b'.size, 0 - b.size);
  }

  lemma WrapBoth(x: int, a: int, b: int)
    ensures Wrap(Wrap(x + a) - b) == Wrap(x + a - b)
  {}

  /** With no room to move to, nothing changes. */
  lemma KreallocFails(s: State, p: uint32, size: uint32)
    requires Tiles(s.blocks) && IsLive(s.blocks, p) && s.blocks[BlockAt(s.blocks, p)].size < size && !Room(s, size)
    ensures Krealloc(s, p, size) == (s, 0)
  {
    hide Kmalloc, Tiles, Room, BlockAt;
    PointerNotNull(s.blocks, p);
    var _, _ := KmallocLaw(s, size);
  }

  /** `krealloc` of NULL allocates. */
  lemma KreallocNullAllocates(s: State, size: uint32) returns (f: Block, b: Block)
    requires Tiles(s.blocks)
    ensures var (s', r) := Krealloc(s, 0, size);
      && (r != 0 <==> size > 0 && Room(s, size))
      && (r == 0 ==> s' == s)
      && (r != 0 ==> Lowest(s, size, f) && Carved(s, s', size, f, b) && r == f.addr + 16)
  {
    hide Kmalloc, Tiles, Room, Carved, Lowest;
    f, b := KmallocLaw(s, size);
  }

  // ----- kcalloc

  /** `kcalloc` succeeds exactly for products other than 0 that fit a word and some free
      block. It then carves the block out of the lowest one, and otherwise changes nothing. */
  lemma KcallocLaw(s: State, count: uint32, size: uint32) returns (f: Block, b: Block)
    requires Tiles(s.blocks) && count > 0
    ensures Kcalloc(s, count, size).1 != 0 <==> 0 < count * size < 0x1_0000_0000 && Room(s, count * size)
    ensures Kcalloc(s, count, size).1 == 0 ==> Kcalloc(s, count, size).0 == s
    ensures Kcalloc(s, count, size).1 != 0 ==>
      && Lowest(s, count * size, f) && Carved(s, Kcalloc(s, count, size).0, count * size, f, b)
      && Kcalloc(s, count, size).1 == f.addr + 16
  {
    hide Kmalloc, Tiles, Room, Carved, Lowest;
    f, b := Block(0, 0, true), Block(0, 0, true);
    OverflowCheck(count, size);
    MulNonNegative(count, size);
    if count * size < 0x1_0000_0000 {
      f, b := KmallocLaw(s, count * size);
    }
  }

  // ----- kmalloc_aligned

  /** `kmalloc_aligned` succeeds exactly for powers of two whose padded total, modulo the word
      size, is not 0 and fits some free block. The result is the least multiple of the
      alignment at least four bytes into the block carved out of the lowest one. */
  lemma KmallocAlignedLaw(s: State, size: uint32, alignment: uint32) returns (f: Block, b: Block)
    requires Tiles(s.blocks)
    ensures var total := Wrap(size + alignment + 4);
      KmallocAligned(s, size, alignment).1 != 0 <==> IsPowerOfTwo(alignment) && total > 0 && Room(s, total)
    ensures KmallocAligned(s, size, alignment).1 == 0 ==> KmallocAligned(s, size, alignment).0 == s
    ensures KmallocAligned(s, size, alignment).1 != 0 ==>
      var total, (s', p) := Wrap(size + alignment + 4), KmallocAligned(s, size, alignment);
      && Lowest(s, total, f) && Carved(s, s', total, f, b)
      && alignment > 0 && p % alignment == 0 && f.addr + 20 <= p < f.addr + 20 + alignment
  {
    hide Kmalloc, Taken, Tiles, Room, Carved, Lowest, And, IsPowerOfTwo, RoundUp8;
    AlignmentTest(alignment);
    var total := Wrap(size + alignment + PTR_SIZE);
    f, b := KmallocLaw(s, total);
    if alignment > 0 && And(alignment, alignment - 1) == 0 && Kmalloc(s, total).1 != 0 {
      PowerOfTwoBound(alignment);
      TakenInHeap(s, total);
      AlignedAddress(Kmalloc(s, total).1, alignment);
    }
  }

  // ----- kfree

  /** `kfree` of a live pointer: the block leaves the blocks in use, it and the free blocks
      that touch it give way to one free block over the same span, and the counters move. */
  lemma KfreeLaw(s: State, p: uint32, lo: nat, hi: nat)
    requires Tiles(s.blocks) && IsLive(s.blocks, p) && IsRun(s.blocks, BlockAt(s.blocks, p), lo, hi)
    ensures var s', b := Kfree(s, p), s.blocks[BlockAt(s.blocks, p)];
      && Live(s'.blocks) == Live(s.blocks) - {b}
      && |s'.blocks| > lo && s'.blocks == s.blocks[..lo] + [s'.blocks[lo]] + s.blocks[hi..]
      && s'.blocks[lo].free && s'.blocks[lo].addr == s.blocks[lo].addr && s'.blocks[lo].End() == s.blocks[hi - 1].End()
      && s'.used == Wrap(s.used - b.size) && s'.unused == Wrap(s.unused + b.size)
      && s'.allocs == s.allocs && s'.frees == Wrap(s.frees + 1)
  {
    hide Live, FreeBlocks, Tiles;
    KfreeReleases(s, p);
    FreeIs(s.blocks, BlockAt(s.blocks, p), lo, hi);
    SpanPositive(s.blocks, lo, hi);
  }

  lemma SpanPositive(bs: seq<Block>, lo: nat, hi: nat)
    requires Tiles(bs) && lo < hi <= |bs|
    ensures bs[hi - 1].End() - bs[lo].addr >= 16
  {
    if lo < hi - 1 {
      BlocksApart(bs, lo, hi - 1);
    }
  }
}
