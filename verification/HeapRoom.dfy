/** Whether what a call hands out is large enough for what the call, or its caller, does
    with it: sizes are rounded and added up in 32 bits. */
module HeapRoom {
  import opened Machine
  import opened HeapBlocks
  import opened HeapSpec
  import opened HeapLaws

  // ----- kmalloc and kcalloc

  /** The block handed out holds the request exactly when rounding it up did not wrap. */
  lemma KmallocRoomIff(s: State, n: uint32)
    requires Tiles(s.blocks) && Kmalloc(s, n).1 != 0
    ensures Taken(s, n).size >= n <==> n <= MAX_REQUEST
  {
    KmallocTakes(s, n);
    RoundUpIsNextMultiple(n);
  }

  /** The input that shows it: asking a fresh heap for every byte there is yields a
      pointer to a block of no bytes at all. */
  lemma WrappedRequestSucceeds()
    ensures Kmalloc(Init, 0xFFFF_FFFF).1 != 0 && Taken(Init, 0xFFFF_FFFF).size == 0
  {
    RoundUpIsNextMultiple(0xFFFF_FFFF);
    hide And;
    assert FirstFit(Init.blocks, 0) == 0;
  }

  /** A block from `kcalloc` holds the whole product exactly when rounding it up did not
      wrap; products that do not fit a word never get that far. */
  lemma KcallocRoomIff(s: State, count: uint32, size: uint32)
    requires Tiles(s.blocks) && count > 0 && Kcalloc(s, count, size).1 != 0
    ensures 0 < count * size < TWO32 && Kmalloc(s, count * size).1 == Kcalloc(s, count, size).1
    ensures Taken(s, count * size).size >= count * size <==> count * size <= MAX_REQUEST
  {
    hide Kmalloc, Taken;
    OverflowCheck(count, size);
    MulNonNegative(count, size);
    KmallocNothing(s);
    KmallocRoomIff(s, count * size);
  }

  /** The input that shows it: `kcalloc(1, 0xFFFFFFFF)` on a fresh heap is given no bytes
      to clear. */
  lemma ClearsTooMuch()
    ensures Kcalloc(Init, 1, 0xFFFF_FFFF).1 != 0 && Taken(Init, 0xFFFF_FFFF).size == 0
  {
    hide Kmalloc, Taken;
    WrappedRequestSucceeds();
    OverflowCheck(1, 0xFFFF_FFFF);
  }

  /** No block is free, so that `kmalloc` fails whatever it rounds to. */
  predicate NoneFree(bs: seq<Block>) {
    FirstFit(bs, 0) == |bs|
  }

  lemma NoneFreeIs(bs: seq<Block>)
    ensures NoneFree(bs) <==> forall i :: 0 <= i < |bs| ==> !bs[i].free
  {}

  lemma NoneFreeFails(s: State, n: uint32)
    requires Tiles(s.blocks) && NoneFree(s.blocks)
    ensures Kmalloc(s, n) == (s, 0)
  {
    hide And;
    NoneFreeIs(s.blocks);
  }

  /** `kcalloc` clears only bytes it was given, or none. */
  predicate ClearFits(bs: seq<Block>, count: uint32, size: uint32) {
    count * size <= MAX_REQUEST || count * size >= TWO32 || NoneFree(bs)
  }

  lemma ClearFitsIff(s: State, count: uint32, size: uint32)
    requires Tiles(s.blocks) && count > 0
    ensures Kcalloc(s, count, size).1 != 0 ==> Kmalloc(s, Wrap(count * size)).1 != 0
    ensures ClearFits(s.blocks, count, size) <==>
            (Kcalloc(s, count, size).1 != 0 ==> Taken(s, Wrap(count * size)).size >= count * size)
  {
    hide Kmalloc, Taken, FirstFit, And;
    OverflowCheck(count, size);
    MulNonNegative(count, size);
    if Kcalloc(s, count, size).1 != 0 {
      KcallocRoomIff(s, count, size);
      if NoneFree(s.blocks) {
        NoneFreeFails(s, count * size);
      }
    } else if MAX_REQUEST < count * size < TWO32 {
      WrappedTakesFirstFree(s, count * size);
    }
  }

  // ----- krealloc

  /** What a request that rounds to nothing is given: the first free block, cut down to
      nothing if that leaves a block worth having. */
  function WrappedRoom(bs: seq<Block>): nat
    requires !NoneFree(bs)
  {
    var f := bs[FirstFit(bs, 0)];
    if f.size > HEADER + MIN_SPLIT then 0 else f.size
  }

  lemma WrappedTakesFirstFree(s: State, n: uint32)
    requires Tiles(s.blocks) && n > MAX_REQUEST
    ensures Kmalloc(s, n).1 != 0 <==> !NoneFree(s.blocks)
    ensures !NoneFree(s.blocks) ==> Taken(s, n).size == WrappedRoom(s.blocks)
  {
    RoundUpIsNextMultiple(n);
    hide And;
    if !NoneFree(s.blocks) {
      BlockInHeap(s.blocks, FirstFit(s.blocks, 0));
    }
  }

  /** A block of `had` bytes that `krealloc` moves fits the block it is copied to. */
  predicate MoveFits(bs: seq<Block>, had: nat, size: uint32) {
    size <= MAX_REQUEST || NoneFree(bs) || had <= WrappedRoom(bs)
  }

  /** A moving `krealloc` copies inside the new block exactly when rounding the new size
      up does not wrap, or the first free block happens to be large enough. */
  lemma MoveRoomIff(s: State, had: nat, size: uint32)
    requires Tiles(s.blocks) && had < size && Kmalloc(s, size).1 != 0
    ensures Taken(s, size).size >= had <==> MoveFits(s.blocks, had, size)
  {
    hide Kmalloc, Taken, FirstFit;
    KmallocRoomIff(s, size);
    if size > MAX_REQUEST {
      WrappedTakesFirstFree(s, size);
    }
  }

  /** The calls that show it: moving the first 100-byte block to 2^32 - 1 bytes copies its
      104 bytes into a block of none. */
  lemma MoveOverruns()
    ensures var s, p := Kmalloc(Init, 100).0, 0x0020_0010;
      && Tiles(s.blocks) && IsLive(s.blocks, p) && s.blocks[BlockAt(s.blocks, p)].size == 104
      && Kmalloc(s, 0xFFFF_FFFF).1 != 0 && Taken(s, 0xFFFF_FFFF).size == 0
  {
    hide And;
    KmallocTakes(Init, 100);
    RoundUpIsNextMultiple(100);
    assert RoundUp8(100) == 104;
    assert FirstFit(Init.blocks, 104) == 0;
    var s := Kmalloc(Init, 100).0;
    assert s.blocks == [Block(HEAP_START, 104, false), Block(HEAP_START + 120, HEAP_SIZE - 136, true)];
    assert BlockAt(s.blocks, 0x0020_0010) == 0;
    assert FirstFit(s.blocks, 0) == 1 by {
      FirstFitIs(s.blocks, 0, 1);
    }
    hide Kmalloc, Taken;
    WrappedTakesFirstFree(s, 0xFFFF_FFFF);
  }

  // ----- kmalloc_aligned

  lemma KmallocNothing(s: State)
    requires Tiles(s.blocks)
    ensures Kmalloc(s, 0) == (s, 0)
  {}

  /** A pointer from `kmalloc_aligned` has `size` bytes behind it inside the raw block
      exactly when the padded total does not wrap, neither when it is added up nor when
      it is rounded. */
  lemma AlignedRoomIff(s: State, size: uint32, alignment: uint32)
    requires Tiles(s.blocks) && IsPowerOfTwo(alignment) && KmallocAligned(s, size, alignment).1 != 0
    ensures Kmalloc(s, Wrap(size + alignment + PTR_SIZE)).1 != 0
    ensures var p, b := KmallocAligned(s, size, alignment).1, Taken(s, Wrap(size + alignment + PTR_SIZE));
      && alignment > 0 && p % alignment == 0 && b.Payload() + PTR_SIZE <= p
      && (p + size <= b.End() <==> size + alignment + PTR_SIZE <= MAX_REQUEST)
  {
    hide Kmalloc, Taken, And, IsPowerOfTwo, Live, FirstFit, AllocBlocks;
    AlignmentTest(alignment);
    PowerOfTwoBound(alignment);
    var total := Wrap(size + alignment + PTR_SIZE);
    KmallocTakes(s, total);
    RoundUpIsNextMultiple(total);
    KmallocNothing(s);
    TakenInHeap(s, total);
    AlignedAddress(Kmalloc(s, total).1, alignment);
    PaddedTotal(size, alignment, Taken(s, total).size);
  }

  /** The input that shows it: with a total of 0xFFFFFFFC the raw block is empty, and the
      result lies past its end. */
  lemma AlignedTooSmall()
    ensures KmallocAligned(Init, 0xFFFF_FFF0, 8).1 != 0
    ensures Taken(Init, 0xFFFF_FFFC).size == 0
    ensures Kmalloc(Init, 0xFFFF_FFFC).1 < Taken(Init, 0xFFFF_FFFC).End() + PTR_SIZE
         <= KmallocAligned(Init, 0xFFFF_FFF0, 8).1
  {
    hide And, Kmalloc, Taken;
    assert IsPowerOfTwo(8) by {
      assert Pow2(3) == 8;
    }
    WrappedTakesFirstFree(Init, 0xFFFF_FFFC);
    assert FirstFit(Init.blocks, 0) == 0;
    TakenInHeap(Init, 0xFFFF_FFFC);
    AlignmentTest(8);
    AlignedAddress(Kmalloc(Init, 0xFFFF_FFFC).1, 8);
  }

  /** The raw block for this total, cut or not, reaches as far as the slot below the least
      multiple of `alignment` that leaves four bytes for it; or there is no raw block. */
  predicate SlotFits(bs: seq<Block>, size: uint32, alignment: uint32)
    requires alignment > 0
  {
    var total := Wrap(size + alignment + PTR_SIZE);
    var r := RoundUp8(total);
    var i := FirstFit(bs, r);
    total == 0 || i == |bs| ||
    PTR_SIZE + (0 - (bs[i].Payload() + PTR_SIZE)) % alignment
    <= if bs[i].size > r + HEADER + MIN_SPLIT then r else bs[i].size
  }

  /** `kmalloc_aligned` stores the raw pointer inside the raw block exactly then. */
  lemma SlotFitsIff(s: State, size: uint32, alignment: uint32)
    requires Tiles(s.blocks) && IsPowerOfTwo(alignment)
    ensures alignment > 0 && (KmallocAligned(s, size, alignment).1 != 0 ==>
              Kmalloc(s, Wrap(size + alignment + PTR_SIZE)).1 != 0)
    ensures SlotFits(s.blocks, size, alignment) <==>
            (KmallocAligned(s, size, alignment).1 != 0 ==>
               var p, b := KmallocAligned(s, size, alignment).1, Taken(s, Wrap(size + alignment + PTR_SIZE));
               b.Payload() <= p - PTR_SIZE && p <= b.End())
  {
    hide Kmalloc, Taken, And, IsPowerOfTwo, RoundUp8, FirstFit, Tiles;
    var total := Wrap(size + alignment + PTR_SIZE);
    PowerOfTwoBound(alignment);
    AlignmentTest(alignment);
    KmallocFails(s, total);
    if Kmalloc(s, total).1 != 0 {
      TakenInHeap(s, total);
      TakenSize(s, total);
      AlignedAddress(Kmalloc(s, total).1, alignment);
      AlignedRoomIff(s, size, alignment);
      LeastMultiple(Kmalloc(s, total).1 + PTR_SIZE, alignment, KmallocAligned(s, size, alignment).1);
    }
  }

  lemma KmallocFails(s: State, n: uint32)
    requires Tiles(s.blocks)
    ensures Kmalloc(s, n).1 == 0 <==> n == 0 || FirstFit(s.blocks, RoundUp8(n)) == |s.blocks|
  {
    hide And;
    if FirstFit(s.blocks, RoundUp8(n)) < |s.blocks| {
      BlockInHeap(s.blocks, FirstFit(s.blocks, RoundUp8(n)));
    }
  }

  lemma TakenSize(s: State, n: uint32)
    requires Tiles(s.blocks) && Kmalloc(s, n).1 != 0
    ensures var i, r := FirstFit(s.blocks, RoundUp8(n)), RoundUp8(n);
      && i < |s.blocks| && Taken(s, n).addr == s.blocks[i].addr
      && Taken(s, n).size == if s.blocks[i].size > r + HEADER + MIN_SPLIT then r else s.blocks[i].size
  {
    hide And;
  }

  lemma LeastMultiple(x: nat, a: nat, p: nat)
    requires a > 0 && x <= p < x + a && p % a == 0
    ensures p == x + (0 - x) % a
  {
    assert p == a * (p / a);
    Negated(a, p / a);
    DivModUnique(0 - x, a, 0 - p / a, p - x);
  }

  lemma Negated(a: int, q: int)
    ensures a * (0 - q) == 0 - a * q
  {}

  /** So it does whenever the padded total does not wrap. */
  lemma PaddedSlotFits(s: State, size: uint32, alignment: uint32)
    requires Tiles(s.blocks) && IsPowerOfTwo(alignment) && size + alignment + PTR_SIZE <= MAX_REQUEST
    ensures alignment > 0 && SlotFits(s.blocks, size, alignment)
  {
    hide Kmalloc, Taken, And, IsPowerOfTwo, SlotFits;
    SlotFitsIff(s, size, alignment);
    if KmallocAligned(s, size, alignment).1 != 0 {
      AlignedRoomIff(s, size, alignment);
    }
  }

  /** A pointer into a payload, or to its end, is not itself the payload of a block. */
  lemma InteriorNotLive(bs: seq<Block>, b: Block, p: int)
    requires Tiles(bs) && b in bs && b.Payload() < p <= b.End()
    ensures !IsLive(bs, p)
  {
    var k :| 0 <= k < |bs| && bs[k] == b;
    if IsLive(bs, p) {
      var j := BlockAt(bs, p);
      if j < k {
        BlocksApart(bs, j, k);
      } else if k < j {
        BlocksApart(bs, k, j);
      }
    }
  }

  /** So `kfree` cannot release what `kmalloc_aligned` hands out: as long as the raw block
      is in use, the aligned pointer is not the pointer of any block. */
  lemma AlignedNotLive(s: State, size: uint32, alignment: uint32, bs: seq<Block>)
    requires Tiles(s.blocks) && KmallocAligned(s, size, alignment).1 != 0
    requires alignment > 0 && SlotFits(s.blocks, size, alignment)
    requires Kmalloc(s, Wrap(size + alignment + PTR_SIZE)).1 != 0
    requires Tiles(bs) && Taken(s, Wrap(size + alignment + PTR_SIZE)) in Live(bs)
    ensures !IsLive(bs, KmallocAligned(s, size, alignment).1)
  {
    hide Kmalloc, Taken, And, IsPowerOfTwo, SlotFits;
    AlignmentTest(alignment);
    SlotFitsIff(s, size, alignment);
    AlignedRoomIff(s, size, alignment);
    InteriorNotLive(bs, Taken(s, Wrap(size + alignment + PTR_SIZE)), KmallocAligned(s, size, alignment).1);
  }

  /** A block no larger than the wrapped total allows holds the padding and the range
      exactly when nothing wrapped. */
  lemma PaddedTotal(size: uint32, alignment: uint32, room: nat)
    requires 0 < alignment <= 0x8000_0000
    requires var total := Wrap(size + alignment + PTR_SIZE);
      RoundUp8(total) <= room <= RoundUp8(total) + HEADER + MIN_SPLIT
    ensures size + alignment + PTR_SIZE <= MAX_REQUEST ==> size + alignment + PTR_SIZE <= room
    ensures size + alignment + PTR_SIZE > MAX_REQUEST ==> room < PTR_SIZE + size
  {
    hide RoundUp8;
    RoundUpIsNextMultiple(Wrap(size + alignment + PTR_SIZE));
  }

  lemma PowerOfTwoBound(a: uint32)
    requires IsPowerOfTwo(a)
    ensures 0 < a <= 0x8000_0000
  {
    var k: nat :| k < a && a == Pow2(k);
    Pow2Of32();
    if k >= 32 {
      Pow2Monotone(32, k);
    } else {
      Pow2Monotone(k, 31);
      assert Pow2(32) == 2 * Pow2(31);
    }
  }

  lemma TakenInHeap(s: State, n: uint32)
    requires Tiles(s.blocks) && Kmalloc(s, n).1 != 0
    ensures HEAP_START <= Taken(s, n).addr && Taken(s, n).Payload() == Kmalloc(s, n).1 <= HEAP_END
  {
    hide And, AllocBlocks, Live;
    KmallocTakes(s, n);
    KmallocPlaces(s, n);
    BlockInHeap(s.blocks, FirstFit(s.blocks, RoundUp8(n)));
  }

  lemma KmallocPlaces(s: State, n: uint32)
    requires Tiles(s.blocks) && Kmalloc(s, n).1 != 0
    ensures var i, bs := FirstFit(s.blocks, RoundUp8(n)), Kmalloc(s, n).0.blocks;
      && i < |s.blocks| && i < |bs| && bs == AllocBlocks(s.blocks, i, RoundUp8(n)) && bs[i] == Taken(s, n)
      && s.blocks[i].free && RoundUp8(n) <= s.blocks[i].size
  {
    hide And, AllocBlocks;
  }
}
