/** The kernel heap: one array of bytes, a pointer to its first block header, and the
    counters. Every list operation reads and writes header words in those bytes. */
module Heap {
  import opened Machine
  import opened HeapBlocks
  import opened HeapMemory
  import HeapLaws
  import HeapRoom
  import HeapRuns
  import HeapSpec

  lemma FirstHeader(m: seq<byte>)
    requires |m| == HEAP_SIZE
    ensures Represents(WordsOf(StoreHeader(m, HEAP_START, HEAP_SIZE - HEADER, true, 0, 0)), HeapSpec.Init.blocks)
  {
    hide StoreHeader, WordsOf;
    StoreHeaderStores(m, HEAP_START, HEAP_SIZE - HEADER, true, 0, 0);
    assert HeaderOk(WordsOf(StoreHeader(m, HEAP_START, HEAP_SIZE - HEADER, true, 0, 0)), HeapSpec.Init.blocks, 0);
  }

  /** The payload of a block. */
  ghost function PayloadOf(m: seq<byte>, b: Block): (bytes: seq<byte>)
    requires |m| == HEAP_SIZE
    ensures |bytes| == b.size && forall i :: 0 <= i < b.size ==> bytes[i] == ByteAt(m, b.Payload() + i)
  {
    seq<byte>(b.size, i requires 0 <= i < b.size && |m| == HEAP_SIZE => ByteAt(m, b.Payload() + i))
  }

  ghost function ByteAt(m: seq<byte>, x: int): byte
    requires |m| == HEAP_SIZE
  {
    if IsAddress(x) then At(m, x) else 0
  }

  lemma PayloadKept(m: seq<byte>, m': seq<byte>, kept: set<Block>, b: Block)
    requires |m| == |m'| == HEAP_SIZE && BytesKept(m, m', kept) && b in kept
    ensures PayloadOf(m', b) == PayloadOf(m, b)
  {
    forall i | 0 <= i < b.size ensures PayloadOf(m', b)[i] == PayloadOf(m, b)[i] {
      assert b.Contains(b.Payload() + i);
    }
  }

  /** The other way round. */
  lemma SamePayloads(m: seq<byte>, m': seq<byte>, kept: set<Block>)
    requires |m| == |m'| == HEAP_SIZE && forall b :: b in kept ==> PayloadOf(m', b) == PayloadOf(m, b)
    ensures BytesKept(m, m', kept)
  {
    forall b, x | b in kept && b.Contains(x) && IsAddress(x) ensures At(m', x) == At(m, x) {
      assert PayloadOf(m', b)[x - b.Payload()] == PayloadOf(m, b)[x - b.Payload()];
    }
  }

  // ----- following the list

  /** A nonzero address with room for a header. */
  predicate IsHeader(a: int) {
    0 < HEAP_START <= a && a + HEADER <= HEAP_END
  }

  function Element(chain: seq<int>, k: int): int {
    if 0 <= k < |chain| then chain[k] else 0
  }

  /** The `next` words lead from `head` through `chain` to NULL. */
  ghost predicate Chained(m: seq<byte>, head: int, chain: seq<int>)
    requires |m| == HEAP_SIZE
  {
    && head == Element(chain, 0)
    && (forall k :: 0 <= k < |chain| ==> IsHeader(chain[k]))
    && (forall k :: 0 <= k < |chain| ==> Word(m, chain[k] + NEXT) == Element(chain, k + 1))
  }

  /** The `prev` word of the element after `k` leads back. */
  ghost predicate BackAt(m: seq<byte>, chain: seq<int>, k: nat)
    requires |m| == HEAP_SIZE && k + 1 < |chain| && IsHeader(chain[k + 1])
  {
    Word(m, chain[k + 1] + PREV) == chain[k]
  }

  /** So do those of the first `n` elements after the head. */
  ghost predicate BackUpTo(m: seq<byte>, chain: seq<int>, n: int)
    requires |m| == HEAP_SIZE && n < |chain| && forall k :: 0 <= k < |chain| ==> IsHeader(chain[k])
  {
    forall k :: 0 <= k < n ==> BackAt(m, chain, k)
  }

  ghost predicate LinkedBack(m: seq<byte>, chain: seq<int>)
    requires |m| == HEAP_SIZE && forall k :: 0 <= k < |chain| ==> IsHeader(chain[k])
  {
    BackUpTo(m, chain, |chain| - 1)
  }

  /** The sizes with their headers, added up in 32 bits. */
  ghost function ChainTotal(m: seq<byte>, chain: seq<int>): uint32
    requires |m| == HEAP_SIZE && forall k :: 0 <= k < |chain| ==> IsHeader(chain[k])
  {
    if |chain| == 0 then 0 else
    assert IsHeader(chain[|chain| - 1]);
    Wrap(ChainTotal(m, chain[..|chain| - 1]) + Word(m, chain[|chain| - 1] + SIZE) + HEADER)
  }

  lemma ChainBegins(m: seq<byte>, head: int, chain: seq<int>)
    requires |m| == HEAP_SIZE && Chained(m, head, chain)
    ensures forall k :: 0 <= k < |chain| ==> IsHeader(chain[k])
    ensures ChainTotal(m, []) == 0 && head == Element(chain, 0)
    ensures BackUpTo(m, chain, Min(0, |chain| - 1))
  {}

  /** What one round of the check reads. */
  lemma ChainStep(m: seq<byte>, head: int, chain: seq<int>, i: nat)
    requires |m| == HEAP_SIZE && Chained(m, head, chain) && i <= |chain| && Element(chain, i) != 0
    ensures i < |chain| && IsHeader(chain[i]) && Word(m, chain[i] + NEXT) == Element(chain, i + 1)
    ensures ChainTotal(m, chain[..i + 1]) == Wrap(ChainTotal(m, chain[..i]) + Word(m, chain[i] + SIZE) + HEADER)
  {
    hide Word;
    assert chain[..i + 1][..i] == chain[..i] && chain[..i + 1][i] == chain[i];
  }

  lemma BackStep(m: seq<byte>, chain: seq<int>, i: nat)
    requires |m| == HEAP_SIZE && i < |chain| && forall k :: 0 <= k < |chain| ==> IsHeader(chain[k])
    requires BackUpTo(m, chain, Min(i, |chain| - 1))
    ensures Element(chain, i + 1) == 0 <==> i + 1 == |chain|
    ensures i + 1 < |chain| ==> IsHeader(chain[i + 1])
    ensures i + 1 < |chain| && Word(m, chain[i + 1] + PREV) != chain[i] ==> !LinkedBack(m, chain)
    ensures i + 1 < |chain| && Word(m, chain[i + 1] + PREV) == chain[i] ==> BackUpTo(m, chain, Min(i + 1, |chain| - 1))
    ensures i + 1 == |chain| ==> BackUpTo(m, chain, Min(i + 1, |chain| - 1))
  {
    hide Word;
    if i + 1 < |chain| {
      assert IsHeader(chain[i + 1]);
      assert BackAt(m, chain, i) <==> Word(m, chain[i + 1] + PREV) == chain[i];
    }
  }

  lemma ChainEnds(m: seq<byte>, head: int, chain: seq<int>, i: nat)
    requires |m| == HEAP_SIZE && Chained(m, head, chain) && i <= |chain| && Element(chain, i) == 0
    requires BackUpTo(m, chain, Min(i, |chain| - 1))
    ensures i == |chain| && chain[..i] == chain && LinkedBack(m, chain)
  {
    assert i < |chain| ==> IsHeader(chain[i]);
  }

  ghost function Addresses(bs: seq<Block>): seq<int> {
    seq(|bs|, i requires 0 <= i < |bs| => bs[i].addr)
  }

  lemma {:induction false} BlocksTotal(m: seq<byte>, bs: seq<Block>, n: nat)
    requires |m| == HEAP_SIZE && Represents(WordsOf(m), bs) && n <= |bs|
    ensures forall k :: 0 <= k < n ==> IsHeader(Addresses(bs)[k])
    ensures ChainTotal(m, Addresses(bs)[..n]) == if n == 0 then 0 else bs[n - 1].End() - HEAP_START
  {
    hide WordsOf, Word, Represents;
    RepresentsTiles(WordsOf(m), bs);
    if n > 0 {
      BlocksTotal(m, bs, n - 1);
      HeaderFields(m, bs, n - 1);
      assert Addresses(bs)[..n][..n - 1] == Addresses(bs)[..n - 1];
    }
  }

  /** The blocks of a valid heap pass. */
  lemma ValidPasses(m: seq<byte>, bs: seq<Block>)
    requires |m| == HEAP_SIZE && Represents(WordsOf(m), bs)
    ensures Chained(m, HEAP_START, Addresses(bs)) && LinkedBack(m, Addresses(bs))
    ensures ChainTotal(m, Addresses(bs)) == HEAP_SIZE
  {
    hide WordsOf, Word, Represents;
    RepresentsTiles(WordsOf(m), bs);
    BlocksTotal(m, bs, |bs|);
    var chain := Addresses(bs);
    assert chain[..|bs|] == chain;
    forall k | 0 <= k < |bs|
      ensures Word(m, chain[k] + NEXT) == Element(chain, k + 1)
      ensures k + 1 < |bs| ==> BackAt(m, chain, k)
    {
      HeaderFields(m, bs, k);
      if k + 1 < |bs| {
        HeaderFields(m, bs, k + 1);
      }
    }
  }

  // ----- freeing what is not a block's pointer

  /** The first block on a fresh heap, from a `kmalloc_aligned` of eight bytes. */
  lemma AlignedOnFreshHeap()
    ensures var (s, p) := HeapSpec.KmallocAligned(HeapSpec.Init, 8, 8);
      p == 0x0020_0018 && |s.blocks| > 0 && s.blocks[0] == Block(HEAP_START, 24, false)
  {
    hide And;
    assert IsPowerOfTwo(8) by {
      assert Pow2(3) == 8;
    }
    HeapLaws.AlignmentTest(8);
    HeapLaws.RoundUpIsNextMultiple(20);
    assert HeapSpec.RoundUp8(20) == 24;
    assert FirstFit(HeapSpec.Init.blocks, 24) == 0;
    assert HeapSpec.Kmalloc(HeapSpec.Init, 20).1 == 0x0020_0010;
    HeapLaws.AlignedAddress(0x0020_0010, 8);
  }

  ghost predicate HoldsNoList(m: seq<byte>)
    requires |m| == HEAP_SIZE
  {
    forall bs :: !Represents(WordsOf(m), bs)
  }

  /** `kfree` of that pointer takes the links of the first header for a header of its own,
      finds its flag clear, and with its first write leaves memory that holds no block list. */
  lemma AlignedFreeCorrupts(m: seq<byte>)
    requires |m| == HEAP_SIZE && Represents(WordsOf(m), HeapSpec.KmallocAligned(HeapSpec.Init, 8, 8).0.blocks)
    ensures var p := HeapSpec.KmallocAligned(HeapSpec.Init, 8, 8).1;
      && p != 0 && IsWordAddress(p - HEADER + IS_FREE) && Word(m, p - HEADER + IS_FREE) == 0
      && HoldsNoList(StoreWord(m, p - HEADER + IS_FREE, 1))
  {
    hide WordsOf, Word, StoreWord, Represents, HeapSpec.KmallocAligned;
    AlignedOnFreshHeap();
    var q := HEAP_START + PREV;
    HeaderFields(m, HeapSpec.KmallocAligned(HeapSpec.Init, 8, 8).0.blocks, 0);
    StoredIsRead(m, q, 1);
    var m' := StoreWord(m, q, 1);
    forall bs ensures !Represents(WordsOf(m'), bs) {
      if Represents(WordsOf(m'), bs) {
        FirstHasNoPrevious(m', bs);
      }
    }
  }

  lemma FirstHasNoPrevious(m: seq<byte>, bs: seq<Block>)
    requires |m| == HEAP_SIZE && Represents(WordsOf(m), bs)
    ensures Word(m, HEAP_START + PREV) == 0
  {
    RepresentsTiles(WordsOf(m), bs);
    hide WordsOf, Word, Represents;
    HeaderFields(m, bs, 0);
  }

  class KernelHeap {
    const mem: array<byte>
    var head: uint32
    var usedMemory: uint32
    var freeMemory: uint32
    var numAllocations: uint32
    var numFrees: uint32
    var largestFreeBlock: uint32
    ghost var blocks: seq<Block>  // the block list those words hold

    ghost predicate Valid()
      reads this, mem
    {
      && mem.Length == HEAP_SIZE
      && head == HEAP_START
      && Represents(WordsOf(mem[..]), blocks)
    }

    ghost function State(): HeapSpec.State
      reads this
    {
      HeapSpec.State(blocks, usedMemory, freeMemory, numAllocations, numFrees)
    }

    /** `mm_init`: one free block over the whole heap. Its bytes may hold anything. */
    constructor ()
      ensures Valid() && State() == HeapSpec.Init && fresh(mem)
      ensures largestFreeBlock == HEAP_SIZE - HEADER
    {
      mem := new byte[HEAP_SIZE];
      head := HEAP_START;
      usedMemory, freeMemory := 0, HEAP_SIZE - HEADER;
      numAllocations, numFrees := 0, 0;
      largestFreeBlock := HEAP_SIZE - HEADER;
      blocks := HeapSpec.Init.blocks;
      new;
      hide StoreHeader, WordsOf, Represents;
      FirstHeader(mem[..]);
      WriteHeader(HEAP_START, HEAP_SIZE - HEADER, true, 0, 0);
    }

    // ----- words of memory

    method Store(p: int, v: uint32)
      requires mem.Length == HEAP_SIZE && IsWordAddress(p)
      modifies mem
      ensures mem[..] == StoreWord(old(mem[..]), p, v)
    {
      var a := p - HEAP_START;
      mem[a], mem[a + 1], mem[a + 2], mem[a + 3] := ByteOf(v, 0), ByteOf(v, 1), ByteOf(v, 2), ByteOf(v, 3);
    }

    /** The four field writes that make a header. */
    method WriteHeader(a: int, size: uint32, isFree: bool, next: uint32, prev: uint32)
      requires mem.Length == HEAP_SIZE && HEAP_START <= a && a + HEADER <= HEAP_END
      modifies mem
      ensures mem[..] == StoreHeader(old(mem[..]), a, size, isFree, next, prev)
    {
      hide StoreWord;
      Store(a + SIZE, size);
      Store(a + IS_FREE, if isFree then 1 else 0);
      Store(a + NEXT, next);
      Store(a + PREV, prev);
    }

    /** The writes of `split_block`, given that block `b` is to be cut. */
    method CutInPlace(block: uint32, size: uint32, ghost b: Block)
      requires mem.Length == HEAP_SIZE && HEAP_START <= block && b.addr == block && b.End() <= HEAP_END
      requires b.size == Word(mem[..], block + SIZE) && size + HEADER <= b.size
      requires IsLink(Word(mem[..], block + NEXT))
      modifies mem
      ensures mem[..] == CutStores(old(mem[..]), b, size, Word(old(mem[..]), block + NEXT))
    {
      hide StoreWord, StoreHeader, Word;
      var newBlock := block + HEADER + size;
      var next := Word(mem[..], block + NEXT);
      WriteHeader(newBlock, Word(mem[..], block + SIZE) - size - HEADER, true, next, block);
      if next != 0 {
        Store(next + PREV, newBlock);
      }
      Store(block + NEXT, newBlock);
      Store(block + SIZE, size);
    }

    /** `split_block` on block number `i`. */
    method SplitBlock(block: uint32, size: uint32, ghost i: nat)
      requires Valid() && i < |blocks| && block == blocks[i].addr && size <= blocks[i].size
      modifies mem, `blocks
      ensures Valid() && blocks == Split(old(blocks), i, size)
      ensures PayloadsKept(old(mem[..]), mem[..], old(blocks), i)
      ensures forall x :: block + HEADER <= x < block + HEADER + size && IsAddress(x) ==>
                At(mem[..], x) == At(old(mem[..]), x)
    {
      hide Word, WordsOf, Represents, CutStores, At;
      HeaderFields(mem[..], blocks, i);
      if Word(mem[..], block + SIZE) > Wrap(size + HEADER + MIN_SPLIT) {
        CutStoresCut(mem[..], blocks, i, size);
        CutInPlace(block, size, blocks[i]);
        blocks := Cut(blocks, i, size);
      }
    }

    /** The writes by which the block at `first` takes in the block at `second`. */
    method Absorb(first: uint32, second: uint32, ghost size: uint32, ghost next: uint32)
      requires mem.Length == HEAP_SIZE && first != 0 && IsLink(first) && second != 0 && IsLink(second)
      requires first + HEADER <= second
      requires Word(mem[..], second + NEXT) == next && IsLink(next) && (next != 0 ==> second + HEADER <= next)
      requires size == Wrap(Word(mem[..], first + SIZE) + Word(mem[..], second + SIZE) + HEADER)
      modifies mem
      ensures mem[..] == AbsorbStores(old(mem[..]), first, size, next)
    {
      hide StoreWord, Word;
      ghost var m := mem[..];
      Store(first + SIZE, Wrap(Word(mem[..], first + SIZE) + Word(mem[..], second + SIZE) + HEADER));
      ghost var m1 := mem[..];
      StoreWordKeeps(m, first + SIZE, size, second + NEXT);
      Store(first + NEXT, Word(mem[..], second + NEXT));
      StoreWordKeeps(m1, first + NEXT, next, second + NEXT);
      if Word(mem[..], second + NEXT) != 0 {
        Store(Word(mem[..], second + NEXT) + PREV, first);
      }
    }

    /** Merging block `j + 1` into block `j`, both free. */
    method MergePair(first: uint32, second: uint32, ghost j: nat)
      requires Valid() && j + 1 < |blocks| && blocks[j].free
      requires first == blocks[j].addr && second == blocks[j + 1].addr
      modifies mem, `blocks
      ensures Valid() && blocks == Collapse(old(blocks), j, j + 2)
      ensures OnlyHeaders(old(mem[..]), mem[..], old(blocks), j, j + 2)
      ensures OnlyMergeTouches(WordsOf(old(mem[..])), WordsOf(mem[..]), old(blocks), j)
    {
      hide Word, WordsOf, Represents, AbsorbStores, OnlyHeaders, OnlyMergeTouches, Collapse, Link;
      MergeReads(mem[..], blocks, j);
      AbsorbStoresMerge(mem[..], blocks, j);
      Absorb(first, second, blocks[j].size + blocks[j + 1].size + HEADER, Link(blocks, j + 2));
      blocks := Collapse(blocks, j, j + 2);
    }

    /** First loop of `merge_free_blocks`: block `i` takes in the free blocks after it. */
    method MergeWithNext(block: uint32, ghost i: nat) returns (ghost hi: nat)
      requires Valid() && i < |blocks| && blocks[i].free && block == blocks[i].addr
      modifies mem, `blocks
      ensures Valid() && i < hi <= |old(blocks)| && blocks == Collapse(old(blocks), i, hi)
      ensures forall k :: i <= k < hi ==> old(blocks)[k].free
      ensures hi < |old(blocks)| ==> !old(blocks)[hi].free
      ensures OnlyLinksChanged(old(mem[..]), mem[..], old(blocks))
    {
      hide Word, WordsOf, Represents, OnlyHeaders, OnlyMergeTouches, OnlyLinksChanged, Collapse, Tiles;
      ghost var bs, m0 := blocks, mem[..];
      NothingChanged(m0, bs);
      hi := i + 1;
      CollapseOne(bs, i);
      RepresentsTiles(WordsOf(mem[..]), bs);
      HeaderFields(mem[..], blocks, i);
      var next := Word(mem[..], block + NEXT);
      while next != 0 && Word(mem[..], next + IS_FREE) != 0
        invariant Valid() && OnlyLinksChanged(m0, mem[..], bs)
        invariant i < hi <= |bs| && blocks == Collapse(bs, i, hi)
        invariant forall k :: i <= k < hi ==> bs[k].free
        invariant block == blocks[i].addr == bs[i].addr
        invariant next == Link(blocks, i + 1) && IsLink(next)
        decreases |bs| - hi
      {
        CollapseNext(bs, i, hi);
        HeaderFields(mem[..], blocks, i + 1);
        ghost var m, cs := mem[..], blocks;
        MergePair(block, next, i);
        MergeStepKeeps(m0, m, mem[..], bs, cs, i, i, hi + 1);
        hi := hi + 1;
        HeaderFields(mem[..], blocks, i);
        next := Word(mem[..], block + NEXT);
      }
      if hi < |bs| {
        HeaderFields(mem[..], blocks, i + 1);
        CollapseNext(bs, i, hi);
      }
    }

    /** Second loop of `merge_free_blocks`: the free blocks before the run take it in. */
    method MergeWithPrevious(start: uint32, ghost m0: seq<byte>, ghost bs: seq<Block>, ghost i: nat, ghost hi: nat)
      returns (ghost lo: nat)
      requires Valid() && Tiles(bs) && i < hi <= |bs| && blocks == Collapse(bs, i, hi) && start == bs[i].addr
      requires |m0| == HEAP_SIZE && OnlyLinksChanged(m0, mem[..], bs) && bs[i].free
      modifies mem, `blocks
      ensures Valid() && lo <= i && blocks == Collapse(bs, lo, hi)
      ensures forall k :: lo <= k <= i ==> bs[k].free
      ensures lo > 0 ==> !bs[lo - 1].free
      ensures OnlyLinksChanged(m0, mem[..], bs)
    {
      hide Word, WordsOf, Represents, OnlyHeaders, OnlyMergeTouches, OnlyLinksChanged, Collapse, Tiles;
      var block := start;
      lo := i;
      HeaderFields(mem[..], blocks, i);
      var prev := Word(mem[..], block + PREV);
      while prev != 0 && Word(mem[..], prev + IS_FREE) != 0
        invariant Valid() && OnlyLinksChanged(m0, mem[..], bs)
        invariant lo <= i && blocks == Collapse(bs, lo, hi)
        invariant forall k :: lo <= k <= i ==> bs[k].free
        invariant block == blocks[lo].addr == bs[lo].addr
        invariant prev == Link(blocks, lo - 1) && IsLink(prev)
        decreases lo
      {
        CollapsePrevious(bs, lo, hi);
        HeaderFields(mem[..], blocks, lo - 1);
        ghost var m, cs := mem[..], blocks;
        MergePair(prev, block, lo - 1);
        MergeStepKeeps(m0, m, mem[..], bs, cs, lo - 1, lo - 1, hi);
        lo := lo - 1;
        block := prev;
        HeaderFields(mem[..], blocks, lo);
        prev := Word(mem[..], block + PREV);
      }
      if lo > 0 {
        HeaderFields(mem[..], blocks, lo - 1);
        CollapsePrevious(bs, lo, hi);
      }
    }

    /** `merge_free_blocks` on block number `i`: the whole run of free blocks around it
        becomes one block. */
    method MergeFreeBlocks(block: uint32, ghost i: nat)
      requires Valid() && i < |blocks| && blocks[i].free && block == blocks[i].addr
      modifies mem, `blocks
      ensures Valid()
      ensures blocks == Collapse(old(blocks), RunStart(old(blocks), i), RunEnd(old(blocks), i))
      ensures OnlyLinksChanged(old(mem[..]), mem[..], old(blocks))
    {
      hide WordsOf, Represents, OnlyLinksChanged, Collapse, Tiles;
      ghost var m, bs := mem[..], blocks;
      RepresentsTiles(WordsOf(m), bs);
      ghost var hi := MergeWithNext(block, i);
      ghost var lo := MergeWithPrevious(block, m, bs, i, hi);
      RunUnique(bs, i, lo, hi);
    }

    // ----- allocation

    /** The first free block of at least `size` bytes, NULL if there is none. */
    method FindFreeBlock(size: uint32) returns (current: uint32, ghost i: nat)
      requires Valid()
      ensures current == Link(blocks, FirstFit(blocks, size)) && i == FirstFit(blocks, size)
      ensures current != 0 <==> FirstFit(blocks, size) < |blocks|
    {
      hide WordsOf, Represents, Word;
      i := 0;
      current := head;
      RepresentsTiles(WordsOf(mem[..]), blocks);
      while current != 0
        invariant i <= |blocks| && current == Link(blocks, i)
        invariant forall k :: 0 <= k < i ==> !Fits(blocks[k], size)
        invariant current == 0 ==> i == |blocks|
        decreases |blocks| - i
      {
        HeaderFields(mem[..], blocks, i);
        if Word(mem[..], current + IS_FREE) != 0 && Word(mem[..], current + SIZE) >= size {
          FirstFitIs(blocks, size, i);
          return;
        }
        current := Word(mem[..], current + NEXT);
        i := i + 1;
        if i < |blocks| {
          BlockInHeap(blocks, i);
        }
      }
    }

    /** Writing the flag of block number `i`. */
    method SetFlag(block: uint32, isFree: bool, ghost i: nat)
      requires Valid() && i < |blocks| && block == blocks[i].addr
      modifies mem, `blocks
      ensures Valid() && blocks == SetFree(old(blocks), i, isFree)
      ensures SameBytesOutside(old(mem[..]), mem[..], block + IS_FREE, 4)
      ensures IsWordAddress(block + IS_FREE) && Word(mem[..], block + IS_FREE) == (if isFree then 1 else 0)
    {
      hide WordsOf, Represents, Word, StoreWord, SameBytesOutside;
      HeaderFields(mem[..], blocks, i);
      FlagStoreSets(mem[..], blocks, i, isFree);
      Store(block + IS_FREE, if isFree then 1 else 0);
      blocks := SetFree(blocks, i, isFree);
    }

    /** `kmalloc`. Nothing in any block but the one taken changes. */
    method Kmalloc(size: uint32) returns (p: uint32)
      requires Valid()
      modifies mem, `blocks, `usedMemory, `freeMemory, `numAllocations
      ensures Valid() && (State(), p) == HeapSpec.Kmalloc(old(State()), size)
      ensures BytesKept(old(mem[..]), mem[..], Live(old(blocks)))
      ensures p == 0 ==> mem[..] == old(mem[..])
    {
      hide WordsOf, Represents, Word, SameBytesOutside, PayloadsKept, BytesKept, Live, Split, And, FirstFit;
      NoPayloadChanged(mem[..], blocks);
      if size == 0 {
        return 0;
      }
      var n := And(Wrap(size + 7), Not(7));
      ghost var m, bs := mem[..], blocks;
      RepresentsTiles(WordsOf(m), bs);
      ghost var i: nat;
      var block;
      block, i := FindFreeBlock(n);
      if block == 0 {
        return 0;
      }
      SplitBlock(block, n, i);
      ghost var m1 := mem[..];
      SetFlag(block, false, i);
      HeaderWriteKeeps(m, m1, mem[..], bs, i, i);
      PayloadsAreBytes(m, mem[..], bs, i);
      HeaderFields(mem[..], blocks, i);
      var taken := Word(mem[..], block + SIZE);
      usedMemory := Wrap(usedMemory + taken);
      freeMemory := Wrap(freeMemory - taken);
      numAllocations := Wrap(numAllocations + 1);
      return block + HEADER;
    }

    /** What `kfree` can be given: NULL, a live pointer, or a pointer whose header still
        carries the "free" flag, such as one freed before. */
    ghost predicate CanFree(p: uint32)
      requires mem.Length == HEAP_SIZE
      reads this, mem
    {
      p == 0 || (HEAP_START + HEADER <= p <= HEAP_END
                 && (IsLive(blocks, p) || Word(mem[..], p - HEADER + IS_FREE) != 0))
    }

    /** The part of `kfree` that releases block number `i`. */
    method Release(block: uint32, ghost i: nat)
      requires Valid() && i < |blocks| && !blocks[i].free && block == blocks[i].addr
      modifies mem, `blocks, `usedMemory, `freeMemory, `numFrees
      ensures Valid() && blocks == HeapSpec.FreeBlocks(old(blocks), i)
      ensures usedMemory == Wrap(old(usedMemory) - old(blocks)[i].size)
      ensures freeMemory == Wrap(old(freeMemory) + old(blocks)[i].size)
      ensures numFrees == Wrap(old(numFrees) + 1)
      ensures BytesKept(old(mem[..]), mem[..], Live(old(blocks)))
      ensures HEAP_START <= block && block + HEADER <= HEAP_END && Word(mem[..], block + IS_FREE) != 0
    {
      hide WordsOf, Represents, Word, SameBytesOutside, OnlyLinksChanged, PayloadsKept, BytesKept, Live, Collapse,
           RunStart, RunEnd;
      ghost var m, bs := mem[..], blocks;
      RepresentsTiles(WordsOf(m), bs);
      SetFlag(block, true, i);
      ghost var m1 := mem[..];
      HeaderFields(mem[..], blocks, i);
      var size := Word(mem[..], block + SIZE);
      usedMemory := Wrap(usedMemory - size);
      freeMemory := Wrap(freeMemory + size);
      numFrees := Wrap(numFrees + 1);
      MergeFreeBlocks(block, i);
      RunIgnoresSelf(bs, i, true);
      FreeKeeps(m, m1, mem[..], bs, i);
      PayloadsAreBytes(m, mem[..], bs, -1);
    }

    /** `kfree`. No payload byte changes, and freeing the same pointer again is allowed. */
    method Kfree(p: uint32)
      requires Valid() && CanFree(p)
      modifies mem, `blocks, `usedMemory, `freeMemory, `numFrees
      ensures Valid() && State() == HeapSpec.Kfree(old(State()), p)
      ensures BytesKept(old(mem[..]), mem[..], Live(old(blocks)))
      ensures !IsLive(old(blocks), p) ==> mem[..] == old(mem[..])
      ensures CanFree(p)
    {
      hide WordsOf, Represents, Word, PayloadsKept, BytesKept, Live, HeapSpec.FreeBlocks;
      NoPayloadChanged(mem[..], blocks);
      if p == 0 {
        return;
      }
      var block := p - HEADER;
      if IsLive(blocks, p) {
        LivePointer(mem[..], blocks, p);
      }
      if Word(mem[..], block + IS_FREE) != 0 {
        return;
      }
      Release(block, BlockAt(blocks, p));
    }

    // ----- byte loops

    /** `memset` inside the heap. */
    method Memset(dest: int, value: byte, count: nat)
      requires mem.Length == HEAP_SIZE && HEAP_START <= dest && dest + count <= HEAP_END
      modifies mem
      ensures SameBytesOutside(old(mem[..]), mem[..], dest, count)
      ensures forall x :: dest <= x < dest + count && IsAddress(x) ==> At(mem[..], x) == value
    {
      var d, end := dest - HEAP_START, dest - HEAP_START + count;
      while d < end
        invariant dest - HEAP_START <= d <= end
        invariant forall j :: 0 <= j < HEAP_SIZE && !(dest - HEAP_START <= j < d) ==> mem[j] == old(mem[j])
        invariant forall j :: dest - HEAP_START <= j < d ==> mem[j] == value
      {
        mem[d] := value;
        d := d + 1;
      }
    }

    /** `memcpy` inside the heap, byte by byte upwards: where the target begins inside the
        source, what is read there has been written before. */
    method Memcpy(dest: int, src: int, count: nat)
      requires mem.Length == HEAP_SIZE && HEAP_START <= dest && dest + count <= HEAP_END
      requires HEAP_START <= src && src + count <= HEAP_END
      modifies mem
      ensures SameBytesOutside(old(mem[..]), mem[..], dest, count)
      ensures forall x :: dest <= x < dest + count && IsAddress(x) ==>
                At(mem[..], x) == At(if src < dest <= x - dest + src then mem[..] else old(mem[..]), x - dest + src)
      ensures dest <= src || src + count <= dest ==> Copied(old(mem[..]), src, mem[..], dest, count)
    {
      var d, s, end := dest - HEAP_START, src - HEAP_START, dest - HEAP_START + count;
      while d < end
        invariant dest - HEAP_START <= d <= end && s - d == src - dest
        invariant forall j :: 0 <= j < HEAP_SIZE && !(dest - HEAP_START <= j < d) ==> mem[j] == old(mem[j])
        invariant forall j :: dest - HEAP_START <= j < d ==>
          mem[j] == if src < dest <= j + src - dest + HEAP_START then mem[j + src - dest] else old(mem[j + src - dest])
      {
        mem[d] := mem[s];
        d, s := d + 1, s + 1;
      }
    }

    /** The block just handed out by `kmalloc`. */
    lemma AllocatedBlock(s: HeapSpec.State, n: uint32) returns (k: nat)
      requires Tiles(s.blocks) && HeapSpec.Kmalloc(s, n).1 != 0
      ensures var bs := HeapSpec.Kmalloc(s, n).0.blocks;
        && k < |bs| && bs[k] == HeapLaws.Taken(s, n) && bs[k].Payload() == HeapSpec.Kmalloc(s, n).1
        && !bs[k].free && bs[k] !in Live(s.blocks)
        && HEAP_START <= bs[k].addr && bs[k].End() <= HEAP_END
        && Live(bs) == Live(s.blocks) + {bs[k]}
        && (n <= HeapSpec.MAX_REQUEST ==> n <= bs[k].size)
    {
      hide Live, Tiles, And, HeapSpec.Kmalloc, HeapLaws.Taken;
      var bs := HeapSpec.Kmalloc(s, n).0.blocks;
      HeapLaws.KmallocTakes(s, n);
      HeapLaws.RoundUpIsNextMultiple(n);
      k := TakenIndex(bs, HeapLaws.Taken(s, n));
      BlockInHeap(bs, k);
    }

    lemma TakenIndex(bs: seq<Block>, b: Block) returns (k: nat)
      requires b in Live(bs)
      ensures k < |bs| && bs[k] == b
    {
      k :| k < |bs| && bs[k] == b;
    }

    lemma ClearedRoom(s: HeapSpec.State, total: uint32)
      requires Tiles(s.blocks)
      ensures HeapRoom.NoneFree(s.blocks) ==> HeapSpec.Kmalloc(s, total).1 == 0
    {
      if HeapRoom.NoneFree(s.blocks) {
        HeapRoom.NoneFreeFails(s, total);
      }
    }

    /** `kcalloc`, wherever it clears no more than it was given: by
        `HeapRoom.ClearFitsIff` that is what `ClearFits` says. */
    method Kcalloc(count: uint32, size: uint32) returns (p: uint32)
      requires Valid() && count > 0 && HeapRoom.ClearFits(blocks, count, size)
      modifies mem, `blocks, `usedMemory, `freeMemory, `numAllocations
      ensures Valid() && (State(), p) == HeapSpec.Kcalloc(old(State()), count, size)
      ensures BytesKept(old(mem[..]), mem[..], Live(old(blocks)))
      ensures p != 0 ==> IsLive(blocks, p) && p + count * size <= HEAP_END
      ensures p != 0 ==> forall x :: p <= x < p + count * size && IsAddress(x) ==> At(mem[..], x) == 0
    {
      hide WordsOf, Represents, BytesKept, PayloadsKept, Live, SameBytesOutside, HeapSpec.Kmalloc, HeapLaws.Taken;
      var total := Wrap(count * size);
      ghost var m, s := mem[..], State();
      NoPayloadChanged(m, blocks);
      if total / count != size {
        return 0;
      }
      assert total == count * size by { HeapLaws.OverflowCheck(count, size); }
      RepresentsTiles(WordsOf(m), s.blocks);
      ClearedRoom(s, total);
      p := Kmalloc(total);
      if p != 0 {
        ghost var k := AllocatedBlock(s, total);
        ghost var m1 := mem[..];
        Memset(p, 0, total);
        PayloadWriteKeeps(m1, mem[..], blocks, k, p, total);
        PayloadsAreBytes(m1, mem[..], blocks, k);
        BytesKeptTwice(m, m1, mem[..], Live(s.blocks), Live(blocks) - {blocks[k]});
        RepresentsTiles(WordsOf(m1), blocks);
        HeapLaws.LiveMember(blocks, blocks[k]);
      }
    }

    /** `kmalloc_aligned`, wherever the slot it writes lies in the raw block. The result is
        the least multiple of the alignment that leaves room for that slot; the requested
        range lies in the raw block exactly when the padded total does not wrap. */
    method KmallocAligned(size: uint32, alignment: uint32) returns (p: uint32, ghost raw: uint32)
      requires Valid()
      requires IsPowerOfTwo(alignment) ==> alignment > 0 && HeapRoom.SlotFits(blocks, size, alignment)
      modifies mem, `blocks, `usedMemory, `freeMemory, `numAllocations
      ensures Valid() && (State(), p) == HeapSpec.KmallocAligned(old(State()), size, alignment)
      ensures BytesKept(old(mem[..]), mem[..], Live(old(blocks)))
      ensures !IsPowerOfTwo(alignment) ==> p == 0
      ensures p != 0 ==>
        && IsLive(blocks, raw) && alignment > 0 && p % alignment == 0
        && raw + HeapSpec.PTR_SIZE <= p < raw + HeapSpec.PTR_SIZE + alignment
        && (size + alignment + HeapSpec.PTR_SIZE <= HeapSpec.MAX_REQUEST <==>
            p + size <= blocks[BlockAt(blocks, raw)].End())
        && IsWordAddress(p - HeapSpec.PTR_SIZE) && Word(mem[..], p - HeapSpec.PTR_SIZE) == raw
    {
      hide WordsOf, Represents, BytesKept, PayloadsKept, Live, SameBytesOutside, StoreWord, And, IsPowerOfTwo,
           HeapSpec.Kmalloc, HeapLaws.Taken, HeapRoom.SlotFits;
      raw := 0;
      ghost var m, s := mem[..], State();
      NoPayloadChanged(m, blocks);
      RepresentsTiles(WordsOf(m), s.blocks);
      HeapLaws.AlignmentTest(alignment);
      if alignment == 0 || And(alignment, alignment - 1) != 0 {
        return 0, 0;
      }
      var total := Wrap(size + alignment + HeapSpec.PTR_SIZE);
      var rawPtr := Kmalloc(total);
      if rawPtr == 0 {
        return 0, 0;
      }
      raw := rawPtr;
      ghost var k := AllocatedBlock(s, total);
      HeapRoom.PowerOfTwoBound(alignment);
      HeapLaws.AlignedAddress(rawPtr, alignment);
      p := And(Wrap(rawPtr + HeapSpec.PTR_SIZE + alignment - 1), Not(alignment - 1));
      HeapRoom.AlignedRoomIff(s, size, alignment);
      HeapRoom.SlotFitsIff(s, size, alignment);
      ghost var m1 := mem[..];
      StoreWordStores(m1, p - HeapSpec.PTR_SIZE, rawPtr);
      StoredIsRead(m1, p - HeapSpec.PTR_SIZE, rawPtr);
      Store(p - HeapSpec.PTR_SIZE, rawPtr);
      PayloadWriteKeeps(m1, mem[..], blocks, k, p - HeapSpec.PTR_SIZE, 4);
      PayloadsAreBytes(m1, mem[..], blocks, k);
      BytesKeptTwice(m, m1, mem[..], Live(s.blocks), Live(blocks) - {blocks[k]});
      RepresentsTiles(WordsOf(m1), blocks);
      HeapLaws.LiveMember(blocks, blocks[k]);
    }

    /** The moving half of `krealloc`: allocate, copy the old block, free it. */
    method Move(p: uint32, size: uint32) returns (r: uint32)
      requires Valid() && IsLive(blocks, p) && blocks[BlockAt(blocks, p)].size < size
      requires HeapRoom.MoveFits(blocks, blocks[BlockAt(blocks, p)].size, size)
      modifies mem, `blocks, `usedMemory, `freeMemory, `numAllocations, `numFrees
      ensures Valid() && r == HeapSpec.Kmalloc(old(State()), size).1
      ensures r == 0 ==> State() == HeapSpec.Kmalloc(old(State()), size).0 && mem[..] == old(mem[..])
      ensures r != 0 ==>
        var b := old(blocks)[BlockAt(old(blocks), p)];
        && State() == HeapSpec.Kfree(HeapSpec.Kmalloc(old(State()), size).0, p)
        && BytesKept(old(mem[..]), mem[..], Live(old(blocks)) - {b})
        && HEAP_START <= p && p + b.size <= HEAP_END && HEAP_START <= r && r + b.size <= HEAP_END
        && (size <= HeapSpec.MAX_REQUEST ==> r + size <= HEAP_END)
        && Copied(old(mem[..]), p, mem[..], r, b.size)
    {
      hide WordsOf, Represents, BytesKept, PayloadsKept, Live, SameBytesOutside, Copied, Word, BlockAt, Tiles,
           HeapSpec.Kmalloc, HeapSpec.Kfree, HeapLaws.Taken;
      ghost var m, s, i := mem[..], State(), BlockAt(blocks, p);
      ghost var b := blocks[i];
      RepresentsTiles(WordsOf(m), blocks);
      BlockInHeap(blocks, i);
      HeapLaws.LiveIndex(blocks, i);
      r := Kmalloc(size);
      HeapLaws.KmallocTakes(s, size);
      if r != 0 {
        ghost var m1, bs := mem[..], blocks;
        ghost var k := AllocatedBlock(s, size);
        HeapRoom.MoveRoomIff(s, b.size, size);
        HeapLaws.KmallocKeepsLive(s, size, p);
        ghost var j := BlockAt(bs, p);
        Apart(bs, k, j);
        LivePointer(m1, bs, p);
        var oldSize := Word(mem[..], p - HEADER + SIZE);
        Memcpy(r, p, if oldSize < size then oldSize else size);
        ghost var m2 := mem[..];
        PayloadWriteKeeps(m1, m2, bs, k, r, b.size);
        PayloadsAreBytes(m1, m2, bs, k);
        LivePointer(m2, bs, p);
        Kfree(p);
        MoveKeeps(m, m1, m2, mem[..], s.blocks, bs, b, bs[k]);
      }
    }

    /** `krealloc`, wherever a move copies no further than the new block. The kept prefix is
        copied when the block moves and stays where it is otherwise; a failed move changes
        nothing. */
    method Krealloc(p: uint32, size: uint32) returns (r: uint32)
      requires Valid()
      requires p == 0 || (IsLive(blocks, p) && HeapRoom.MoveFits(blocks, blocks[BlockAt(blocks, p)].size, size))
      modifies mem, `blocks, `usedMemory, `freeMemory, `numAllocations, `numFrees
      ensures Valid() && (State(), r) == HeapSpec.Krealloc(old(State()), p, size)
      ensures p == 0 ==> BytesKept(old(mem[..]), mem[..], Live(old(blocks)))
      ensures p != 0 ==>
        var b := old(blocks)[BlockAt(old(blocks), p)];
        && BytesKept(old(mem[..]), mem[..], Live(old(blocks)) - {b})
        && (r == 0 && size != 0 ==> mem[..] == old(mem[..]))
        && (r != 0 ==>
              && HEAP_START <= p && p + Min(b.size, size) <= HEAP_END
              && HEAP_START <= r && r + Min(b.size, size) <= HEAP_END
              && (size <= HeapSpec.MAX_REQUEST ==> r + size <= HEAP_END)
              && Copied(old(mem[..]), p, mem[..], r, Min(b.size, size)))
    {
      hide WordsOf, Represents, BytesKept, PayloadsKept, Live, SameBytesOutside, Copied, Word, BlockAt, Tiles,
           HeapSpec.Kmalloc, HeapSpec.Kfree, Split;
      if p == 0 {
        r := Kmalloc(size);
        return;
      }
      ghost var m, s, i := mem[..], State(), BlockAt(blocks, p);
      ghost var b := blocks[i];
      NoPayloadChanged(m, blocks);
      BytesKeptSubset(m, m, Live(s.blocks), Live(s.blocks) - {b});
      HeaderFields(m, blocks, i);
      if size == 0 {
        Kfree(p);
        BytesKeptSubset(m, mem[..], Live(s.blocks), Live(s.blocks) - {b});
        return 0;
      }
      var block := p - HEADER;
      if Word(mem[..], block + SIZE) >= size {
        SplitBlock(block, size, i);
        PayloadsAreBytes(m, mem[..], s.blocks, i);
        CopiedInPlace(m, mem[..], p, size);
        return p;
      }
      r := Move(p, size);
    }

    // ----- statistics and the integrity check

    /** The loop of `mm_get_stats` finds the size of the largest free block. */
    method MmGetStats() returns (largest: uint32)
      requires Valid()
      modifies `largestFreeBlock
      ensures Valid() && largest == largestFreeBlock == LargestFree(blocks)
    {
      hide WordsOf, Represents, Word, LargestFree;
      largestFreeBlock := 0;
      var current := head;
      ghost var i := 0;
      RepresentsTiles(WordsOf(mem[..]), blocks);
      LargestFreeSteps(blocks, 0);
      while current != 0
        invariant Valid() && 0 <= i <= |blocks| && current == Link(blocks, i)
        invariant current == 0 ==> i == |blocks|
        invariant largestFreeBlock == LargestFree(blocks[..i])
        decreases |blocks| - i
      {
        HeaderFields(mem[..], blocks, i);
        if Word(mem[..], current + IS_FREE) != 0 && Word(mem[..], current + SIZE) > largestFreeBlock {
          largestFreeBlock := Word(mem[..], current + SIZE);
        }
        current := Word(mem[..], current + NEXT);
        LargestFreeSteps(blocks, i);
        i := i + 1;
        if i < |blocks| {
          BlockInHeap(blocks, i);
        }
      }
      assert blocks[..i] == blocks;
      largest := largestFreeBlock;
    }

    /** `mm_check_heap_integrity`, on any memory whose headers can be followed from the head
        to a NULL: it returns 1 exactly if every link back matches and the sizes, added up
        in 32 bits, are no more than the heap. On a valid heap it always does. */
    method MmCheckHeapIntegrity(ghost chain: seq<int>) returns (ok: bool, total: uint32)
      requires mem.Length == HEAP_SIZE && Chained(mem[..], head, chain)
      ensures ok <==> LinkedBack(mem[..], chain) && ChainTotal(mem[..], chain) <= HEAP_SIZE
      ensures ok ==> total == ChainTotal(mem[..], chain)
      ensures Valid() && chain == Addresses(blocks) ==> ok && total == HEAP_SIZE
    {
      hide WordsOf, Represents, Word, ChainTotal, LinkedBack, Addresses;
      ok, total := CheckChain(chain);
      if Valid() && chain == Addresses(blocks) {
        ValidPasses(mem[..], blocks);
      }
    }

    /** Its loop. */
    method CheckChain(ghost chain: seq<int>) returns (ok: bool, total: uint32)
      requires mem.Length == HEAP_SIZE && Chained(mem[..], head, chain)
      ensures ok <==> LinkedBack(mem[..], chain) && ChainTotal(mem[..], chain) <= HEAP_SIZE
      ensures ok ==> total == ChainTotal(mem[..], chain)
    {
      hide Word, ChainTotal, LinkedBack, BackUpTo, Chained;
      ghost var m := mem[..];
      var current := head;
      total := 0;
      ghost var i := 0;
      ChainBegins(m, head, chain);
      assert chain[..0] == [];
      while current != 0
        invariant 0 <= i <= |chain| && current == Element(chain, i)
        invariant total == ChainTotal(m, chain[..i]) && BackUpTo(m, chain, Min(i, |chain| - 1))
        decreases |chain| - i
      {
        ChainStep(m, head, chain, i);
        BackStep(m, chain, i);
        if current < HEAP_START || current >= HEAP_START + HEAP_SIZE {
          return false, total;
        }
        total := Wrap(total + Word(mem[..], current + SIZE) + HEADER);
        var next := Word(mem[..], current + NEXT);
        if next != 0 && Word(mem[..], next + PREV) != current {
          return false, total;
        }
        current := next;
        i := i + 1;
      }
      ChainEnds(m, head, chain, i);
      ok := total <= HEAP_SIZE;
    }

    // ----- any one call, and any run of calls

    /** A caller's own write to byte `at` of what it was given. */
    method WriteByte(p: uint32, at: nat, value: byte)
      requires Valid() && IsLive(blocks, p) && at < blocks[BlockAt(blocks, p)].size
      modifies mem
      ensures Valid() && HEAP_START <= p && p + at < HEAP_END
      ensures mem[..] == old(mem[..])[p + at - HEAP_START := value]
      ensures BytesKept(old(mem[..]), mem[..], Live(blocks) - {blocks[BlockAt(blocks, p)]})
    {
      hide WordsOf, Represents, BytesKept, PayloadsKept, Live;
      ghost var m, k := mem[..], BlockAt(blocks, p);
      RepresentsTiles(WordsOf(m), blocks);
      BlockInHeap(blocks, k);
      mem[p + at - HEAP_START] := value;
      PayloadWriteKeeps(m, mem[..], blocks, k, p + at, 1);
      PayloadsAreBytes(m, mem[..], blocks, k);
    }

    /** The block that the call is about, if it writes to it. */
    ghost predicate About(s: HeapSpec.State, c: HeapRuns.Call) {
      (c.Realloc? || c.Write?) && IsLive(s.blocks, c.p)
    }

    ghost function Others(s: HeapSpec.State, c: HeapRuns.Call): set<Block> {
      if About(s, c) then Live(s.blocks) - {s.blocks[BlockAt(s.blocks, c.p)]} else Live(s.blocks)
    }

    /** Each legal call takes a valid heap to a valid heap whose blocks and counters are
        those of the specification, so runs of calls are runs of `HeapRuns.After`. */
    method Perform(c: HeapRuns.Call)
      requires Valid() && Tiles(blocks) && HeapRuns.Legal(State(), c) && (c.Free? ==> CanFree(c.p))
      modifies mem, `blocks, `usedMemory, `freeMemory, `numAllocations, `numFrees
      ensures Valid() && State() == HeapRuns.After(old(State()), c)
      ensures BytesKept(old(mem[..]), mem[..], Others(old(State()), c))
      ensures c.Write? ==> HEAP_START <= c.p && c.p + c.at < HEAP_END
                           && mem[..] == old(mem[..])[c.p + c.at - HEAP_START := c.value]
    {
      hide WordsOf, Represents, BytesKept, Live, Word, BlockAt, Tiles, HeapSpec.Kmalloc, HeapSpec.Kfree, And,
           IsPowerOfTwo, Copied, HeapRoom.SlotFits, HeapRoom.MoveFits, HeapRoom.ClearFits;
      RepresentsTiles(WordsOf(mem[..]), blocks);
      HeapRuns.NullNotLive(blocks);
      match c {
        case Malloc(size) => var _ := Kmalloc(size);
        case Calloc(count, size) => var _ := Kcalloc(count, size);
        case Aligned(size, alignment) => var _, _ := KmallocAligned(size, alignment);
        case Free(p) => Kfree(p);
        case Realloc(p, size) => var _ := Krealloc(p, size);
        case Write(p, at, value) => WriteByte(p, at, value);
      }
    }

    /** Any run of calls and writes, frees being of live pointers or NULL: the heap ends as
        `HeapRuns.Run` says, every block that no call frees or reallocates is still in use,
        and its bytes are what its own writes have made of them. */
    method PerformAll(calls: seq<HeapRuns.Call>)
      requires Valid() && HeapRuns.LegalRun(State(), calls) && HeapRuns.FreesLive(State(), calls)
      modifies mem, `blocks, `usedMemory, `freeMemory, `numAllocations, `numFrees
      ensures Valid() && State() == HeapRuns.Run(old(State()), calls)
      ensures HeapRuns.Untouched(old(State()), calls) <= Live(blocks)
      ensures forall b :: b in HeapRuns.Untouched(old(State()), calls) ==>
                PayloadOf(mem[..], b) == HeapRuns.RewrittenAll(calls, b, PayloadOf(old(mem[..]), b))
    {
      hide WordsOf, Represents, BytesKept, Live, Word, BlockAt, Tiles, HeapRuns.Legal, HeapRuns.After, HeapRuns.Spares,
           Others, PayloadOf, HeapRuns.Rewritten;
      ghost var m0, s0, kept := mem[..], State(), HeapRuns.Untouched(State(), calls);
      for i := 0 to |calls|
        invariant Valid() && HeapRuns.LegalRun(State(), calls[i..]) && HeapRuns.FreesLive(State(), calls[i..])
        invariant HeapRuns.Run(State(), calls[i..]) == HeapRuns.Run(s0, calls)
        invariant kept <= HeapRuns.Untouched(State(), calls[i..])
        invariant forall b :: b in kept ==>
          HeapRuns.RewrittenAll(calls[i..], b, PayloadOf(mem[..], b))
          == HeapRuns.RewrittenAll(calls, b, PayloadOf(m0, b))
      {
        ghost var s, m, rest := State(), mem[..], calls[i..];
        assert rest[0] == calls[i] && rest[1..] == calls[i + 1..];
        HeapRuns.RunBegins(s, rest);
        HeapRuns.UntouchedStep(s, rest);
        LiveCanBeFreed(calls[i]);
        Perform(calls[i]);
        forall b | b in kept
          ensures HeapRuns.RewrittenAll(calls[i + 1..], b, PayloadOf(mem[..], b))
               == HeapRuns.RewrittenAll(calls, b, PayloadOf(m0, b))
        {
          StepRewrites(s, rest, m, mem[..], b);
        }
      }
      HeapRuns.UntouchedLive(State(), calls[|calls|..]);
    }

    /** So the blocks that are not written to either keep every byte. */
    lemma UnwrittenKept(m: seq<byte>, m': seq<byte>, calls: seq<HeapRuns.Call>, kept: set<Block>)
      requires |m| == |m'| == HEAP_SIZE
      requires forall b :: b in kept ==> PayloadOf(m', b) == HeapRuns.RewrittenAll(calls, b, PayloadOf(m, b))
      requires forall b, k :: b in kept && 0 <= k < |calls| ==> !(calls[k].Write? && calls[k].p == b.Payload())
      ensures BytesKept(m, m', kept)
    {
      hide PayloadOf, BytesKept;
      forall b | b in kept ensures PayloadOf(m', b) == PayloadOf(m, b) {
        HeapRuns.NotRewritten(calls, b, PayloadOf(m, b));
      }
      SamePayloads(m, m', kept);
    }

    /** What one step of a run makes of the payload of a block that the run spares. */
    lemma StepRewrites(s: HeapSpec.State, calls: seq<HeapRuns.Call>, m: seq<byte>, m': seq<byte>, b: Block)
      requires |m| == |m'| == HEAP_SIZE && |calls| > 0 && Tiles(s.blocks) && HeapRuns.Legal(s, calls[0])
      requires b in HeapRuns.Untouched(s, calls) && BytesKept(m, m', Others(s, calls[0]))
      requires var c := calls[0];
        c.Write? ==> HEAP_START <= c.p && c.p + c.at < HEAP_END && m' == m[c.p + c.at - HEAP_START := c.value]
      ensures PayloadOf(m', b) == HeapRuns.Rewritten(calls[0], b, PayloadOf(m, b))
    {
      hide BytesKept, Live, Tiles, BlockAt, HeapRuns.Legal;
      var c := calls[0];
      HeapRuns.UntouchedLive(s, calls);
      HeapLaws.LiveMember(s.blocks, b);
      assert HeapRuns.Spares(c, b);
      if c.Write? && c.p == b.Payload() {
        OwnWrite(m, m', c, b);
      } else {
        PayloadKept(m, m', Others(s, c), b);
      }
    }

    lemma OwnWrite(m: seq<byte>, m': seq<byte>, c: HeapRuns.Call, b: Block)
      requires |m| == |m'| == HEAP_SIZE && c.Write? && c.p == b.Payload()
      requires HEAP_START <= c.p && c.p + c.at < HEAP_END && m' == m[c.p + c.at - HEAP_START := c.value]
      ensures PayloadOf(m', b) == HeapRuns.Rewritten(c, b, PayloadOf(m, b))
    {
      forall i | 0 <= i < b.size
        ensures PayloadOf(m', b)[i] == HeapRuns.Rewritten(c, b, PayloadOf(m, b))[i]
      {}
    }

    lemma LiveCanBeFreed(c: HeapRuns.Call)
      requires Valid() && (c.Free? ==> c.p == 0 || IsLive(blocks, c.p))
      ensures c.Free? ==> CanFree(c.p)
    {
      hide WordsOf, Represents, Word;
      RepresentsTiles(WordsOf(mem[..]), blocks);
      if c.Free? && c.p != 0 {
        BlockInHeap(blocks, BlockAt(blocks, c.p));
      }
    }
  }
}
