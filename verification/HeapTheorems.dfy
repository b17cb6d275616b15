/** The allocator's promises to its callers. */
module HeapTheorems {
  import opened Machine
  import opened HeapBlocks
  import opened HeapSpec
  import opened HeapLaws
  import opened HeapRoom
  import opened HeapCanonical
  import opened HeapRuns

  // ----- when kmalloc succeeds, and with which block

  /** `kmalloc` succeeds exactly when some free block holds the rounded request, and then
      takes the fitting block with the lowest address. */
  lemma KmallocIsFirstFit(s: State, n: uint32)
    requires Tiles(s.blocks) && n > 0
    ensures Kmalloc(s, n).1 != 0 <==> exists b :: b in s.blocks && Fits(b, RoundUp8(n))
    ensures Kmalloc(s, n).1 != 0 ==>
      exists b :: b in s.blocks && Fits(b, RoundUp8(n)) && b.Payload() == Kmalloc(s, n).1
    ensures Kmalloc(s, n).1 != 0 ==>
      forall b :: b in s.blocks && Fits(b, RoundUp8(n)) ==> Kmalloc(s, n).1 <= b.Payload()
  {
    hide And, AllocBlocks;
    var i := FirstFit(s.blocks, RoundUp8(n));
    if i < |s.blocks| {
      assert s.blocks[i] in s.blocks;
      forall b | b in s.blocks && Fits(b, RoundUp8(n)) ensures s.blocks[i].addr <= b.addr {
        var k :| 0 <= k < |s.blocks| && s.blocks[k] == b;
        if i < k {
          BlocksApart(s.blocks, i, k);
        }
      }
    }
  }

  /** For every request that does not wrap, the largest free block decides. */
  lemma KmallocSucceedsIff(s: State, n: uint32)
    requires Tiles(s.blocks) && 0 < n <= MAX_REQUEST
    ensures Kmalloc(s, n).1 != 0 <==> RoundUp8(n) <= LargestFree(s.blocks)
  {
    KmallocIsFirstFit(s, n);
    RoundUpIsNextMultiple(n);
    hide And, Kmalloc, LargestFree;
    var largest := LargestFree(s.blocks);
    if RoundUp8(n) <= largest {
      LargestFreeExists(s.blocks);
    }
    LargestFreeBounds(s.blocks);
  }

  lemma LargestFreeExists(bs: seq<Block>)
    requires LargestFree(bs) > 0
    ensures exists b :: b in bs && b.free && b.size == LargestFree(bs)
  {
    var k :| 0 <= k < |bs| && bs[k].free && bs[k].size == LargestFree(bs);
    assert bs[k] in bs;
  }

  lemma LargestFreeBounds(bs: seq<Block>)
    ensures forall b :: b in bs && b.free ==> b.size <= LargestFree(bs)
  {}

  // ----- undoing and commuting

  /** `kfree` right after a successful `kmalloc` gives the byte counters back always, and
      the block list exactly when the block taken had no free neighbour. */
  lemma FreeUndoesKmalloc(s: State, n: uint32)
    requires Tiles(s.blocks) && Kmalloc(s, n).1 != 0
    ensures var s' := Kfree(Kmalloc(s, n).0, Kmalloc(s, n).1);
      var i := FirstFit(s.blocks, RoundUp8(n));
      && s'.used == s.used && s'.unused == s.unused
      && s'.allocs == Wrap(s.allocs + 1) && s'.frees == Wrap(s.frees + 1)
      && (s'.blocks == s.blocks <==>
            !(i > 0 && s.blocks[i - 1].free) && !(i + 1 < |s.blocks| && s.blocks[i + 1].free))
  {
    hide *;
    var i, r := FirstFit(s.blocks, RoundUp8(n)), RoundUp8(n);
    var b, bs := Taken(s, n), Kmalloc(s, n).0.blocks;
    KmallocTakes(s, n);
    KmallocPlaces(s, n);
    FreeUndoesAlloc(s.blocks, i, r);
    FreesToItself(bs, i, b);
    FreeAsList(Kmalloc(s, n).0, i, b, FreeBlocks(bs, i));
    WrapBack(s.used, b.size);
    WrapBack(s.unused, 0 - b.size);
  }

  lemma FreesToItself(bs: seq<Block>, i: nat, b: Block)
    requires i < |bs| && bs[i] == b
    ensures FreesTo(bs, i, b, FreeBlocks(bs, i))
  {}

  lemma WrapBack(x: uint32, d: int)
    ensures Wrap(Wrap(x + d) - d) == x
  {}

  /** So it restores the list on every canonical heap. */
  lemma CanonicalFreeUndoesKmalloc(s: State, n: uint32)
    requires Tiles(s.blocks) && Canonical(s.blocks) && Kmalloc(s, n).1 != 0
    ensures Kfree(Kmalloc(s, n).0, Kmalloc(s, n).1).blocks == s.blocks
  {
    hide *;
    FreeUndoesKmalloc(s, n);
    KmallocPlaces(s, n);
    NoFreeNeighbour(s.blocks, FirstFit(s.blocks, RoundUp8(n)));
  }

  lemma NoFreeNeighbour(bs: seq<Block>, i: nat)
    requires Canonical(bs) && i < |bs| && bs[i].free
    ensures !(i > 0 && bs[i - 1].free) && !(i + 1 < |bs| && bs[i + 1].free)
  {
    assert i > 0 ==> bs[i - 1].free || !bs[i - 1].free;
  }

  lemma FreeAsList(s: State, i: nat, b: Block, cs: seq<Block>)
    requires Tiles(s.blocks) && FreesTo(s.blocks, i, b, cs) && !b.free
    ensures IsLive(s.blocks, b.Payload()) && Tiles(cs)
    ensures Kfree(s, b.Payload()) ==
            State(cs, Wrap(s.used - b.size), Wrap(s.unused + b.size), s.allocs, Wrap(s.frees + 1))
  {
    BlockAtIs(s.blocks, i);
    FreeTiles(s.blocks, i);
  }

  lemma WrapTwice(x: int, a: int, b: int)
    ensures Wrap(Wrap(x + a) + b) == Wrap(Wrap(x + b) + a)
    ensures Wrap(Wrap(x - a) - b) == Wrap(Wrap(x - b) - a)
  {
    hide Wrap;
    WrapNested(x, a, b);
    WrapNested(x, b, a);
    WrapNested(x, 0 - a, 0 - b);
    WrapNested(x, 0 - b, 0 - a);
  }

  lemma WrapNested(x: int, a: int, b: int)
    ensures Wrap(Wrap(x + a) + b) == Wrap(x + a + b)
  {}

  /** Freeing two live pointers gives the same state in either order, on every heap. */
  lemma FreesCommute(s: State, p: int, q: int)
    requires Tiles(s.blocks) && IsLive(s.blocks, p) && IsLive(s.blocks, q)
    ensures Kfree(Kfree(s, p), q) == Kfree(Kfree(s, q), p)
  {
    hide Kfree, Tiles, BlockAt;
    var i, j := BlockAt(s.blocks, p), BlockAt(s.blocks, q);
    if i < j {
      FreesCommuteInOrder(s, i, j);
    } else if j < i {
      FreesCommuteInOrder(s, j, i);
    }
  }

  lemma FreesCommuteInOrder(s: State, i: nat, j: nat)
    requires Tiles(s.blocks) && i < j < |s.blocks| && !s.blocks[i].free && !s.blocks[j].free
    ensures var p, q := s.blocks[i].Payload(), s.blocks[j].Payload();
      Kfree(Kfree(s, p), q) == Kfree(Kfree(s, q), p)
  {
    hide *;
    var b, c := s.blocks[i], s.blocks[j];
    var cs, ds, k, k', fs := FreeListsCommute(s.blocks, i, j);
    FreeAsList(s, i, b, cs);
    FreeAsList(s, j, c, ds);
    var s1, s2 := Kfree(s, b.Payload()), Kfree(s, c.Payload());
    FreeAsList(s1, k, c, fs);
    FreeAsList(s2, k', b, fs);
    WrapTwice(s.used, b.size, c.size);
    WrapTwice(s.unused, b.size, c.size);
  }

  // ----- runs that never shrink a block in place

  ghost predicate EightAligned(bs: seq<Block>) {
    forall i {:trigger bs[i].addr} :: 0 <= i < |bs| ==> bs[i].addr % 8 == 0
  }

  lemma AllocAligned(bs: seq<Block>, i: nat, n: nat)
    requires EightAligned(bs) && i < |bs| && bs[i].free && n % 8 == 0
    ensures EightAligned(AllocBlocks(bs, i, n))
  {
    var cs := AllocBlocks(bs, i, n);
    forall k | 0 <= k < |cs| ensures cs[k].addr % 8 == 0 {
      assert bs[i].addr % 8 == 0;
      if |cs| == |bs| || k <= i {
        assert cs[k].addr == bs[k].addr;
      } else if k > i + 1 {
        assert cs[k] == bs[k - 1];
        assert bs[k - 1].addr % 8 == 0;
      }
    }
  }

  lemma FreeAligned(bs: seq<Block>, i: nat)
    requires EightAligned(bs) && i < |bs|
    ensures EightAligned(FreeBlocks(bs, i))
  {
    var lo, hi := RunStart(bs, i), RunEnd(bs, i);
    RunExists(bs, i);
    FreeIs(bs, i, lo, hi);
    hide FreeBlocks, RunStart, RunEnd;
    var cs := bs[..lo] + [Merged(bs, lo, hi)] + bs[hi..];
    forall k | 0 <= k < |cs| ensures cs[k].addr % 8 == 0 {
      var j := if k <= lo then k else k - lo - 1 + hi;
      assert cs[k].addr == bs[j].addr;
    }
  }

  /** What the calls keep as long as none of them shrinks a block in place. */
  ghost predicate Tidy(bs: seq<Block>) {
    Canonical(bs) && EightAligned(bs)
  }

  lemma KmallocTidy(s: State, n: uint32)
    requires Tiles(s.blocks) && Tidy(s.blocks)
    ensures Tidy(Kmalloc(s, n).0.blocks)
  {
    hide And, AllocBlocks, Tiles, Canonical, EightAligned;
    var i := FirstFit(s.blocks, RoundUp8(n));
    RoundUpIsNextMultiple(n);
    if i < |s.blocks| {
      AllocCanonical(s.blocks, i, RoundUp8(n));
      AllocAligned(s.blocks, i, RoundUp8(n));
    }
  }

  lemma KfreeTidy(s: State, p: int)
    requires Tiles(s.blocks) && Tidy(s.blocks)
    ensures Tidy(Kfree(s, p).blocks)
  {
    hide FreeBlocks, Tiles, Canonical, EightAligned;
    if IsLive(s.blocks, p) {
      FreeCanonical(s.blocks, BlockAt(s.blocks, p));
      FreeAligned(s.blocks, BlockAt(s.blocks, p));
    }
  }

  lemma NothingTrimmed(s: State, p: int, size: nat)
    requires IsLive(s.blocks, p) && 0 < size <= s.blocks[BlockAt(s.blocks, p)].size && TrimmedBytes(s, p, size) == 0
    ensures Split(s.blocks, BlockAt(s.blocks, p), size) == s.blocks
  {
    var i := BlockAt(s.blocks, p);
    if s.blocks[i].size > size + HEADER + MIN_SPLIT {
      CutElements(s.blocks, i, size);
    }
  }

  lemma CallTidy(s: State, c: Call)
    requires Tiles(s.blocks) && Tidy(s.blocks) && Legal(s, c) && TrimmedBy(s, c) == 0
    ensures Tidy(After(s, c).blocks)
  {
    hide Kmalloc, Kfree, Tiles, Tidy, Split, BlockAt, TrimmedBytes;
    match c
    case Malloc(size) => KmallocTidy(s, size);
    case Calloc(count, size) => KmallocTidy(s, Wrap(count * size));
    case Aligned(size, alignment) => KmallocTidy(s, Wrap(size + alignment + PTR_SIZE));
    case Free(p) => KfreeTidy(s, p);
    case Realloc(p, size) => ReallocTidy(s, p, size);
    case Write(_, _, _) =>
  }

  lemma ReallocTidy(s: State, p: uint32, size: uint32)
    requires Tiles(s.blocks) && Tidy(s.blocks) && Legal(s, Realloc(p, size)) && TrimmedBy(s, Realloc(p, size)) == 0
    ensures Tidy(Krealloc(s, p, size).0.blocks)
  {
    hide Kmalloc, Kfree, Tiles, Tidy, Split, BlockAt, TrimmedBytes;
    if p == 0 {
      KmallocTidy(s, size);
    } else if size == 0 {
      KfreeTidy(s, p);
    } else if s.blocks[BlockAt(s.blocks, p)].size >= size {
      NothingTrimmed(s, p, size);
    } else {
      KmallocTidy(s, size);
      KmallocTakes(s, size);
      KfreeTidy(Kmalloc(s, size).0, p);
    }
  }

  lemma {:induction false} RunTidy(s: State, calls: seq<Call>)
    requires LegalRun(s, calls) && Tidy(s.blocks) && TrimmedOver(s, calls) == 0
    ensures Tidy(Run(s, calls).blocks)
    decreases |calls|
  {
    hide After, Legal, TrimmedBy, Tiles, Tidy;
    if |calls| > 0 {
      CallTidy(s, calls[0]);
      RunTidy(After(s, calls[0]), calls[1..]);
    }
  }

  /** With nothing trimmed, the 32-bit counters are the exact byte counts. */
  lemma CountersExact(s: State)
    requires Ledger(s, 0)
    ensures s.used == UsedBytes(s.blocks)
    ensures s.unused == FreeBytes(s.blocks) + HEADER * (|s.blocks| - 1)
  {
    hide UsedBytes, FreeBytes, Live;
    BytesFillHeap(s.blocks);
  }

  /** After any run from `mm_init` that shrinks nothing in place: no two free blocks
      touch, every header is 8-aligned, and both byte counters are exact. */
  lemma UntrimmedRun(calls: seq<Call>)
    requires LegalRun(Init, calls) && TrimmedOver(Init, calls) == 0
    ensures var s := Run(Init, calls);
      && Canonical(s.blocks) && EightAligned(s.blocks)
      && s.used == UsedBytes(s.blocks)
      && s.unused == FreeBytes(s.blocks) + HEADER * (|s.blocks| - 1)
  {
    hide LegalRun, Run, TrimmedOver, Ledger, UsedBytes, FreeBytes;
    InitLedger();
    RunLedger(Init, calls, 0);
    CountersExact(Run(Init, calls));
    assert Tidy(Init.blocks);
    RunTidy(Init, calls);
  }

  /** Two such runs that end with the same blocks in use end with the same heap. */
  lemma SameLiveSameHeap(calls: seq<Call>, calls': seq<Call>)
    requires LegalRun(Init, calls) && TrimmedOver(Init, calls) == 0
    requires LegalRun(Init, calls') && TrimmedOver(Init, calls') == 0
    requires Live(Run(Init, calls).blocks) == Live(Run(Init, calls').blocks)
    ensures var s, s' := Run(Init, calls), Run(Init, calls');
      s.blocks == s'.blocks && s.used == s'.used && s.unused == s'.unused
  {
    hide LegalRun, Run, TrimmedOver, Live, UsedBytes, FreeBytes, Canonical, EightAligned, Ledger, Tiles;
    UntrimmedRun(calls);
    UntrimmedRun(calls');
    InitLedger();
    RunLedger(Init, calls, 0);
    RunLedger(Init, calls', 0);
    LedgerTiles(Run(Init, calls), 0);
    LedgerTiles(Run(Init, calls'), 0);
    CanonicalUnique(Run(Init, calls).blocks, Run(Init, calls').blocks);
  }

  /** Over every run, `used_memory` is the bytes in use exactly when the bytes trimmed in
      place add up to nothing modulo the word size. */
  lemma UsedExactIff(calls: seq<Call>)
    requires LegalRun(Init, calls)
    ensures Run(Init, calls).used == UsedBytes(Run(Init, calls).blocks) <==> TrimmedOver(Init, calls) % TWO32 == 0
  {
    hide LegalRun, Run, TrimmedOver, UsedBytes, FreeBytes, Tiles, Live;
    InitLedger();
    RunLedger(Init, calls, 0);
    LedgerUsed(Run(Init, calls), TrimmedOver(Init, calls));
  }

  lemma LedgerUsed(s: State, trimmed: nat)
    requires Ledger(s, trimmed)
    ensures s.used == UsedBytes(s.blocks) <==> trimmed % TWO32 == 0
  {
    hide UsedBytes, FreeBytes, Tiles, Live;
    BytesFillHeap(s.blocks);
  }

  /** A cut keeps the headers on the 8-byte grid exactly when its size is a multiple of 8. */
  lemma CutAlignedIff(bs: seq<Block>, i: nat, n: nat)
    requires EightAligned(bs) && i < |bs| && bs[i].size > n + HEADER + MIN_SPLIT
    ensures EightAligned(Split(bs, i, n)) <==> n % 8 == 0
  {
    var cs := Split(bs, i, n);
    CutElements(bs, i, n);
    assert bs[i].addr % 8 == 0 && cs[i + 1].addr == bs[i].Payload() + n;
    if n % 8 == 0 {
      forall k | 0 <= k < |cs| ensures cs[k].addr % 8 == 0 {
        if k != i + 1 {
          assert cs[k].addr == bs[if k <= i then k else k - 1].addr;
        }
      }
    }
  }

  /** A `krealloc` that keeps the block in place keeps the heap tidy exactly when it cuts
      nothing off, or the new size is a multiple of 8 and the next block is in use. */
  lemma ShrinkTidyIff(s: State, p: uint32, size: uint32)
    requires Tiles(s.blocks) && Tidy(s.blocks) && IsLive(s.blocks, p)
    requires 0 < size <= s.blocks[BlockAt(s.blocks, p)].size
    ensures var i := BlockAt(s.blocks, p);
      Tidy(Krealloc(s, p, size).0.blocks) <==>
      (s.blocks[i].size <= size + HEADER + MIN_SPLIT
       || (size % 8 == 0 && !(i + 1 < |s.blocks| && s.blocks[i + 1].free)))
  {
    hide EightAligned, Canonical, Kfree, Kmalloc, Tiles;
    var i := BlockAt(s.blocks, p);
    PayloadPositive(s.blocks, p);
    if s.blocks[i].size > size + HEADER + MIN_SPLIT {
      TrimCanonical(s.blocks, i, size);
      CutAlignedIff(s.blocks, i, size);
    }
  }

  lemma PayloadPositive(bs: seq<Block>, p: int)
    requires IsLive(bs, p)
    ensures p > 0
  {}

  const TRIMMING := [Malloc(100), Realloc(0x0020_0010, 1)]

  /** Shrinking the first 100-byte block to one byte. */
  lemma TrimmedHeap()
    ensures LegalRun(Init, TRIMMING) && TrimmedOver(Init, TRIMMING) == 103
    ensures Run(Init, TRIMMING).used == 104
    ensures Run(Init, TRIMMING).blocks ==
            [Block(HEAP_START, 1, false), Block(HEAP_START + 17, 87, true),
             Block(HEAP_START + 120, HEAP_SIZE - 136, true)]
  {
    hide And;
    RoundUpIsNextMultiple(100);
    assert RoundUp8(100) == 104;
    var b0 := Block(HEAP_START, HEAP_SIZE - HEADER, true);
    assert FirstFit([b0], 104) == 0;
    var s1 := Kmalloc(Init, 100).0;
    var b1, f1 := Block(HEAP_START, 104, false), Block(HEAP_START + 120, HEAP_SIZE - 136, true);
    assert s1.blocks == [b1, f1];
    assert BlockAt(s1.blocks, 0x0020_0010) == 0;
    var s2 := Krealloc(s1, 0x0020_0010, 1).0;
    assert s2.blocks == [Block(HEAP_START, 1, false), Block(HEAP_START + 17, 87, true), f1];
    assert TRIMMING[1..] == [Realloc(0x0020_0010, 1)] && TRIMMING[1..][1..] == [];
    assert After(Init, TRIMMING[0]) == s1 && After(s1, TRIMMING[1]) == s2;
  }

  /** It leaves two free blocks touching, a header off the 8-byte grid, and a stale counter. */
  lemma TrimBreaksTidiness()
    ensures LegalRun(Init, TRIMMING) && TrimmedOver(Init, TRIMMING) == 103
    ensures !Canonical(Run(Init, TRIMMING).blocks) && !EightAligned(Run(Init, TRIMMING).blocks)
    ensures Run(Init, TRIMMING).used == UsedBytes(Run(Init, TRIMMING).blocks) + 103
  {
    hide LegalRun, Run, TrimmedOver;
    TrimmedHeap();
    var bs := Run(Init, TRIMMING).blocks;
    assert bs[1].free && bs[1].addr % 8 != 0;
    UsedBytesAround([bs[0]], [bs[1]], [bs[2]]);
    UsedBytesOne(bs[0]);
    UsedBytesOne(bs[1]);
    UsedBytesOne(bs[2]);
    assert [bs[0]] + [bs[1]] + [bs[2]] == bs;
  }

  /** After it, a `kmalloc` of eight bytes takes the first of the two free blocks, and the
      `kfree` that follows merges it with the second: the list does not come back. */
  lemma TrimBreaksUndo()
    ensures LegalRun(Init, TRIMMING) && Tiles(Run(Init, TRIMMING).blocks)
    ensures var s := Run(Init, TRIMMING);
      Kmalloc(s, 8).1 != 0 && Kfree(Kmalloc(s, 8).0, Kmalloc(s, 8).1).blocks != s.blocks
  {
    hide LegalRun, Run, TrimmedOver, And, Kfree, AllocBlocks;
    TrimmedHeap();
    var s := Run(Init, TRIMMING);
    RoundUpIsNextMultiple(8);
    assert RoundUp8(8) == 8;
    assert FirstFit(s.blocks, 8) == 1 by {
      FirstFitIs(s.blocks, 8, 1);
    }
    FreeUndoesKmalloc(s, 8);
  }
}
