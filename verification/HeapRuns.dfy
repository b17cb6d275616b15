/** What holds over whole runs of allocator calls: the counters, the blocks a run leaves
    alone, and the heap a run that frees everything ends with. */
module HeapRuns {
  import opened Machine
  import opened HeapBlocks
  import opened HeapSpec
  import opened HeapLaws
  import opened HeapRoom
  import opened HeapCanonical

  // ----- bytes in use and bytes free

  function UsedBytes(bs: seq<Block>): nat {
    if |bs| == 0 then 0 else UsedBytes(bs[..|bs| - 1]) + (if bs[|bs| - 1].free then 0 else bs[|bs| - 1].size)
  }

  function FreeBytes(bs: seq<Block>): nat {
    if |bs| == 0 then 0 else FreeBytes(bs[..|bs| - 1]) + (if bs[|bs| - 1].free then bs[|bs| - 1].size else 0)
  }

  lemma {:induction false} UsedBytesConcat(a: seq<Block>, b: seq<Block>)
    ensures UsedBytes(a + b) == UsedBytes(a) + UsedBytes(b)
  {
    if |b| == 0 {
      assert a + b == a;
    } else {
      assert (a + b)[..|a + b| - 1] == a + b[..|b| - 1];
      UsedBytesConcat(a, b[..|b| - 1]);
    }
  }

  lemma {:induction false} UsedBytesAllFree(a: seq<Block>)
    requires AllFree(a)
    ensures UsedBytes(a) == 0
  {
    if |a| > 0 {
      assert a[|a| - 1].free;
      var init := a[..|a| - 1];
      forall k | 0 <= k < |init| ensures init[k].free {
        assert a[k].free;
      }
      UsedBytesAllFree(a[..|a| - 1]);
    }
  }

  lemma UsedBytesOne(b: Block)
    ensures UsedBytes([b]) == if b.free then 0 else b.size
  {
    assert [b][..0] == [];
  }

  lemma UsedBytesAround(a: seq<Block>, b: seq<Block>, c: seq<Block>)
    ensures UsedBytes(a + b + c) == UsedBytes(a) + UsedBytes(b) + UsedBytes(c)
  {
    UsedBytesConcat(a + b, c);
    UsedBytesConcat(a, b);
  }

  /** Payloads and headers together fill the heap. */
  lemma {:induction false} BytesUpTo(bs: seq<Block>, k: nat)
    requires Tiles(bs) && 0 < k <= |bs|
    ensures UsedBytes(bs[..k]) + FreeBytes(bs[..k]) + HEADER * k == bs[k - 1].End() - HEAP_START
  {
    assert bs[..k][..k - 1] == bs[..k - 1];
    if k > 1 {
      BytesUpTo(bs, k - 1);
      assert bs[k - 1].addr == bs[k - 2].End();
    } else {
      assert bs[..0] == [];
    }
  }

  lemma BytesFillHeap(bs: seq<Block>)
    requires Tiles(bs)
    ensures UsedBytes(bs) + FreeBytes(bs) + HEADER * |bs| == HEAP_SIZE
  {
    BytesUpTo(bs, |bs|);
    assert bs[..|bs|] == bs;
  }

  lemma AllocUsed(bs: seq<Block>, i: nat, n: nat)
    requires i < |bs| && bs[i].free
    ensures UsedBytes(AllocBlocks(bs, i, n)) == UsedBytes(bs) + AllocBlocks(bs, i, n)[i].size
  {
    var u, b, v := bs[..i], bs[i], bs[i + 1..];
    SeqSplitAt(bs, i);
    AllocShape(u, b, v, n);
    hide AllocBlocks;
    UsedBytesAround(u, [b], v);
    UsedBytesOne(b);
    if b.size > n + HEADER + MIN_SPLIT {
      var rest := Block(b.Payload() + n, b.size - n - HEADER, true);
      UsedBytesAround(u, [Block(b.addr, n, false)], [rest] + v);
      UsedBytesConcat([rest], v);
      UsedBytesOne(rest);
      UsedBytesOne(Block(b.addr, n, false));
    } else {
      UsedBytesAround(u, [b.(free := false)], v);
      UsedBytesOne(b.(free := false));
    }
  }

  lemma FreeUsed(bs: seq<Block>, i: nat)
    requires i < |bs| && !bs[i].free
    ensures UsedBytes(FreeBlocks(bs, i)) == UsedBytes(bs) - bs[i].size
  {
    var a, p, q, z := RunParts(bs, i);
    FreeBetween(a, p, bs[i], q, z);
    hide FreeBlocks, MergeAll;
    var x := MergeAll(p + [bs[i]] + q);
    assert x.free by { MergedIsFree(p + [bs[i]] + q); assert [x][0].free; }
    UsedBytesAround(a, p + [bs[i]] + q, z);
    UsedBytesAround(p, [bs[i]], q);
    UsedBytesAround(a, [x], z);
    UsedBytesOne(bs[i]);
    UsedBytesOne(x);
    UsedBytesAllFree(p);
    UsedBytesAllFree(q);
  }

  lemma CutShape(u: seq<Block>, b: Block, v: seq<Block>, n: nat)
    requires b.size > n + HEADER + MIN_SPLIT
    ensures Split(u + [b] + v, |u|, n) ==
            u + [b.(size := n)] + ([Block(b.Payload() + n, b.size - n - HEADER, true)] + v)
  {
    var bs, i := u + [b] + v, |u|;
    assert bs[i] == b && bs[..i] == u && bs[i + 1..] == v;
  }

  lemma CutUsed(u: seq<Block>, b: Block, v: seq<Block>, n: nat)
    requires !b.free && b.size > n + HEADER + MIN_SPLIT
    ensures UsedBytes(Split(u + [b] + v, |u|, n)) == UsedBytes(u + [b] + v) - (b.size - n)
  {
    hide UsedBytes, Split;
    var rest := Block(b.Payload() + n, b.size - n - HEADER, true);
    CutShape(u, b, v, n);
    UsedBytesAround(u, [b], v);
    UsedBytesAround(u, [b.(size := n)], [rest] + v);
    UsedBytesConcat([rest], v);
    UsedBytesOne(b);
    UsedBytesOne(b.(size := n));
    UsedBytesOne(rest);
  }

  lemma CutElements(bs: seq<Block>, i: nat, n: nat)
    requires i < |bs| && bs[i].size > n + HEADER + MIN_SPLIT
    ensures var cs := Split(bs, i, n);
      && |cs| == |bs| + 1 && cs[i] == bs[i].(size := n) && cs[i + 1].free
      && (forall k :: 0 <= k < i ==> cs[k] == bs[k])
      && (forall k :: i < k < |bs| ==> cs[k + 1] == bs[k])
  {}

  /** Shrinking a block in use takes what it loses off the bytes in use. */
  lemma TrimUsed(bs: seq<Block>, i: nat, n: nat)
    requires i < |bs| && !bs[i].free && n <= bs[i].size
    ensures UsedBytes(Split(bs, i, n)) == UsedBytes(bs) - (bs[i].size - Split(bs, i, n)[i].size)
  {
    hide UsedBytes;
    if bs[i].size > n + HEADER + MIN_SPLIT {
      SeqSplitAt(bs, i);
      CutUsed(bs[..i], bs[i], bs[i + 1..], n);
      CutElements(bs, i, n);
    }
  }

  // ----- modular counters

  /** `x` and `y` are the same 32-bit value. */
  ghost predicate Same32(x: int, y: int) {
    (x - y) % TWO32 == 0
  }

  /** Adding to a wrapping counter. */
  lemma SameAfter(x: int, y: int, d: int)
    requires Same32(x, y)
    ensures Same32(Wrap(x + d), y + d)
  {}

  /** Moving `d` from one counter to another keeps their sum. */
  lemma SameSum(x: int, y: int, d: int, c: int)
    requires Same32(x + y, c)
    ensures Same32(Wrap(x + d) + Wrap(y - d), c) && Same32(Wrap(y - d) + Wrap(x + d), c)
  {}

  lemma SameCount(x: int, y: int, n: int)
    requires Same32(x - y, n)
    ensures Same32(Wrap(x + 1) - y, n + 1) && Same32(x - Wrap(y + 1), n - 1)
  {}

  /** The counters agree with the list: bytes in use up to the `trimmed` bytes that
      shrinking in place has cut off unrecorded, all the rest up to the first header,
      and calls against blocks in use. A heap with nothing in use is one free block. */
  ghost predicate Ledger(s: State, trimmed: nat) {
    && Tiles(s.blocks)
    && Same32(s.used, UsedBytes(s.blocks) + trimmed)
    && Same32(s.used + s.unused, HEAP_SIZE - HEADER)
    && Same32(s.allocs - s.frees, |Live(s.blocks)|)
    && (Live(s.blocks) == {} ==> s.blocks == Init.blocks)
  }

  lemma InitLedger()
    ensures Ledger(Init, 0)
  {
    UsedBytesOne(Init.blocks[0]);
  }

  lemma KmallocLedger(s: State, n: uint32, trimmed: nat)
    requires Ledger(s, trimmed)
    ensures Ledger(Kmalloc(s, n).0, trimmed)
  {
    hide Kmalloc, Live, Tiles, Taken, Same32, UsedBytes, Wrap, RoundUp8;
    KmallocTakes(s, n);
    if Kmalloc(s, n).1 != 0 {
      var b := Taken(s, n);
      KmallocUsed(s, n);
      OneMore(Live(s.blocks), b);
      SameAfter(s.used, UsedBytes(s.blocks) + trimmed, b.size);
      SameSum(s.used, s.unused, b.size, HEAP_SIZE - HEADER);
      SameCount(s.allocs, s.frees, |Live(s.blocks)|);
    }
  }

  lemma OneMore(x: set<Block>, b: Block)
    requires b !in x
    ensures |x + {b}| == |x| + 1 && x + {b} != {}
  {}

  lemma KmallocUsed(s: State, n: uint32)
    requires Tiles(s.blocks) && Kmalloc(s, n).1 != 0
    ensures UsedBytes(Kmalloc(s, n).0.blocks) == UsedBytes(s.blocks) + Taken(s, n).size
  {
    hide And, UsedBytes, AllocBlocks;
    AllocUsed(s.blocks, FirstFit(s.blocks, RoundUp8(n)), RoundUp8(n));
  }

  lemma KfreeLedger(s: State, p: int, trimmed: nat)
    requires Ledger(s, trimmed)
    ensures Ledger(Kfree(s, p), trimmed)
  {
    hide FreeBlocks, Live, Tiles, UsedBytes, Same32, BlockAt;
    KfreeReleases(s, p);
    if IsLive(s.blocks, p) {
      var i := BlockAt(s.blocks, p);
      var b := s.blocks[i];
      FreeUsed(s.blocks, i);
      LiveIndex(s.blocks, i);
      LastOrNot(s.blocks, i);
      SameAfter(s.used, UsedBytes(s.blocks) + trimmed, 0 - b.size);
      SameSum(s.unused, s.used, b.size, HEAP_SIZE - HEADER);
      SameCount(s.allocs, s.frees, |Live(s.blocks)|);
    }
  }

  lemma LastOrNot(bs: seq<Block>, i: nat)
    requires Tiles(bs) && i < |bs| && !bs[i].free && bs[i] in Live(bs)
    ensures |Live(bs) - {bs[i]}| == |Live(bs)| - 1
    ensures Live(bs) - {bs[i]} == {} ==> FreeBlocks(bs, i) == Init.blocks
  {
    hide FreeBlocks, Live, Tiles;
    if Live(bs) == {bs[i]} {
      LastFreeRestoresHeap(bs, i);
    } else {
      MoreThanOne(Live(bs), bs[i]);
    }
  }

  lemma MoreThanOne(x: set<Block>, b: Block)
    requires b in x && x != {b}
    ensures x - {b} != {}
  {
    assert !(x <= {b});
    var c :| c in x && c != b;
    assert c in x - {b};
  }

  /** What `krealloc` cuts off a block it shrinks in place. */
  function TrimmedBytes(s: State, p: int, size: nat): nat
    requires IsLive(s.blocks, p)
  {
    var i := BlockAt(s.blocks, p);
    if 0 < size <= s.blocks[i].size then Max(s.blocks[i].size - Split(s.blocks, i, size)[i].size, 0) else 0
  }

  lemma TrimLive(bs: seq<Block>, i: nat, n: nat)
    requires Tiles(bs) && i < |bs| && !bs[i].free && n <= bs[i].size
    ensures Live(Split(bs, i, n)) == Live(bs) - {bs[i]} + {Split(bs, i, n)[i]}
    ensures |Live(Split(bs, i, n))| == |Live(bs)| && Live(Split(bs, i, n)) != {}
    ensures Split(bs, i, n)[i].size <= bs[i].size
  {
    var cs := Split(bs, i, n);
    LiveIndex(bs, i);
    if bs[i].size > n + HEADER + MIN_SPLIT {
      CutElements(bs, i, n);
      TrimMembers(bs, i, cs);
    } else {
      assert Live(bs) == Live(bs) - {bs[i]} + {bs[i]};
    }
  }

  lemma TrimMembers(bs: seq<Block>, i: nat, cs: seq<Block>)
    requires Tiles(bs) && i < |bs| && !bs[i].free && |cs| == |bs| + 1
    requires cs[i].addr == bs[i].addr && !cs[i].free && cs[i + 1].free
    requires forall k :: 0 <= k < i ==> cs[k] == bs[k]
    requires forall k :: i < k < |bs| ==> cs[k + 1] == bs[k]
    ensures Live(cs) == Live(bs) - {bs[i]} + {cs[i]}
    ensures cs[i] != bs[i] ==> cs[i] !in Live(bs)
  {
    forall b ensures b in Live(cs) <==> b in Live(bs) - {bs[i]} + {cs[i]} {
      if b in Live(cs) && b != cs[i] {
        var k :| 0 <= k < |cs| && cs[k] == b;
        assert k != i && k != i + 1;
        var j := if k < i then k else k - 1;
        assert bs[j] == b;
        if b == bs[i] {
          AddrInjective(bs, i, j);
        }
      }
      if b in Live(bs) - {bs[i]} {
        var k :| 0 <= k < |bs| && bs[k] == b;
        assert cs[if k < i then k else k + 1] == b;
      }
    }
    if cs[i] != bs[i] && cs[i] in Live(bs) {
      var k :| 0 <= k < |bs| && bs[k] == cs[i];
      AddrInjective(bs, i, k);
    }
  }

  lemma TrimLedger(s: State, p: int, size: nat, trimmed: nat)
    requires Ledger(s, trimmed) && IsLive(s.blocks, p) && 0 < size <= s.blocks[BlockAt(s.blocks, p)].size
    ensures Ledger(s.(blocks := Split(s.blocks, BlockAt(s.blocks, p), size)), trimmed + TrimmedBytes(s, p, size))
  {
    hide Live, Tiles, UsedBytes, Same32, BlockAt, Split;
    var i := BlockAt(s.blocks, p);
    SplitTiles(s.blocks, i, size);
    TrimUsed(s.blocks, i, size);
    TrimLive(s.blocks, i, size);
  }

  // ----- calls, and runs of calls

  /** The calls, and a caller's own write to a byte of what it was given. */
  datatype Call =
    | Malloc(size: uint32)
    | Calloc(count: uint32, size: uint32)
    | Aligned(size: uint32, alignment: uint32)
    | Free(p: uint32)
    | Realloc(p: uint32, size: uint32)
    | Write(p: uint32, at: nat, value: byte)

  /** What the source asks of its callers, and the sums it does not guard: a call that
      writes does so inside the block it was given. */
  ghost predicate Legal(s: State, c: Call)
    requires Tiles(s.blocks)
  {
    match c
    case Malloc(_) => true
    case Calloc(count, size) => count > 0 && ClearFits(s.blocks, count, size)
    case Aligned(size, alignment) => IsPowerOfTwo(alignment) ==> alignment > 0 && SlotFits(s.blocks, size, alignment)
    case Free(_) => true
    case Realloc(p, size) =>
      p == 0 || (IsLive(s.blocks, p) && MoveFits(s.blocks, s.blocks[BlockAt(s.blocks, p)].size, size))
    case Write(p, at, _) => IsLive(s.blocks, p) && at < s.blocks[BlockAt(s.blocks, p)].size
  }

  ghost function After(s: State, c: Call): State
    requires Tiles(s.blocks) && Legal(s, c)
  {
    match c
    case Malloc(size) => Kmalloc(s, size).0
    case Calloc(count, size) => Kcalloc(s, count, size).0
    case Aligned(size, alignment) => KmallocAligned(s, size, alignment).0
    case Free(p) => Kfree(s, p)
    case Realloc(p, size) => Krealloc(s, p, size).0
    case Write(_, _, _) => s
  }

  function TrimmedBy(s: State, c: Call): nat {
    if c.Realloc? && IsLive(s.blocks, c.p) then TrimmedBytes(s, c.p, c.size) else 0
  }

  lemma CallLedger(s: State, c: Call, trimmed: nat)
    requires Ledger(s, trimmed) && Legal(s, c)
    ensures Ledger(After(s, c), trimmed + TrimmedBy(s, c))
  {
    hide Kmalloc, Kfree, Ledger, And, Split;
    LedgerTiles(s, trimmed);
    match c
    case Malloc(size) => KmallocLedger(s, size, trimmed);
    case Calloc(count, size) => KmallocLedger(s, Wrap(count * size), trimmed);
    case Aligned(size, alignment) => KmallocLedger(s, Wrap(size + alignment + PTR_SIZE), trimmed);
    case Free(p) => KfreeLedger(s, p, trimmed);
    case Realloc(p, size) => ReallocLedger(s, p, size, trimmed);
    case Write(_, _, _) =>
  }

  lemma LedgerTiles(s: State, trimmed: nat)
    requires Ledger(s, trimmed)
    ensures Tiles(s.blocks)
  {}

  lemma ReallocLedger(s: State, p: uint32, size: uint32, trimmed: nat)
    requires Ledger(s, trimmed) && Legal(s, Realloc(p, size))
    ensures Ledger(Krealloc(s, p, size).0, trimmed + TrimmedBy(s, Realloc(p, size)))
  {
    hide Kmalloc, Kfree, Ledger, Split, BlockAt, Tiles, TrimmedBytes;
    LedgerTiles(s, trimmed);
    NullNotLive(s.blocks);
    if p != 0 {
      TrimmedOnlyInPlace(s, p, size);
    }
    if p == 0 {
      KmallocLedger(s, size, trimmed);
    } else if size == 0 {
      KfreeLedger(s, p, trimmed);
    } else if s.blocks[BlockAt(s.blocks, p)].size >= size {
      TrimLedger(s, p, size, trimmed);
    } else {
      KmallocLedger(s, size, trimmed);
      KfreeLedger(Kmalloc(s, size).0, p, trimmed);
    }
  }

  lemma TrimmedOnlyInPlace(s: State, p: int, size: nat)
    requires IsLive(s.blocks, p)
    ensures !(0 < size <= s.blocks[BlockAt(s.blocks, p)].size) ==> TrimmedBytes(s, p, size) == 0
  {}

  lemma NullNotLive(bs: seq<Block>)
    ensures !IsLive(bs, 0)
  {}

  ghost predicate LegalRun(s: State, calls: seq<Call>)
    decreases |calls|
  {
    Tiles(s.blocks) && (|calls| > 0 ==> Legal(s, calls[0]) && LegalRun(After(s, calls[0]), calls[1..]))
  }

  ghost function Run(s: State, calls: seq<Call>): State
    requires LegalRun(s, calls)
    decreases |calls|
  {
    if |calls| == 0 then s else Run(After(s, calls[0]), calls[1..])
  }

  // ----- what a run leaves alone

  /** The call neither frees the block nor reallocates it. */
  predicate Spares(c: Call, b: Block) {
    match c
    case Free(p) => p != b.Payload()
    case Realloc(p, _) => p != b.Payload()
    case _ => true
  }

  lemma CallKeepsBlock(s: State, c: Call, b: Block)
    requires Tiles(s.blocks) && Legal(s, c) && b in Live(s.blocks) && Spares(c, b)
    ensures b in Live(After(s, c).blocks)
  {
    hide Kmalloc, Kfree, Tiles, Live, BlockAt, And, ClearFits, MoveFits, SlotFits, IsPowerOfTwo, Taken;
    match c
    case Malloc(size) => KmallocTakes(s, size);
    case Calloc(count, size) => KmallocTakes(s, Wrap(count * size));
    case Aligned(size, alignment) => KmallocTakes(s, Wrap(size + alignment + PTR_SIZE));
    case Free(p) => KfreeKeepsBlock(s, p, b);
    case Realloc(p, size) => ReallocKeepsBlock(s, p, size, b);
    case Write(_, _, _) =>
  }

  lemma KfreeKeepsBlock(s: State, p: int, b: Block)
    requires Tiles(s.blocks) && b in Live(s.blocks) && p != b.Payload()
    ensures b in Live(Kfree(s, p).blocks)
  {
    hide Live, Tiles, Kfree;
    KfreeReleases(s, p);
  }

  lemma ReallocKeepsBlock(s: State, p: uint32, size: uint32, b: Block)
    requires Tiles(s.blocks) && (p == 0 || IsLive(s.blocks, p)) && b in Live(s.blocks) && p != b.Payload()
    ensures b in Live(Krealloc(s, p, size).0.blocks)
  {
    hide Live, Tiles, Kfree, Kmalloc, Taken, Split;
    KmallocTakes(s, size);
    if p == 0 {
    } else if size == 0 {
      KfreeKeepsBlock(s, p, b);
    } else if s.blocks[BlockAt(s.blocks, p)].size >= size {
      TrimLive(s.blocks, BlockAt(s.blocks, p), size);
    } else {
      KfreeKeepsBlock(Kmalloc(s, size).0, p, b);
    }
  }

  /** The blocks in use that no call of a run frees or reallocates. */
  ghost function Untouched(s: State, calls: seq<Call>): set<Block> {
    set b | b in Live(s.blocks) && forall k :: 0 <= k < |calls| ==> Spares(calls[k], b)
  }

  /** Every pointer freed in the run is live at that point, or NULL. */
  ghost predicate FreesLive(s: State, calls: seq<Call>)
    requires LegalRun(s, calls)
    decreases |calls|
  {
    |calls| > 0 ==>
      && (calls[0].Free? ==> calls[0].p == 0 || IsLive(s.blocks, calls[0].p))
      && FreesLive(After(s, calls[0]), calls[1..])
  }

  lemma UntouchedLive(s: State, calls: seq<Call>)
    ensures Untouched(s, calls) <= Live(s.blocks)
  {}

  /** What a call makes of the bytes of a block it spares: only a write to it changes one. */
  function Rewritten(c: Call, b: Block, bytes: seq<byte>): seq<byte> {
    if c.Write? && c.p == b.Payload() && c.at < |bytes| then bytes[c.at := c.value] else bytes
  }

  /** The same for a run: the block's own writes, in order. */
  function RewrittenAll(calls: seq<Call>, b: Block, bytes: seq<byte>): seq<byte>
    decreases |calls|
  {
    if |calls| == 0 then bytes else RewrittenAll(calls[1..], b, Rewritten(calls[0], b, bytes))
  }

  lemma {:induction false} NotRewritten(calls: seq<Call>, b: Block, bytes: seq<byte>)
    requires forall k :: 0 <= k < |calls| ==> !(calls[k].Write? && calls[k].p == b.Payload())
    ensures RewrittenAll(calls, b, bytes) == bytes
    decreases |calls|
  {
    if |calls| > 0 {
      NotRewritten(calls[1..], b, bytes);
    }
  }

  /** A byte of the block reads back as its owner last wrote it, or as it was. */
  lemma {:induction false} LastWriteWins(calls: seq<Call>, b: Block, bytes: seq<byte>, at: nat)
    requires at < |bytes|
    ensures |RewrittenAll(calls, b, bytes)| == |bytes|
    ensures RewrittenAll(calls, b, bytes)[at] == LastWritten(calls, b.Payload(), at, bytes[at])
    decreases |calls|
  {
    if |calls| > 0 {
      LastWriteWins(calls[1..], b, Rewritten(calls[0], b, bytes), at);
      LastWrittenFront(calls, b.Payload(), at, bytes[at]);
    }
  }

  /** The value of the last write to byte `at` behind pointer `p`, `was` if there is none. */
  function LastWritten(calls: seq<Call>, p: int, at: nat, was: byte): byte {
    if |calls| == 0 then was else
    var c := calls[|calls| - 1];
    if c.Write? && c.p == p && c.at == at then c.value else LastWritten(calls[..|calls| - 1], p, at, was)
  }

  lemma {:induction false} LastWrittenFront(calls: seq<Call>, p: int, at: nat, was: byte)
    requires |calls| > 0
    ensures var c := calls[0];
      LastWritten(calls, p, at, was)
      == LastWritten(calls[1..], p, at, if c.Write? && c.p == p && c.at == at then c.value else was)
  {
    if |calls| > 1 {
      assert calls[..|calls| - 1][1..] == calls[1..][..|calls| - 2];
      LastWrittenFront(calls[..|calls| - 1], p, at, was);
    }
  }

  lemma UntouchedStep(s: State, calls: seq<Call>)
    requires LegalRun(s, calls) && |calls| > 0
    ensures Untouched(s, calls) <= Untouched(After(s, calls[0]), calls[1..])
  {
    hide After, Legal, Spares, LegalRun, Live;
    assert Tiles(s.blocks) && Legal(s, calls[0]) by { RunBegins(s, calls); }
    forall b | b in Untouched(s, calls) ensures b in Live(After(s, calls[0]).blocks) {
      CallKeepsBlock(s, calls[0], b);
    }
  }

  lemma RunBegins(s: State, calls: seq<Call>)
    requires LegalRun(s, calls)
    ensures Tiles(s.blocks)
    ensures |calls| > 0 ==> Legal(s, calls[0]) && LegalRun(After(s, calls[0]), calls[1..])
  {}

  /** Blocks that a run leaves alone stay in use, at the same address and size. */
  lemma {:induction false} RunKeepsBlocks(s: State, calls: seq<Call>)
    requires LegalRun(s, calls)
    ensures Untouched(s, calls) <= Live(Run(s, calls).blocks)
    decreases |calls|
  {
    hide After, Legal, Spares, Live;
    if |calls| > 0 {
      UntouchedStep(s, calls);
      RunKeepsBlocks(After(s, calls[0]), calls[1..]);
    }
  }

  /** However long it is kept, a pointer from `kmalloc_aligned` never becomes one that
      `kfree` could release, unless the raw block below it is freed or reallocated. */
  lemma AlignedNeverFreed(s: State, size: uint32, alignment: uint32, calls: seq<Call>)
    requires Tiles(s.blocks) && KmallocAligned(s, size, alignment).1 != 0
    requires alignment > 0 && SlotFits(s.blocks, size, alignment)
    requires LegalRun(KmallocAligned(s, size, alignment).0, calls)
    requires Kmalloc(s, Wrap(size + alignment + PTR_SIZE)).1 != 0
    requires Taken(s, Wrap(size + alignment + PTR_SIZE)) in Untouched(KmallocAligned(s, size, alignment).0, calls)
    ensures !IsLive(Run(KmallocAligned(s, size, alignment).0, calls).blocks, KmallocAligned(s, size, alignment).1)
  {
    hide Kmalloc, Taken, And, LegalRun, Run, Untouched, Live, SlotFits, KmallocAligned, IsLive;
    var s' := KmallocAligned(s, size, alignment).0;
    RunKeepsBlocks(s', calls);
    RunEnds(s', calls);
    AlignedNotLive(s, size, alignment, Run(s', calls).blocks);
  }

  lemma {:induction false} RunEnds(s: State, calls: seq<Call>)
    requires LegalRun(s, calls)
    ensures Tiles(Run(s, calls).blocks)
    decreases |calls|
  {
    hide After, Legal, Tiles;
    if |calls| > 0 {
      RunEnds(After(s, calls[0]), calls[1..]);
    }
  }

  // ----- the ledger over runs

  /** Bytes cut off by shrinking in place, over a whole run. */
  ghost function TrimmedOver(s: State, calls: seq<Call>): nat
    requires LegalRun(s, calls)
    decreases |calls|
  {
    if |calls| == 0 then 0 else TrimmedBy(s, calls[0]) + TrimmedOver(After(s, calls[0]), calls[1..])
  }

  /** The ledger holds after every run of legal calls. */
  lemma {:induction false} RunLedger(s: State, calls: seq<Call>, trimmed: nat)
    requires LegalRun(s, calls) && Ledger(s, trimmed)
    ensures Ledger(Run(s, calls), trimmed + TrimmedOver(s, calls))
    decreases |calls|
  {
    hide After, Legal, Ledger, TrimmedBy, Tiles;
    if |calls| > 0 {
      CallLedger(s, calls[0], trimmed);
      RunLedger(After(s, calls[0]), calls[1..], trimmed + TrimmedBy(s, calls[0]));
    }
  }

  /** From `mm_init`: after any run, however blocks were split, shrunk and merged on the
      way, a heap with nothing in use is the single free block it started as. */
  lemma DrainedHeapIsInitial(calls: seq<Call>)
    requires LegalRun(Init, calls) && Live(Run(Init, calls).blocks) == {}
    ensures Run(Init, calls).blocks == Init.blocks
  {
    hide LegalRun, Run, TrimmedOver, Tiles, Live, Same32, UsedBytes;
    InitLedger();
    RunLedger(Init, calls, 0);
  }
}
