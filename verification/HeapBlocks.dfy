/** The heap as the list of its blocks in address order, and the three ways that list changes. */
module HeapBlocks {
  import opened Machine

  const HEAP_START := 0x0020_0000
  const HEAP_SIZE := 0x0010_0000
  const HEAP_END := HEAP_START + HEAP_SIZE
  const HEADER := 16
  const MIN_SPLIT := 32

  /** A block: the address of its header, its payload size, and whether it is free. */
  datatype Block = Block(addr: nat, size: nat, free: bool) {
    /** Address of the payload, the pointer a caller holds. */
    function Payload(): nat {
      addr + HEADER
    }

    /** First address after the payload. */
    function End(): nat {
      addr + HEADER + size
    }

    predicate HeaderContains(x: int) {
      addr <= x < Payload()
    }

    predicate Contains(x: int) {
      Payload() <= x < End()
    }
  }

  /** The blocks cover the heap exactly, each beginning where the one before it ends. */
  ghost predicate Tiles(bs: seq<Block>) {
    && |bs| > 0
    && bs[0].addr == HEAP_START
    && bs[|bs| - 1].End() == HEAP_END
    && forall i {:trigger bs[i].End()} :: 0 <= i < |bs| - 1 ==> bs[i + 1].addr == bs[i].End()
  }

  /** The pointer stored for block `i`: NULL off either end of the list. */
  function Link(bs: seq<Block>, i: int): nat {
    if 0 <= i < |bs| then bs[i].addr else 0
  }

  lemma {:induction false} BlocksApart(bs: seq<Block>, i: nat, j: nat)
    requires Tiles(bs) && i < j < |bs|
    ensures bs[i].End() <= bs[j].addr
    decreases j
  {
    if i + 1 < j {
      BlocksApart(bs, i, j - 1);
    }
    assert bs[j].addr == bs[j - 1].End();
  }

  lemma BlockInHeap(bs: seq<Block>, i: nat)
    requires Tiles(bs) && i < |bs|
    ensures HEAP_START <= bs[i].addr && bs[i].End() <= HEAP_END
  {
    if i > 0 {
      BlocksApart(bs, 0, i);
    }
    if i < |bs| - 1 {
      BlocksApart(bs, i, |bs| - 1);
    }
  }

  /** Distinct blocks start at distinct addresses. */
  lemma AddrInjective(bs: seq<Block>, i: nat, j: nat)
    requires Tiles(bs) && i < |bs| && j < |bs| && bs[i].addr == bs[j].addr
    ensures i == j
  {
    if i < j {
      BlocksApart(bs, i, j);
    } else if j < i {
      BlocksApart(bs, j, i);
    }
  }

  /** No address belongs to two payloads, and none lies outside the heap. */
  lemma PayloadsDisjoint(bs: seq<Block>, i: nat, j: nat, x: int)
    requires Tiles(bs) && i < |bs| && j < |bs|
    requires bs[i].Contains(x) && bs[j].Contains(x)
    ensures i == j && HEAP_START <= x < HEAP_END
  {
    BlockInHeap(bs, i);
    if i < j {
      BlocksApart(bs, i, j);
    } else if j < i {
      BlocksApart(bs, j, i);
    }
  }

  // ----- changing the list

  /** Block `i` cut down to `n` bytes, the rest made into a free block. */
  function Cut(bs: seq<Block>, i: nat, n: nat): (cs: seq<Block>)
    requires i < |bs| && n + HEADER <= bs[i].size
    ensures |cs| == |bs| + 1
  {
    var rest := Block(bs[i].Payload() + n, bs[i].size - n - HEADER, true);
    bs[..i] + [bs[i].(size := n), rest] + bs[i + 1..]
  }

  /** `split_block`: cut block `i` if what is left over is worth a block. */
  function Split(bs: seq<Block>, i: nat, n: nat): (cs: seq<Block>)
    requires i < |bs|
    ensures i < |cs| && |bs| <= |cs| <= |bs| + 1 && cs[i].addr == bs[i].addr
  {
    if bs[i].size > n + HEADER + MIN_SPLIT then Cut(bs, i, n) else bs
  }

  function SetFree(bs: seq<Block>, i: nat, free: bool): seq<Block>
    requires i < |bs|
  {
    bs[i := bs[i].(free := free)]
  }

  /** One free block from the start of block `lo` to the end of block `hi - 1`. */
  function Merged(bs: seq<Block>, lo: nat, hi: nat): Block
    requires lo < hi <= |bs|
  {
    Block(bs[lo].addr, Max(bs[hi - 1].End() - bs[lo].addr - HEADER, 0), true)
  }

  /** Blocks `lo..hi` replaced by one free block over the same span. */
  function Collapse(bs: seq<Block>, lo: nat, hi: nat): (cs: seq<Block>)
    requires lo < hi <= |bs|
    ensures |cs| == |bs| - (hi - lo) + 1 && cs[lo].addr == bs[lo].addr && cs[lo].free
  {
    bs[..lo] + [Merged(bs, lo, hi)] + bs[hi..]
  }

  lemma CutTiles(bs: seq<Block>, i: nat, n: nat)
    requires Tiles(bs) && i < |bs| && n + HEADER <= bs[i].size
    ensures Tiles(Cut(bs, i, n))
  {
    var cs := Cut(bs, i, n);
    forall k | 0 <= k < |cs| - 1 ensures cs[k + 1].addr == cs[k].End() {
      if k < i {
        assert bs[k + 1].addr == bs[k].End();
      } else if k > i {
        assert k > i + 1 ==> cs[k] == bs[k - 1];
        assert bs[k].addr == bs[k - 1].End();
      }
    }
  }

  lemma SplitTiles(bs: seq<Block>, i: nat, n: nat)
    requires Tiles(bs) && i < |bs|
    ensures Tiles(Split(bs, i, n))
  {
    if bs[i].size > n + HEADER + MIN_SPLIT {
      CutTiles(bs, i, n);
    }
  }

  lemma SetFreeTiles(bs: seq<Block>, i: nat, free: bool)
    requires Tiles(bs) && i < |bs|
    ensures Tiles(SetFree(bs, i, free))
  {
    var cs := SetFree(bs, i, free);
    forall k | 0 <= k < |cs| - 1 ensures cs[k + 1].addr == cs[k].End() {
      assert bs[k + 1].addr == bs[k].End();
    }
  }

  lemma CollapseTiles(bs: seq<Block>, lo: nat, hi: nat)
    requires Tiles(bs) && lo < hi <= |bs|
    ensures Tiles(Collapse(bs, lo, hi))
    ensures Collapse(bs, lo, hi)[lo].End() == bs[hi - 1].End()
  {
    var cs := Collapse(bs, lo, hi);
    if lo < hi - 1 {
      BlocksApart(bs, lo, hi - 1);
    }
    forall k | 0 <= k < |cs| - 1 ensures cs[k + 1].addr == cs[k].End() {
      if k < lo {
        assert bs[k + 1].addr == bs[k].End();
      } else {
        var j := k + hi - lo - 1;
        assert k > lo ==> cs[k] == bs[j];
        assert bs[j + 1].addr == bs[j].End();
      }
    }
  }

  lemma CollapseOne(bs: seq<Block>, i: nat)
    requires i < |bs| && bs[i].free
    ensures Collapse(bs, i, i + 1) == bs
  {}

  /** Taking the next block into a collapsed run extends the run at its end. */
  lemma CollapseNext(bs: seq<Block>, lo: nat, hi: nat)
    requires Tiles(bs) && lo < hi < |bs|
    ensures Collapse(Collapse(bs, lo, hi), lo, lo + 2) == Collapse(bs, lo, hi + 1)
    ensures Collapse(bs, lo, hi)[lo].addr == bs[lo].addr && Collapse(bs, lo, hi)[lo + 1] == bs[hi]
    ensures hi + 1 < |bs| ==> Collapse(bs, lo, hi)[lo + 2] == bs[hi + 1]
  {
    CollapseTiles(bs, lo, hi);
    CollapseTiles(bs, lo, hi + 1);
  }

  /** Letting the block before take the run in extends the run at its start. */
  lemma CollapsePrevious(bs: seq<Block>, lo: nat, hi: nat)
    requires Tiles(bs) && 0 < lo < hi <= |bs|
    ensures Collapse(Collapse(bs, lo, hi), lo - 1, lo + 1) == Collapse(bs, lo - 1, hi)
    ensures Collapse(bs, lo, hi)[lo - 1] == bs[lo - 1] && Collapse(bs, lo, hi)[lo].addr == bs[lo].addr
    ensures hi < |bs| ==> Collapse(bs, lo, hi)[lo + 1] == bs[hi]
  {
    CollapseTiles(bs, lo, hi);
    CollapseTiles(bs, lo - 1, hi);
  }

  // ----- choosing a block, and the run of free blocks around one

  predicate Fits(b: Block, n: nat) {
    b.free && b.size >= n
  }

  /** Index of the first free block of at least `n` bytes, `|bs|` if none. */
  function FirstFit(bs: seq<Block>, n: nat): (i: nat)
    ensures i <= |bs|
    ensures i < |bs| ==> Fits(bs[i], n)
    ensures forall k :: 0 <= k < i ==> !Fits(bs[k], n)
  {
    if |bs| == 0 || Fits(bs[0], n) then 0 else 1 + FirstFit(bs[1..], n)
  }

  lemma FirstFitIs(bs: seq<Block>, n: nat, i: nat)
    requires i < |bs| && Fits(bs[i], n)
    requires forall k :: 0 <= k < i ==> !Fits(bs[k], n)
    ensures FirstFit(bs, n) == i
  {}

  /** Size of the largest free block, 0 if there is none. */
  function LargestFree(bs: seq<Block>): (n: nat)
    ensures forall k :: 0 <= k < |bs| && bs[k].free ==> bs[k].size <= n
    ensures n > 0 ==> exists k :: 0 <= k < |bs| && bs[k].free && bs[k].size == n
  {
    if |bs| == 0 then 0 else
    var n := LargestFree(bs[..|bs| - 1]);
    var b := bs[|bs| - 1];
    if b.free && b.size > n then b.size else n
  }

  lemma LargestFreeSteps(bs: seq<Block>, i: nat)
    requires i < |bs|
    ensures LargestFree(bs[..0]) == 0
    ensures LargestFree(bs[..i + 1]) ==
            if bs[i].free && bs[i].size > LargestFree(bs[..i]) then bs[i].size else LargestFree(bs[..i])
  {
    assert bs[..i + 1][..i] == bs[..i];
  }

  /** Where the free blocks directly before block `i` begin. */
  function RunStart(bs: seq<Block>, i: nat): (lo: nat)
    requires i < |bs|
    ensures lo <= i
    ensures forall k :: lo <= k < i ==> bs[k].free
    ensures lo > 0 ==> !bs[lo - 1].free
  {
    if i > 0 && bs[i - 1].free then RunStart(bs, i - 1) else i
  }

  /** Where the free blocks directly after block `i` end. */
  function RunEnd(bs: seq<Block>, i: nat): (hi: nat)
    requires i < |bs|
    ensures i < hi <= |bs|
    ensures forall k :: i < k < hi ==> bs[k].free
    ensures hi < |bs| ==> !bs[hi].free
    decreases |bs| - i
  {
    if i + 1 < |bs| && bs[i + 1].free then RunEnd(bs, i + 1) else i + 1
  }

  /** Only one pair of ends bounds a maximal run of free blocks around `i`. */
  lemma RunUnique(bs: seq<Block>, i: nat, lo: nat, hi: nat)
    requires lo <= i < hi <= |bs|
    requires forall k :: lo <= k < hi && k != i ==> bs[k].free
    requires lo > 0 ==> !bs[lo - 1].free
    requires hi < |bs| ==> !bs[hi].free
    ensures RunStart(bs, i) == lo && RunEnd(bs, i) == hi
  {}

  /** The run around block `i` does not depend on block `i`'s own flag. */
  lemma RunIgnoresSelf(bs: seq<Block>, i: nat, free: bool)
    requires i < |bs|
    ensures RunStart(SetFree(bs, i, free), i) == RunStart(bs, i)
    ensures RunEnd(SetFree(bs, i, free), i) == RunEnd(bs, i)
  {
    RunUnique(SetFree(bs, i, free), i, RunStart(bs, i), RunEnd(bs, i));
  }

  /** Index of the block whose payload begins at `p`, `|bs|` if none does. */
  function BlockAt(bs: seq<Block>, p: int): (i: nat)
    ensures i <= |bs|
    ensures i < |bs| ==> bs[i].Payload() == p
    ensures forall k :: 0 <= k < i ==> bs[k].Payload() != p
  {
    if |bs| == 0 || bs[0].Payload() == p then 0 else 1 + BlockAt(bs[1..], p)
  }

  predicate IsLive(bs: seq<Block>, p: int) {
    BlockAt(bs, p) < |bs| && !bs[BlockAt(bs, p)].free
  }

  /** The blocks in use. */
  function Live(bs: seq<Block>): set<Block> {
    set b | b in bs && !b.free
  }

  lemma BlockAtIs(bs: seq<Block>, i: nat)
    requires Tiles(bs) && i < |bs|
    ensures BlockAt(bs, bs[i].Payload()) == i
  {
    AddrInjective(bs, i, BlockAt(bs, bs[i].Payload()));
  }
}
