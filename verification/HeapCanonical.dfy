/** Coalescing: what a free does to the list, and why the list is determined by the
    blocks in use as long as no two free blocks touch. */
module HeapCanonical {
  import opened HeapBlocks
  import opened HeapSpec

  /** No two neighbouring blocks are both free. */
  ghost predicate Canonical(bs: seq<Block>) {
    forall i {:trigger bs[i].free} :: 0 <= i < |bs| - 1 ==> !(bs[i].free && bs[i + 1].free)
  }

  /** `[lo, hi)` is block `i` with all the free blocks that touch it. */
  ghost predicate IsRun(bs: seq<Block>, i: nat, lo: nat, hi: nat) {
    && lo <= i < hi <= |bs|
    && (forall k {:trigger bs[k].free} :: lo <= k < hi && k != i ==> bs[k].free)
    && (lo > 0 ==> !bs[lo - 1].free)
    && (hi < |bs| ==> !bs[hi].free)
  }

  /** Freeing replaces the whole run around the block by one free block, and nothing else. */
  lemma FreeIs(bs: seq<Block>, i: nat, lo: nat, hi: nat)
    requires IsRun(bs, i, lo, hi)
    ensures FreeBlocks(bs, i) == bs[..lo] + [Merged(bs, lo, hi)] + bs[hi..]
  {
    RunUnique(bs, i, lo, hi);
    var ds := SetFree(bs, i, true);
    assert ds[..lo] == bs[..lo] && ds[hi..] == bs[hi..];
  }

  lemma RunExists(bs: seq<Block>, i: nat)
    requires i < |bs|
    ensures IsRun(bs, i, RunStart(bs, i), RunEnd(bs, i))
  {}

  // ----- canonical lists

  lemma AllocCanonical(bs: seq<Block>, i: nat, n: nat)
    requires Canonical(bs) && i < |bs| && bs[i].free
    ensures Canonical(AllocBlocks(bs, i, n))
  {
    var cs := AllocBlocks(bs, i, n);
    forall k | 0 <= k < |cs| - 1 ensures !(cs[k].free && cs[k + 1].free) {
      if k < i {
        assert cs[k].free == bs[k].free;
      } else if k > i {
        assert cs[k].free == bs[if |cs| == |bs| then k else k - 1].free;
        assert bs[i].free;
      }
    }
  }

  lemma FreeCanonical(bs: seq<Block>, i: nat)
    requires Canonical(bs) && i < |bs|
    ensures Canonical(FreeBlocks(bs, i))
  {
    var lo, hi := RunStart(bs, i), RunEnd(bs, i);
    RunExists(bs, i);
    FreeIs(bs, i, lo, hi);
    hide FreeBlocks;
    var cs := bs[..lo] + [Merged(bs, lo, hi)] + bs[hi..];
    forall k | 0 <= k < |cs| - 1 ensures !(cs[k].free && cs[k + 1].free) {
      if k + 1 < lo {
        assert cs[k] == bs[k] && cs[k + 1] == bs[k + 1] && !(bs[k].free && bs[k + 1].free);
      } else if k > lo {
        var j := k - lo - 1 + hi;
        assert cs[k] == bs[j] && cs[k + 1] == bs[j + 1] && !(bs[j].free && bs[j + 1].free);
      }
    }
  }

  /** Cutting a block in use off at `n` keeps the list canonical exactly when the block
      after it is not free. */
  lemma TrimCanonical(bs: seq<Block>, i: nat, n: nat)
    requires Canonical(bs) && i < |bs| && !bs[i].free && bs[i].size > n + HEADER + MIN_SPLIT
    ensures Canonical(Split(bs, i, n)) <==> !(i + 1 < |bs| && bs[i + 1].free)
  {
    var cs := Split(bs, i, n);
    if i + 1 < |bs| && bs[i + 1].free {
      assert cs[i + 1].free && cs[i + 2] == bs[i + 1];
    } else {
      forall k | 0 <= k < |cs| - 1 ensures !(cs[k].free && cs[k + 1].free) {
        if k < i {
          assert cs[k].free == bs[k].free;
        } else if k > i + 1 {
          assert cs[k] == bs[k - 1] && cs[k + 1] == bs[k] && !(bs[k - 1].free && bs[k].free);
        }
      }
    }
  }

  /** Where two canonical lists over the same blocks in use agree, they agree on the next
      block too. */
  lemma SameNextBlock(bs: seq<Block>, cs: seq<Block>, k: nat)
    requires Tiles(bs) && Tiles(cs) && Canonical(bs) && Canonical(cs) && Live(bs) == Live(cs)
    requires k < |bs| && k < |cs| && bs[k].addr == cs[k].addr
    ensures bs[k] == cs[k]
  {
    if !bs[k].free {
      UsedBlockShared(bs, cs, k, k);
    } else if !cs[k].free {
      UsedBlockShared(cs, bs, k, k);
    } else {
      FreeBlockReaches(bs, cs, k);
      FreeBlockReaches(cs, bs, k);
    }
  }

  lemma UsedBlockShared(bs: seq<Block>, cs: seq<Block>, i: nat, k: nat)
    requires Tiles(cs) && Live(bs) <= Live(cs)
    requires i < |bs| && k < |cs| && !bs[i].free && bs[i].addr == cs[k].addr
    ensures cs[k] == bs[i]
  {
    assert bs[i] in Live(bs);
    var j :| 0 <= j < |cs| && cs[j] == bs[i];
    AddrInjective(cs, j, k);
  }

  /** A free block of `cs` ends no later than the free block of `bs` at the same address. */
  lemma FreeBlockReaches(bs: seq<Block>, cs: seq<Block>, k: nat)
    requires Tiles(bs) && Tiles(cs) && Canonical(bs) && Live(bs) == Live(cs)
    requires k < |bs| && k < |cs| && bs[k].addr == cs[k].addr && bs[k].free && cs[k].free
    ensures cs[k].size <= bs[k].size
  {
    if k + 1 == |bs| {
      BlockInHeap(cs, k);
    } else {
      assert bs[k].free && bs[k + 1].addr == bs[k].End();
      assert bs[k + 1] in Live(bs);
      var j :| 0 <= j < |cs| && cs[j] == bs[k + 1];
      if j < k {
        BlocksApart(cs, j, k);
      } else if j > k {
        BlocksApart(cs, k, j);
      }
    }
  }

  /** A canonical list is a function of the blocks in use. */
  lemma {:induction false} CanonicalPrefix(bs: seq<Block>, cs: seq<Block>, k: nat)
    requires Tiles(bs) && Tiles(cs) && Canonical(bs) && Canonical(cs) && Live(bs) == Live(cs)
    requires k <= |bs| && k <= |cs|
    ensures bs[..k] == cs[..k]
  {
    if k > 0 {
      CanonicalPrefix(bs, cs, k - 1);
      if k > 1 {
        assert bs[k - 2] == bs[..k - 1][k - 2] == cs[k - 2];
        assert bs[k - 1].addr == bs[k - 2].End() && cs[k - 1].addr == cs[k - 2].End();
      }
      SameNextBlock(bs, cs, k - 1);
    }
  }

  lemma CanonicalUnique(bs: seq<Block>, cs: seq<Block>)
    requires Tiles(bs) && Tiles(cs) && Canonical(bs) && Canonical(cs) && Live(bs) == Live(cs)
    ensures bs == cs
  {
    if |bs| < |cs| {
      CanonicalPrefix(bs, cs, |bs|);
      assert bs[|bs| - 1] == bs[..|bs|][|bs| - 1] == cs[|bs| - 1];
      BlocksApart(cs, |bs| - 1, |cs| - 1);
    } else {
      CanonicalPrefix(bs, cs, |cs|);
      if |cs| < |bs| {
        assert cs[|cs| - 1] == cs[..|cs|][|cs| - 1] == bs[|cs| - 1];
        BlocksApart(bs, |cs| - 1, |bs| - 1);
      }
    }
  }

  // ----- freeing, with the list taken apart around the run

  /** The free block that a list of neighbouring blocks merges into. */
  function MergeAll(run: seq<Block>): Block
    requires |run| > 0
  {
    Merged(run, 0, |run|)
  }

  ghost predicate AllFree(bs: seq<Block>) {
    forall k {:trigger bs[k].free} :: 0 <= k < |bs| ==> bs[k].free
  }

  /** A list that a run of free blocks can stop at. */
  ghost predicate Stops(before: seq<Block>, after: seq<Block>) {
    (|before| > 0 ==> !before[|before| - 1].free) && (|after| > 0 ==> !after[0].free)
  }

  lemma MiddlePiece(before: seq<Block>, run: seq<Block>, after: seq<Block>)
    requires |run| > 0
    ensures var bs, lo, hi := before + run + after, |before|, |before| + |run|;
      bs[..lo] == before && bs[hi..] == after && Merged(bs, lo, hi) == MergeAll(run)
  {
    var bs := before + run + after;
    assert bs[|before|] == run[0] && bs[|before| + |run| - 1] == run[|run| - 1];
  }

  /** All of `run` but block `r` is free. */
  ghost predicate FreeBut(run: seq<Block>, r: nat) {
    r < |run| && forall k {:trigger run[k].free} :: 0 <= k < |run| && k != r ==> run[k].free
  }

  lemma FreeRun(before: seq<Block>, run: seq<Block>, r: nat, after: seq<Block>)
    requires FreeBut(run, r) && Stops(before, after)
    ensures FreeBlocks(before + run + after, |before| + r) == before + [MergeAll(run)] + after
  {
    var bs, lo, hi := before + run + after, |before|, |before| + |run|;
    hide *;
    RunInPlace(before, run, r, after);
    FreeIs(bs, lo + r, lo, hi);
    MiddlePiece(before, run, after);
  }

  lemma RunInPlace(before: seq<Block>, run: seq<Block>, r: nat, after: seq<Block>)
    requires FreeBut(run, r) && Stops(before, after)
    ensures IsRun(before + run + after, |before| + r, |before|, |before| + |run|)
  {
    var bs, lo := before + run + after, |before|;
    assert forall k {:trigger bs[k].free} :: lo <= k < lo + |run| ==> bs[k] == run[k - lo];
  }

  lemma FreeButOne(p: seq<Block>, b: Block, q: seq<Block>)
    requires AllFree(p) && AllFree(q)
    ensures FreeBut(p + [b] + q, |p|)
  {}

  /** Freeing `b` merges it with the free blocks `p` before it and `q` after it. */
  lemma FreeBetween(before: seq<Block>, p: seq<Block>, b: Block, q: seq<Block>, after: seq<Block>)
    requires AllFree(p) && AllFree(q) && Stops(before, after)
    ensures FreeBlocks(before + (p + [b] + q) + after, |before| + |p|) == before + [MergeAll(p + [b] + q)] + after
  {
    hide *;
    FreeButOne(p, b, q);
    FreeRun(before, p + [b] + q, |p|, after);
  }

  /** The list taken apart around block `i`. */
  lemma RunParts(bs: seq<Block>, i: nat) returns (before: seq<Block>, p: seq<Block>, q: seq<Block>, after: seq<Block>)
    requires i < |bs|
    ensures bs == before + (p + [bs[i]] + q) + after && |before| + |p| == i
    ensures AllFree(p) && AllFree(q) && Stops(before, after)
    ensures |before| == RunStart(bs, i) && |before| + |p| + 1 + |q| == RunEnd(bs, i)
  {
    var lo, hi := RunStart(bs, i), RunEnd(bs, i);
    before, p, q, after := bs[..lo], bs[lo..i], bs[i + 1..hi], bs[hi..];
    assert AllFree(p) && AllFree(q) && Stops(before, after);
    hide *;
    Slices(bs, lo, i, hi);
    assert bs == before + bs[lo..hi] + after;
  }

  lemma Slices(bs: seq<Block>, lo: nat, i: nat, hi: nat)
    requires lo <= i < hi <= |bs|
    ensures bs[lo..i] + [bs[i]] + bs[i + 1..hi] == bs[lo..hi]
  {}

  // ----- freeing what was just allocated

  lemma AllocShape(u: seq<Block>, b: Block, v: seq<Block>, n: nat)
    ensures AllocBlocks(u + [b] + v, |u|, n) ==
            if b.size > n + HEADER + MIN_SPLIT then
              u + [Block(b.addr, n, false)] + ([Block(b.Payload() + n, b.size - n - HEADER, true)] + v)
            else
              u + [b.(free := false)] + v
  {
    var bs, i := u + [b] + v, |u|;
    assert bs[i] == b && bs[..i] == u && bs[i + 1..] == v;
  }

  /** Freeing right after allocating merges the run around the block that was taken. */
  lemma FreeAfterAlloc(before: seq<Block>, p: seq<Block>, b: Block, q: seq<Block>, after: seq<Block>, n: nat)
    requires AllFree(p) && AllFree(q) && Stops(before, after) && n <= b.size
    ensures var bs, i := before + (p + [b] + q) + after, |before| + |p|;
      && i < |bs| && bs[i] == b
      && FreeBlocks(AllocBlocks(bs, i, n), i) == before + [MergeAll(p + [b] + q)] + after
  {
    hide FreeBlocks, AllocBlocks, MergeAll, AllFree, Stops;
    Around(before, p, b, q, after);
    AllocShape(before + p, b, q + after, n);
    RegroupRun(before, p, b, q, after);
    FreeAfterCut(p, b, q, n);
    if b.size > n + HEADER + MIN_SPLIT {
      var rest := Block(b.Payload() + n, b.size - n - HEADER, true);
      RegroupRun(before, p, Block(b.addr, n, false), [rest] + q, after);
      FreeHead(rest, q, after);
      FreeBetween(before, p, Block(b.addr, n, false), [rest] + q, after);
    } else {
      RegroupRun(before, p, b.(free := false), q, after);
      FreeBetween(before, p, b.(free := false), q, after);
    }
  }

  lemma FreeHead(b: Block, q: seq<Block>, after: seq<Block>)
    requires b.free && AllFree(q)
    ensures AllFree([b] + q) && [b] + (q + after) == [b] + q + after
  {}

  lemma RegroupRun(a: seq<Block>, p: seq<Block>, b: Block, q: seq<Block>, z: seq<Block>)
    ensures a + (p + [b] + q) + z == (a + p) + [b] + (q + z)
  {}

  /** The run has the same ends whether or not its middle block was cut. */
  lemma FreeAfterCut(p: seq<Block>, b: Block, q: seq<Block>, n: nat)
    ensures b.size > n + HEADER + MIN_SPLIT ==>
      MergeAll(p + [Block(b.addr, n, false)] + ([Block(b.Payload() + n, b.size - n - HEADER, true)] + q)) ==
      MergeAll(p + [b] + q)
    ensures MergeAll(p + [b.(free := false)] + q) == MergeAll(p + [b] + q)
  {}

  lemma MergeOne(b: Block)
    requires b.free
    ensures MergeAll([b]) == b
  {}

  /** `kfree` directly after a successful `kmalloc` restores the block list exactly when
      the block taken had no free neighbour. */
  lemma FreeUndoesAlloc(bs: seq<Block>, i: nat, n: nat)
    requires i < |bs| && bs[i].free && n <= bs[i].size
    ensures FreeBlocks(AllocBlocks(bs, i, n), i) == bs <==>
            !(i > 0 && bs[i - 1].free) && !(i + 1 < |bs| && bs[i + 1].free)
  {
    var before, p, q, after := RunParts(bs, i);
    FreeAfterAlloc(before, p, bs[i], q, after, n);
    hide FreeBlocks, AllocBlocks, RunStart, RunEnd, MergeAll;
    if |p| == 0 && |q| == 0 {
      MergeOne(bs[i]);
      assert p + [bs[i]] + q == [bs[i]];
    } else {
      assert |before + [MergeAll(p + [bs[i]] + q)] + after| < |bs|;
    }
  }

  // ----- freeing two blocks

  lemma MergeAllEnd(bs: seq<Block>, lo: nat, hi: nat)
    requires Tiles(bs) && lo < hi <= |bs|
    ensures MergeAll(bs[lo..hi]).End() == bs[hi - 1].End()
  {
    if lo < hi - 1 {
      BlocksApart(bs, lo, hi - 1);
    }
  }

  lemma Regroup(a: seq<Block>, b: seq<Block>, c: seq<Block>, d: seq<Block>, e: seq<Block>)
    ensures a + b + (c + d + e) == (a + b + c) + d + e
  {}

  lemma Around(a: seq<Block>, p: seq<Block>, b: Block, q: seq<Block>, z: seq<Block>)
    ensures |a + (p + [b] + q) + z| == |a| + |p| + 1 + |q| + |z|
    ensures (a + (p + [b] + q) + z)[|a| + |p|] == b
  {}

  /** The two results of freeing `b` from `before + run + after`: what `FreeBetween` says,
      with the position of the freed block. */
  ghost predicate FreesTo(bs: seq<Block>, i: nat, b: Block, cs: seq<Block>) {
    i < |bs| && bs[i] == b && FreeBlocks(bs, i) == cs
  }

  lemma FreesRun(a: seq<Block>, p: seq<Block>, b: Block, q: seq<Block>, z: seq<Block>)
    requires AllFree(p) && AllFree(q) && Stops(a, z)
    ensures FreesTo(a + (p + [b] + q) + z, |a| + |p|, b, a + [MergeAll(p + [b] + q)] + z)
  {
    FreeBetween(a, p, b, q, z);
    Around(a, p, b, q, z);
  }

  lemma StopsAt(a: seq<Block>, m: seq<Block>, z: seq<Block>)
    requires |m| > 0
    ensures Stops(a, m) <==> Stops(a, m + z)
    ensures Stops(m, z) <==> Stops(a + m, z)
  {}

  /** Runs kept apart by blocks in use merge independently: the lower first, */
  lemma LowerThenUpper(a: seq<Block>, p: seq<Block>, b: Block, q: seq<Block>, m: seq<Block>,
                       p': seq<Block>, b': Block, q': seq<Block>, z: seq<Block>)
    requires AllFree(p) && AllFree(q) && AllFree(p') && AllFree(q') && |m| > 0 && Stops(a, m) && Stops(m, z)
    ensures var r, r' := p + [b] + q, p' + [b'] + q';
      var cs := a + [MergeAll(r)] + m + r' + z;
      && FreesTo(a + r + m + r' + z, |a| + |p|, b, cs)
      && FreesTo(cs, |a + [MergeAll(r)] + m| + |p'|, b', a + [MergeAll(r)] + m + [MergeAll(r')] + z)
  {
    hide FreesTo, MergeAll, AllFree, Stops;
    var r, r' := p + [b] + q, p' + [b'] + q';
    var x := MergeAll(r);
    Regroup(a, r, m, r', z);
    Regroup(a, [x], m, r', z);
    StopsAt(a, m, r');
    StopsAt(a, m + r', z);
    FreesRun(a, p, b, q, m + r' + z);
    StopsAt(a + [x], m, z);
    FreesRun(a + [x] + m, p', b', q', z);
  }

  /** or the upper first. */
  lemma UpperThenLower(a: seq<Block>, p: seq<Block>, b: Block, q: seq<Block>, m: seq<Block>,
                       p': seq<Block>, b': Block, q': seq<Block>, z: seq<Block>)
    requires AllFree(p) && AllFree(q) && AllFree(p') && AllFree(q') && |m| > 0 && Stops(a, m) && Stops(m, z)
    ensures var r, r' := p + [b] + q, p' + [b'] + q';
      var ds := a + r + m + [MergeAll(r')] + z;
      && FreesTo(a + r + m + r' + z, |a + r + m| + |p'|, b', ds)
      && FreesTo(ds, |a| + |p|, b, a + [MergeAll(r)] + m + [MergeAll(r')] + z)
  {
    hide FreesTo, MergeAll, AllFree, Stops;
    var r, r' := p + [b] + q, p' + [b'] + q';
    var y := MergeAll(r');
    StopsAt(a + r, m, z);
    FreesRun(a + r + m, p', b', q', z);
    Regroup(a, r, m, [y], z);
    StopsAt(a, m, [y]);
    StopsAt(a, m + [y], z);
    FreesRun(a, p, b, q, m + [y] + z);
    Regroup(a, [MergeAll(r)], m, [y], z);
  }

  /** Merging in two steps gives the same block as merging at once. */
  lemma MergeLeft(r: seq<Block>, s: seq<Block>)
    requires |r| > 0 && |s| > 0
    ensures MergeAll([MergeAll(r)] + s) == MergeAll(r + s)
  {}

  lemma MergeRight(s: seq<Block>, r: seq<Block>)
    requires |r| > 0 && |s| > 0 && MergeAll(r).End() == r[|r| - 1].End()
    ensures MergeAll(s + [MergeAll(r)]) == MergeAll(s + r)
  {}

  /** With only free blocks between them, everything merges into one block: the lower
      takes in the blocks up to the upper, which then takes that block in, */
  lemma LowerThenNeighbour(a: seq<Block>, p: seq<Block>, b: Block, q: seq<Block>, b': Block, q': seq<Block>,
                           z: seq<Block>)
    requires AllFree(p) && AllFree(q) && AllFree(q') && Stops(a, z) && !b'.free && (|a| > 0 ==> !a[|a| - 1].free)
    ensures var r, s := p + [b] + q, [b'] + q';
      && FreesTo(a + r + (s + z), |a| + |p|, b, a + [MergeAll(r)] + (s + z))
      && FreesTo(a + [MergeAll(r)] + (s + z), |a| + 1, b', a + [MergeAll(r + s)] + z)
  {
    hide FreesTo, MergeAll, AllFree, Stops;
    var r, s := p + [b] + q, [b'] + q';
    var x := MergeAll(r);
    MergeLeft(r, s);
    UsedHeadStops(a, b', q', z);
    MergedIsFree(r);
    FreesRun(a, p, b, q, s + z);
    FreesRun(a, [x], b', q', z);
    RegroupPair([x], b', q');
    RegroupTail(a, [x], s, z);
  }

  lemma UsedHeadStops(a: seq<Block>, b: Block, q: seq<Block>, z: seq<Block>)
    requires !b.free && (|a| > 0 ==> !a[|a| - 1].free)
    ensures Stops(a, [b] + q + z)
  {}

  lemma MergedIsFree(r: seq<Block>)
    requires |r| > 0
    ensures AllFree([MergeAll(r)])
  {}

  lemma RegroupPair(x: seq<Block>, b: Block, q: seq<Block>)
    ensures x + [b] + q == x + ([b] + q)
  {}

  lemma RegroupTail(a: seq<Block>, x: seq<Block>, s: seq<Block>, z: seq<Block>)
    ensures a + x + (s + z) == a + (x + s) + z
    ensures a + (x + s) + z == (a + x) + s + z
  {}

  /** or the upper takes in the blocks down to the lower, which then takes that block in. */
  lemma UpperThenNeighbour(a: seq<Block>, p: seq<Block>, b: Block, q: seq<Block>, b': Block, q': seq<Block>,
                           z: seq<Block>)
    requires AllFree(p) && AllFree(q) && AllFree(q') && Stops(a, z) && !b.free
    requires MergeAll(q + [b'] + q').End() == (q + [b'] + q')[|q| + |q'|].End()
    ensures var r, s := p + [b], q + [b'] + q';
      && FreesTo((a + r) + s + z, |a + r| + |q|, b', a + (r + [MergeAll(s)]) + z)
      && FreesTo(a + (r + [MergeAll(s)]) + z, |a| + |p|, b, a + [MergeAll(r + s)] + z)
  {
    var r, s := p + [b], q + [b'] + q';
    var y := MergeAll(s);
    MergeRight(r, s);
    assert Stops(a + r, z) && AllFree([y]);
    hide FreesTo, MergeAll, AllFree, Stops;
    FreesRun(a + r, q, b', q', z);
    RegroupTail(a, r, [y], z);
    FreesRun(a, p, b, [y], z);
  }

  lemma Slices5(bs: seq<Block>, l: nat, h: nat, l': nat, h': nat)
    requires l <= h <= l' <= h' <= |bs|
    ensures bs[..l] + bs[l..h] + bs[h..l'] + bs[l'..h'] + bs[h'..] == bs
  {}

  /** Two runs with blocks in use between them, as pieces of the list. */
  lemma ApartPieces(bs: seq<Block>, i: nat, l: nat, h: nat, j: nat, l': nat, h': nat)
    returns (a: seq<Block>, p: seq<Block>, q: seq<Block>, m: seq<Block>, p': seq<Block>, q': seq<Block>, z: seq<Block>)
    requires IsRun(bs, i, l, h) && IsRun(bs, j, l', h') && h < l'
    ensures bs == a + (p + [bs[i]] + q) + m + (p' + [bs[j]] + q') + z
    ensures |a| + |p| == i && |a| + |p| + 1 + |q| + |m| + |p'| == j && |m| > 0
    ensures AllFree(p) && AllFree(q) && AllFree(p') && AllFree(q') && Stops(a, m) && Stops(m, z)
  {
    a, p, q, m := bs[..l], bs[l..i], bs[i + 1..h], bs[h..l'];
    p', q', z := bs[l'..j], bs[j + 1..h'], bs[h'..];
    Slices(bs, l, i, h);
    Slices(bs, l', j, h');
    Slices5(bs, l, h, l', h');
  }

  lemma ApartCommute(bs: seq<Block>, i: nat, l: nat, h: nat, j: nat, l': nat, h': nat)
    returns (cs: seq<Block>, ds: seq<Block>, k: nat, k': nat, fs: seq<Block>)
    requires IsRun(bs, i, l, h) && IsRun(bs, j, l', h') && h < l'
    ensures FreesTo(bs, i, bs[i], cs) && FreesTo(cs, k, bs[j], fs)
    ensures FreesTo(bs, j, bs[j], ds) && FreesTo(ds, k', bs[i], fs)
  {
    hide *;
    var a, p, q, m, p', q', z := ApartPieces(bs, i, l, h, j, l', h');
    var r, r' := p + [bs[i]] + q, p' + [bs[j]] + q';
    LowerThenUpper(a, p, bs[i], q, m, p', bs[j], q', z);
    UpperThenLower(a, p, bs[i], q, m, p', bs[j], q', z);
    cs, ds := a + [MergeAll(r)] + m + r' + z, a + r + m + [MergeAll(r')] + z;
    k, k' := |a + [MergeAll(r)] + m| + |p'|, |a| + |p|;
    fs := a + [MergeAll(r)] + m + [MergeAll(r')] + z;
  }

  /** Two runs that only free blocks separate, as pieces of the list. */
  lemma NeighbourPieces(bs: seq<Block>, i: nat, l: nat, j: nat, h': nat)
    returns (a: seq<Block>, p: seq<Block>, q: seq<Block>, q': seq<Block>, z: seq<Block>)
    requires Tiles(bs) && IsRun(bs, i, l, j) && IsRun(bs, j, i + 1, h')
    ensures bs == a + (p + [bs[i]] + q) + ([bs[j]] + q' + z)
    ensures bs == (a + (p + [bs[i]])) + (q + [bs[j]] + q') + z
    ensures (p + [bs[i]] + q) + ([bs[j]] + q') == (p + [bs[i]]) + (q + [bs[j]] + q')
    ensures |a| + |p| == i && |a| + |p| + 1 + |q| == j
    ensures AllFree(p) && AllFree(q) && AllFree(q') && Stops(a, z) && (|a| > 0 ==> !a[|a| - 1].free)
    ensures MergeAll(q + [bs[j]] + q').End() == (q + [bs[j]] + q')[|q| + |q'|].End()
  {
    a, p, q, q', z := bs[..l], bs[l..i], bs[i + 1..j], bs[j + 1..h'], bs[h'..];
    hide *;
    NeighbourParts(bs, i, l, j, h');
    Slices(bs, i + 1, j, h');
    SlicesMeet(bs, l, i, j, h');
  }

  /** What the pieces inherit from the runs. */
  lemma NeighbourParts(bs: seq<Block>, i: nat, l: nat, j: nat, h': nat)
    requires Tiles(bs) && IsRun(bs, i, l, j) && IsRun(bs, j, i + 1, h')
    ensures AllFree(bs[l..i]) && AllFree(bs[i + 1..j]) && AllFree(bs[j + 1..h'])
    ensures Stops(bs[..l], bs[h'..]) && (l > 0 ==> !bs[..l][l - 1].free)
    ensures MergeAll(bs[i + 1..h']).End() == bs[i + 1..h'][h' - i - 2].End()
  {
    MergeAllEnd(bs, i + 1, h');
  }

  lemma NeighboursCommute(bs: seq<Block>, i: nat, l: nat, j: nat, h': nat)
    returns (cs: seq<Block>, ds: seq<Block>, k: nat, k': nat, fs: seq<Block>)
    requires Tiles(bs) && IsRun(bs, i, l, j) && IsRun(bs, j, i + 1, h') && !bs[i].free && !bs[j].free
    ensures FreesTo(bs, i, bs[i], cs) && FreesTo(cs, k, bs[j], fs)
    ensures FreesTo(bs, j, bs[j], ds) && FreesTo(ds, k', bs[i], fs)
  {
    hide *;
    var a, p, q, q', z := NeighbourPieces(bs, i, l, j, h');
    var r, s := p + [bs[i]] + q, [bs[j]] + q';
    LowerThenNeighbour(a, p, bs[i], q, bs[j], q', z);
    UpperThenNeighbour(a, p, bs[i], q, bs[j], q', z);
    cs, k := a + [MergeAll(r)] + (s + z), |a| + 1;
    ds, k' := a + (p + [bs[i]] + [MergeAll(q + [bs[j]] + q')]) + z, |a| + |p|;
    fs := a + [MergeAll(r + s)] + z;
  }

  /** Freeing blocks `i` and `j` gives the same list in either order. */
  lemma FreeListsCommute(bs: seq<Block>, i: nat, j: nat)
    returns (cs: seq<Block>, ds: seq<Block>, k: nat, k': nat, fs: seq<Block>)
    requires Tiles(bs) && i < j < |bs| && !bs[i].free && !bs[j].free
    ensures FreesTo(bs, i, bs[i], cs) && FreesTo(cs, k, bs[j], fs)
    ensures FreesTo(bs, j, bs[j], ds) && FreesTo(ds, k', bs[i], fs)
  {
    var l, h, l', h' := RunStart(bs, i), RunEnd(bs, i), RunStart(bs, j), RunEnd(bs, j);
    RunExists(bs, i);
    RunExists(bs, j);
    RunBounded(bs, i, l, h, j, l', h');
    hide *;
    if h < j {
      cs, ds, k, k', fs := ApartCommute(bs, i, l, h, j, l', h');
    } else {
      cs, ds, k, k', fs := NeighboursCommute(bs, i, l, j, h');
    }
  }

  lemma RunBounded(bs: seq<Block>, i: nat, l: nat, h: nat, j: nat, l': nat, h': nat)
    requires IsRun(bs, i, l, h) && IsRun(bs, j, l', h') && i < j && !bs[i].free && !bs[j].free
    ensures h <= j && (h < j ==> h < l') && (h == j ==> l' == i + 1)
  {}

  lemma SlicesMeet(bs: seq<Block>, l: nat, i: nat, j: nat, h': nat)
    requires l <= i < j < h' <= |bs|
    ensures var p, q, q' := bs[l..i], bs[i + 1..j], bs[j + 1..h'];
      && bs[..l] + (p + [bs[i]] + q) + ([bs[j]] + q' + bs[h'..]) == bs
      && bs[..l] + (p + [bs[i]]) + (q + [bs[j]] + q') + bs[h'..] == bs
      && (p + [bs[i]] + q) + ([bs[j]] + q') == (p + [bs[i]]) + (q + [bs[j]] + q')
  {}

  // ----- draining the heap

  lemma BlocksApartOrSame(bs: seq<Block>, i: nat)
    requires Tiles(bs) && i < |bs|
    ensures bs[0].Payload() <= bs[i].End()
  {
    if i > 0 {
      BlocksApart(bs, 0, i);
    }
  }

  /** Freeing the last block in use leaves exactly the block `mm_init` made. */
  lemma LastFreeRestoresHeap(bs: seq<Block>, i: nat)
    requires Tiles(bs) && i < |bs| && !bs[i].free && Live(bs) == {bs[i]}
    ensures FreeBlocks(bs, i) == Init.blocks
  {
    forall k | 0 <= k < |bs| && k != i ensures bs[k].free {
      if !bs[k].free {
        assert bs[k] in Live(bs);
        AddrInjective(bs, i, k);
      }
    }
    assert IsRun(bs, i, 0, |bs|);
    FreeIs(bs, i, 0, |bs|);
    BlocksApartOrSame(bs, |bs| - 1);
  }
}
