/** What the allocator calls mean for the blocks in use, whatever the list looked like. */
module HeapLaws {
  import opened Machine
  import opened HeapBlocks
  import opened HeapSpec

  // ----- rounding

  /** `(n + 7) & ~7` is the next multiple of 8, except for the seven sizes whose sum wraps:
      those are rounded to zero. */
  lemma RoundUpIsNextMultiple(n: uint32)
    ensures n <= MAX_REQUEST ==> n <= RoundUp8(n) < n + 8 && RoundUp8(n) % 8 == 0
    ensures n > MAX_REQUEST ==> RoundUp8(n) == 0
  {
    hide And;
    var m := Wrap(n + 7);
    assert IsPowerOfTwo(8) by {
      assert Pow2(3) == 8;
    }
    MaskRoundsDown(m, 8);
    assert RoundUp8(n) == m - m % 8;
  }

  // ----- which blocks are in use afterwards

  lemma {:induction false} SeqSplitAt<T>(s: seq<T>, i: nat)
    requires i < |s|
    ensures s == s[..i] + [s[i]] + s[i + 1..]
  {}

  lemma AllocLive(bs: seq<Block>, i: nat, n: nat)
    requires i < |bs| && bs[i].free && bs[i].size >= n
    ensures var b := AllocBlocks(bs, i, n)[i];
      && b.addr == bs[i].addr && !b.free && n <= b.size <= n + HEADER + MIN_SPLIT
      && Live(AllocBlocks(bs, i, n)) == Live(bs) + {b}
  {
    var ds := Split(bs, i, n);
    var cs := AllocBlocks(bs, i, n);
    SeqSplitAt(bs, i);
    SeqSplitAt(ds, i);
    SeqSplitAt(cs, i);
    assert cs[..i] == ds[..i] == bs[..i];
    assert cs[i + 1..] == ds[i + 1..];
    if bs[i].size > n + HEADER + MIN_SPLIT {
      var rest := Block(bs[i].Payload() + n, bs[i].size - n - HEADER, true);
      assert ds[i + 1..] == [rest] + bs[i + 1..];
    }
    forall b ensures b in Live(cs) <==> b in Live(bs) + {cs[i]} {
      assert b in cs <==> b in bs[..i] || b == cs[i] || b in cs[i + 1..];
      assert b in bs <==> b in bs[..i] || b == bs[i] || b in bs[i + 1..];
    }
  }

  lemma FreeBlocksIs(bs: seq<Block>, i: nat)
    requires i < |bs|
    ensures FreeBlocks(bs, i) == Collapse(SetFree(bs, i, true), RunStart(bs, i), RunEnd(bs, i))
  {}

  lemma FreeLive(bs: seq<Block>, i: nat)
    requires Tiles(bs) && i < |bs| && !bs[i].free
    ensures Live(FreeBlocks(bs, i)) == Live(bs) - {bs[i]}
  {
    var ds, lo, hi := SetFree(bs, i, true), RunStart(bs, i), RunEnd(bs, i);
    var cs := FreeBlocks(bs, i);
    hide Collapse, FreeBlocks, Tiles, RunStart, RunEnd;
    assert cs == Collapse(ds, lo, hi) by { FreeBlocksIs(bs, i); }
    forall b ensures b in Live(cs) <==> b in Live(bs) - {bs[i]} {
      if !b.free {
        CollapseMembers(ds, lo, hi, b);
        SetFreeMembers(bs, i, b);
      }
    }
  }

  /** Collapsing a run of free blocks loses no block in use and makes none. */
  lemma CollapseMembers(ds: seq<Block>, lo: nat, hi: nat, b: Block)
    requires lo < hi <= |ds| && !b.free
    requires forall k :: lo <= k < hi ==> ds[k].free
    ensures b in Collapse(ds, lo, hi) <==> b in ds
  {
    var cs := Collapse(ds, lo, hi);
    if b in ds {
      var k :| 0 <= k < |ds| && ds[k] == b;
      assert if k < lo then cs[k] == b else cs[k - hi + lo + 1] == b;
    }
    if b in cs {
      var k :| 0 <= k < |cs| && cs[k] == b;
      assert if k < lo then ds[k] == b else ds[k + hi - lo - 1] == b;
    }
  }

  lemma SetFreeMembers(bs: seq<Block>, i: nat, b: Block)
    requires Tiles(bs) && i < |bs| && !bs[i].free && !b.free
    ensures b in SetFree(bs, i, true) <==> b in bs && b != bs[i]
  {
    var ds := SetFree(bs, i, true);
    if b in ds {
      var k :| 0 <= k < |ds| && ds[k] == b;
      assert k != i && bs[k] == b;
      if b == bs[i] {
        AddrInjective(bs, i, k);
      }
    }
    if b in bs && b != bs[i] {
      var k :| 0 <= k < |bs| && bs[k] == b;
      assert ds[k] == b;
    }
  }

  // ----- the calls

  /** What a successful `kmalloc` hands out, as a block of the new list. */
  function Taken(s: State, n: uint32): (b: Block)
    requires Tiles(s.blocks) && Kmalloc(s, n).1 != 0
  {
    var i := FirstFit(s.blocks, RoundUp8(n));
    AllocBlocks(s.blocks, i, RoundUp8(n))[i]
  }

  /** `kmalloc` either changes nothing or puts one new block in use: the first free one
      that fits, at least as large as the rounded request and at most 48 bytes larger. */
  lemma KmallocTakes(s: State, n: uint32)
    requires Tiles(s.blocks)
    ensures Tiles(Kmalloc(s, n).0.blocks)
    ensures Kmalloc(s, n).1 == 0 ==> Kmalloc(s, n).0 == s
    ensures Kmalloc(s, n).1 != 0 ==>
      var s', b := Kmalloc(s, n).0, Taken(s, n);
      && b.Payload() == Kmalloc(s, n).1 && !b.free
      && RoundUp8(n) <= b.size <= RoundUp8(n) + HEADER + MIN_SPLIT
      && Live(s'.blocks) == Live(s.blocks) + {b} && b !in Live(s.blocks)
      && s'.used == Wrap(s.used + b.size) && s'.unused == Wrap(s.unused - b.size)
      && s'.allocs == Wrap(s.allocs + 1) && s'.frees == s.frees
  {
    hide And, Live, AllocBlocks;
    if Kmalloc(s, n).1 != 0 {
      var i := FirstFit(s.blocks, RoundUp8(n));
      AllocTiles(s.blocks, i, RoundUp8(n));
      AllocLive(s.blocks, i, RoundUp8(n));
      FreeNotLive(s.blocks, i, Taken(s, n));
    }
  }

  lemma FreeNotLive(bs: seq<Block>, i: nat, b: Block)
    requires Tiles(bs) && i < |bs| && bs[i].free && b.addr == bs[i].addr
    ensures b !in Live(bs)
  {
    if b in Live(bs) {
      var k :| 0 <= k < |bs| && bs[k] == b;
      AddrInjective(bs, i, k);
    }
  }

  /** A pointer is live exactly when some block in use has that payload. */
  lemma LiveMember(bs: seq<Block>, b: Block)
    requires Tiles(bs) && b in Live(bs)
    ensures IsLive(bs, b.Payload()) && bs[BlockAt(bs, b.Payload())] == b
  {
    var k :| 0 <= k < |bs| && bs[k] == b;
    BlockAtIs(bs, k);
  }

  /** Freeing takes exactly the freed block out of use. */
  lemma KfreeReleases(s: State, p: int)
    requires Tiles(s.blocks)
    ensures Tiles(Kfree(s, p).blocks)
    ensures !IsLive(s.blocks, p) ==> Kfree(s, p) == s
    ensures IsLive(s.blocks, p) ==>
      && Live(Kfree(s, p).blocks) == Live(s.blocks) - {s.blocks[BlockAt(s.blocks, p)]}
      && !IsLive(Kfree(s, p).blocks, p)
  {
    if IsLive(s.blocks, p) {
      var i := BlockAt(s.blocks, p);
      FreeTiles(s.blocks, i);
      FreeLive(s.blocks, i);
      hide Live, FreeBlocks;
      var cs := FreeBlocks(s.blocks, i);
      if IsLive(cs, p) {
        var b := cs[BlockAt(cs, p)];
        assert b in Live(cs) by { LiveIndex(cs, BlockAt(cs, p)); }
        LiveMember(s.blocks, b);
      }
    }
  }

  lemma LiveIndex(bs: seq<Block>, i: nat)
    requires i < |bs| && !bs[i].free
    ensures bs[i] in Live(bs)
  {}

  /** A successful `kmalloc` leaves every pointer that was live with its block. */
  lemma KmallocKeepsLive(s: State, n: uint32, p: int)
    requires Tiles(s.blocks) && IsLive(s.blocks, p)
    ensures var s' := Kmalloc(s, n).0;
      IsLive(s'.blocks, p) && s'.blocks[BlockAt(s'.blocks, p)] == s.blocks[BlockAt(s.blocks, p)]
    ensures Kmalloc(s, n).1 != p
  {
    hide And, Live, Kmalloc;
    KmallocTakes(s, n);
    var i := BlockAt(s.blocks, p);
    LiveIndex(s.blocks, i);
    LiveMember(Kmalloc(s, n).0.blocks, s.blocks[i]);
    if Kmalloc(s, n).1 == p {
      LiveMember(Kmalloc(s, n).0.blocks, Taken(s, n));
    }
  }

  // ----- the overflow check of kcalloc

  /** Dividing the wrapped product by `count` gives `size` back exactly when the product
      did not wrap. */
  lemma OverflowCheck(count: uint32, size: uint32)
    requires count > 0
    ensures Wrap(count * size) / count == size <==> count * size < TWO32
  {
    var total := Wrap(count * size);
    MulNonNegative(count, size);
    DivideDown(total, count);
    if count * size < TWO32 {
      DivModUnique(total, count, size, 0);
    }
  }

  lemma DivideDown(x: nat, d: nat)
    requires d > 0
    ensures d * (x / d) <= x
  {
    assert x == d * (x / d) + x % d;
  }

  lemma MulNonNegative(x: nat, y: nat)
    ensures x * y >= 0
  {}

  // ----- aligned addresses

  lemma AlignmentTest(alignment: uint32)
    ensures (alignment == 0 || And(alignment, alignment - 1) != 0) <==> !IsPowerOfTwo(alignment)
  {
    if alignment != 0 {
      PowerOfTwoTest(alignment);
    }
  }

  /** Adding `alignment - 1` and masking gives the least multiple of the alignment at or
      above `raw + 4`. */
  lemma AlignedAddress(raw: uint32, alignment: uint32)
    requires IsPowerOfTwo(alignment) && raw + PTR_SIZE + alignment - 1 < TWO32
    ensures var p := And(Wrap(raw + PTR_SIZE + alignment - 1), Not(alignment - 1));
      raw + PTR_SIZE <= p < raw + PTR_SIZE + alignment && p % alignment == 0
  {
    hide And;
    var x := raw + PTR_SIZE + alignment - 1;
    MaskRoundsDown(x, alignment);
    var q, r := x / alignment, x % alignment;
    assert x == alignment * q + r;
    DivModUnique(x - r, alignment, q, 0);
  }
}
