/** The block list as the allocator keeps it: sixteen-byte headers written into the
    heap's own bytes, linked by absolute pointers. */
module HeapMemory {
  import opened Machine
  import opened HeapBlocks

  // offsets of the fields of mem_block_t
  const SIZE := 0
  const IS_FREE := 4
  const NEXT := 8
  const PREV := 12

  predicate IsAddress(x: int) {
    HEAP_START <= x < HEAP_END
  }

  /** The heap byte at address `x`. */
  function At(m: seq<byte>, x: int): byte
    requires |m| == HEAP_SIZE && IsAddress(x)
  {
    m[x - HEAP_START]
  }

  predicate IsWordAddress(p: int) {
    HEAP_START <= p && p + 4 <= HEAP_END
  }

  /** The 32-bit word stored at address `p`. */
  function Word(m: seq<byte>, p: int): uint32
    requires |m| == HEAP_SIZE && IsWordAddress(p)
  {
    FromBytes(At(m, p), At(m, p + 1), At(m, p + 2), At(m, p + 3))
  }

  /** Memory seen as the word at every address; words at close addresses overlap. */
  type Words = int -> uint32

  ghost function WordsOf(m: seq<byte>): Words
    requires |m| == HEAP_SIZE
  {
    (p: int) => if IsWordAddress(p) then Word(m, p) else 0
  }

  predicate Overlap(p: int, q: int) {
    p < q + 4 && q < p + 4
  }

  /** `w'` is `w` with the word `v` stored at `p`, as far as that leaves words intact. */
  ghost predicate Stored(w: Words, w': Words, p: int, v: uint32) {
    w'(p) == v && forall q :: !Overlap(p, q) ==> w'(q) == w(q)
  }

  /** The bytes after storing word `v` at `p`. */
  function StoreWord(m: seq<byte>, p: int, v: uint32): (m': seq<byte>)
    requires |m| == HEAP_SIZE && IsWordAddress(p)
    ensures |m'| == HEAP_SIZE
  {
    var a := p - HEAP_START;
    m[a := ByteOf(v, 0)][a + 1 := ByteOf(v, 1)][a + 2 := ByteOf(v, 2)][a + 3 := ByteOf(v, 3)]
  }

  /** A store is seen at its own address and nowhere it does not overlap. */
  lemma StoreWordStores(m: seq<byte>, p: int, v: uint32)
    requires |m| == HEAP_SIZE && IsWordAddress(p)
    ensures Stored(WordsOf(m), WordsOf(StoreWord(m, p, v)), p, v)
    ensures SameBytesOutside(m, StoreWord(m, p, v), p, 4)
  {
    var m' := StoreWord(m, p, v);
    BytesOfWord(v);
    var a := p - HEAP_START;
    assert m'[a] == ByteOf(v, 0) && m'[a + 1] == ByteOf(v, 1) && m'[a + 2] == ByteOf(v, 2) && m'[a + 3] == ByteOf(v, 3);
    assert Word(m', p) == FromBytes(ByteOf(v, 0), ByteOf(v, 1), ByteOf(v, 2), ByteOf(v, 3));
  }

  /** The `n` bytes at `dest` in `m'` are the `n` bytes at `src` in `m`. */
  ghost predicate Copied(m: seq<byte>, src: int, m': seq<byte>, dest: int, n: nat)
    requires |m| == HEAP_SIZE && |m'| == HEAP_SIZE
    requires HEAP_START <= src && src + n <= HEAP_END && HEAP_START <= dest && dest + n <= HEAP_END
  {
    forall x :: dest <= x < dest + n ==> At(m', x) == At(m, x - dest + src)
  }

  lemma StoreWordKeeps(m: seq<byte>, p: int, v: uint32, q: int)
    requires |m| == HEAP_SIZE && IsWordAddress(p) && IsWordAddress(q) && !Overlap(p, q)
    ensures Word(StoreWord(m, p, v), q) == Word(m, q)
  {}

  /** Nothing but the `n` bytes from `p` differs. */
  ghost predicate SameBytesOutside(m: seq<byte>, m': seq<byte>, p: int, n: nat)
    requires |m| == HEAP_SIZE && |m'| == HEAP_SIZE
  {
    forall x :: IsAddress(x) && !(p <= x < p + n) ==> At(m', x) == At(m, x)
  }

  function StoreHeader(m: seq<byte>, a: int, size: uint32, isFree: bool, next: uint32, prev: uint32): (m': seq<byte>)
    requires |m| == HEAP_SIZE && HEAP_START <= a && a + HEADER <= HEAP_END
    ensures |m'| == HEAP_SIZE
  {
    StoreWord(StoreWord(StoreWord(StoreWord(m, a + SIZE, size), a + IS_FREE, if isFree then 1 else 0),
                        a + NEXT, next),
              a + PREV, prev)
  }

  lemma StoreHeaderStores(m: seq<byte>, a: int, size: uint32, isFree: bool, next: uint32, prev: uint32)
    requires |m| == HEAP_SIZE && HEAP_START <= a && a + HEADER <= HEAP_END
    ensures var m' := StoreHeader(m, a, size, isFree, next, prev);
      && HeaderIs(WordsOf(m'), Block(a, size, isFree), next, prev)
      && OnlyHeaderStored(WordsOf(m), WordsOf(m'), a)
      && SameBytesOutside(m, m', a, HEADER)
  {
    hide StoreWord, WordsOf;
    var flag: uint32 := if isFree then 1 else 0;
    var m1 := StoreWord(m, a + SIZE, size);
    var m2 := StoreWord(m1, a + IS_FREE, flag);
    var m3 := StoreWord(m2, a + NEXT, next);
    StoreWordStores(m, a + SIZE, size);
    StoreWordStores(m1, a + IS_FREE, flag);
    StoreWordStores(m2, a + NEXT, next);
    StoreWordStores(m3, a + PREV, prev);
  }

  ghost predicate OnlyHeaderStored(w: Words, w': Words, a: int) {
    forall q :: q + 4 <= a || a + HEADER <= q ==> w'(q) == w(q)
  }

  /** The header of `b` is in place, with these links. */
  ghost predicate HeaderIs(w: Words, b: Block, next: nat, prev: nat) {
    && w(b.addr + SIZE) == b.size
    && w(b.addr + IS_FREE) == (if b.free then 1 else 0)
    && w(b.addr + NEXT) == next
    && w(b.addr + PREV) == prev
  }

  ghost predicate HeaderOk(w: Words, bs: seq<Block>, i: nat)
    requires i < |bs|
  {
    HeaderIs(w, bs[i], Link(bs, i + 1), Link(bs, i - 1))
  }

  /** The words `w` hold the block list `bs`. */
  ghost predicate Represents(w: Words, bs: seq<Block>) {
    && Tiles(bs)
    && forall i {:trigger HeaderOk(w, bs, i)} :: 0 <= i < |bs| ==> HeaderOk(w, bs, i)
  }

  lemma RepresentsTiles(w: Words, bs: seq<Block>)
    requires Represents(w, bs)
    ensures Tiles(bs)
  {}

  predicate IsLink(p: int) {
    p == 0 || (HEAP_START <= p && p + HEADER <= HEAP_END)
  }

  /** What is read from the header of block `i`. */
  lemma HeaderFields(m: seq<byte>, bs: seq<Block>, i: nat)
    requires |m| == HEAP_SIZE && Represents(WordsOf(m), bs) && i < |bs|
    ensures HEAP_START <= bs[i].addr && bs[i].End() <= HEAP_END
    ensures Word(m, bs[i].addr + SIZE) == bs[i].size
    ensures Word(m, bs[i].addr + IS_FREE) == (if bs[i].free then 1 else 0)
    ensures Word(m, bs[i].addr + NEXT) == Link(bs, i + 1) && IsLink(Link(bs, i + 1))
    ensures Word(m, bs[i].addr + PREV) == Link(bs, i - 1) && IsLink(Link(bs, i - 1))
  {
    hide Word;
    assert HeaderOk(WordsOf(m), bs, i);
    BlockInHeap(bs, i);
    if i + 1 < |bs| {
      BlockInHeap(bs, i + 1);
    }
    if i > 0 {
      BlockInHeap(bs, i - 1);
    }
  }

  /** None of the header words at `a` differs between `w` and `w'`. */
  ghost predicate SameHeader(w: Words, w': Words, a: int) {
    && w'(a + SIZE) == w(a + SIZE) && w'(a + IS_FREE) == w(a + IS_FREE)
    && w'(a + NEXT) == w(a + NEXT) && w'(a + PREV) == w(a + PREV)
  }

  lemma Apart(bs: seq<Block>, i: nat, k: nat)
    requires Tiles(bs) && i < |bs| && k < |bs| && i != k
    ensures bs[i].End() <= bs[k].addr || bs[k].End() <= bs[i].addr
  {
    if i < k {
      BlocksApart(bs, i, k);
    } else {
      BlocksApart(bs, k, i);
    }
  }

  /** The four bytes at index `o`, least significant first. */
  function LittleEndian(m: seq<byte>, o: nat): int
    requires o + 4 <= |m|
  {
    var b0: int, b1: int, b2: int, b3: int := m[o], m[o + 1], m[o + 2], m[o + 3];
    b0 + 0x100 * b1 + 0x1_0000 * b2 + 0x100_0000 * b3
  }

  /** Where the header of a block lies in memory: size, flag, next and previous, as four
      little-endian words from its address on. */
  lemma HeaderBytes(m: seq<byte>, bs: seq<Block>, i: nat)
    requires |m| == 0x10_0000 && Represents(WordsOf(m), bs) && i < |bs|
    ensures var o := bs[i].addr - 0x20_0000;
      && 0 <= o && o + 16 <= |m|
      && LittleEndian(m, o) == bs[i].size
      && LittleEndian(m, o + 4) == (if bs[i].free then 1 else 0)
      && LittleEndian(m, o + 8) == (if i + 1 < |bs| then bs[i + 1].addr else 0)
      && LittleEndian(m, o + 12) == (if i > 0 then bs[i - 1].addr else 0)
  {
    hide WordsOf, Represents;
    HeaderFields(m, bs, i);
  }

  // ----- changing one flag

  lemma FlagRepresents(w: Words, w': Words, bs: seq<Block>, i: nat, free: bool)
    requires Represents(w, bs) && i < |bs|
    requires Stored(w, w', bs[i].addr + IS_FREE, if free then 1 else 0)
    ensures Represents(w', SetFree(bs, i, free))
  {
    var cs := SetFree(bs, i, free);
    SetFreeTiles(bs, i, free);
    forall k | 0 <= k < |cs| ensures HeaderOk(w', cs, k) {
      assert HeaderOk(w, bs, k);
      if k != i {
        Apart(bs, i, k);
      }
    }
  }

  /** Setting the flag of block `i` in memory sets it in the list. */
  lemma FlagStoreSets(m: seq<byte>, bs: seq<Block>, i: nat, free: bool)
    requires |m| == HEAP_SIZE && Represents(WordsOf(m), bs) && i < |bs| && IsWordAddress(bs[i].addr + IS_FREE)
    ensures var m' := StoreWord(m, bs[i].addr + IS_FREE, if free then 1 else 0);
      && Represents(WordsOf(m'), SetFree(bs, i, free))
      && SameBytesOutside(m, m', bs[i].addr + IS_FREE, 4)
      && Word(m', bs[i].addr + IS_FREE) == (if free then 1 else 0)
  {
    var v: uint32 := if free then 1 else 0;
    var m' := StoreWord(m, bs[i].addr + IS_FREE, v);
    StoreWordStores(m, bs[i].addr + IS_FREE, v);
    assert WordsOf(m')(bs[i].addr + IS_FREE) == Word(m', bs[i].addr + IS_FREE);
    hide WordsOf, StoreWord, Word;
    FlagRepresents(WordsOf(m), WordsOf(m'), bs, i, free);
  }

  /** A write inside a header leaves every payload byte. */
  lemma HeaderWriteKeeps(m: seq<byte>, m1: seq<byte>, m2: seq<byte>, bs: seq<Block>, i: nat, except: int)
    requires |m| == |m1| == |m2| == HEAP_SIZE && Tiles(bs) && i < |bs|
    requires PayloadsKept(m, m1, bs, except) && SameBytesOutside(m1, m2, bs[i].addr + IS_FREE, 4)
    ensures PayloadsKept(m, m2, bs, except)
  {
    forall k, x | 0 <= k < |bs| && k != except && bs[k].Contains(x) && IsAddress(x) ensures At(m2, x) == At(m, x) {
      HeaderPayloadApart(bs, i, k, x);
    }
  }

  // ----- cutting a block

  /** The words that cutting block `i` at `n` may change. */
  ghost predicate CutTouches(bs: seq<Block>, i: nat, n: nat, q: int)
    requires i < |bs|
  {
    || Overlap(bs[i].addr + SIZE, q)
    || Overlap(bs[i].addr + NEXT, q)
    || bs[i].Payload() + n - 4 < q < bs[i].Payload() + n + HEADER
    || (i + 1 < |bs| && Overlap(bs[i + 1].addr + PREV, q))
  }

  lemma CutKeepsHeader(w: Words, w': Words, bs: seq<Block>, i: nat, n: nat, k: nat)
    requires Tiles(bs) && i < |bs| && k < |bs| && k != i && k != i + 1 && n + HEADER <= bs[i].size
    requires forall q :: !CutTouches(bs, i, n, q) ==> w'(q) == w(q)
    ensures SameHeader(w, w', bs[k].addr)
  {
    Apart(bs, i, k);
    if i + 1 < |bs| {
      Apart(bs, i, i + 1);
      Apart(bs, i + 1, k);
    }
  }

  /** What cutting writes: the shortened header, the header of the rest, and the back
      link of the block after. */
  ghost predicate CutWrites(w: Words, bs: seq<Block>, i: nat, n: nat)
    requires i < |bs| && n + HEADER <= bs[i].size
  {
    var rest := Block(bs[i].Payload() + n, bs[i].size - n - HEADER, true);
    && HeaderIs(w, bs[i].(size := n), rest.addr, Link(bs, i - 1))
    && HeaderIs(w, rest, Link(bs, i + 1), bs[i].addr)
    && (i + 1 < |bs| ==> HeaderIs(w, bs[i + 1], Link(bs, i + 2), rest.addr))
  }

  /** Cutting leaves the header of every block but three as it was. */
  lemma CutKeepsBlock(w: Words, w': Words, bs: seq<Block>, i: nat, n: nat, j: nat, k: nat)
    requires Represents(w, bs) && i < |bs| && n + HEADER <= bs[i].size
    requires forall q :: !CutTouches(bs, i, n, q) ==> w'(q) == w(q)
    requires (k == j < i) || (k - 1 == j && i + 1 < j < |bs|)
    ensures HeaderOk(w', Cut(bs, i, n), k)
  {
    var cs := Cut(bs, i, n);
    assert HeaderOk(w, bs, j);
    CutKeepsHeader(w, w', bs, i, n, j);
    assert cs[k] == bs[j] && Link(cs, k + 1) == Link(bs, j + 1) && Link(cs, k - 1) == Link(bs, j - 1);
  }

  lemma CutRepresents(w: Words, w': Words, bs: seq<Block>, i: nat, n: nat)
    requires Represents(w, bs) && i < |bs|
    requires n + HEADER <= bs[i].size && CutWrites(w', bs, i, n)
    requires forall q :: !CutTouches(bs, i, n, q) ==> w'(q) == w(q)
    ensures Represents(w', Cut(bs, i, n))
  {
    var cs := Cut(bs, i, n);
    CutTiles(bs, i, n);
    forall k: nat | k < |cs| ensures HeaderOk(w', cs, k) {
      if k < i {
        CutKeepsBlock(w, w', bs, i, n, k, k);
      } else if k > i + 2 {
        CutKeepsBlock(w, w', bs, i, n, k - 1, k);
      } else {
        CutWritten(w', bs, i, n, k);
      }
    }
  }

  /** The writes of `split_block` one after the other: the new header, the back link of
      the block after it, then block `i`'s own link and size. */
  lemma CutSteps(w0: Words, w1: Words, w2: Words, w3: Words, w4: Words, bs: seq<Block>, i: nat, n: uint32)
    requires Represents(w0, bs) && i < |bs| && n + HEADER <= bs[i].size && bs[i].Payload() + n < TWO32
    requires HeaderIs(w1, Block(bs[i].Payload() + n, bs[i].size - n - HEADER, true), Link(bs, i + 1), bs[i].addr)
    requires OnlyHeaderStored(w0, w1, bs[i].Payload() + n)
    requires if i + 1 < |bs| then Stored(w1, w2, bs[i + 1].addr + PREV, bs[i].Payload() + n) else w2 == w1
    requires Stored(w2, w3, bs[i].addr + NEXT, bs[i].Payload() + n)
    requires Stored(w3, w4, bs[i].addr + SIZE, n)
    ensures Represents(w4, Cut(bs, i, n))
  {
    assert HeaderOk(w0, bs, i);
    if i + 1 < |bs| {
      assert HeaderOk(w0, bs, i + 1);
      assert bs[i + 1].addr == bs[i].End();
    }
    CutRepresents(w0, w4, bs, i, n);
  }

  /** The bytes after `split_block` has cut block `b` at `n`. */
  function CutStores(m: seq<byte>, b: Block, n: uint32, next: uint32): (m': seq<byte>)
    requires |m| == HEAP_SIZE && HEAP_START <= b.addr && n + HEADER <= b.size && b.End() <= HEAP_END
    requires IsLink(next)
    ensures |m'| == HEAP_SIZE
  {
    var rest := b.Payload() + n;
    var m1 := StoreHeader(m, rest, b.size - n - HEADER, true, next, b.addr);
    var m2 := if next != 0 then StoreWord(m1, next + PREV, rest) else m1;
    StoreWord(StoreWord(m2, b.addr + NEXT, rest), b.addr + SIZE, n)
  }

  lemma CutStoresCut(m: seq<byte>, bs: seq<Block>, i: nat, n: uint32)
    requires |m| == HEAP_SIZE && Represents(WordsOf(m), bs) && i < |bs| && n + HEADER <= bs[i].size
    requires HEAP_START <= bs[i].addr && bs[i].End() <= HEAP_END && IsLink(Link(bs, i + 1))
    ensures var m' := CutStores(m, bs[i], n, Link(bs, i + 1));
      Represents(WordsOf(m'), Cut(bs, i, n)) && PayloadsKept(m, m', bs, i)
    ensures forall x :: bs[i].Payload() <= x < bs[i].Payload() + n && IsAddress(x) ==>
              At(CutStores(m, bs[i], n, Link(bs, i + 1)), x) == At(m, x)
  {
    hide StoreWord, StoreHeader, WordsOf, Represents, Stored, HeaderIs, OnlyHeaderStored, SameBytesOutside, Cut, Tiles;
    RepresentsTiles(WordsOf(m), bs);
    if i + 1 < |bs| {
      BlockInHeap(bs, i + 1);
    }
    var a, rest, next := bs[i].addr, bs[i].Payload() + n, Link(bs, i + 1);
    var m1 := StoreHeader(m, rest, bs[i].size - n - HEADER, true, next, a);
    StoreHeaderStores(m, rest, bs[i].size - n - HEADER, true, next, a);
    var m2 := m1;
    if next != 0 {
      m2 := StoreWord(m1, next + PREV, rest);
      StoreWordStores(m1, next + PREV, rest);
    }
    var m3 := StoreWord(m2, a + NEXT, rest);
    StoreWordStores(m2, a + NEXT, rest);
    var m4 := StoreWord(m3, a + SIZE, n);
    StoreWordStores(m3, a + SIZE, n);
    CutSteps(WordsOf(m), WordsOf(m1), WordsOf(m2), WordsOf(m3), WordsOf(m4), bs, i, n);
    CutKeepsPayloads(m, m1, m2, m3, m4, bs, i, n);
  }

  /** Payload bytes of every block but `except` are the same in `m` and `m'`. */
  ghost predicate PayloadsKept(m: seq<byte>, m': seq<byte>, bs: seq<Block>, except: int)
    requires |m| == HEAP_SIZE && |m'| == HEAP_SIZE
  {
    forall k, x | 0 <= k < |bs| && k != except && bs[k].Contains(x) && IsAddress(x) :: At(m', x) == At(m, x)
  }

  /** No payload byte of these blocks differs. */
  ghost predicate BytesKept(m: seq<byte>, m': seq<byte>, kept: set<Block>)
    requires |m| == HEAP_SIZE && |m'| == HEAP_SIZE
  {
    forall b, x | b in kept && b.Contains(x) && IsAddress(x) :: At(m', x) == At(m, x)
  }

  lemma NoPayloadChanged(m: seq<byte>, bs: seq<Block>)
    requires |m| == HEAP_SIZE
    ensures BytesKept(m, m, Live(bs)) && PayloadsKept(m, m, bs, -1)
  {}

  /** Payloads kept by position are payloads of the blocks in use kept. */
  lemma PayloadsAreBytes(m: seq<byte>, m': seq<byte>, bs: seq<Block>, except: int)
    requires |m| == |m'| == HEAP_SIZE && PayloadsKept(m, m', bs, except)
    ensures 0 <= except < |bs| ==> BytesKept(m, m', Live(bs) - {bs[except]})
    ensures !(0 <= except < |bs| && !bs[except].free) ==> BytesKept(m, m', Live(bs))
  {
    forall b, x | b in Live(bs) && !(0 <= except < |bs| && b == bs[except]) && b.Contains(x) && IsAddress(x)
      ensures At(m', x) == At(m, x)
    {
      var k :| 0 <= k < |bs| && bs[k] == b;
    }
  }

  lemma BytesKeptSubset(m: seq<byte>, m': seq<byte>, a: set<Block>, b: set<Block>)
    requires |m| == |m'| == HEAP_SIZE && BytesKept(m, m', a) && b <= a
    ensures BytesKept(m, m', b)
  {}

  lemma CopiedInPlace(m: seq<byte>, m': seq<byte>, p: int, n: nat)
    requires |m| == |m'| == HEAP_SIZE && HEAP_START <= p && p + n <= HEAP_END
    requires forall x :: p <= x < p + n && IsAddress(x) ==> At(m', x) == At(m, x)
    ensures Copied(m, p, m', p, n)
  {}

  /** What a move keeps: after allocating (`m1`), copying (`m2`) and freeing (`m3`), every
      other block has its bytes and the new block `q` begins with those of `b`. */
  lemma MoveKeeps(m: seq<byte>, m1: seq<byte>, m2: seq<byte>, m3: seq<byte>, bs: seq<Block>, cs: seq<Block>,
                  b: Block, q: Block)
    requires |m| == |m1| == |m2| == |m3| == HEAP_SIZE
    requires Live(cs) == Live(bs) + {q} && q !in Live(bs) && b in Live(bs)
    requires HEAP_START <= b.addr && b.End() <= HEAP_END && HEAP_START <= q.addr && q.End() <= HEAP_END
    requires b.size <= q.size
    requires BytesKept(m, m1, Live(bs)) && BytesKept(m1, m2, Live(cs) - {q}) && BytesKept(m2, m3, Live(cs))
    requires Copied(m1, b.Payload(), m2, q.Payload(), b.size)
    ensures BytesKept(m, m3, Live(bs) - {b})
    ensures Copied(m, b.Payload(), m3, q.Payload(), b.size)
  {
    hide Live;
    forall x | q.Payload() <= x < q.Payload() + b.size
      ensures At(m3, x) == At(m, x - q.Payload() + b.Payload())
    {
      var y := x - q.Payload() + b.Payload();
      assert q.Contains(x) && b.Contains(y);
      assert At(m3, x) == At(m2, x) == At(m1, y) == At(m, y);
    }
  }

  lemma StoredIsRead(m: seq<byte>, p: int, v: uint32)
    requires |m| == HEAP_SIZE && IsWordAddress(p)
    ensures Word(StoreWord(m, p, v), p) == v
  {
    StoreWordStores(m, p, v);
    hide StoreWord, Word;
    assert WordsOf(StoreWord(m, p, v))(p) == Word(StoreWord(m, p, v), p);
  }

  lemma BytesKeptTwice(m0: seq<byte>, m1: seq<byte>, m2: seq<byte>, a: set<Block>, b: set<Block>)
    requires |m0| == |m1| == |m2| == HEAP_SIZE && BytesKept(m0, m1, a) && BytesKept(m1, m2, b)
    ensures BytesKept(m0, m2, a * b) && (a <= b ==> BytesKept(m0, m2, a))
  {}

  /** A write inside one payload leaves the list and every other payload. */
  lemma PayloadWriteKeeps(m: seq<byte>, m': seq<byte>, bs: seq<Block>, k: nat, lo: int, n: nat)
    requires |m| == |m'| == HEAP_SIZE && Represents(WordsOf(m), bs) && k < |bs|
    requires bs[k].Payload() <= lo && lo + n <= bs[k].End() && SameBytesOutside(m, m', lo, n)
    ensures Represents(WordsOf(m'), bs) && PayloadsKept(m, m', bs, k)
  {
    hide WordsOf;
    forall i, x | 0 <= i < |bs| && i != k && bs[i].Contains(x) && IsAddress(x) ensures At(m', x) == At(m, x) {
      Apart(bs, i, k);
    }
    forall i | 0 <= i < |bs| ensures HeaderOk(WordsOf(m'), bs, i) {
      assert HeaderOk(WordsOf(m), bs, i);
      if i != k {
        Apart(bs, i, k);
      }
      BlockInHeap(bs, i);
      SameHeaderBytes(m, m', bs[i].addr, lo, n);
    }
  }

  lemma SameHeaderBytes(m: seq<byte>, m': seq<byte>, a: int, lo: int, n: nat)
    requires |m| == |m'| == HEAP_SIZE && SameBytesOutside(m, m', lo, n)
    requires HEAP_START <= a && a + HEADER <= HEAP_END && (a + HEADER <= lo || lo + n <= a)
    ensures SameHeader(WordsOf(m), WordsOf(m'), a)
  {
    hide WordsOf;
    SameWord(m, m', a + SIZE, lo, n);
    SameWord(m, m', a + IS_FREE, lo, n);
    SameWord(m, m', a + NEXT, lo, n);
    SameWord(m, m', a + PREV, lo, n);
  }

  lemma SameWord(m: seq<byte>, m': seq<byte>, q: int, lo: int, n: nat)
    requires |m| == |m'| == HEAP_SIZE && SameBytesOutside(m, m', lo, n)
    requires IsWordAddress(q) && (q + 4 <= lo || lo + n <= q)
    ensures WordsOf(m')(q) == WordsOf(m)(q)
  {
    assert At(m', q) == At(m, q) && At(m', q + 1) == At(m, q + 1);
    assert At(m', q + 2) == At(m, q + 2) && At(m', q + 3) == At(m, q + 3);
  }

  /** The header writes of a cut leave every payload byte that stays in use. */
  lemma CutKeepsPayloads(m: seq<byte>, m1: seq<byte>, m2: seq<byte>, m3: seq<byte>, m4: seq<byte>,
                         bs: seq<Block>, i: nat, n: nat)
    requires |m| == |m1| == |m2| == |m3| == |m4| == HEAP_SIZE
    requires Tiles(bs) && i < |bs| && n + HEADER <= bs[i].size
    requires SameBytesOutside(m, m1, bs[i].Payload() + n, HEADER)
    requires if i + 1 < |bs| then SameBytesOutside(m1, m2, bs[i + 1].addr + PREV, 4) else m2 == m1
    requires SameBytesOutside(m2, m3, bs[i].addr + NEXT, 4) && SameBytesOutside(m3, m4, bs[i].addr + SIZE, 4)
    ensures PayloadsKept(m, m4, bs, i)
    ensures forall x :: bs[i].Payload() <= x < bs[i].Payload() + n && IsAddress(x) ==> At(m4, x) == At(m, x)
  {
    forall k, x | 0 <= k < |bs| && k != i && bs[k].Contains(x) && IsAddress(x) ensures At(m4, x) == At(m, x) {
      Apart(bs, i, k);
      if i + 1 < |bs| && k != i + 1 {
        Apart(bs, i + 1, k);
      }
    }
    if i + 1 < |bs| {
      BlocksApart(bs, i, i + 1);
    }
  }

  lemma CutWritten(w: Words, bs: seq<Block>, i: nat, n: nat, k: nat)
    requires i < |bs| && n + HEADER <= bs[i].size && CutWrites(w, bs, i, n)
    requires i <= k <= i + 2 && k <= |bs|
    ensures HeaderOk(w, Cut(bs, i, n), k)
  {
    var cs := Cut(bs, i, n);
    if k == i {
      assert cs[k] == bs[i].(size := n) && Link(cs, k - 1) == Link(bs, k - 1);
    } else if k == i + 1 {
      assert Link(cs, k + 1) == Link(bs, k) && Link(cs, k - 1) == bs[i].addr;
    } else {
      assert cs[k] == bs[k - 1] && Link(cs, k + 1) == Link(bs, k);
    }
  }

  // ----- merging block j + 1 into block j

  /** The words that merging blocks `j` and `j + 1` may change. */
  ghost predicate MergeTouches(bs: seq<Block>, j: nat, q: int)
    requires j + 1 < |bs|
  {
    || Overlap(bs[j].addr + SIZE, q)
    || Overlap(bs[j].addr + NEXT, q)
    || (j + 2 < |bs| && Overlap(bs[j + 2].addr + PREV, q))
  }

  ghost predicate OnlyMergeTouches(w: Words, w': Words, bs: seq<Block>, j: nat)
    requires j + 1 < |bs|
  {
    forall q :: !MergeTouches(bs, j, q) ==> w'(q) == w(q)
  }

  lemma MergeKeepsHeader(w: Words, w': Words, bs: seq<Block>, j: nat, k: nat)
    requires Tiles(bs) && j + 1 < |bs| && k < |bs| && k != j && k != j + 2
    requires OnlyMergeTouches(w, w', bs, j)
    ensures SameHeader(w, w', bs[k].addr)
  {
    Apart(bs, j, k);
    if j + 2 < |bs| {
      Apart(bs, j + 2, k);
    }
  }

  ghost predicate MergeWrites(w: Words, bs: seq<Block>, j: nat)
    requires j + 1 < |bs|
  {
    && HeaderIs(w, Block(bs[j].addr, bs[j].size + bs[j + 1].size + HEADER, true), Link(bs, j + 2), Link(bs, j - 1))
    && (j + 2 < |bs| ==> HeaderIs(w, bs[j + 2], Link(bs, j + 3), bs[j].addr))
  }

  /** Merging leaves the header of every block but two as it was. */
  lemma MergeKeepsBlock(w: Words, w': Words, bs: seq<Block>, j: nat, i: nat, k: nat)
    requires Represents(w, bs) && j + 1 < |bs|
    requires OnlyMergeTouches(w, w', bs, j)
    requires (k == i < j) || (k + 1 == i && j + 2 < i < |bs|)
    ensures HeaderOk(w', Collapse(bs, j, j + 2), k)
  {
    var cs := Collapse(bs, j, j + 2);
    assert HeaderOk(w, bs, i);
    MergeKeepsHeader(w, w', bs, j, i);
    assert cs[k] == bs[i] && Link(cs, k + 1) == Link(bs, i + 1) && Link(cs, k - 1) == Link(bs, i - 1);
  }

  lemma MergeWritten(w: Words, bs: seq<Block>, j: nat, k: nat)
    requires Tiles(bs) && j + 1 < |bs| && MergeWrites(w, bs, j)
    requires j <= k <= j + 1 && k + 1 < |bs|
    ensures HeaderOk(w, Collapse(bs, j, j + 2), k)
  {
    var cs := Collapse(bs, j, j + 2);
    assert bs[j + 1].addr == bs[j].End();
    if k == j {
      assert cs[k] == Block(bs[j].addr, bs[j].size + bs[j + 1].size + HEADER, true);
      assert Link(cs, k + 1) == Link(bs, j + 2) && Link(cs, k - 1) == Link(bs, j - 1);
    } else {
      assert cs[k] == bs[j + 2] && Link(cs, k + 1) == Link(bs, j + 3) && Link(cs, k - 1) == bs[j].addr;
    }
  }

  lemma MergeRepresents(w: Words, w': Words, bs: seq<Block>, j: nat)
    requires Represents(w, bs) && j + 1 < |bs| && MergeWrites(w', bs, j)
    requires OnlyMergeTouches(w, w', bs, j)
    ensures Represents(w', Collapse(bs, j, j + 2))
  {
    var cs := Collapse(bs, j, j + 2);
    CollapseTiles(bs, j, j + 2);
    forall k: nat | k < |cs| ensures HeaderOk(w', cs, k) {
      if k < j {
        MergeKeepsBlock(w, w', bs, j, k, k);
      } else if k > j + 1 {
        MergeKeepsBlock(w, w', bs, j, k + 1, k);
      } else {
        MergeWritten(w', bs, j, k);
      }
    }
  }

  /** The bytes after the block at `first` has taken in the block after it. */
  function AbsorbStores(m: seq<byte>, first: nat, size: uint32, next: uint32): (m': seq<byte>)
    requires |m| == HEAP_SIZE && HEAP_START <= first && first + HEADER <= HEAP_END && IsLink(next)
    ensures |m'| == HEAP_SIZE
  {
    var m2 := StoreWord(StoreWord(m, first + SIZE, size), first + NEXT, next);
    if next != 0 then StoreWord(m2, next + PREV, first) else m2
  }

  /** No byte outside the headers of blocks `j` and `k` differs (`k == |bs|`: only `j`'s). */
  ghost predicate OnlyHeaders(m: seq<byte>, m': seq<byte>, bs: seq<Block>, j: nat, k: nat)
    requires |m| == HEAP_SIZE && |m'| == HEAP_SIZE && j < |bs|
  {
    forall x | IsAddress(x) && !bs[j].HeaderContains(x) && !(k < |bs| && bs[k].HeaderContains(x)) ::
      At(m', x) == At(m, x)
  }

  lemma MergeSteps(w0: Words, w1: Words, w2: Words, w3: Words, bs: seq<Block>, j: nat)
    requires Represents(w0, bs) && j + 1 < |bs| && bs[j].free
    requires bs[j].size + bs[j + 1].size + HEADER < TWO32 && Link(bs, j + 2) < TWO32 && bs[j].addr < TWO32
    requires Stored(w0, w1, bs[j].addr + SIZE, bs[j].size + bs[j + 1].size + HEADER)
    requires Stored(w1, w2, bs[j].addr + NEXT, Link(bs, j + 2))
    requires if j + 2 < |bs| then Stored(w2, w3, bs[j + 2].addr + PREV, bs[j].addr) else w3 == w2
    ensures Represents(w3, Collapse(bs, j, j + 2))
    ensures OnlyMergeTouches(w0, w3, bs, j)
  {
    assert HeaderOk(w0, bs, j);
    if j + 2 < |bs| {
      assert HeaderOk(w0, bs, j + 2);
      BlocksApart(bs, j, j + 2);
    }
    MergeRepresents(w0, w3, bs, j);
  }

  /** What a merge of blocks `j` and `j + 1` reads. */
  lemma MergeReads(m: seq<byte>, bs: seq<Block>, j: nat)
    requires |m| == HEAP_SIZE && Represents(WordsOf(m), bs) && j + 1 < |bs|
    ensures IsLink(bs[j].addr) && HEAP_START <= bs[j].addr && IsLink(bs[j + 1].addr)
    ensures bs[j].Payload() <= bs[j + 1].addr
    ensures bs[j].End() <= HEAP_END && bs[j + 1].End() <= HEAP_END
    ensures bs[j].addr + bs[j].size + bs[j + 1].size + HEADER < HEAP_END
    ensures Wrap(Word(m, bs[j].addr + SIZE) + Word(m, bs[j + 1].addr + SIZE) + HEADER) ==
            bs[j].size + bs[j + 1].size + HEADER
    ensures Word(m, bs[j + 1].addr + NEXT) == Link(bs, j + 2) && IsLink(Link(bs, j + 2))
    ensures Link(bs, j + 2) != 0 ==> bs[j + 1].Payload() <= Link(bs, j + 2)
  {
    hide Word, WordsOf;
    HeaderFields(m, bs, j);
    HeaderFields(m, bs, j + 1);
    assert bs[j + 1].addr == bs[j].End();
    if j + 2 < |bs| {
      assert bs[j + 2].addr == bs[j + 1].End();
    }
  }

  lemma AbsorbStoresMerge(m: seq<byte>, bs: seq<Block>, j: nat)
    requires |m| == HEAP_SIZE && Represents(WordsOf(m), bs) && j + 1 < |bs| && bs[j].free
    requires HEAP_START <= bs[j].addr && bs[j].End() <= HEAP_END && bs[j + 1].End() <= HEAP_END
    requires bs[j].addr + bs[j].size + bs[j + 1].size + HEADER < HEAP_END && IsLink(Link(bs, j + 2))
    ensures var m' := AbsorbStores(m, bs[j].addr, bs[j].size + bs[j + 1].size + HEADER, Link(bs, j + 2));
      && Represents(WordsOf(m'), Collapse(bs, j, j + 2))
      && OnlyHeaders(m, m', bs, j, j + 2)
      && OnlyMergeTouches(WordsOf(m), WordsOf(m'), bs, j)
  {
    hide StoreWord, WordsOf, Represents, Stored, Collapse, Tiles, MergeTouches;
    RepresentsTiles(WordsOf(m), bs);
    if j + 2 < |bs| {
      BlockInHeap(bs, j + 2);
    }
    var size, next := bs[j].size + bs[j + 1].size + HEADER, Link(bs, j + 2);
    var m1 := StoreWord(m, bs[j].addr + SIZE, size);
    StoreWordStores(m, bs[j].addr + SIZE, size);
    var m2 := StoreWord(m1, bs[j].addr + NEXT, next);
    StoreWordStores(m1, bs[j].addr + NEXT, next);
    var m3 := m2;
    if next != 0 {
      m3 := StoreWord(m2, next + PREV, bs[j].addr);
      StoreWordStores(m2, next + PREV, bs[j].addr);
    }
    MergeSteps(WordsOf(m), WordsOf(m1), WordsOf(m2), WordsOf(m3), bs, j);
  }

  /** No block's flag word differs. */
  ghost predicate FlagsKept(w: Words, w': Words, bs: seq<Block>) {
    forall k {:trigger bs[k]} :: 0 <= k < |bs| ==> w'(bs[k].addr + IS_FREE) == w(bs[k].addr + IS_FREE)
  }

  /** Since the list `bs` in memory `m0`, no payload byte and no flag has changed. */
  ghost predicate OnlyLinksChanged(m0: seq<byte>, m: seq<byte>, bs: seq<Block>) {
    && |m0| == |m| == HEAP_SIZE
    && PayloadsKept(m0, m, bs, -1)
    && FlagsKept(WordsOf(m0), WordsOf(m), bs)
  }

  lemma NothingChanged(m: seq<byte>, bs: seq<Block>)
    requires |m| == HEAP_SIZE
    ensures OnlyLinksChanged(m, m, bs)
  {}

  /** A merge writes only inside two headers of the list it started from, so payloads
      and flags of that list survive it. */
  lemma MergeStepKeeps(m0: seq<byte>, m: seq<byte>, m': seq<byte>, bs: seq<Block>, cs: seq<Block>,
                       j: nat, a: nat, b: nat)
    requires |m0| == |m| == |m'| == HEAP_SIZE && Tiles(bs) && j + 1 < |cs| && a < |bs|
    requires OnlyLinksChanged(m0, m, bs)
    requires cs[j].addr == bs[a].addr && (j + 2 < |cs| ==> b < |bs| && cs[j + 2].addr == bs[b].addr)
    requires OnlyHeaders(m, m', cs, j, j + 2) && OnlyMergeTouches(WordsOf(m), WordsOf(m'), cs, j)
    ensures OnlyLinksChanged(m0, m', bs)
  {
    hide WordsOf;
    forall k, x | 0 <= k < |bs| && bs[k].Contains(x) && IsAddress(x) ensures At(m', x) == At(m0, x) {
      HeaderPayloadApart(bs, a, k, x);
      if j + 2 < |cs| {
        HeaderPayloadApart(bs, b, k, x);
      }
    }
    forall k | 0 <= k < |bs|
      ensures WordsOf(m')(bs[k].addr + IS_FREE) == WordsOf(m0)(bs[k].addr + IS_FREE)
    {
      if k != a {
        Apart(bs, a, k);
      }
      if j + 2 < |cs| && k != b {
        Apart(bs, b, k);
      }
      assert !MergeTouches(cs, j, bs[k].addr + IS_FREE);
    }
  }

  /** Freeing block `i` changes no payload byte, and its flag stays set even when its
      header is no longer part of the list. */
  lemma FreeKeeps(m: seq<byte>, m1: seq<byte>, m2: seq<byte>, bs: seq<Block>, i: nat)
    requires |m| == |m1| == |m2| == HEAP_SIZE && Tiles(bs) && i < |bs| && IsWordAddress(bs[i].addr + IS_FREE)
    requires SameBytesOutside(m, m1, bs[i].addr + IS_FREE, 4)
    requires OnlyLinksChanged(m1, m2, SetFree(bs, i, true))
    ensures PayloadsKept(m, m2, bs, -1)
    ensures Word(m2, bs[i].addr + IS_FREE) == Word(m1, bs[i].addr + IS_FREE)
  {
    hide Word;
    var cs := SetFree(bs, i, true);
    forall k, x | 0 <= k < |bs| && bs[k].Contains(x) && IsAddress(x) ensures At(m2, x) == At(m, x) {
      HeaderPayloadApart(bs, i, k, x);
      assert cs[k].Contains(x);
    }
    assert WordsOf(m2)(cs[i].addr + IS_FREE) == WordsOf(m1)(cs[i].addr + IS_FREE);
  }

  /** The header in front of a live pointer is that of its block, and says "used". */
  lemma LivePointer(m: seq<byte>, bs: seq<Block>, p: int)
    requires |m| == HEAP_SIZE && Represents(WordsOf(m), bs) && IsLive(bs, p)
    ensures HEAP_START + HEADER <= p <= HEAP_END
    ensures Word(m, p - HEADER + IS_FREE) == 0
    ensures Word(m, p - HEADER + SIZE) == bs[BlockAt(bs, p)].size
  {
    hide Word, WordsOf, Represents;
    HeaderFields(m, bs, BlockAt(bs, p));
  }

  lemma HeaderPayloadApart(bs: seq<Block>, i: nat, k: nat, x: int)
    requires Tiles(bs) && i < |bs| && k < |bs| && bs[k].Contains(x)
    ensures !bs[i].HeaderContains(x)
  {
    if i != k {
      Apart(bs, i, k);
    }
  }
}
