/**
 The heap's blocks as memory holds them: each starts with a 16-byte header, the
 size as a 64-bit word and then the free flag. The ghost map names the blocks.
 */
module HeapBlocks {
  import opened Bits
  import opened Words
  import opened Rounding

  /** sizeof(HeapBlock) */
  const HEADER: nat := 16

  datatype Block = Block(size: nat, free: bool)

  type Memory = seq<Byte>
  type Blocks = map<nat, Block>

  function SizeAt(m: Memory, a: nat): nat
    requires a + HEADER <= |m|
  {
    WordAt(m, a, 8)
  }

  function FreeAt(m: Memory, a: nat): bool
    requires a + HEADER <= |m|
  {
    m[a + 8] != 0
  }

  function PutSize(m: Memory, a: nat, n: nat): (r: Memory)
    requires a + HEADER <= |m|
    ensures |r| == |m|
    ensures forall x: nat | x < |m| && !(a <= x < a + 8) :: r[x] == m[x]
  {
    Put(m, a, Little(n, 8))
  }

  function PutFree(m: Memory, a: nat, free: bool): (r: Memory)
    requires a + HEADER <= |m|
    ensures |r| == |m|
    ensures forall x: nat | x < |m| && x != a + 8 :: r[x] == m[x]
  {
    m[a + 8 := if free then 1 else 0]
  }

  /** struct HeapBlock in memory: eight bytes of size, lowest first, and then the free flag. */
  lemma HeaderBytes(m: Memory, a: nat, size: nat, free: bool, x: nat)
    requires a + HEADER <= |m| && size < WORD && x < |m|
    ensures var r := PutFree(PutSize(m, a, size), a, free);
            && SizeAt(r, a) == size && FreeAt(r, a) == free
            && r[x] == if a <= x < a + 8 then size / Pow2(8 * (x - a)) % 256
                       else if x == a + 8 then (if free then 1 else 0) else m[x]
  {
    hide Little, Value, Pow2;
    var m1 := PutSize(m, a, size);
    Pow2Large();
    ValueLittle(size, 8);
    assert m1[a..a + 8] == Little(size, 8);
    assert PutFree(m1, a, free)[a..a + 8] == m1[a..a + 8];
    if a <= x < a + 8 {
      LittleByte(size, 8, x - a);
    }
  }

  // ----- The invariant ------------------------------------------------------------------

  /** One block is well formed: a power of two, inside the heap, and the next block starts where it ends. */
  ghost predicate Linked(bs: Blocks, head: nat, tail: nat, a: nat)
    requires a in bs
  {
    && head <= a && HEADER <= bs[a].size && Power(bs[a].size) && a + bs[a].size <= tail
    && (a + bs[a].size in bs || a + bs[a].size == tail)
  }

  /** Block a ends before block b starts. */
  ghost predicate Ordered(bs: Blocks, a: nat, b: nat)
    requires a in bs
  {
    a + bs[a].size <= b
  }

  /** The blocks tile [head, tail). */
  ghost predicate Chain(bs: Blocks, head: nat, tail: nat) {
    && 0 < head < tail && head in bs
    && (forall a {:trigger Linked(bs, head, tail, a)} | a in bs :: Linked(bs, head, tail, a))
    && (forall a, b {:trigger Ordered(bs, a, b)} | a in bs && b in bs && a < b :: Ordered(bs, a, b))
  }

  ghost predicate HeaderAt(m: Memory, bs: Blocks, a: nat)
    requires a in bs
  {
    a + HEADER <= |m| && SizeAt(m, a) == bs[a].size && FreeAt(m, a) == bs[a].free
  }

  ghost predicate Headers(m: Memory, bs: Blocks) {
    forall a {:trigger HeaderAt(m, bs, a)} | a in bs :: HeaderAt(m, bs, a)
  }

  ghost predicate Layout(m: Memory, bs: Blocks, head: nat, tail: nat) {
    Chain(bs, head, tail) && Headers(m, bs) && tail <= |m| < WORD
  }

  /** Addresses of the blocks in use. */
  ghost function Used(bs: Blocks): set<nat> {
    set a | a in bs && !bs[a].free
  }

  /** All bytes from a on, n of them, are the same in both memories. */
  ghost predicate SameBytes(m: Memory, m': Memory, a: nat, n: nat) {
    |m'| == |m| && forall x: nat | a <= x < a + n && x < |m| :: m'[x] == m[x]
  }

  /** Blocks in use keep their place, size and bytes, and so does all memory outside the heap. */
  ghost predicate Keeps(m: Memory, bs: Blocks, m': Memory, bs': Blocks, head: nat, tail: nat) {
    && (forall a | a in bs && !bs[a].free :: a in bs' && bs'[a] == bs[a] && SameBytes(m, m', a, bs[a].size))
    && SameBytes(m, m', 0, head) && SameBytes(m, m', tail, |m|)
  }

  /** A block in use that is kept: same place, same size, same bytes. */
  lemma KeptBlock(m: Memory, bs: Blocks, m': Memory, bs': Blocks, head: nat, tail: nat, a: nat)
    requires Keeps(m, bs, m', bs', head, tail) && a in bs && !bs[a].free && a + bs[a].size <= |m|
    ensures a in bs' && bs'[a].size == bs[a].size && !bs'[a].free && |m'| == |m|
    ensures m'[a..a + bs[a].size] == m[a..a + bs[a].size]
  {
  }

  lemma KeepsSelf(m: Memory, bs: Blocks, head: nat, tail: nat)
    ensures Keeps(m, bs, m, bs, head, tail)
  {
  }

  lemma KeepsTwice(m0: Memory, b0: Blocks, m1: Memory, b1: Blocks, m2: Memory, b2: Blocks, head: nat, tail: nat)
    requires Keeps(m0, b0, m1, b1, head, tail) && Keeps(m1, b1, m2, b2, head, tail)
    ensures Keeps(m0, b0, m2, b2, head, tail)
  {
    assert |m1| == |m0|;
    forall a | a in b0 && !b0[a].free ensures a in b2 && b2[a] == b0[a] && SameBytes(m0, m2, a, b0[a].size) {
      assert SameBytes(m0, m1, a, b0[a].size) && SameBytes(m1, m2, a, b0[a].size);
    }
  }

  /** The same across a step that may change one block that was not in use at the start. */
  lemma KeepsThen(m0: Memory, b0: Blocks, m1: Memory, b1: Blocks, m2: Memory, b2: Blocks, head: nat, tail: nat, a: nat)
    requires Keeps(m0, b0, m1, b1, head, tail) && a in b1 && a !in Used(b0)
    requires Keeps(m1, Flagged(b1, a, true), m2, b2, head, tail)
    ensures Keeps(m0, b0, m2, b2, head, tail)
  {
    assert |m1| == |m0|;
    forall c | c in b0 && !b0[c].free ensures c in b2 && b2[c] == b0[c] && SameBytes(m0, m2, c, b0[c].size) {
      assert c != a && c in Flagged(b1, a, true) && Flagged(b1, a, true)[c] == b0[c];
      assert SameBytes(m0, m1, c, b0[c].size) && SameBytes(m1, m2, c, b0[c].size);
    }
  }

  /** What keeps all blocks in use keeps all but one. */
  lemma KeepsFewer(m: Memory, bs: Blocks, m': Memory, bs': Blocks, head: nat, tail: nat, a: nat)
    requires Keeps(m, bs, m', bs', head, tail) && a in bs && a in bs'
    ensures Keeps(m, Flagged(bs, a, true), m', Flagged(bs', a, true), head, tail)
  {
  }

  // ----- What the invariant means ----------------------------------------------------------

  /** Every address of the heap lies in exactly one block. */
  lemma ExactlyOneBlock(bs: Blocks, head: nat, tail: nat, x: nat)
    requires Chain(bs, head, tail) && head <= x < tail
    ensures exists a :: a in bs && a <= x < a + bs[a].size
    ensures forall a, b | a in bs && b in bs && a <= x < a + bs[a].size && b <= x < b + bs[b].size :: a == b
  {
    var a := BlockOf(bs, head, tail, x, head);
    forall b | b in bs && b <= x < b + bs[b].size ensures b == a {
      Apart(bs, head, tail, a, b);
    }
  }

  /** Two blocks do not overlap. */
  lemma Apart(bs: Blocks, head: nat, tail: nat, a: nat, b: nat)
    requires Chain(bs, head, tail) && a in bs && b in bs
    ensures a < b ==> a + bs[a].size <= b
    ensures b < a ==> b + bs[b].size <= a
    ensures head <= a && HEADER <= bs[a].size && a + bs[a].size <= tail
    ensures head <= b && HEADER <= bs[b].size && b + bs[b].size <= tail
  {
    assert Linked(bs, head, tail, a) && Linked(bs, head, tail, b);
    assert a < b ==> Ordered(bs, a, b);
    assert b < a ==> Ordered(bs, b, a);
  }

  lemma {:induction false} BlockOf(bs: Blocks, head: nat, tail: nat, x: nat, from: nat) returns (a: nat)
    requires Chain(bs, head, tail) && from in bs && from <= x < tail
    ensures a in bs && a <= x < a + bs[a].size
    decreases tail - from
  {
    a := from;
    assert Linked(bs, head, tail, from);
    if from + bs[from].size <= x {
      a := BlockOf(bs, head, tail, x, from + bs[from].size);
    }
  }

  /** What a walk over the headers in memory visits, until it leaves the heap or meets a size below 16. */
  ghost function Walk(m: Memory, a: nat, tail: nat): set<nat>
    decreases tail - a
  {
    if a >= tail || a + HEADER > |m| || SizeAt(m, a) < HEADER then {}
    else {a} + Walk(m, a + SizeAt(m, a), tail)
  }

  /** The walk over memory from any block visits exactly the blocks from there on. */
  lemma {:induction false} WalkVisits(m: Memory, bs: Blocks, head: nat, tail: nat, from: nat)
    requires Layout(m, bs, head, tail) && (from in bs || from == tail)
    ensures Walk(m, from, tail) == set a | a in bs && from <= a
    decreases tail - from
  {
    if from in bs {
      assert Linked(bs, head, tail, from) && HeaderAt(m, bs, from);
      WalkVisits(m, bs, head, tail, from + bs[from].size);
      forall a | a in bs && from < a ensures from + bs[from].size <= a {
        Apart(bs, head, tail, from, a);
      }
    } else {
      forall a | a in bs ensures a < from {
        assert Linked(bs, head, tail, a);
      }
    }
  }

  /** The sizes of the blocks add up to the heap. */
  ghost function SizeFrom(m: Memory, a: nat, tail: nat): nat
    decreases tail - a
  {
    if a >= tail || a + HEADER > |m| || SizeAt(m, a) < HEADER then 0
    else SizeAt(m, a) + SizeFrom(m, a + SizeAt(m, a), tail)
  }

  lemma {:induction false} NoByteLost(m: Memory, bs: Blocks, head: nat, tail: nat, from: nat)
    requires Layout(m, bs, head, tail) && (from in bs || from == tail)
    ensures SizeFrom(m, from, tail) == tail - from
    decreases tail - from
  {
    if from in bs {
      assert Linked(bs, head, tail, from) && HeaderAt(m, bs, from);
      NoByteLost(m, bs, head, tail, from + bs[from].size);
    }
  }

  // ----- Merging -------------------------------------------------------------------------------

  ghost function Merged(bs: Blocks, a: nat): Blocks
    requires a in bs
  {
    (bs - {a + bs[a].size})[a := Block(2 * bs[a].size, bs[a].free)]
  }

  ghost predicate CanMerge(bs: Blocks, a: nat) {
    && a in bs && bs[a].free && a + bs[a].size in bs
    && bs[a + bs[a].size] == bs[a]
  }

  lemma MergeLinked(bs: Blocks, head: nat, tail: nat, a: nat, c: nat)
    requires Chain(bs, head, tail) && CanMerge(bs, a) && c in Merged(bs, a)
    ensures Linked(Merged(bs, a), head, tail, c)
  {
    var b := a + bs[a].size;
    assert Linked(bs, head, tail, a) && Linked(bs, head, tail, b) && Linked(bs, head, tail, c);
    DoublePower(bs[a].size);
    Apart(bs, head, tail, a, c);
    Apart(bs, head, tail, b, c);
    hide Chain, Power;
  }

  lemma MergeOrdered(bs: Blocks, head: nat, tail: nat, a: nat, c: nat, d: nat)
    requires Chain(bs, head, tail) && CanMerge(bs, a) && c in Merged(bs, a) && d in Merged(bs, a) && c < d
    ensures Ordered(Merged(bs, a), c, d)
  {
    Apart(bs, head, tail, c, d);
    Apart(bs, head, tail, a + bs[a].size, d);
    hide Chain, Power;
  }

  lemma MergeCount(bs: Blocks, a: nat)
    requires CanMerge(bs, a) && bs[a].size > 0
    ensures |Merged(bs, a)| == |bs| - 1
  {
    var b := a + bs[a].size;
    var rest := bs - {b};
    assert bs == rest[b := bs[b]];
    assert |bs| == |rest| + 1;
  }

  lemma MergeUsed(bs: Blocks, a: nat)
    requires CanMerge(bs, a) && bs[a].size > 0
    ensures Used(Merged(bs, a)) == Used(bs)
  {
  }

  lemma MergeChain(bs: Blocks, head: nat, tail: nat, a: nat)
    requires Chain(bs, head, tail) && CanMerge(bs, a)
    ensures Chain(Merged(bs, a), head, tail) && |Merged(bs, a)| == |bs| - 1
    ensures Used(Merged(bs, a)) == Used(bs)
  {
    var bs' := Merged(bs, a);
    Apart(bs, head, tail, a, a + bs[a].size);
    MergeCount(bs, a);
    MergeUsed(bs, a);
    assert head in bs' by {
      Apart(bs, head, tail, head, a);
    }
    hide Used, CanMerge;
    forall c | c in bs' ensures Linked(bs', head, tail, c) {
      MergeLinked(bs, head, tail, a, c);
    }
    forall c, d | c in bs' && d in bs' && c < d ensures Ordered(bs', c, d) {
      MergeOrdered(bs, head, tail, a, c, d);
    }
    hide Linked, Ordered, Merged;
  }

  lemma MergeHeader(m: Memory, bs: Blocks, head: nat, tail: nat, a: nat, c: nat)
    requires Layout(m, bs, head, tail) && CanMerge(bs, a) && a + HEADER <= |m| && 2 * bs[a].size < WORD
    requires c in Merged(bs, a)
    ensures HeaderAt(PutSize(m, a, 2 * bs[a].size), Merged(bs, a), c)
  {
    HeaderAfterPut(m, bs, head, tail, a, 2 * bs[a].size, c);
    hide Chain, Layout, SizeAt, FreeAt, PutSize;
  }

  lemma MergeKeeps(m: Memory, bs: Blocks, head: nat, tail: nat, a: nat)
    requires Layout(m, bs, head, tail) && CanMerge(bs, a) && a + HEADER <= |m|
    ensures Keeps(m, bs, PutSize(m, a, 2 * bs[a].size), Merged(bs, a), head, tail)
  {
    Apart(bs, head, tail, a, a);
    FreeBlockWrite(m, PutSize(m, a, 2 * bs[a].size), bs, head, tail, a, 8);
    hide Layout, Chain, PutSize, SameBytes;
  }

  lemma MergeLayout(m: Memory, bs: Blocks, head: nat, tail: nat, a: nat)
    requires Layout(m, bs, head, tail) && CanMerge(bs, a) && a + HEADER <= |m|
    ensures Layout(PutSize(m, a, 2 * bs[a].size), Merged(bs, a), head, tail)
    ensures Keeps(m, bs, PutSize(m, a, 2 * bs[a].size), Merged(bs, a), head, tail)
    ensures Used(Merged(bs, a)) == Used(bs) && |Merged(bs, a)| == |bs| - 1
  {
    var bs' := Merged(bs, a);
    var m' := PutSize(m, a, 2 * bs[a].size);
    MergeChain(bs, head, tail, a);
    MergeKeeps(m, bs, head, tail, a);
    Apart(bs, head, tail, a, a + bs[a].size);
    hide Chain, HeaderAt, Merged, PutSize, Used, Keeps;
    forall c | c in bs' ensures HeaderAt(m', bs', c) {
      MergeHeader(m, bs, head, tail, a, c);
    }
  }

  lemma Sixty4()
    ensures Pow2(8 * 8) == WORD
  {
    Pow2Large();
  }

  /** Writing the size of block a changes no other header. */
  lemma HeaderAfterPut(m: Memory, bs: Blocks, head: nat, tail: nat, a: nat, n: nat, c: nat)
    requires Layout(m, bs, head, tail) && a in bs && c in bs && n < WORD && a + HEADER <= |m|
    ensures c + HEADER <= |m| && FreeAt(PutSize(m, a, n), c) == bs[c].free
    ensures SizeAt(PutSize(m, a, n), c) == if c == a then n else bs[c].size
  {
    assert HeaderAt(m, bs, c);
    Apart(bs, head, tail, a, c);
    Sixty4();
    PutWord(m, a, 8, n, c, 8);
  }

  /** A write inside a free block keeps all blocks in use and the memory around the heap. */
  lemma FreeBlockWrite(m: Memory, m': Memory, bs: Blocks, head: nat, tail: nat, a: nat, n: nat)
    requires Chain(bs, head, tail) && a in bs && bs[a].free && n <= bs[a].size && tail <= |m|
    requires |m'| == |m| && forall x: nat | x < |m| && !(a <= x < a + n) :: m'[x] == m[x]
    ensures forall c | c in bs && !bs[c].free :: SameBytes(m, m', c, bs[c].size)
    ensures SameBytes(m, m', 0, head) && SameBytes(m, m', tail, |m|)
  {
    forall c | c in bs && !bs[c].free ensures SameBytes(m, m', c, bs[c].size) {
      Apart(bs, head, tail, a, c);
    }
    assert Linked(bs, head, tail, a);
  }

  // ----- Splitting --------------------------------------------------------------------------------

  /** One step of split: the free block a becomes two halves. */
  ghost function Halved(bs: Blocks, a: nat): Blocks
    requires a in bs
  {
    var h := bs[a].size / 2;
    bs[a := Block(h, true)][a + h := Block(h, true)]
  }

  ghost predicate CanHalve(bs: Blocks, a: nat, size: nat) {
    a in bs && bs[a].free && Power(size) && HEADER <= size < bs[a].size
  }

  lemma HalveSizes(bs: Blocks, head: nat, tail: nat, a: nat, size: nat)
    requires Chain(bs, head, tail) && CanHalve(bs, a, size)
    ensures 2 * (bs[a].size / 2) == bs[a].size && size <= bs[a].size / 2 && Power(bs[a].size / 2)
    ensures a + bs[a].size / 2 !in bs && head <= a && a + bs[a].size <= tail
  {
    assert Linked(bs, head, tail, a);
    HalfPower(size, bs[a].size);
    if a + bs[a].size / 2 in bs {
      Apart(bs, head, tail, a, a + bs[a].size / 2);
    }
  }

  lemma HalveLinked(bs: Blocks, head: nat, tail: nat, a: nat, size: nat, c: nat)
    requires Chain(bs, head, tail) && CanHalve(bs, a, size) && c in Halved(bs, a)
    ensures Linked(Halved(bs, a), head, tail, c)
  {
    HalveSizes(bs, head, tail, a, size);
    assert Linked(bs, head, tail, a);
    if c in bs {
      assert Linked(bs, head, tail, c);
    }
    hide Chain, Power;
  }

  lemma HalveOrdered(bs: Blocks, head: nat, tail: nat, a: nat, size: nat, c: nat, d: nat)
    requires Chain(bs, head, tail) && CanHalve(bs, a, size) && c in Halved(bs, a) && d in Halved(bs, a) && c < d
    ensures Ordered(Halved(bs, a), c, d)
  {
    HalveSizes(bs, head, tail, a, size);
    var h := bs[a].size / 2;
    Apart(bs, head, tail, if c == a + h then a else c, if d == a + h then a else d);
    hide Chain, Power;
  }

  lemma HalveUsed(bs: Blocks, a: nat, size: nat)
    requires CanHalve(bs, a, size) && a + bs[a].size / 2 !in bs
    ensures Used(Halved(bs, a)) == Used(bs)
  {
  }

  lemma HalveChain(bs: Blocks, head: nat, tail: nat, a: nat, size: nat)
    requires Chain(bs, head, tail) && CanHalve(bs, a, size)
    ensures Chain(Halved(bs, a), head, tail) && Used(Halved(bs, a)) == Used(bs)
  {
    var bs' := Halved(bs, a);
    HalveSizes(bs, head, tail, a, size);
    HalveUsed(bs, a, size);
    assert head in bs';
    hide Used, CanHalve;
    forall c | c in bs' ensures Linked(bs', head, tail, c) {
      HalveLinked(bs, head, tail, a, size, c);
    }
    forall c, d | c in bs' && d in bs' && c < d ensures Ordered(bs', c, d) {
      HalveOrdered(bs, head, tail, a, size, c, d);
    }
    hide Linked, Ordered, Halved;
  }

  /** Memory after one step of split. */
  function HalvedMemory(m: Memory, a: nat, h: nat): (r: Memory)
    requires a + HEADER <= |m| && a + h + HEADER <= |m|
    ensures |r| == |m|
  {
    PutFree(PutSize(PutSize(m, a, h), a + h, h), a + h, true)
  }

  lemma HalveKeeps(m: Memory, bs: Blocks, head: nat, tail: nat, a: nat, size: nat)
    requires Layout(m, bs, head, tail) && CanHalve(bs, a, size) && a + bs[a].size / 2 + HEADER <= |m|
    ensures Keeps(m, bs, HalvedMemory(m, a, bs[a].size / 2), Halved(bs, a), head, tail)
  {
    HalveSizes(bs, head, tail, a, size);
    HalvedBytes(m, a, bs[a].size / 2);
    FreeBlockWrite(m, HalvedMemory(m, a, bs[a].size / 2), bs, head, tail, a, bs[a].size);
    hide Layout, Chain, HalvedMemory, SameBytes, Power;
  }

  lemma HalveLayout(m: Memory, bs: Blocks, head: nat, tail: nat, a: nat, size: nat)
    requires Layout(m, bs, head, tail) && CanHalve(bs, a, size)
    ensures var h := bs[a].size / 2;
            && a + h + HEADER <= |m| && h < bs[a].size && size <= h
            && Layout(HalvedMemory(m, a, h), Halved(bs, a), head, tail)
            && Keeps(m, bs, HalvedMemory(m, a, h), Halved(bs, a), head, tail)
            && Used(Halved(bs, a)) == Used(bs)
  {
    HalveChain(bs, head, tail, a, size);
    HalveSizes(bs, head, tail, a, size);
    HalveKeeps(m, bs, head, tail, a, size);
    var h := bs[a].size / 2;
    hide Chain, Keeps, HeaderAt, HalvedMemory, Halved, Used, Power;
    forall c | c in Halved(bs, a) ensures HeaderAt(HalvedMemory(m, a, h), Halved(bs, a), c) {
      HalvedHeader(m, bs, head, tail, a, size, c);
    }
  }

  lemma HalvedBytes(m: Memory, a: nat, h: nat)
    requires a + HEADER <= |m| && a + h + HEADER <= |m| && HEADER <= h
    ensures forall x: nat | x < |m| && !(a <= x < a + 2 * h) :: HalvedMemory(m, a, h)[x] == m[x]
  {
  }

  lemma HalvedHeader(m: Memory, bs: Blocks, head: nat, tail: nat, a: nat, size: nat, c: nat)
    requires Layout(m, bs, head, tail) && CanHalve(bs, a, size) && c in Halved(bs, a)
    ensures a + bs[a].size / 2 + HEADER <= |m| && HeaderAt(HalvedMemory(m, a, bs[a].size / 2), Halved(bs, a), c)
  {
    HalveSizes(bs, head, tail, a, size);
    var h := bs[a].size / 2;
    if c == a + h {
      WrittenHeader(PutSize(m, a, h), a + h, h);
    } else {
      Apart(bs, head, tail, a, c);
      assert HeaderAt(m, bs, c);
      HeaderAfterPut(m, bs, head, tail, a, h, c);
      hide Chain;
      OtherHeader(PutSize(m, a, h), a + h, h, c);
    }
  }

  /** A header that was written can be read back. */
  lemma WrittenHeader(m: Memory, a: nat, n: nat)
    requires a + HEADER <= |m| && n < WORD
    ensures var r := PutFree(PutSize(m, a, n), a, true); SizeAt(r, a) == n && FreeAt(r, a)
  {
    Sixty4();
    hide Pow2, Little, Value, PutSize;
    var m1 := PutSize(m, a, n);
    assert m1 == Put(m, a, Little(n, 8)) by { PutSizeIsPut(m, a, n); }
    PutWord(m, a, 8, n, a, 8);
    SameWord(m1, PutFree(m1, a, true), a, 8);
  }

  lemma PutSizeIsPut(m: Memory, a: nat, n: nat)
    requires a + HEADER <= |m|
    ensures PutSize(m, a, n) == Put(m, a, Little(n, 8))
  {
  }

  /** Writing a header at b leaves a header at c as it is. */
  lemma OtherHeader(m: Memory, b: nat, h: nat, c: nat)
    requires b + HEADER <= |m| && c + HEADER <= |m| && h < WORD && (b + HEADER <= c || c + HEADER <= b)
    ensures SizeAt(PutFree(PutSize(m, b, h), b, true), c) == SizeAt(m, c)
    ensures FreeAt(PutFree(PutSize(m, b, h), b, true), c) == FreeAt(m, c)
  {
    hide Value, Little;
    SameWord(m, PutFree(PutSize(m, b, h), b, true), c, 8);
  }

  // ----- Flags and payloads ---------------------------------------------------------------------------

  ghost function Flagged(bs: Blocks, a: nat, free: bool): Blocks
    requires a in bs
  {
    bs[a := Block(bs[a].size, free)]
  }

  lemma FlagUsed(bs: Blocks, a: nat, free: bool)
    requires a in bs
    ensures Used(Flagged(bs, a, free)) == if free then Used(bs) - {a} else Used(bs) + {a}
  {
  }

  lemma FlagChain(bs: Blocks, head: nat, tail: nat, a: nat, free: bool)
    requires Chain(bs, head, tail) && a in bs
    ensures Chain(Flagged(bs, a, free), head, tail)
  {
    var bs' := Flagged(bs, a, free);
    hide Power;
    forall c | c in bs' ensures Linked(bs', head, tail, c) {
      assert Linked(bs, head, tail, c);
    }
    forall c, d | c in bs' && d in bs' && c < d ensures Ordered(bs', c, d) {
      assert Ordered(bs, c, d);
    }
    assert head in bs';
    hide Linked, Ordered, Flagged;
  }

  lemma FlagLayout(m: Memory, bs: Blocks, head: nat, tail: nat, a: nat, free: bool)
    requires Layout(m, bs, head, tail) && a in bs && a + HEADER <= |m|
    ensures Layout(PutFree(m, a, free), Flagged(bs, a, free), head, tail)
    ensures Used(Flagged(bs, a, free)) == if free then Used(bs) - {a} else Used(bs) + {a}
  {
    var bs' := Flagged(bs, a, free);
    var m' := PutFree(m, a, free);
    FlagChain(bs, head, tail, a, free);
    FlagUsed(bs, a, free);
    hide Used;
    forall c | c in bs' ensures HeaderAt(m', bs', c) {
      assert HeaderAt(m, bs, c);
      Apart(bs, head, tail, a, c);
      SameWord(m, m', c, 8);
    }
    hide Chain, HeaderAt;
  }

  /** A write into the payload of a block keeps the layout. */
  lemma PayloadWrite(m: Memory, m': Memory, bs: Blocks, head: nat, tail: nat, a: nat)
    requires Layout(m, bs, head, tail) && a in bs
    requires |m'| == |m| && forall x: nat | x < |m| && !(a + HEADER <= x < a + bs[a].size) :: m'[x] == m[x]
    ensures Layout(m', bs, head, tail)
  {
    assert Linked(bs, head, tail, a);
    forall c | c in bs ensures HeaderAt(m', bs, c) {
      assert HeaderAt(m, bs, c);
      Apart(bs, head, tail, a, c);
      SameWord(m, m', c, 8);
    }
  }

  /** The freshly made heap: one free block. */
  lemma SingleBlock(m: Memory, head: nat, size: nat)
    requires 0 < head && head + size <= |m| < WORD && HEADER <= size && Power(size)
    requires SizeAt(m, head) == size && FreeAt(m, head)
    ensures Layout(m, map[head := Block(size, true)], head, head + size)
  {
    assert Linked(map[head := Block(size, true)], head, head + size, head);
  }
}
