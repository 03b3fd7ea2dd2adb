/** The kernel heap: a chain of power-of-two blocks with headers in memory. */
module Heap {
  import opened Bits
  import opened Words
  import opened Rounding
  import opened HeapBlocks
  import opened HeapWalk
  import opened HeapReach

  /** The largest request whose block size is computed without wrap-around. */
  const MAX_REQUEST: nat := HALF - HEADER

  /** s is the block size that a request of n bytes gets. */
  ghost predicate Serves(n: nat, s: nat) {
    if n <= MAX_REQUEST then LeastPower(s, n + HEADER) else s == HEADER
  }

  /** The smallest block that can serve a request of n bytes. */
  function Least(n: nat): nat {
    if n <= MAX_REQUEST then n + HEADER else HEADER
  }

  /** Between these bounds the doubling loop of required_size overflows to 0 and never ends. */
  predicate Terminates(n: nat) {
    n <= MAX_REQUEST || (WORD - 31 <= n < WORD)
  }

  /** required_size: the header is added, the sum rounded up to 16 and then to a power of two. */
  method RequiredSize(n: nat) returns (actual: nat)
    requires Terminates(n)
    ensures Serves(n, actual) && Power(actual) && HEADER <= actual <= HALF
  {
    hide AlignUp, Serves;
    var size := (n + HEADER) % WORD;
    size := AlignUp(size, HEADER);
    RoundedRequest(n);
    actual := DoubleUpTo(size);
    LastDouble(n, size, actual);
  }

  /** The loop of required_size. */
  method DoubleUpTo(size: nat) returns (actual: nat)
    requires size <= HALF
    ensures HEADER <= actual <= HALF && Power(actual) && size <= actual && (actual == HEADER || actual / 2 < size)
  {
    hide Power;
    actual := HEADER;
    FirstPower();
    while size > actual
      invariant HEADER <= actual <= HALF && Power(actual) && (actual == HEADER || actual / 2 < size)
      decreases HALF - actual
    {
      NextDouble(actual, size);
      actual := 2 * actual % WORD;
    }
  }

  lemma FirstPower()
    ensures Power(HEADER)
  {
    PowerOf(4);
    Pow2Values();
  }

  lemma NextDouble(actual: nat, size: nat)
    requires Power(actual) && HEADER <= actual < size <= HALF
    ensures Power(2 * actual) && 2 * actual <= HALF && 2 * actual % WORD == 2 * actual
  {
    DoublePower(actual);
    HalfIsPower();
    HalfPower(actual, HALF);
  }

  /** The rounded request: a multiple of 16, except that it wraps to 0 or 16 near the end of the word. */
  lemma RoundedRequest(n: nat)
    requires Terminates(n)
    ensures var size := AlignUp((n + HEADER) % WORD, HEADER);
            if n <= MAX_REQUEST then size % HEADER == 0 && n + HEADER <= size < n + 2 * HEADER && size <= HALF
              else size <= HEADER
  {
    var s := (n + HEADER) % WORD;
    if n <= MAX_REQUEST {
      assert s == n + HEADER;
      AlignUpLeast(s, HEADER);
    } else if n + HEADER < WORD {
      assert (s + 15) % WORD < 16;
    } else {
      assert s == n + HEADER - WORD;
      assert s < 16;
    }
  }

  lemma LastDouble(n: nat, size: nat, actual: nat)
    requires Power(actual) && size <= actual && HEADER <= actual
    requires actual == HEADER || actual / 2 < size
    requires if n <= MAX_REQUEST then size % HEADER == 0 && n + HEADER <= size < n + 2 * HEADER else size <= HEADER
    ensures Serves(n, actual)
  {
    FirstPower();
    if n <= MAX_REQUEST {
      forall p: nat | Power(p) && n + HEADER <= p ensures actual <= p {
        PowerMultiple(HEADER, p);
        assert size <= p;
        if p < actual {
          HalfPower(p, actual);
        }
      }
    } else if actual != HEADER {
      HalfPower(HEADER, actual);
    }
  }

  /** Requests outside Terminates: no value the loop ever reaches is large enough. */
  lemma {:induction false} NeverLargeEnough(n: nat, rounds: nat)
    requires n < WORD && !Terminates(n)
    ensures AlignUp((n + HEADER) % WORD, HEADER) > Doubled(rounds)
    decreases rounds
  {
    AlignUpLeast(n + HEADER, HEADER);
    DoubledBound(rounds);
  }

  /** actual_size after some rounds of 64-bit doubling. */
  function Doubled(rounds: nat): nat {
    if rounds == 0 then HEADER else 2 * Doubled(rounds - 1) % WORD
  }

  lemma {:induction false} DoubledBound(rounds: nat)
    ensures Doubled(rounds) <= HALF
    ensures Doubled(rounds) == if rounds < 60 then Pow2(rounds + 4) else 0
    decreases rounds
  {
    if rounds > 0 {
      DoubledBound(rounds - 1);
    }
    DoubledRound(rounds);
  }

  lemma DoubledRound(rounds: nat)
    requires rounds > 0 ==> Doubled(rounds - 1) == if rounds - 1 < 60 then Pow2(rounds + 3) else 0
    ensures Doubled(rounds) <= HALF && Doubled(rounds) == if rounds < 60 then Pow2(rounds + 4) else 0
  {
    hide Pow2, Power;
    HalfIsPower();
    if rounds == 0 {
      Pow2Values();
    } else {
      Pow2Step(rounds + 3);
    }
    if rounds < 60 {
      Pow2Monotone(rounds + 4, 63);
    }
  }

  class Heap {
    var ram: array<Byte>
    var head: nat
    var tail: nat
    var expanded: bool
    ghost var blocks: Blocks

    /** The heap has been set up: the headers in memory tile [head, tail). */
    ghost predicate Valid()
      reads this, ram
    {
      Layout(ram[..], blocks, head, tail)
    }

    /** A pointer that malloc returned and that was not freed since. */
    ghost predicate Live(ptr: nat)
      reads this
    {
      ptr >= HEADER && ptr - HEADER in Used(blocks)
    }

    /** The whole heap is one free block of at least the given size. */
    ghost predicate OneFree(size: nat)
      reads this
    {
      head in blocks && blocks[head].free && head + blocks[head].size == tail && size <= blocks[head].size
    }

    // ----- Headers in memory ---------------------------------------------------------------

    function Size(a: nat): nat
      requires a + HEADER <= ram.Length
      reads this, ram
    {
      SizeAt(ram[..], a)
    }

    function IsFree(a: nat): bool
      requires a + HEADER <= ram.Length
      reads this, ram
    {
      FreeAt(ram[..], a)
    }

    method SetSize(a: nat, n: nat)
      requires a + HEADER <= ram.Length
      modifies ram
      ensures ram[..] == PutSize(old(ram[..]), a, n)
    {
      var bytes := Little(n, 8);
      for i := 0 to 8
        invariant forall x: nat | x < ram.Length :: ram[x] == if a <= x < a + i then bytes[x - a] else old(ram[..])[x]
      {
        ram[a + i] := bytes[i];
      }
    }

    method SetFree(a: nat, free: bool)
      requires a + HEADER <= ram.Length
      modifies ram
      ensures ram[..] == PutFree(old(ram[..]), a, free)
    {
      ram[a + 8] := if free then 1 else 0;
    }

    /** What the header of a block says, and that the next one is where it points. */
    lemma BlockFacts(a: nat)
      requires Valid() && a in blocks
      ensures 0 < head <= a < tail && a + HEADER <= ram.Length && Size(a) == blocks[a].size
      ensures IsFree(a) == blocks[a].free
      ensures HEADER <= blocks[a].size && a + blocks[a].size <= tail <= ram.Length < WORD
      ensures a + blocks[a].size in blocks || a + blocks[a].size == tail
    {
      assert Linked(blocks, head, tail, a) && HeaderAt(ram[..], blocks, a);
    }

    // ----- Splitting -------------------------------------------------------------------------

    /** split: halve the free block until it has the size asked for; the last half is returned. */
    method Split(a: nat, size: nat) returns (r: nat)
      requires Valid() && (a != 0 ==> a in blocks && blocks[a].free)
      requires size != 0 ==> Power(size) && HEADER <= size
      modifies this`blocks, ram
      ensures Valid() && Keeps(old(ram[..]), old(blocks), ram[..], blocks, head, tail)
      ensures Used(blocks) == Used(old(blocks))
      ensures r == 0 <==> a == 0 || size == 0 || old(blocks)[a].size < size
      ensures r == 0 ==> blocks == old(blocks) && ram[..] == old(ram[..])
      ensures r != 0 ==> r in blocks && blocks[r] == Block(size, true)
      ensures a != 0 ==> (blocks, r) == SplitFrom(old(blocks), a, size)
    {
      hide Layout, Keeps, Used, Halved, HalvedMemory, PutSize, PutFree, Power, SplitFrom;
      ghost var m0, b0 := ram[..], blocks;
      KeepsSelf(m0, b0, head, tail);
      if a != 0 && size != 0 {
        var block := a;
        BlockFacts(block);
        while size < Size(block)
          invariant Valid() && block in blocks && blocks[block].free
          invariant block + HEADER <= ram.Length && Size(block) == blocks[block].size && block > 0
          invariant Keeps(m0, b0, ram[..], blocks, head, tail) && Used(blocks) == Used(b0)
          invariant size <= Size(block) || (block == a && blocks == b0 && ram[..] == m0)
          invariant size <= b0[a].size <==> size <= Size(block)
          invariant SplitFrom(blocks, block, size) == SplitFrom(b0, a, size)
          decreases Size(block)
        {
          SplitStep(blocks, block, size);
          HalveLayout(ram[..], blocks, head, tail, block, size);
          KeepsTwice(m0, b0, ram[..], blocks, HalvedMemory(ram[..], block, blocks[block].size / 2),
                     Halved(blocks, block), head, tail);
          block := HalfOnce(block, size);
        }
        SplitEnd(blocks, block, size);
        if size <= Size(block) {
          return block;
        }
        return 0;
      }
      if a != 0 {
        SplitNothing(blocks, a);
      }
      return 0;
    }

    lemma SplitNothing(bs: Blocks, a: nat)
      ensures SplitFrom(bs, a, 0) == (bs, 0)
    {
    }

    /** One round of split's loop. */
    method HalfOnce(block: nat, size: nat) returns (next: nat)
      requires Valid() && CanHalve(blocks, block, size) && block + HEADER <= ram.Length
      requires Size(block) == blocks[block].size
      requires block + blocks[block].size / 2 + HEADER <= ram.Length
      modifies this`blocks, ram
      ensures var h := old(blocks)[block].size / 2;
              && next == block + h && ram[..] == HalvedMemory(old(ram[..]), block, h)
              && blocks == Halved(old(blocks), block)
              && Valid() && next in blocks && blocks[next] == Block(h, true)
              && next + HEADER <= ram.Length && Size(next) == h && size <= h < old(blocks)[block].size
    {
      hide Layout, Used, PutSize, PutFree, Power;
      HalveLayout(ram[..], blocks, head, tail, block, size);
      ghost var m, bs := ram[..], blocks;
      var sz := Size(block) / 2;
      SetSize(block, sz);
      next := block + sz;
      SetSize(next, sz);
      SetFree(next, true);
      blocks := Halved(blocks, block);
      assert ram[..] == HalvedMemory(m, block, sz);
      hide Halved;
      BlockFacts(next);
    }

    // ----- Searching and merging ---------------------------------------------------------------

    /** Merging a free block with the equal free block after it. */
    method MergeNext(block: nat)
      requires Valid() && CanMerge(blocks, block) && block + HEADER <= ram.Length && Size(block) == blocks[block].size
      modifies this`blocks, ram
      ensures Valid() && Keeps(old(ram[..]), old(blocks), ram[..], blocks, head, tail)
      ensures Used(blocks) == Used(old(blocks))
      ensures blocks == Merged(old(blocks), block) && |blocks| == |old(blocks)| - 1
      ensures var tmp := block + old(blocks)[block].size;
              tmp + HEADER <= ram.Length && Size(tmp) == old(blocks)[block].size
    {
      hide Keeps, Used, Merged, SizeAt, FreeAt, PutSize, Chain;
      MergeLayout(ram[..], blocks, head, tail, block);
      BlockFacts(block + Size(block));
      HeaderAfterPut(ram[..], blocks, head, tail, block, 2 * Size(block), block + Size(block));
      hide Layout;
      SetSize(block, 2 * Size(block));
      blocks := Merged(blocks, block);
    }

    lemma AfterMerge(bs: Blocks, block: nat)
      requires CanMerge(bs, block) && 0 < bs[block].size
      ensures block in Merged(bs, block) && Merged(bs, block)[block] == Block(2 * bs[block].size, true)
      ensures forall a | a in bs && a < block + bs[block].size && a != block ::
                a in Merged(bs, block) && Merged(bs, block)[a] == bs[a]
    {
    }

    /** The remembered candidate of find_best: none, or a free block so far that is large enough. */
    ghost predicate Candidate(best: nat, block: nat, size: nat)
      reads this
    {
      best != 0 ==> best in blocks && best <= block && blocks[best].free && size <= blocks[best].size
    }

    /** The position of both walks: a block and the one after it, or the end. */
    ghost predicate At(block: nat, tmp: nat)
      reads this
    {
      && (block in blocks || block == tail)
      && (block in blocks ==> tmp == block + blocks[block].size)
    }

    /** next(block), or the old tmp at the end of the heap. */
    method Advance(block: nat, old_: nat) returns (tmp: nat)
      requires Valid() && (block in blocks || block == tail)
      ensures At(block, tmp)
    {
      tmp := old_;
      if block < tail {
        Inside(block);
        BlockFacts(block);
        tmp := block + Size(block);
      } else {
        Inside(block);
      }
    }

    lemma Inside(block: nat)
      requires Valid() && (block in blocks || block == tail)
      ensures block in blocks <==> block < tail
    {
      if block in blocks {
        BlockFacts(block);
      }
    }

    /** One round of find_best's loop. */
    method Look(best: nat, block: nat, tmp: nat, size: nat) returns (best': nat, block': nat, tmp': nat)
      requires Valid() && block in blocks && At(block, tmp) && tmp < tail && Candidate(best, block, size)
      modifies this`blocks, ram
      ensures Valid() && Keeps(old(ram[..]), old(blocks), ram[..], blocks, head, tail)
      ensures Used(blocks) == Used(old(blocks))
      ensures At(block', tmp') && Candidate(best', block', size) && block < block' <= tail
      ensures BestFrom(blocks, tail, block', best', size) == BestFrom(old(blocks), tail, block, best, size)
    {
      hide Layout, Keeps, Used, Merged, BestFrom, Chosen;
      BlockFacts(block);
      Inside(tmp);
      BlockFacts(tmp);
      BestStep(blocks, tail, block, best, size);
      if IsFree(block) && IsFree(tmp) && Size(block) == Size(tmp) {
        best' := MergeAndLook(best, block, size);
        BlockFacts(block);
        block' := tmp + Size(tmp);
        tmp' := Advance(block', tmp);
        return;
      }
      KeepsSelf(ram[..], blocks, head, tail);
      best' := Better(best, block, tmp, size);
      if Size(block) <= Size(tmp) {
        block' := tmp + Size(tmp);
        tmp' := Advance(block', tmp);
      } else {
        block' := tmp;
        tmp' := tmp + Size(tmp);
      }
    }

    /** The two comparisons of find_best for a pair that is not merged. */
    method Better(best: nat, block: nat, tmp: nat, size: nat) returns (best': nat)
      requires Valid() && block in blocks && tmp in blocks && block < tmp && Candidate(best, block, size)
      ensures Candidate(best', tmp, size)
      ensures best' == Chosen(blocks, Chosen(blocks, best, block, size, true), tmp, size, false)
    {
      BlockFacts(block);
      BlockFacts(tmp);
      if best != 0 {
        BlockFacts(best);
      }
      hide Layout;
      best' := best;
      if IsFree(block) && size <= Size(block) && (best' == 0 || Size(block) <= Size(best')) {
        best' := block;
      }
      if IsFree(tmp) && size <= Size(tmp) && (best' == 0 || Size(tmp) < Size(best')) {
        best' := tmp;
      }
    }

    /** The merging branch of find_best. */
    method MergeAndLook(best: nat, block: nat, size: nat) returns (best': nat)
      requires Valid() && CanMerge(blocks, block) && Candidate(best, block, size)
      modifies this`blocks, ram
      ensures Valid() && Keeps(old(ram[..]), old(blocks), ram[..], blocks, head, tail)
      ensures Used(blocks) == Used(old(blocks))
      ensures Candidate(best', block, size)
      ensures blocks == Merged(old(blocks), block) && best' == Chosen(blocks, best, block, size, true)
      ensures var tmp := block + old(blocks)[block].size;
              && tmp + HEADER <= ram.Length && Size(tmp) == old(blocks)[block].size
              && block in blocks && blocks[block].size == 2 * old(blocks)[block].size
    {
      hide Layout, Keeps, Used, Merged;
      BlockFacts(block);
      AfterMerge(blocks, block);
      MergeNext(block);
      BlockFacts(block);
      if best != 0 {
        BlockFacts(best);
      }
      best' := best;
      if size <= Size(block) && (best' == 0 || Size(block) <= Size(best')) {
        best' := block;
      }
    }

    /** find_best: walk over the blocks, merging equal free neighbours, and split the block remembered last. */
    method FindBest(size: nat) returns (r: nat)
      requires Valid() && (size != 0 ==> Power(size) && HEADER <= size)
      modifies this`blocks, ram
      ensures Valid() && Keeps(old(ram[..]), old(blocks), ram[..], blocks, head, tail)
      ensures Used(blocks) == Used(old(blocks))
      ensures r != 0 ==> size != 0 && r in blocks && blocks[r] == Block(size, true)
      ensures size != 0 && old(OneFree(size)) ==> r != 0
      ensures (blocks, r) == Best(old(blocks), head, tail, size)
      ensures size != 0 ==> (r == 0 <==> Fails(old(blocks), head, tail, size))
      ensures size != 0 && r == 0 ==> blocks == Walked(old(blocks), tail, head) && NoneButLast(blocks, tail, size)
    {
      hide Layout, Keeps, Used, Merged, Power, BestFrom, SplitFrom, Fails, Walked, NoneButLast;
      ghost var m0, b0 := ram[..], blocks;
      KeepsSelf(m0, b0, head, tail);
      if size == 0 {
        return 0;
      }
      ChainOf();
      BestFails(b0, head, tail, size);
      var best: nat, block: nat := 0, head;
      HeadBlock();
      BlockFacts(head);
      var tmp: nat := Advance(block, 0);
      if tmp == tail && IsFree(block) {
        r := Split(block, size);
        return;
      }
      while block < tail && tmp < tail
        invariant Valid() && At(block, tmp) && Candidate(best, block, size)
        invariant Keeps(m0, b0, ram[..], blocks, head, tail) && Used(blocks) == Used(b0)
        invariant BestFrom(blocks, tail, block, best, size) == BestFrom(b0, tail, head, 0, size)
        decreases tail - block
      {
        Inside(block);
        ghost var m, bs := ram[..], blocks;
        best, block, tmp := Look(best, block, tmp, size);
        KeepsTwice(m0, b0, m, bs, ram[..], blocks, head, tail);
      }
      NoPair(block, tmp);
      BestEnd(blocks, tail, block, best, size);
      if best != 0 {
        ghost var m, bs := ram[..], blocks;
        r := Split(best, size);
        KeepsTwice(m0, b0, m, bs, ram[..], blocks, head, tail);
        return;
      }
      return 0;
    }

    /** The walks end where no two blocks are left. */
    lemma NoPair(block: nat, tmp: nat)
      requires Valid() && At(block, tmp) && !(block < tail && tmp < tail)
      ensures !Pair(blocks, tail, block)
    {
    }

    lemma HeadBlock()
      requires Valid()
      ensures head in blocks && 0 < head < tail
    {
    }

    /** coalescence: merge equal free neighbours until a whole pass finds none. */
    method Coalescence()
      requires Valid()
      modifies this`blocks, ram
      ensures Valid() && Keeps(old(ram[..]), old(blocks), ram[..], blocks, head, tail)
      ensures Used(blocks) == Used(old(blocks))
      ensures |blocks| <= |old(blocks)| && blocks == Coalesced(old(blocks), head, tail)
      ensures Settled(blocks, tail, head) && (blocks == old(blocks) <==> Settled(old(blocks), tail, head))
    {
      hide Layout, Keeps, Used, Coalesced, Settled;
      ghost var m0, b0 := ram[..], blocks;
      KeepsSelf(m0, b0, head, tail);
      ChainOf();
      CoalescedSettled(b0, head, tail);
      var done := false;
      while !done
        invariant Valid() && Keeps(m0, b0, ram[..], blocks, head, tail) && Used(blocks) == Used(b0) && |blocks| <= |b0|
        invariant (if done then blocks else Coalesced(blocks, head, tail)) == Coalesced(b0, head, tail)
        decreases |blocks|, !done
      {
        ghost var m, bs := ram[..], blocks;
        done := CoalescePass();
        CoalescedStep(bs, head, tail);
        KeepsTwice(m0, b0, m, bs, ram[..], blocks, head, tail);
      }
    }

    /** One pass of coalescence. Another one follows only if this one removed a block. */
    method CoalescePass() returns (done: bool)
      requires Valid()
      modifies this`blocks, ram
      ensures Valid() && Keeps(old(ram[..]), old(blocks), ram[..], blocks, head, tail)
      ensures Used(blocks) == Used(old(blocks))
      ensures |blocks| <= |old(blocks)| && (!done ==> |blocks| < |old(blocks)|)
      ensures blocks == PassFrom(old(blocks), tail, head) && done == !AgainFrom(old(blocks), tail, head)
    {
      hide Layout, Keeps, Used, PassFrom, AgainFrom;
      ghost var m0, b0 := ram[..], blocks;
      KeepsSelf(m0, b0, head, tail);
      var block: nat := head;
      HeadBlock();
      var tmp: nat := Advance(block, 0);
      done := true;
      while block < tail && tmp < tail
        invariant Valid() && At(block, tmp)
        invariant Keeps(m0, b0, ram[..], blocks, head, tail) && Used(blocks) == Used(b0)
        invariant |blocks| <= |b0| && (!done ==> |blocks| < |b0|)
        invariant PassFrom(blocks, tail, block) == PassFrom(b0, tail, head)
        invariant AgainFrom(b0, tail, head) == (!done || AgainFrom(blocks, tail, block))
        decreases tail - block
      {
        Inside(block);
        ghost var m, bs := ram[..], blocks;
        var merged;
        block, tmp, merged := CoalesceStep(block, tmp);
        KeepsTwice(m0, b0, m, bs, ram[..], blocks, head, tail);
        if merged {
          done := false;
        }
      }
      NoPair(block, tmp);
      PassEnd(blocks, tail, block);
    }

    /** One round of the inner loop of coalescence; merged says that the pass must be repeated. */
    method CoalesceStep(block: nat, tmp: nat) returns (block': nat, tmp': nat, merged: bool)
      requires Valid() && block in blocks && At(block, tmp) && tmp < tail
      modifies this`blocks, ram
      ensures Valid() && Keeps(old(ram[..]), old(blocks), ram[..], blocks, head, tail)
      ensures Used(blocks) == Used(old(blocks))
      ensures At(block', tmp') && block < block' <= tail
      ensures |blocks| <= |old(blocks)| && (merged ==> |blocks| < |old(blocks)|)
      ensures PassFrom(blocks, tail, block') == PassFrom(old(blocks), tail, block)
      ensures AgainFrom(old(blocks), tail, block) == (merged || AgainFrom(blocks, tail, block'))
    {
      hide Layout, Keeps, Used, Merged, PassFrom, AgainFrom;
      BlockFacts(block);
      Inside(tmp);
      BlockFacts(tmp);
      PassStep(blocks, tail, block);
      merged := false;
      if IsFree(block) && IsFree(tmp) && Size(block) == Size(tmp) {
        AfterMerge(blocks, block);
        MergeNext(block);
        BlockFacts(block);
        block' := block + Size(block);
        tmp' := Advance(block', tmp);
        merged := block' < tail;
        return;
      }
      KeepsSelf(ram[..], blocks, head, tail);
      if Size(block) < Size(tmp) {
        block' := tmp;
        tmp' := tmp + Size(tmp);
      } else {
        block' := tmp + Size(tmp);
        tmp' := Advance(block', tmp);
      }
    }

    // ----- The interface --------------------------------------------------------------------------

    /** expand on an empty heap: one free block of ALIGN_UP_2(0x1000, pagecount * 0x1000) bytes at data. */
    method Setup(data: nat, pagecount: nat) returns (size: nat)
      requires 0 < pagecount && pagecount * 0x1000 <= HALF && 0 < data && ram.Length < WORD
      requires forall s: nat | LeastPower(s, pagecount * 0x1000) :: data + s <= ram.Length
      modifies this, ram
      ensures Valid() && ram == old(ram) && head == data && tail == data + size
      ensures blocks == map[data := Block(size, true)]
      ensures LeastPower(size, pagecount * 0x1000) && expanded == old(expanded)
      ensures SameBytes(old(ram[..]), ram[..], 0, head) && SameBytes(old(ram[..]), ram[..], tail, ram.Length)
    {
      hide Power;
      PageIsPower();
      size := AlignUp2(0x1000, pagecount * 0x1000);
      head := data;
      SetSize(head, size);
      SetFree(head, true);
      WrittenHeader(old(ram[..]), head, size);
      assert ram[..] == PutFree(PutSize(old(ram[..]), head, size), head, true);
      hide PutSize, SizeAt;
      tail := head + Size(head);
      blocks := map[data := Block(size, true)];
      SingleBlock(ram[..], head, size);
    }

    /** The size of the smallest block that serves n. */
    ghost predicate Allocated(n: nat, ptr: nat)
      reads this
    {
      Live(ptr) && Serves(n, blocks[ptr - HEADER].size)
    }

    /**
     malloc up to the point where it would grow the heap (`grow`): a block of the
     least sufficient power of two becomes used; everything in use stays as it is.
     */
    method Malloc(n: nat) returns (ptr: nat, grow: bool)
      requires Valid() && Terminates(n)
      modifies this`blocks, this`expanded, ram
      ensures Valid() && Keeps(old(ram[..]), old(blocks), ram[..], blocks, head, tail)
      ensures n == 0 ==> ptr == 0 && !grow && blocks == old(blocks) && expanded == old(expanded)
      ensures ptr == 0 ==> Used(blocks) == Used(old(blocks))
      ensures ptr != 0 ==>
                && !grow && Allocated(n, ptr) && ptr - HEADER !in Used(old(blocks))
                && Used(blocks) == Used(old(blocks)) + {ptr - HEADER}
      ensures n != 0 && ptr == 0 ==> (grow <==> !old(expanded))
      ensures grow ==> expanded == old(expanded)
      ensures n != 0 && !grow ==> !expanded
      ensures 0 < n <= MAX_REQUEST && old(OneFree(n + HEADER)) ==> ptr != 0
      ensures n != 0 ==> exists s :: Serves(n, s) && Outcome(old(blocks), s, ptr)
      ensures n != 0 && ptr == 0 ==> NoneButLast(blocks, tail, Least(n))
      ensures n != 0 && ptr == 0 ==> NoneButLast(old(blocks), tail, Least(n))
    {
      hide Layout, Keeps, Used, Serves, Power, Flagged, Searched, FailsTwice, NoneButLast;
      ghost var m0, b0 := ram[..], blocks;
      KeepsSelf(m0, b0, head, tail);
      if n == 0 {
        return 0, false;
      }
      var actual := RequiredSize(n);
      ChainOf();
      if n <= MAX_REQUEST && OneFree(n + HEADER) {
        LeastFits(n, actual);
      }
      var found := Find(actual);
      if found != 0 {
        ghost var m, bs := ram[..], blocks;
        Take(found);
        KeepsTwice(m0, b0, m, bs, ram[..], blocks, head, tail);
        assert Outcome(b0, actual, found + HEADER);
        expanded := false;
        return found + HEADER, false;
      }
      assert Outcome(b0, actual, 0);
      ChainOf();
      TooSmall(n, actual, b0, blocks);
      if expanded {
        expanded := false;
        return 0, false;
      }
      return 0, true;
    }

    lemma LeastFits(n: nat, actual: nat)
      requires Valid() && n <= MAX_REQUEST && Serves(n, actual) && OneFree(n + HEADER)
      ensures OneFree(actual)
    {
      assert Linked(blocks, head, tail, head);
    }

    /**
     The blocks that malloc leaves, and its result, are those of the two searches
     for blocks of size s, and it is null exactly when both of them fail.
     */
    ghost predicate Outcome(bs: Blocks, s: nat, ptr: nat)
      reads this
    {
      var r := Searched(bs, head, tail, s);
      && (ptr == 0 <==> FailsTwice(bs, head, tail, s))
      && if r.1 == 0 then ptr == 0 && blocks == r.0
         else r.1 in r.0 && ptr == r.1 + HEADER && blocks == Flagged(r.0, r.1, false)
    }

    /** A block too small for what malloc asks for is too small for the request, before the searches and after them. */
    lemma TooSmall(n: nat, actual: nat, before: Blocks, after: Blocks)
      requires Serves(n, actual) && Power(actual) && Chain(before, head, tail) && Chain(after, head, tail)
      requires FailsTwice(before, head, tail, actual) && NoneButLast(after, tail, actual)
      ensures NoneButLast(after, tail, Least(n)) && NoneButLast(before, tail, Least(n))
    {
      forall a | Fits(after, a, Least(n)) ensures Last(after, tail, a) {
        assert Linked(after, head, tail, a);
      }
      forall a | Fits(before, a, Least(n)) ensures Last(before, tail, a) {
        assert Linked(before, head, tail, a);
        if !Last(before, tail, a) {
          InnerBlockServes(before, head, tail, actual, a);
        }
      }
    }

    /** The two searches of malloc, before and after merging. */
    method Find(actual: nat) returns (found: nat)
      requires Valid() && Power(actual) && HEADER <= actual
      modifies this`blocks, ram
      ensures Valid() && Keeps(old(ram[..]), old(blocks), ram[..], blocks, head, tail)
      ensures Used(blocks) == Used(old(blocks))
      ensures found != 0 ==> found in blocks && blocks[found] == Block(actual, true)
      ensures old(OneFree(actual)) ==> found != 0
      ensures (blocks, found) == Searched(old(blocks), head, tail, actual)
      ensures found == 0 <==> FailsTwice(old(blocks), head, tail, actual)
      ensures found == 0 ==> NoneButLast(blocks, tail, actual)
    {
      hide Layout, Keeps, Used, Power, Best, Coalesced, FailsTwice, NoneButLast;
      hide Fails, Walked, Settled;
      ghost var m0, b0 := ram[..], blocks;
      ChainOf();
      SearchedFails(b0, head, tail, actual);
      found := FindBest(actual);
      if found == 0 {
        ghost var m1, b1 := ram[..], blocks;
        Coalescence();
        KeepsTwice(m0, b0, m1, b1, ram[..], blocks, head, tail);
        ghost var m2, b2 := ram[..], blocks;
        found := FindBest(actual);
        KeepsTwice(m0, b0, m2, b2, ram[..], blocks, head, tail);
      }
    }

    /** found->free = false */
    method Take(found: nat)
      requires Valid() && found in blocks && blocks[found].free
      modifies this`blocks, ram
      ensures Valid() && Keeps(old(ram[..]), old(blocks), ram[..], blocks, head, tail)
      ensures found !in Used(old(blocks)) && Used(blocks) == Used(old(blocks)) + {found}
      ensures blocks == Flagged(old(blocks), found, false) && blocks[found] == Block(old(blocks)[found].size, false)
    {
      BlockFacts(found);
      FlagLayout(ram[..], blocks, head, tail, found, false);
      FlagKeeps(ram[..], blocks, head, tail, found, false);
      hide Layout, Keeps, PutFree;
      SetFree(found, false);
      blocks := Flagged(blocks, found, false);
    }

    lemma UsedBlock(ptr: nat)
      requires Live(ptr)
      ensures ptr - HEADER in blocks && !blocks[ptr - HEADER].free
    {
    }

    /** free: the block becomes free and free neighbours merge; all other blocks in use stay as they are. */
    method Free(ptr: nat)
      requires Valid() && (ptr == 0 || Live(ptr))
      modifies this`blocks, ram
      ensures Valid()
      ensures ptr == 0 ==> blocks == old(blocks) && ram[..] == old(ram[..])
      ensures ptr != 0 ==>
                var a := ptr - HEADER;
                && Used(blocks) == Used(old(blocks)) - {a}
                && blocks == Coalesced(Flagged(old(blocks), a, true), head, tail) && Settled(blocks, tail, head)
                && Keeps(old(ram[..]), Flagged(old(blocks), a, true), ram[..], blocks, head, tail)
    {
      hide Layout, Keeps, Used, PutFree, Flagged, Coalesced, Settled;
      if ptr == 0 {
        return;
      }
      UsedBlock(ptr);
      var block := ptr - HEADER;
      BlockFacts(block);
      ghost var m0, b0 := ram[..], Flagged(blocks, block, true);
      FlagLayout(m0, blocks, head, tail, block, true);
      GiveBack(m0, blocks, head, tail, block);
      SetFree(block, true);
      blocks := b0;
      ghost var m1 := ram[..];
      Coalescence();
      KeepsTwice(m0, b0, m1, b0, ram[..], blocks, head, tail);
    }

    /** allocsize: the payload of a live pointer. */
    method AllocSize(ptr: nat) returns (n: nat)
      requires Valid() && (ptr == 0 || Live(ptr))
      ensures ptr == 0 ==> n == 0
      ensures ptr != 0 ==> HEADER + n == blocks[ptr - HEADER].size
    {
      if ptr == 0 {
        return 0;
      }
      BlockFacts(ptr - HEADER);
      n := Size(ptr - HEADER) - HEADER;
    }

    /** Payload bytes ptr .. ptr + n may have changed, no other byte. */
    ghost predicate WithinPayload(m: Memory, m': Memory, ptr: nat, n: nat) {
      |m'| == |m| && forall x: nat | x < |m| && !(ptr <= x < ptr + n) :: m'[x] == m[x]
    }

    /** A write into the payload of a live block keeps the layout and all other blocks in use. */
    lemma PayloadStep(m: Memory, m': Memory, ptr: nat, n: nat)
      requires Layout(m, blocks, head, tail) && Live(ptr) && HEADER + n <= blocks[ptr - HEADER].size
      requires WithinPayload(m, m', ptr, n)
      ensures Layout(m', blocks, head, tail)
      ensures Keeps(m, Flagged(blocks, ptr - HEADER, true), m', blocks, head, tail)
    {
      var a := ptr - HEADER;
      PayloadWrite(m, m', blocks, head, tail, a);
      FlagChain(blocks, head, tail, a, true);
      Apart(blocks, head, tail, a, a);
      FreeBlockWrite(m, m', Flagged(blocks, a, true), head, tail, a, blocks[a].size);
      hide Chain, SameBytes, Layout, WithinPayload;
    }

    /** memset(ptr, 0, n) */
    method Clear(ptr: nat, n: nat)
      requires Valid() && Live(ptr) && HEADER + n <= blocks[ptr - HEADER].size
      modifies ram
      ensures Valid() && Keeps(old(ram[..]), Flagged(blocks, ptr - HEADER, true), ram[..], blocks, head, tail)
      ensures ptr + n <= ram.Length && forall i | ptr <= i < ptr + n :: ram[i] == 0
    {
      hide Layout, Keeps, Used, Flagged;
      UsedBlock(ptr);
      BlockFacts(ptr - HEADER);
      ghost var m := ram[..];
      for i := 0 to n
        invariant WithinPayload(m, ram[..], ptr, n)
        invariant forall k | ptr <= k < ptr + i :: ram[k] == 0
      {
        ram[ptr + i] := 0;
      }
      PayloadStep(m, ram[..], ptr, n);
    }

    /** memcpy(dst, src, n) between ranges that do not overlap, into the payload of a live block. */
    method CopyInto(dst: nat, src: nat, n: nat)
      requires Valid() && Live(dst) && HEADER + n <= blocks[dst - HEADER].size
      requires src + n <= ram.Length && (src + n <= dst || dst + n <= src)
      modifies ram
      ensures Valid() && Keeps(old(ram[..]), Flagged(blocks, dst - HEADER, true), ram[..], blocks, head, tail)
      ensures dst + n <= ram.Length && forall x | dst <= x < dst + n :: ram[x] == old(ram[..])[src + (x - dst)]
    {
      hide Layout, Keeps, Used, Flagged;
      UsedBlock(dst);
      BlockFacts(dst - HEADER);
      ghost var m := ram[..];
      for i := 0 to n
        invariant WithinPayload(m, ram[..], dst, n)
        invariant forall x | dst <= x < dst + i :: ram[x] == m[src + (x - dst)]
      {
        ram[dst + i] := ram[src + i];
      }
      PayloadStep(m, ram[..], dst, n);
    }

    /**
     calloc: malloc of the product in 64 bits, then zeroes in that payload and nowhere
     else. A product that wraps around in required_size gets a block without payload;
     the model stops where the source would clear memory behind it (`wild`).
     */
    method Calloc(num: nat, size: nat) returns (ptr: nat, grow: bool, wild: bool)
      requires Valid() && Terminates(num * size % WORD)
      modifies this`blocks, this`expanded, ram
      ensures Valid() && Keeps(old(ram[..]), old(blocks), ram[..], blocks, head, tail)
      ensures ptr == 0 ==> Used(blocks) == Used(old(blocks))
      ensures wild <==> ptr != 0 && num * size % WORD > MAX_REQUEST
      ensures ptr != 0 ==>
                && Allocated(num * size % WORD, ptr) && ptr - HEADER !in Used(old(blocks))
                && Used(blocks) == Used(old(blocks)) + {ptr - HEADER}
      ensures ptr != 0 && !wild ==>
                var n := num * size % WORD;
                ptr + n <= ram.Length && forall i | ptr <= i < ptr + n :: ram[i] == 0
      ensures var n := num * size % WORD;
              if n == 0 then ptr == 0 && !grow else exists s :: Serves(n, s) && Outcome(old(blocks), s, ptr)
    {
      hide Layout, Keeps, Used, LeastPower, Flagged, Searched, FailsTwice;
      ghost var m0, b0 := ram[..], blocks;
      var n := num * size % WORD;
      ptr, grow := Malloc(n);
      wild := ptr != 0 && n > MAX_REQUEST;
      if ptr == 0 || wild {
        return;
      }
      UsedBlock(ptr);
      RoomIn(n, ptr);
      ghost var m1 := ram[..];
      Clear(ptr, n);
      KeepsThen(m0, b0, m1, blocks, ram[..], blocks, head, tail, ptr - HEADER);
    }

    lemma RoomIn(n: nat, ptr: nat)
      requires Allocated(n, ptr) && n <= MAX_REQUEST
      ensures ptr - HEADER in blocks && n + HEADER <= blocks[ptr - HEADER].size
    {
    }

    /**
     realloc: a new block, the old contents up to the smaller size, the old block
     freed. Without a new block the old one stays. A request that wraps around gets
     a block without payload; the model stops before the copy leaves it (`wild`).
     */
    method Realloc(ptr: nat, n: nat) returns (r: nat, grow: bool, wild: bool)
      requires Valid() && (ptr == 0 || Live(ptr)) && Terminates(n)
      requires ptr != 0 && 0 < n <= MAX_REQUEST ==> ptr + CopyLength(n, blocks[ptr - HEADER].size) <= ram.Length
      modifies this`blocks, this`expanded, ram
      ensures Valid()
      ensures wild <==> ptr != 0 && r != 0 && r != ptr && n > MAX_REQUEST
      ensures ptr == 0 || wild || (r == ptr && n != 0) ==> Keeps(old(ram[..]), old(blocks), ram[..], blocks, head, tail)
      ensures ptr == 0 || wild ==>
                && Used(blocks) == Used(old(blocks)) + (if r == 0 then {} else {r - HEADER})
                && (r != 0 ==> Allocated(n, r))
      ensures ptr != 0 ==> (r == 0 <==> n == 0)
      ensures ptr != 0 && r == 0 ==> Released(ptr, old(ram[..]), old(blocks), {})
      ensures ptr != 0 && r == ptr ==> Used(blocks) == Used(old(blocks))
      ensures ptr != 0 && r != 0 && r != ptr && !wild ==>
                && r - HEADER !in Used(old(blocks)) && Allocated(n, r)
                && Released(ptr, old(ram[..]), old(blocks), {r - HEADER})
                && Copied(old(ram[..]), ram[..], ptr, r, n, old(blocks)[ptr - HEADER].size - HEADER)
      ensures ptr != 0 && r != 0 && r != ptr && !wild ==>
                var room := old(blocks)[ptr - HEADER].size - HEADER;
                var k := if n < room then n else room;
                && 0 <= k && ptr + k <= ram.Length && r + k <= ram.Length
                && forall x: nat | r <= x < r + k :: ram[x] == old(ram[..])[ptr + (x - r)]
      ensures ptr != 0 && n != 0 ==> exists s :: Serves(n, s) && Placed(old(blocks), s, ptr, r)
    {
      hide Layout, Keeps, LeastPower, Flagged, Copied, Used, Searched, FailsTwice, Serves;
      if ptr == 0 {
        r, grow := Malloc(n);
        wild := false;
      } else if n == 0 {
        UsedBlock(ptr);
        Free(ptr);
        r, grow, wild := 0, false, false;
      } else {
        UsedBlock(ptr);
        BlockFacts(ptr - HEADER);
        ghost var m0, room := ram[..], blocks[ptr - HEADER].size - HEADER;
        r, grow, wild := Resize(ptr, n);
        if r != ptr && !wild {
          CopiedBytes(m0, ram[..], ptr, r, n, room);
        }
      }
    }

    /** realloc of a live pointer to a size other than 0. */
    method Resize(ptr: nat, n: nat) returns (r: nat, grow: bool, wild: bool)
      requires Valid() && Live(ptr) && n != 0 && Terminates(n)
      requires n <= MAX_REQUEST ==> ptr + CopyLength(n, blocks[ptr - HEADER].size) <= ram.Length
      modifies this`blocks, this`expanded, ram
      ensures Valid() && r != 0 && (wild <==> r != ptr && n > MAX_REQUEST)
      ensures wild || r == ptr ==> Keeps(old(ram[..]), old(blocks), ram[..], blocks, head, tail)
      ensures wild ==> Used(blocks) == Used(old(blocks)) + {r - HEADER} && Allocated(n, r)
      ensures r == ptr ==> Used(blocks) == Used(old(blocks))
      ensures r != ptr && !wild ==>
                && ptr - HEADER in old(blocks) && r - HEADER !in Used(old(blocks)) && Allocated(n, r)
                && Released(ptr, old(ram[..]), old(blocks), {r - HEADER})
                && Copied(old(ram[..]), ram[..], ptr, r, n, old(blocks)[ptr - HEADER].size - HEADER)
      ensures exists s :: Serves(n, s) && Placed(old(blocks), s, ptr, r)
    {
      hide Layout, Keeps, LeastPower, Flagged, Copied, Used, Searched, FailsTwice, Serves;
      UsedBlock(ptr);
      ghost var m0, b0 := ram[..], blocks;
      r, grow := Malloc(n);
      wild := r != 0 && n > MAX_REQUEST;
      ghost var s :| Serves(n, s) && Outcome(b0, s, r);
      assert Placed(b0, s, ptr, if r == 0 then ptr else r);
      ghost var m1, b1 := ram[..], blocks;
      StillUsed(m0, b0, m1, b1, head, tail, ptr - HEADER);
      if r == 0 {
        r := ptr;
      } else if !wild {
        MoveTo(ptr, r, n, m0, b0);
      }
    }

    /** The copy after malloc, seen from before it. */
    method MoveTo(ptr: nat, newptr: nat, n: nat, ghost m0: Memory, ghost b0: Blocks)
      requires Valid() && Live(ptr) && Allocated(n, newptr) && ptr != newptr && n <= MAX_REQUEST
      requires ptr - HEADER in b0 && blocks[ptr - HEADER] == b0[ptr - HEADER] && newptr - HEADER !in Used(b0)
      requires Keeps(m0, b0, ram[..], blocks, head, tail) && SameBytes(m0, ram[..], ptr - HEADER, b0[ptr - HEADER].size)
      requires ptr + CopyLength(n, b0[ptr - HEADER].size) <= ram.Length
      modifies this`blocks, ram
      ensures Valid() && Used(blocks) == Used(old(blocks)) - {ptr - HEADER} && Allocated(n, newptr)
      ensures Keeps(m0, Flagged(b0, ptr - HEADER, true), ram[..], blocks, head, tail)
      ensures Copied(m0, ram[..], ptr, newptr, n, b0[ptr - HEADER].size - HEADER)
    {
      hide Layout, Keeps, LeastPower, Flagged, Copied;
      RoomIn(n, newptr);
      ghost var m1, b1 := ram[..], blocks;
      BlockFacts(ptr - HEADER);
      Move(ptr, newptr, n);
      MovedKeeps(m0, b0, m1, b1, ram[..], blocks, head, tail, ptr - HEADER, newptr - HEADER);
      CopiedPayload(m1, ram[..], ptr, newptr, n, b0[ptr - HEADER].size);
      CopiedBefore(m0, m1, ram[..], ptr, newptr, n, b0[ptr - HEADER].size);
    }

    /** realloc returns the place that the searches of malloc find, or the old pointer if they find none. */
    ghost predicate Placed(bs: Blocks, s: nat, ptr: nat, r: nat)
      reads this
    {
      var found := Searched(bs, head, tail, s).1;
      r == if found == 0 then ptr else found + HEADER
    }

    /**
     The end of realloc: copy, then free the old block. The copy takes up to the
     old block's size, header included, from the payload on; see OverRead.
     */
    method Move(ptr: nat, newptr: nat, n: nat)
      requires Valid() && Live(ptr) && Live(newptr) && ptr != newptr
      requires ptr + CopyLength(n, blocks[ptr - HEADER].size) <= ram.Length
      requires newptr - HEADER in blocks && n + HEADER <= blocks[newptr - HEADER].size
      modifies this`blocks, ram
      ensures Valid() && Used(blocks) == Used(old(blocks)) - {ptr - HEADER}
      ensures newptr - HEADER in blocks && ptr - HEADER in old(blocks) && newptr - HEADER in old(blocks)
      ensures blocks[newptr - HEADER] == old(blocks)[newptr - HEADER]
      ensures Keeps(old(ram[..]), Flagged(Flagged(old(blocks), newptr - HEADER, true), ptr - HEADER, true), ram[..],
                    blocks, head, tail)
      ensures Copied(old(ram[..]), ram[..], ptr, newptr, n, old(blocks)[ptr - HEADER].size)
    {
      hide Layout, Keeps, Used, Flagged;
      UsedBlock(ptr);
      UsedBlock(newptr);
      var a, b := ptr - HEADER, newptr - HEADER;
      BlockFacts(a);
      BlockFacts(b);
      Apart(blocks, head, tail, a, b) by {
        ChainOf();
      }
      ghost var m1, b1 := ram[..], blocks;
      var oldsize := Size(a);
      if n < oldsize {
        oldsize := n;
      }
      CopyInto(newptr, ptr, oldsize);
      ghost var m2 := ram[..];
      FlaggedHas(b1, b, a);
      KeepsFewer(m1, Flagged(b1, b, true), m2, b1, head, tail, a);
      Free(ptr);
      KeepsTwice(m1, Flagged(Flagged(b1, b, true), a, true), m2, Flagged(b1, a, true), ram[..], blocks, head, tail);
      UsedSame(m2, Flagged(b1, a, true), ram[..], blocks, head, tail, b);
    }

    lemma ChainOf()
      requires Valid()
      ensures Chain(blocks, head, tail)
    {
    }

    /** ptr's block is no longer in use, `taken` is, and all other blocks that were in use are unchanged. */
    ghost predicate Released(ptr: nat, m: Memory, bs: Blocks, taken: set<nat>)
      requires ptr >= HEADER && ptr - HEADER in bs
      reads this, ram
    {
      && Used(blocks) == Used(bs) - {ptr - HEADER} + taken
      && Keeps(m, Flagged(bs, ptr - HEADER, true), ram[..], blocks, head, tail)
    }
  }

  lemma PageIsPower()
    ensures Power(0x1000)
  {
    PowerOf(12);
    Pow2Values();
  }

  /** Taking a free block, or giving back a used one, touches no other block in use. */
  lemma FlagKeeps(m: Memory, bs: Blocks, head: nat, tail: nat, a: nat, free: bool)
    requires Layout(m, bs, head, tail) && a in bs && a + HEADER <= |m|
    ensures !free && bs[a].free ==> Keeps(m, bs, PutFree(m, a, free), Flagged(bs, a, free), head, tail)
  {
    if !free && bs[a].free {
      Apart(bs, head, tail, a, a);
      FreeBlockWrite(m, PutFree(m, a, free), bs, head, tail, a, HEADER);
      hide Layout, Chain, PutFree, SameBytes;
    }
  }

  lemma FlaggedHas(bs: Blocks, b: nat, a: nat)
    requires a in bs && b in bs
    ensures a in Flagged(bs, b, true) && b in Flagged(bs, a, true)
    ensures a != b ==> Flagged(bs, a, true)[b] == bs[b]
  {
  }

  lemma UsedSame(m: Memory, bs: Blocks, m': Memory, bs': Blocks, head: nat, tail: nat, a: nat)
    requires Keeps(m, bs, m', bs', head, tail) && a in bs && !bs[a].free
    ensures a in bs' && bs'[a] == bs[a] && SameBytes(m, m', a, bs[a].size)
  {
  }

  /** Giving a used block back changes the memory of no other block in use. */
  lemma GiveBack(m: Memory, bs: Blocks, head: nat, tail: nat, a: nat)
    requires Layout(m, bs, head, tail) && a in bs && a + HEADER <= |m|
    ensures Keeps(m, Flagged(bs, a, true), PutFree(m, a, true), Flagged(bs, a, true), head, tail)
  {
    FlagChain(bs, head, tail, a, true);
    Apart(bs, head, tail, a, a);
    FreeBlockWrite(m, PutFree(m, a, true), Flagged(bs, a, true), head, tail, a, HEADER);
    hide Layout, Chain, PutFree, SameBytes;
  }

  /** malloc leaves the block that realloc is about to copy as it was. */
  lemma StillUsed(m0: Memory, b0: Blocks, m1: Memory, b1: Blocks, head: nat, tail: nat, a: nat)
    requires Keeps(m0, b0, m1, b1, head, tail) && a in Used(b0)
    ensures a in b1 && b1[a] == b0[a] && a in Used(b1) && SameBytes(m0, m1, a, b0[a].size)
  {
  }

  lemma MovedKeeps(m0: Memory, b0: Blocks, m1: Memory, b1: Blocks, m2: Memory, b2: Blocks, head: nat, tail: nat,
                   a: nat, b: nat)
    requires Keeps(m0, b0, m1, b1, head, tail) && a in b0 && a in b1 && b in b1 && b !in Used(b0)
    requires Keeps(m1, Flagged(Flagged(b1, b, true), a, true), m2, b2, head, tail)
    ensures Keeps(m0, Flagged(b0, a, true), m2, b2, head, tail)
  {
    assert Flagged(Flagged(b1, b, true), a, true) == Flagged(Flagged(b1, a, true), b, true);
    KeepsFewer(m0, b0, m1, b1, head, tail, a);
    KeepsThen(m0, Flagged(b0, a, true), m1, Flagged(b1, a, true), m2, b2, head, tail, b);
  }

  /** The bytes that both payloads have room for are copied from ptr to r. */
  ghost predicate Copied(m: Memory, m': Memory, ptr: nat, r: nat, n: nat, room: int) {
    var k := if n < room then n else room;
    ptr + k <= |m| && r + k <= |m'| && forall x: nat | r <= x < r + k :: m'[x] == m[ptr + (x - r)]
  }

  lemma CopiedBytes(m: Memory, m': Memory, ptr: nat, r: nat, n: nat, room: int)
    requires Copied(m, m', ptr, r, n, room) && 0 <= room && ptr + room <= |m|
    ensures var k := if n < room then n else room;
            r + k <= |m'| && forall x: nat | r <= x < r + k :: m'[x] == m[ptr + (x - r)]
  {
  }

  /** How many bytes realloc copies from a block of the given size. */
  function CopyLength(n: nat, size: nat): nat {
    if n < size then n else size
  }

  /** realloc to n bytes reads address x of a block of the given size with its payload at ptr. */
  predicate Reads(ptr: nat, size: nat, n: nat, x: nat) {
    ptr <= x < ptr + CopyLength(n, size)
  }

  /**
   The copy reads behind the block if and only if the request exceeds its payload,
   and then as many bytes as it exceeds it, up to the size of a header.
   */
  lemma OverRead(ptr: nat, size: nat, n: nat)
    requires HEADER <= ptr && HEADER <= size
    ensures var end := ptr - HEADER + size;
            && ((exists x :: Reads(ptr, size, n, x) && end <= x) <==> n > size - HEADER)
            && (n > size - HEADER ==>
                  var over := n - (size - HEADER);
                  ptr + CopyLength(n, size) - end == if over < HEADER then over else HEADER)
  {
    var end := ptr - HEADER + size;
    if n > size - HEADER {
      assert Reads(ptr, size, n, end);
    }
  }

  /** A page after one request of 16 bytes: the last block is used. */
  ghost function OverReadBlocks(): Blocks {
    map[16 := Block(2048, true), 2064 := Block(1024, true), 3088 := Block(512, true), 3600 := Block(256, true),
        3856 := Block(128, true), 3984 := Block(64, true), 4048 := Block(32, true), 4080 := Block(32, false)]
  }

  /** realloc of its 16 bytes to 20 reads four bytes behind the block, and to 40 sixteen, here behind the heap. */
  lemma OverReadCase()
    ensures var bs := OverReadBlocks();
            && Chain(bs, 16, 4112) && 4080 in Used(bs) && bs[4080].size - HEADER == 16 && 4080 + bs[4080].size == 4112
            && 4096 + CopyLength(20, bs[4080].size) == 4112 + 4
            && 4096 + CopyLength(40, bs[4080].size) == 4112 + HEADER
  {
    var bs := OverReadBlocks();
    Powers();
    hide Power;
    assert Linked(bs, 16, 4112, 16) && Linked(bs, 16, 4112, 2064) && Linked(bs, 16, 4112, 3088);
    assert Linked(bs, 16, 4112, 3600) && Linked(bs, 16, 4112, 3856) && Linked(bs, 16, 4112, 3984);
    assert Linked(bs, 16, 4112, 4048) && Linked(bs, 16, 4112, 4080);
  }

  /** What is copied covers the payload, as far as it is asked for. */
  lemma CopiedPayload(m: Memory, m': Memory, ptr: nat, r: nat, n: nat, size: nat)
    requires HEADER <= size && Copied(m, m', ptr, r, n, size)
    ensures Copied(m, m', ptr, r, n, size - HEADER)
  {
  }

  lemma CopiedBefore(m0: Memory, m1: Memory, m2: Memory, ptr: nat, r: nat, n: nat, size: nat)
    requires ptr >= HEADER && SameBytes(m0, m1, ptr - HEADER, size) && Copied(m1, m2, ptr, r, n, size - HEADER)
    ensures Copied(m0, m2, ptr, r, n, size - HEADER)
  {
  }
}
