/** What the two walks over the heap's blocks do, as functions of the blocks. */
module HeapWalk {
  import opened Bits
  import opened Rounding
  import opened HeapBlocks

  /** There is a block, and one after it. */
  ghost predicate Pair(bs: Blocks, tail: nat, block: nat) {
    block < tail && block in bs && 0 < bs[block].size && block + bs[block].size < tail
    && block + bs[block].size in bs && 0 < bs[block + bs[block].size].size
  }

  /** Where a walk goes after a pair: behind a merged block, behind the pair, or to its second block. */
  ghost function After(bs: Blocks, block: nat, skip: bool): (next: nat)
    requires block in bs && block + bs[block].size in bs
  {
    var tmp := block + bs[block].size;
    if CanMerge(bs, block) || skip then tmp + bs[tmp].size else tmp
  }

  ghost function MergedPair(bs: Blocks, block: nat): Blocks {
    if CanMerge(bs, block) then Merged(bs, block) else bs
  }

  // ----- One pass of coalescence --------------------------------------------------------------

  /** coalescence goes on behind the pair unless the first block is the smaller one. */
  ghost predicate SkipsPair(bs: Blocks, block: nat)
    requires block in bs && block + bs[block].size in bs
  {
    bs[block].size >= bs[block + bs[block].size].size
  }

  /** The blocks after a pass from the given block on. */
  ghost function PassFrom(bs: Blocks, tail: nat, block: nat): Blocks
    decreases tail - block
  {
    if !Pair(bs, tail, block) then bs
    else PassFrom(MergedPair(bs, block), tail, After(bs, block, SkipsPair(bs, block)))
  }

  /** Whether that pass asks for another one: a merge that does not end at the tail. */
  ghost predicate AgainFrom(bs: Blocks, tail: nat, block: nat)
    decreases tail - block
  {
    Pair(bs, tail, block) &&
    var next := After(bs, block, SkipsPair(bs, block));
    (CanMerge(bs, block) && next < tail) || AgainFrom(MergedPair(bs, block), tail, next)
  }

  /** coalescence: passes until one does not ask for another. */
  ghost function Coalesced(bs: Blocks, head: nat, tail: nat): Blocks
    decreases |bs|
  {
    var r := PassFrom(bs, tail, head);
    if AgainFrom(bs, tail, head) && |r| < |bs| then Coalesced(r, head, tail) else r
  }

  // ----- The search ----------------------------------------------------------------------------

  /** The candidate after block a was looked at; equal says whether an equally large block replaces it. */
  ghost function Chosen(bs: Blocks, best: nat, a: nat, size: nat, equal: bool): nat
    requires a in bs
  {
    if bs[a].free && size <= bs[a].size &&
       (best == 0 || (best in bs && (bs[a].size < bs[best].size || (equal && bs[a].size == bs[best].size))))
    then a else best
  }

  /** The candidate after a pair. */
  ghost function ChosenPair(bs: Blocks, best: nat, block: nat, size: nat): nat
    requires block in bs && block + bs[block].size in bs
  {
    if CanMerge(bs, block) then Chosen(Merged(bs, block), best, block, size, true)
    else Chosen(bs, Chosen(bs, best, block, size, true), block + bs[block].size, size, false)
  }

  /** Blocks and candidate after the search from the given block on. */
  ghost function BestFrom(bs: Blocks, tail: nat, block: nat, best: nat, size: nat): (Blocks, nat)
    decreases tail - block
  {
    if !Pair(bs, tail, block) then (bs, best)
    else BestFrom(MergedPair(bs, block), tail, After(bs, block, bs[block].size <= bs[block + bs[block].size].size),
                  ChosenPair(bs, best, block, size), size)
  }

  /** split: halves until the size is reached; the last half, or 0. */
  ghost function SplitFrom(bs: Blocks, a: nat, size: nat): (Blocks, nat)
    decreases if a in bs then bs[a].size else 0
  {
    if a !in bs || size == 0 then (bs, 0)
    else if size < bs[a].size && bs[a].size / 2 < bs[a].size then SplitFrom(Halved(bs, a), a + bs[a].size / 2, size)
    else (bs, if size <= bs[a].size then a else 0)
  }

  /** find_best */
  ghost function Best(bs: Blocks, head: nat, tail: nat, size: nat): (Blocks, nat) {
    if size == 0 || head !in bs then (bs, 0)
    else if head + bs[head].size == tail && bs[head].free then SplitFrom(bs, head, size)
    else
      var r := BestFrom(bs, tail, head, 0, size);
      if r.1 == 0 then r else SplitFrom(r.0, r.1, size)
  }

  /** The two searches of malloc. */
  ghost function Searched(bs: Blocks, head: nat, tail: nat, size: nat): (Blocks, nat) {
    var first := Best(bs, head, tail, size);
    if first.1 != 0 then first else Best(Coalesced(first.0, head, tail), head, tail, size)
  }

  // ----- What the walks miss ----------------------------------------------------------------------

  /** A page: two used blocks of 1024 bytes and a free one of 2048 behind them. */
  ghost function Missed(): Blocks {
    map[16 := Block(1024, false), 1040 := Block(1024, false), 2064 := Block(2048, true)]
  }

  /** A free block at the end of the heap is not found, not even for half its size. */
  lemma LastBlockMissed()
    ensures Chain(Missed(), 16, 4112) && Missed()[2064].free && Searched(Missed(), 16, 4112, 1024) == (Missed(), 0)
  {
    var bs := Missed();
    Powers();
    assert Linked(bs, 16, 4112, 16) && Linked(bs, 16, 4112, 1040) && Linked(bs, 16, 4112, 2064);
    assert !Pair(bs, 4112, 2064);
    assert BestFrom(bs, 4112, 2064, 0, 1024) == (bs, 0);
    assert BestFrom(bs, 4112, 16, 0, 1024) == (bs, 0);
    assert PassFrom(bs, 4112, 2064) == bs && !AgainFrom(bs, 4112, 2064);
    assert PassFrom(bs, 4112, 16) == bs && !AgainFrom(bs, 4112, 16);
  }

  /** A page: a used block, two free blocks of the same size, a used block. */
  ghost function Neighbours(): Blocks {
    map[16 := Block(1024, false), 1040 := Block(1024, true), 2064 := Block(1024, true), 3088 := Block(1024, false)]
  }

  /** Free neighbours of the same size stay unmerged when the walk pairs them with others. */
  lemma NeighboursLeft()
    ensures Chain(Neighbours(), 16, 4112) && CanMerge(Neighbours(), 1040)
    ensures Coalesced(Neighbours(), 16, 4112) == Neighbours()
  {
    var bs := Neighbours();
    Powers();
    assert Linked(bs, 16, 4112, 16) && Linked(bs, 16, 4112, 1040);
    assert Linked(bs, 16, 4112, 2064) && Linked(bs, 16, 4112, 3088);
    assert PassFrom(bs, 4112, 4112) == bs && !AgainFrom(bs, 4112, 4112);
    assert PassFrom(bs, 4112, 2064) == bs && !AgainFrom(bs, 4112, 2064);
    assert PassFrom(bs, 4112, 16) == bs && !AgainFrom(bs, 4112, 16);
  }

  lemma Powers()
    ensures Power(32) && Power(64) && Power(128) && Power(256) && Power(512) && Power(1024) && Power(2048)
  {
    PowerOf(5);
    PowerOf(6);
    PowerOf(7);
    PowerOf(8);
    PowerOf(9);
    PowerOf(10);
    PowerOf(11);
    Pow2Values();
    hide Power;
    assert Pow2(9) == 512 && Pow2(10) == 1024 && Pow2(11) == 2048;
  }

  // ----- One round at a time --------------------------------------------------------------------------

  lemma PassStep(bs: Blocks, tail: nat, block: nat)
    requires Pair(bs, tail, block)
    ensures var next := After(bs, block, SkipsPair(bs, block));
            && PassFrom(bs, tail, block) == PassFrom(MergedPair(bs, block), tail, next)
            && AgainFrom(bs, tail, block) ==
              ((CanMerge(bs, block) && next < tail) || AgainFrom(MergedPair(bs, block), tail, next))
  {
  }

  lemma PassEnd(bs: Blocks, tail: nat, block: nat)
    requires !Pair(bs, tail, block)
    ensures PassFrom(bs, tail, block) == bs && !AgainFrom(bs, tail, block)
  {
  }

  lemma BestStep(bs: Blocks, tail: nat, block: nat, best: nat, size: nat)
    requires Pair(bs, tail, block)
    ensures BestFrom(bs, tail, block, best, size) ==
            BestFrom(MergedPair(bs, block), tail, After(bs, block, bs[block].size <= bs[block + bs[block].size].size),
                     ChosenPair(bs, best, block, size), size)
  {
  }

  lemma BestEnd(bs: Blocks, tail: nat, block: nat, best: nat, size: nat)
    requires !Pair(bs, tail, block)
    ensures BestFrom(bs, tail, block, best, size) == (bs, best)
  {
  }

  lemma CoalescedStep(bs: Blocks, head: nat, tail: nat)
    requires AgainFrom(bs, tail, head) ==> |PassFrom(bs, tail, head)| < |bs|
    ensures Coalesced(bs, head, tail) ==
            if AgainFrom(bs, tail, head) then Coalesced(PassFrom(bs, tail, head), head, tail)
              else PassFrom(bs, tail, head)
  {
    hide PassFrom, AgainFrom;
  }

  lemma SplitStep(bs: Blocks, a: nat, size: nat)
    requires a in bs && 0 < size < bs[a].size
    ensures SplitFrom(bs, a, size) == SplitFrom(Halved(bs, a), a + bs[a].size / 2, size)
  {
  }

  lemma SplitEnd(bs: Blocks, a: nat, size: nat)
    requires a in bs && 0 < size && bs[a].size <= size
    ensures SplitFrom(bs, a, size) == (bs, if size <= bs[a].size then a else 0)
  {
  }
}
