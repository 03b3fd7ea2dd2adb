/** What the two walks over the heap find and what they leave, for every layout. */
module HeapReach {
  import opened Rounding
  import opened HeapBlocks
  import opened HeapWalk

  // ----- One pair --------------------------------------------------------------------------

  lemma PairOf(bs: Blocks, head: nat, tail: nat, block: nat)
    requires Chain(bs, head, tail) && block in bs
    ensures Pair(bs, tail, block) <==> block + bs[block].size < tail
    ensures 0 < block < tail && 0 < bs[block].size && block + bs[block].size <= tail
  {
    assert Linked(bs, head, tail, block);
    if block + bs[block].size in bs {
      assert Linked(bs, head, tail, block + bs[block].size);
    }
  }

  /** Both walks stay on blocks, and what lies before the pair stays as it is. */
  lemma PairStep(bs: Blocks, head: nat, tail: nat, block: nat, skip: bool)
    requires Chain(bs, head, tail) && Pair(bs, tail, block)
    ensures var bs', next := MergedPair(bs, block), After(bs, block, skip);
            && Chain(bs', head, tail) && block < next && (next in bs' || next == tail)
            && (forall a | a in bs && a < block :: a in bs' && bs'[a] == bs[a])
            && (forall a | a in bs' && a < next :: a <= block || (a == block + bs[block].size && bs'[a] == bs[a]))
            && (forall a | a in bs' && a < block :: a in bs)
            && |bs'| == |bs| - (if CanMerge(bs, block) then 1 else 0)
  {
    var tmp := block + bs[block].size;
    PairOf(bs, head, tail, block);
    PairOf(bs, head, tail, tmp);
    assert Linked(bs, head, tail, tmp);
    if CanMerge(bs, block) {
      MergeChain(bs, head, tail, block);
    }
    forall a | a in bs && block < a ensures tmp <= a && (tmp < a ==> tmp + bs[tmp].size <= a) {
      Apart(bs, head, tail, block, a);
      Apart(bs, head, tail, tmp, a);
    }
    hide Chain;
  }

  // ----- What coalescence leaves ---------------------------------------------------------------

  /** A pass over bs from the given block on pairs block p with the one after it. */
  ghost predicate Visits(bs: Blocks, tail: nat, block: nat, p: nat)
    decreases tail - block
  {
    Pair(bs, tail, block) && (p == block || Visits(bs, tail, After(bs, block, SkipsPair(bs, block)), p))
  }

  /** No pair that the pass meets can be merged. */
  ghost predicate Settled(bs: Blocks, tail: nat, block: nat) {
    forall p | Visits(bs, tail, block, p) :: !CanMerge(bs, p)
  }

  lemma SettledStep(bs: Blocks, tail: nat, block: nat)
    requires Pair(bs, tail, block)
    ensures Settled(bs, tail, block) <==>
            !CanMerge(bs, block) && Settled(bs, tail, After(bs, block, SkipsPair(bs, block)))
  {
    var next := After(bs, block, SkipsPair(bs, block));
    forall p ensures Visits(bs, tail, block, p) <==> p == block || Visits(bs, tail, next, p) {
    }
    hide Visits;
  }

  /** A pass keeps the tiling and all blocks before its start; the first block keeps its flag and may double. */
  lemma {:induction false} PassKeeps(bs: Blocks, head: nat, tail: nat, block: nat)
    requires Chain(bs, head, tail) && (block in bs || block == tail)
    ensures var r := PassFrom(bs, tail, block);
            && Chain(r, head, tail) && |r| <= |bs| && (AgainFrom(bs, tail, block) ==> |r| < |bs|)
            && (forall a | a in bs && a < block :: a in r && r[a] == bs[a])
            && (block in bs ==> block in r && r[block].free == bs[block].free && bs[block].size <= r[block].size)
    decreases tail - block
  {
    if Pair(bs, tail, block) {
      var bs', next := MergedPair(bs, block), After(bs, block, SkipsPair(bs, block));
      PairStep(bs, head, tail, block, SkipsPair(bs, block));
      PassStep(bs, tail, block);
      hide PassFrom, AgainFrom, After, Chain;
      PassKeeps(bs', head, tail, next);
    }
  }

  /** A pass changes nothing if and only if no pair it meets can be merged, and then it asks for no other. */
  lemma {:induction false} PassIdle(bs: Blocks, head: nat, tail: nat, block: nat)
    requires Chain(bs, head, tail) && (block in bs || block == tail)
    ensures PassFrom(bs, tail, block) == bs <==> Settled(bs, tail, block)
    ensures Settled(bs, tail, block) ==> !AgainFrom(bs, tail, block)
    decreases tail - block
  {
    if Pair(bs, tail, block) {
      var bs', next := MergedPair(bs, block), After(bs, block, SkipsPair(bs, block));
      PairStep(bs, head, tail, block, SkipsPair(bs, block));
      PassStep(bs, tail, block);
      SettledStep(bs, tail, block);
      hide PassFrom, AgainFrom, After, Chain, Settled;
      if CanMerge(bs, block) {
        PassKeeps(bs', head, tail, next);
      } else {
        PassIdle(bs, head, tail, next);
      }
    }
  }

  /** A pass that asks for no other one leaves a layout that a further pass would not change. */
  lemma {:induction false} PassSettles(bs: Blocks, head: nat, tail: nat, block: nat)
    requires Chain(bs, head, tail) && (block in bs || block == tail) && !AgainFrom(bs, tail, block)
    ensures Settled(PassFrom(bs, tail, block), tail, block)
    decreases tail - block
  {
    var r := PassFrom(bs, tail, block);
    if Pair(bs, tail, block) {
      var tmp := block + bs[block].size;
      var bs', next := MergedPair(bs, block), After(bs, block, SkipsPair(bs, block));
      PairStep(bs, head, tail, block, SkipsPair(bs, block));
      PassStep(bs, tail, block);
      PassKeeps(bs', head, tail, next);
      Inside(bs', head, tail, next);
      if CanMerge(bs, block) {
        PassEnd(bs', tail, next);
        assert !Pair(r, tail, block);
      } else {
        PassSettles(bs, head, tail, next);
        SettledBefore(bs, r, head, tail, block);
      }
    }
  }

  lemma Inside(bs: Blocks, head: nat, tail: nat, a: nat)
    requires Chain(bs, head, tail) && (a in bs || a == tail)
    ensures a <= tail && (a in bs ==> a < tail)
  {
    if a in bs {
      assert Linked(bs, head, tail, a);
    }
  }

  /** A pair that was met and not merged is met again, and again not merged, when the blocks behind have only grown. */
  lemma SettledBefore(bs: Blocks, r: Blocks, head: nat, tail: nat, block: nat)
    requires Chain(bs, head, tail) && Chain(r, head, tail) && Pair(bs, tail, block) && !CanMerge(bs, block)
    requires var next := After(bs, block, SkipsPair(bs, block));
             && (forall a | a in bs && a < next :: a in r && r[a] == bs[a])
             && (next in bs ==> next in r && r[next].free == bs[next].free && bs[next].size <= r[next].size)
             && Settled(r, tail, next)
    ensures Settled(r, tail, block)
  {
    hide Settled;
    var tmp := block + bs[block].size;
    PairOf(bs, head, tail, block);
    PairOf(bs, head, tail, tmp);
    PairOf(r, head, tail, block);
    SettledStep(r, tail, block);
  }

  /** What coalescence leaves is settled: a pair that could still be merged is one that no pass meets. */
  lemma {:induction false} CoalescedSettled(bs: Blocks, head: nat, tail: nat)
    requires Chain(bs, head, tail)
    ensures Chain(Coalesced(bs, head, tail), head, tail) && Settled(Coalesced(bs, head, tail), tail, head)
    ensures Coalesced(bs, head, tail) == bs <==> Settled(bs, tail, head)
    ensures |Coalesced(bs, head, tail)| <= |bs|
    decreases |bs|
  {
    hide PassFrom, AgainFrom, Settled, Linked;
    PassKeeps(bs, head, tail, head);
    CoalescedStep(bs, head, tail);
    PassIdle(bs, head, tail, head);
    if AgainFrom(bs, tail, head) {
      CoalescedSettled(PassFrom(bs, tail, head), head, tail);
    } else {
      PassSettles(bs, head, tail, head);
    }
  }

  // ----- What the search finds -----------------------------------------------------------------------

  /** find_best goes on behind the pair unless the first block is the larger one. */
  ghost predicate Passes(bs: Blocks, block: nat)
    requires block in bs && block + bs[block].size in bs
  {
    bs[block].size <= bs[block + bs[block].size].size
  }

  /** The layout that the search leaves, whatever it looks for. */
  ghost function Walked(bs: Blocks, tail: nat, block: nat): Blocks
    decreases tail - block
  {
    if !Pair(bs, tail, block) then bs
    else Walked(MergedPair(bs, block), tail, After(bs, block, Passes(bs, block)))
  }

  /**
   The search ends at a last block that it never looked at. unseen says that the
   block it stands on has not been looked at yet: it has only where the walk came
   to it as the second block of a pair.
   */
  ghost predicate Overlooks(bs: Blocks, tail: nat, block: nat, unseen: bool)
    decreases tail - block
  {
    if !Pair(bs, tail, block) then unseen && block in bs
    else
      Overlooks(MergedPair(bs, block), tail, After(bs, block, Passes(bs, block)),
                CanMerge(bs, block) || Passes(bs, block))
  }

  ghost predicate Fits(bs: Blocks, a: nat, size: nat) {
    a in bs && bs[a].free && size <= bs[a].size
  }

  ghost predicate Last(bs: Blocks, tail: nat, a: nat) {
    a in bs && a + bs[a].size == tail
  }

  /** Every free block that is large enough is the last one, and the search overlooks it. */
  ghost predicate OnlyOverlooked(bs: Blocks, tail: nat, block: nat, unseen: bool, size: nat) {
    var r := Walked(bs, tail, block);
    forall a | Fits(r, a, size) :: Last(r, tail, a) && Overlooks(bs, tail, block, unseen)
  }

  /** The candidate is one that fits, at or before the block; without one nothing looked at so far fits. */
  ghost predicate LookedAt(bs: Blocks, block: nat, best: nat, unseen: bool, size: nat) {
    if best != 0 then Fits(bs, best, size) && best <= block && (best == block ==> !unseen)
    else forall a | a in bs && (a < block || (a == block && !unseen)) :: !Fits(bs, a, size)
  }

  /** One round keeps this. */
  lemma LookedAtStep(bs: Blocks, head: nat, tail: nat, block: nat, best: nat, unseen: bool, size: nat)
    requires Chain(bs, head, tail) && Pair(bs, tail, block) && LookedAt(bs, block, best, unseen, size)
    ensures LookedAt(MergedPair(bs, block), After(bs, block, Passes(bs, block)), ChosenPair(bs, best, block, size),
                     CanMerge(bs, block) || Passes(bs, block), size)
  {
    PairStep(bs, head, tail, block, Passes(bs, block));
    PairOf(bs, head, tail, block);
    PairOf(bs, head, tail, block + bs[block].size);
    hide Chain;
    if CanMerge(bs, block) {
      assert Merged(bs, block)[block] == Block(2 * bs[block].size, true);
    }
  }

  /** The search ends without a candidate if and only if it overlooks all that would do. */
  lemma {:induction false} BestExact(bs: Blocks, head: nat, tail: nat, block: nat, best: nat, unseen: bool, size: nat)
    requires Chain(bs, head, tail) && (block in bs || block == tail) && LookedAt(bs, block, best, unseen, size)
    ensures var r := BestFrom(bs, tail, block, best, size);
            && r.0 == Walked(bs, tail, block) && Chain(r.0, head, tail)
            && (r.1 == 0 <==> OnlyOverlooked(bs, tail, block, unseen, size))
            && (r.1 != 0 ==> Fits(r.0, r.1, size))
    decreases tail - block
  {
    if Pair(bs, tail, block) {
      PairStep(bs, head, tail, block, Passes(bs, block));
      LookedAtStep(bs, head, tail, block, best, unseen, size);
      BestStep(bs, tail, block, best, size);
      WalkedStep(bs, tail, block, unseen, size);
      hide BestFrom, Walked, Overlooks, OnlyOverlooked, LookedAt, After, Chosen, ChosenPair, Chain;
      BestExact(MergedPair(bs, block), head, tail, After(bs, block, Passes(bs, block)),
                ChosenPair(bs, best, block, size),
                CanMerge(bs, block) || Passes(bs, block), size);
    } else {
      BestAtEnd(bs, head, tail, block, best, unseen, size);
    }
  }

  lemma WalkedStep(bs: Blocks, tail: nat, block: nat, unseen: bool, size: nat)
    requires Pair(bs, tail, block)
    ensures var bs', next := MergedPair(bs, block), After(bs, block, Passes(bs, block));
            && Walked(bs, tail, block) == Walked(bs', tail, next)
            && (OnlyOverlooked(bs, tail, block, unseen, size) <==>
                OnlyOverlooked(bs', tail, next, CanMerge(bs, block) || Passes(bs, block), size))
  {
  }

  lemma BestAtEnd(bs: Blocks, head: nat, tail: nat, block: nat, best: nat, unseen: bool, size: nat)
    requires Chain(bs, head, tail) && (block in bs || block == tail) && LookedAt(bs, block, best, unseen, size)
    requires !Pair(bs, tail, block)
    ensures best == 0 <==> OnlyOverlooked(bs, tail, block, unseen, size)
    ensures BestFrom(bs, tail, block, best, size) == (bs, best) && Walked(bs, tail, block) == bs
  {
    if block in bs {
      PairOf(bs, head, tail, block);
    }
    forall a | a in bs && a != block ensures a < block && (block < tail ==> !Last(bs, tail, a)) {
      Inside(bs, head, tail, a);
      if block in bs {
        Apart(bs, head, tail, block, a);
      }
    }
    Inside(bs, head, tail, tail);
    hide Chain;
    assert Walked(bs, tail, block) == bs && (Overlooks(bs, tail, block, unseen) <==> unseen && block in bs);
    if best != 0 {
      assert Fits(bs, best, size);
      assert !(Last(bs, tail, best) && Overlooks(bs, tail, block, unseen));
    }
  }

  /** A free block that is large enough and has one behind it is never overlooked. */
  lemma {:induction false} InnerBlockFound(bs: Blocks, head: nat, tail: nat, block: nat, best: nat, size: nat, a: nat)
    requires Chain(bs, head, tail) && block in bs
    requires (best != 0 || (block <= a && Fits(bs, a, size) && !Last(bs, tail, a)))
    ensures BestFrom(bs, tail, block, best, size).1 != 0
    decreases tail - block
  {
    PairOf(bs, head, tail, block);
    if Pair(bs, tail, block) {
      var bs', next := MergedPair(bs, block), After(bs, block, Passes(bs, block));
      PairStep(bs, head, tail, block, Passes(bs, block));
      BestStep(bs, tail, block, best, size);
      InnerStep(bs, head, tail, block, best, size, a);
      hide BestFrom, Chain, Chosen, ChosenPair;
      if next in bs' {
        InnerBlockFound(bs', head, tail, next, ChosenPair(bs, best, block, size), size, a);
      } else {
        Inside(bs', head, tail, next);
        BestEnd(bs', tail, next, ChosenPair(bs, best, block, size), size);
      }
    } else if best == 0 {
      Apart(bs, head, tail, block, a);
    }
  }

  /** After a round there is a candidate, or the block is still ahead. */
  lemma InnerStep(bs: Blocks, head: nat, tail: nat, block: nat, best: nat, size: nat, a: nat)
    requires Chain(bs, head, tail) && Pair(bs, tail, block)
    requires best != 0 || (block <= a && Fits(bs, a, size) && !Last(bs, tail, a))
    ensures ChosenPair(bs, best, block, size) != 0 ||
            (After(bs, block, Passes(bs, block)) <= a && Fits(MergedPair(bs, block), a, size) &&
             !Last(MergedPair(bs, block), tail, a) && After(bs, block, Passes(bs, block)) in MergedPair(bs, block))
  {
    var tmp := block + bs[block].size;
    PairStep(bs, head, tail, block, Passes(bs, block));
    PairOf(bs, head, tail, block);
    PairOf(bs, head, tail, tmp);
    if best == 0 {
      Apart(bs, head, tail, block, a);
      Apart(bs, head, tail, tmp, a);
      if After(bs, block, Passes(bs, block)) == tail {
        Inside(bs, head, tail, a);
      }
    }
  }

  // ----- find_best and the two searches --------------------------------------------------------------

  /** split succeeds exactly for a block that is large enough. */
  lemma {:induction false} SplitFinds(bs: Blocks, a: nat, size: nat)
    requires a in bs && 0 < a && Power(size) && Power(bs[a].size)
    ensures SplitFrom(bs, a, size).1 == 0 <==> bs[a].size < size
    decreases bs[a].size
  {
    PowerSelf(size);
    if size < bs[a].size {
      HalfPower(size, bs[a].size);
      SplitStep(bs, a, size);
      hide SplitFrom, Power;
      SplitFinds(Halved(bs, a), a + bs[a].size / 2, size);
    } else {
      SplitEnd(bs, a, size);
    }
  }

  /** Every free block that is large enough is the last one. */
  ghost predicate NoneButLast(bs: Blocks, tail: nat, size: nat) {
    forall a | Fits(bs, a, size) :: Last(bs, tail, a)
  }

  /** When find_best finds nothing: a single free block is too small, or all that fits is overlooked. */
  ghost predicate Fails(bs: Blocks, head: nat, tail: nat, size: nat) {
    if Last(bs, tail, head) && bs[head].free then !Fits(bs, head, size) else OnlyOverlooked(bs, tail, head, true, size)
  }

  lemma BestFails(bs: Blocks, head: nat, tail: nat, size: nat)
    requires Chain(bs, head, tail) && Power(size)
    ensures var r := Best(bs, head, tail, size);
            && (r.1 == 0 <==> Fails(bs, head, tail, size))
            && (r.1 == 0 ==> r.0 == Walked(bs, tail, head) && Chain(r.0, head, tail) && NoneButLast(r.0, tail, size))
  {
    PowerSelf(size);
    assert Linked(bs, head, tail, head);
    PairOf(bs, head, tail, head);
    if Last(bs, tail, head) && bs[head].free {
      SplitFinds(bs, head, size);
      SingleFails(bs, head, tail, size);
    } else {
      NothingBefore(bs, head, tail, size);
      BestExact(bs, head, tail, head, 0, true, size);
      var r := BestFrom(bs, tail, head, 0, size);
      if r.1 != 0 {
        assert Linked(r.0, head, tail, r.1);
        SplitFinds(r.0, r.1, size);
      }
      hide SplitFrom, BestFrom, Chain, Walked, Overlooks, Power;
    }
  }

  lemma SingleFails(bs: Blocks, head: nat, tail: nat, size: nat)
    requires Chain(bs, head, tail) && Last(bs, tail, head)
    ensures Walked(bs, tail, head) == bs && forall a | a in bs :: a == head
    ensures size > bs[head].size ==> SplitFrom(bs, head, size) == (bs, 0)
  {
    forall a | a in bs ensures a == head {
      Apart(bs, head, tail, head, a);
    }
    if size > bs[head].size {
      SplitEnd(bs, head, size);
    }
  }

  lemma NothingBefore(bs: Blocks, head: nat, tail: nat, size: nat)
    requires Chain(bs, head, tail)
    ensures LookedAt(bs, head, 0, true, size)
  {
    forall a | a in bs ensures head <= a {
      assert Linked(bs, head, tail, a);
    }
  }

  /** When both searches of malloc fail: the first one on the layout as it is, the second one after merging. */
  ghost predicate FailsTwice(bs: Blocks, head: nat, tail: nat, size: nat) {
    Fails(bs, head, tail, size) && Fails(Coalesced(Walked(bs, tail, head), head, tail), head, tail, size)
  }

  lemma SearchedFails(bs: Blocks, head: nat, tail: nat, size: nat)
    requires Chain(bs, head, tail) && Power(size)
    ensures var r := Searched(bs, head, tail, size);
            && (r.1 == 0 <==> FailsTwice(bs, head, tail, size))
            && (r.1 == 0 ==> NoneButLast(r.0, tail, size))
  {
    hide Best, Fails, Chain, Walked, Coalesced, NoneButLast, Power;
    BestFails(bs, head, tail, size);
    if Best(bs, head, tail, size).1 == 0 {
      CoalescedSettled(Walked(bs, tail, head), head, tail);
      BestFails(Coalesced(Walked(bs, tail, head), head, tail), head, tail, size);
    }
  }

  /** A free block that is large enough and is not the last one is found by the first search. */
  lemma InnerBlockServes(bs: Blocks, head: nat, tail: nat, size: nat, a: nat)
    requires Chain(bs, head, tail) && Power(size) && Fits(bs, a, size) && !Last(bs, tail, a)
    ensures !Fails(bs, head, tail, size)
  {
    PairOf(bs, head, tail, head);
    assert Linked(bs, head, tail, a);
    if Last(bs, tail, head) {
      SingleFails(bs, head, tail, size);
    } else {
      NothingBefore(bs, head, tail, size);
      BestExact(bs, head, tail, head, 0, true, size);
      InnerBlockFound(bs, head, tail, head, 0, size, a);
    }
  }
}
