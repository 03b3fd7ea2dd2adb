/** A run of the frame allocator, from init on, after which two free frames in a row are not found. */
module LostFrames {
  import opened Bitmaps
  import opened FrameAllocator

  /** A run across the cursor is never found: of eight frames 2 and 3 are free, the cursor is at 3. */
  lemma StraddlingRunMissed(used: set<nat>)
    requires forall i: nat | i < 8 :: i in used <==> i != 2 && i != 3
    ensures FreeRun(used, 2, 2) && !RunWithin(used, 2, 3, 8) && !RunWithin(used, 2, 0, 3)
  {
    forall p: nat | p + 2 <= 8 && p != 2 ensures !FreeRun(used, p, 2) {
      assert p in used || p + 1 in used;
    }
  }

  /** A map of eight frames: frame 0 is not usable, and the bitmap goes to frame 1. */
  const SMALL_MAP: seq<Entry> := [Entry(0x1000, 0x7000, true)]

  lemma SmallMap()
    ensures TopOf(SMALL_MAP) == 0x8000 && PageAligned(SMALL_MAP) && UsableDisjoint(SMALL_MAP)
    ensures BitmapSize(0x8000) == 0x1000 && FirstFit(SMALL_MAP, 0x1000, 0) && UsableFrames(SMALL_MAP) == Range(1, 7)
    ensures UsableFrames(Carved(SMALL_MAP, 0, 0x1000)) == Range(2, 6)
  {
    hide Range, BitmapSize;
    assert BitmapSize(0x8000) == 0x1000 by { OnePage(); }
    OneEntry(SMALL_MAP[0]);
    OneEntry(Entry(0x2000, 0x6000, true));
    assert Carved(SMALL_MAP, 0, 0x1000) == [Entry(0x2000, 0x6000, true)];
  }

  lemma OnePage()
    ensures BitmapSize(0x8000) == 0x1000
  {
  }

  lemma OneEntry(e: Entry)
    requires e.usable
    ensures UsableFrames([e]) == Range(e.base / 0x1000, e.length / 0x1000) && TopOf([e]) == e.base + e.length
  {
    hide Range;
    assert [e][..0] == [];
    assert UsableFrames([]) == {} && TopOf([]) == 0;
  }

  /** Of the first eight frames exactly those of s are free. */
  ghost predicate OnlyFree(used: set<nat>, s: set<nat>) {
    forall i: nat | i < 8 :: i in used <==> i !in s
  }

  /** Where the run at p is the first one from the cursor on, alloc chooses it. */
  lemma Chosen(used: set<nat>, s: set<nat>, count: nat, last: nat, p: nat)
    requires OnlyFree(used, s) && 0 < count <= 2 && last <= p && p + count <= 8
    requires p in s && p + count - 1 in s && forall q | last <= q < p :: q !in s || q + count - 1 !in s
    ensures RunWithin(used, count, last, 8)
    ensures forall page: nat | FirstChoice(used, count, last, 8, page) && FreeRun(used, page, count) :: page == p
    ensures OnlyFree(used + Range(p, count), s - Range(p, count))
  {
    hide Range;
    assert FreeRun(used, p, count);
    forall q: nat | last <= q < p ensures !FreeRun(used, q, count) {
      assert q in used || q + count - 1 in used;
    }
  }

  /** The allocator with eight frames after init. */
  method StartSmall(memory: seq<Frame>) returns (a: Allocator)
    requires |memory| == 8 && WholeFrames(memory)
    ensures fresh(a) && fresh(a.bitmap) && fresh(a.bitmap.buffer) && a.Valid() && a.Limit() == 8
    ensures a.last == 0 && a.live == map[] && OnlyFree(a.Used(), {2, 3, 4, 5, 6, 7})
  {
    hide Balanced, BitmapSize, Bitmap.Indices, UsableFrames, TopOf, FirstFit, PageAligned, UsableDisjoint;
    a := new Allocator();
    SmallMap();
    var k, spills := a.Init(SMALL_MAP, memory);
    assert k == 0;
    AfterInit(a.Used());
  }

  lemma AfterInit(used: set<nat>)
    requires FreeFrames(used, 8) == Range(2, 6)
    ensures OnlyFree(used, {2, 3, 4, 5, 6, 7})
  {
    forall i: nat | i < 8 ensures i in used <==> i !in {2, 3, 4, 5, 6, 7} {
      assert i in FreeFrames(used, 8) <==> i in Range(2, 6);
    }
  }

  /** alloc where the choice is known. */
  method TakeAt(a: Allocator, count: nat, p: nat, ghost s: set<nat>)
    requires a.Valid() && a.Limit() == 8 && OnlyFree(a.Used(), s) && 0 < count <= 2 && a.last <= p && p + count <= 8
    requires p in s && p + count - 1 in s && forall q | a.last <= q < p :: q !in s || q + count - 1 !in s
    modifies a, a.bitmap.buffer
    ensures a.Valid() && a.Limit() == 8 && OnlyFree(a.Used(), s - Range(p, count))
    ensures a.last == p + count && a.live == old(a.live)[p := count]
  {
    hide Range, RunWithin, FirstChoice, Balanced, OnlyFree, Bitmap.Indices, FreeRun;
    Chosen(a.Used(), s, count, a.last, p);
    var ret := a.Alloc(count);
  }

  /** free of one frame. */
  method GiveBack(a: Allocator, p: nat, ghost s: set<nat>)
    requires a.Valid() && a.Limit() == 8 && OnlyFree(a.Used(), s) && 0 < p && p in a.live && a.live[p] == 1
    modifies a, a.bitmap.buffer
    ensures a.Valid() && a.Limit() == 8 && OnlyFree(a.Used(), s + {p})
    ensures a.last == (if old(a.last) > p then p else old(a.last)) && a.live == old(a.live) - {p}
  {
    hide Balanced, Bitmap.Indices;
    a.Free(p * 0x1000, 1);
  }

  /**
   From init on: two single frames, the first one given back, two pairs, the second
   single frame given back. Frames 2 and 3 are free now, but alloc finds no pair.
   */
  method LosePair(memory: seq<Frame>) returns (a: Allocator, ret: nat)
    requires |memory| == 8 && WholeFrames(memory)
    ensures fresh(a) && a.Limit() == 8 && FreeRun(a.Used(), 2, 2) && ret == 0
  {
    hide FreeRun, RunWithin, Balanced, Bitmap.Indices, Allocator.Valid, OnlyFree;
    a := StartSmall(memory);
    ghost var s: set<nat> := {2, 3, 4, 5, 6, 7};
    TakeAt(a, 1, 2, s);
    TakeAt(a, 1, 3, s - Range(2, 1));
    ghost var s2 := s - Range(2, 1) - Range(3, 1);
    GiveBack(a, 2, s2);
    TakeAt(a, 2, 4, s2 + {2});
    TakeAt(a, 2, 6, s2 + {2} - Range(4, 2));
    ghost var s3 := s2 + {2} - Range(4, 2) - Range(6, 2);
    GiveBack(a, 3, s3);
    Missing(a.Used(), s3 + {3});
    ret := a.Alloc(2);
  }

  lemma Missing(used: set<nat>, s: set<nat>)
    requires OnlyFree(used, s) && s == {2, 3}
    ensures FreeRun(used, 2, 2) && !RunWithin(used, 2, 3, 8) && !RunWithin(used, 2, 0, 3)
  {
    StraddlingRunMissed(used);
  }
}
