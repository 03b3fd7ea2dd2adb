/** vMemory: page maps over the physical frame allocator. */
module VirtualMemory {
  import opened Bits
  import opened FrameAllocator
  import opened PageEntries
  import opened PageTables
  import opened Wrappers

  // ----- Virtual addresses -------------------------------------------------------------

  /** (vaddr & (0x1FF << shift)) >> shift */
  function IndexAt(vaddr: nat, shift: nat): nat {
    Shr(And(vaddr, Shl(0x1FF, shift)), shift)
  }

  lemma IndexIsField(vaddr: nat, shift: nat)
    ensures IndexAt(vaddr, shift) == Low(Shr(vaddr, shift), 9) < 512
  {
    AndSplit(vaddr, Shl(0x1FF, shift), shift);
    Join(0x1FF, 0, shift);
    assert Pow2(9) == 512 by { Pow2Values(); }
    AndMask(Shr(vaddr, shift), 9);
    LowBound(Shr(vaddr, shift), 9);
  }

  function Levels(lvl5: bool): nat {
    if lvl5 then 5 else 4
  }

  /** The table indices of an address, top level first. */
  function Indices(vaddr: nat, lvl5: bool): (path: Path)
    ensures |path| == Levels(lvl5)
  {
    (if lvl5 then [IndexAt(vaddr, 48)] else []) +
    [IndexAt(vaddr, 39), IndexAt(vaddr, 30), IndexAt(vaddr, 21), IndexAt(vaddr, 12)]
  }

  /** The low digits of a split field: both parts decide the whole. */
  lemma LowSplit(x: nat, y: nat, j: nat, k: nat)
    ensures Low(x, j + k) == Low(y, j + k) <==> Low(x, j) == Low(y, j) && Low(Shr(x, j), k) == Low(Shr(y, j), k)
    decreases j
  {
    if j > 0 {
      LowSplit(x / 2, y / 2, j - 1, k);
    }
  }

  /** Two addresses have the same indices exactly when they lie in the same virtual page. */
  lemma SamePage(v: nat, w: nat, lvl5: bool)
    ensures Indices(v, lvl5) == Indices(w, lvl5) <==>
            Low(Shr(v, 12), 9 * Levels(lvl5)) == Low(Shr(w, 12), 9 * Levels(lvl5))
  {
    hide Low, Shr, IndexAt;
    var x, y := Shr(v, 12), Shr(w, 12);
    forall s: nat | s == 12 || s == 21 || s == 30 || s == 39 || s == 48
      ensures IndexAt(v, s) == Low(Shr(x, s - 12), 9) && IndexAt(w, s) == Low(Shr(y, s - 12), 9)
    {
      IndexIsField(v, s);
      IndexIsField(w, s);
      ShrShr(v, 12, s - 12);
      ShrShr(w, 12, s - 12);
    }
    LowSplit(x, y, 9, 0);
    LowSplit(x, y, 9, 9);
    LowSplit(x, y, 18, 9);
    LowSplit(x, y, 27, 9);
    LowSplit(x, y, 36, 9);
    LowZero(x, y);
    assert Indices(v, lvl5)[|Indices(v, lvl5)| - 4..] ==
      [IndexAt(v, 39), IndexAt(v, 30), IndexAt(v, 21), IndexAt(v, 12)];
  }

  lemma LowZero(x: nat, y: nat)
    ensures Shr(x, 0) == x && Shr(y, 0) == y
  {
  }

  /** The maps share the same top-level entries as before. */
  ghost predicate SharingKept(frames: seq<Frame>, frames': seq<Frame>, tops: set<nat>) {
    forall b, c, j: nat | b in tops && c in tops && b != c :: Shares(frames', b, c, j) <==> Shares(frames, b, c, j)
  }

  /** A step of get_next_lvl: nothing, or a new table. Page entries and sharing stay as they are. */
  ghost predicate Quiet(frames: seq<Frame>, frames': seq<Frame>, tops: set<nat>, levels: nat) {
    && |frames'| == |frames|
    && (forall b, path: Path | b in tops && |path| == levels && path != [] ::
        RawLeaf(frames', b, path) == RawLeaf(frames, b, path))
    && SharingKept(frames, frames', tops)
    && (OpenTables(frames, tops, levels) ==> OpenTables(frames', tops, levels))
  }

  lemma GrowQuiet(frames: seq<Frame>, tops: set<nat>, a: nat, levels: nat, used: set<nat>, p: Path, t: nat, i: nat,
                  n: nat)
    requires System(frames, tops, levels, used) && a in tops && levels >= 2
    requires CanGrow(frames, a, levels, used, p, t, i, n)
    ensures Quiet(frames, Grow(frames, t, i, n), tops, levels)
  {
    hide System, Grow, RawLeaf, Shares;
    forall b, path: Path | b in tops && |path| == levels && path != []
      ensures RawLeaf(Grow(frames, t, i, n), b, path) == RawLeaf(frames, b, path)
    {
      GrowLeaves(frames, tops, a, b, levels, used, p, t, i, n, path);
    }
    forall b, c, j: nat | b in tops && c in tops && b != c
      ensures Shares(Grow(frames, t, i, n), b, c, j) <==> Shares(frames, b, c, j)
    {
      GrowShares(frames, tops, a, b, c, levels, used, p, t, i, n, j);
    }
    if OpenTables(frames, tops, levels) {
      GrowOpen(frames, tops, a, levels, used, p, t, i, n);
    }
  }

  lemma QuietTwice(f0: seq<Frame>, f1: seq<Frame>, f2: seq<Frame>, tops: set<nat>, levels: nat)
    requires Quiet(f0, f1, tops, levels) && Quiet(f1, f2, tops, levels)
    ensures Quiet(f0, f2, tops, levels)
  {
    hide RawLeaf, Shares;
  }

  /** A slot selected through map a is also a slot of map b exactly if both share the top-level entry. */
  ghost predicate Seen(frames: seq<Frame>, a: nat, b: nat, path: Path)
    requires path != []
  {
    b == a || Shares(frames, a, b, path[0])
  }

  /** The page entries of all maps after entry w is stored for the given path of map a. */
  ghost predicate Stored(frames: seq<Frame>, frames': seq<Frame>, tops: set<nat>, a: nat, path: Path, w: nat) {
    && (forall b, q: Path | b in tops && |q| == |path| && q != [] ::
      RawLeaf(frames', b, q) == if q == path && Seen(frames, a, b, path) then w else RawLeaf(frames, b, q))
    && SharingKept(frames, frames', tops)
    && (OpenTables(frames, tops, |path|) ==> OpenTables(frames', tops, |path|))
  }

  lemma StoreEntry(frames: seq<Frame>, tops: set<nat>, a: nat, levels: nat, used: set<nat>, p: Path, t: nat, i: nat,
                   w: nat)
    requires System(frames, tops, levels, used) && a in tops && levels >= 2 && AtLeaf(frames, a, levels, p, t, i)
    ensures Stored(frames, WriteWord(frames, t, i, w), tops, a, p + [i], w)
    ensures RawLeaf(frames, a, p + [i]) == frames[t][i]
  {
    assert (p + [i])[..|p|] == p;
    forall b, q: Path | b in tops && |q| == levels && q != []
      ensures RawLeaf(WriteWord(frames, t, i, w), b, q) ==
              if q == p + [i] && Seen(frames, a, b, p + [i]) then w else RawLeaf(frames, b, q)
    {
      hide TableAt, RawLeaf;
      LeafEffect(frames, tops, a, b, levels, used, p, t, i, w, q);
      if b != a {
        SharesIffReaches(frames, a, b, levels, p, t);
      }
    }
    LeafSharing(frames, tops, a, levels, used, p, t, i, w);
    hide OpenTables, TableAt, RawLeaf, System;
    if OpenTables(frames, tops, levels) {
      LeafOpen(frames, tops, a, levels, used, p, t, i, w);
    }
  }

  lemma LeafSharing(frames: seq<Frame>, tops: set<nat>, a: nat, levels: nat, used: set<nat>, p: Path, t: nat, i: nat,
                    w: nat)
    requires System(frames, tops, levels, used) && a in tops && levels >= 2 && AtLeaf(frames, a, levels, p, t, i)
    ensures SharingKept(frames, WriteWord(frames, t, i, w), tops)
  {
    var frames' := WriteWord(frames, t, i, w);
    hide TableAt, Step, System, WriteWord;
    forall b, j: nat | b in tops ensures Step(frames', b, j) == Step(frames, b, j) {
      LeafKeepsPaths(frames, tops, a, b, levels, used, p, t, i, w, [j]);
      FirstStep(frames, b, j);
      FirstStep(frames', b, j);
    }
  }

  lemma {:induction false} LeafMissing(frames: seq<Frame>, tops: set<nat>, a: nat, levels: nat, used: set<nat>,
                                       p: Path, t: nat, i: nat, w: nat, q: Path)
    requires System(frames, tops, levels, used) && a in tops && AtLeaf(frames, a, levels, p, t, i) && |q| < levels
    ensures Missing(WriteWord(frames, t, i, w), a, q) == Missing(frames, a, q)
    decreases |q|
  {
    if q != [] {
      LeafKeepsPaths(frames, tops, a, a, levels, used, p, t, i, w, q);
      LeafMissing(frames, tops, a, levels, used, p, t, i, w, q[..|q| - 1]);
    }
  }

  lemma StoredAfterQuiet(f0: seq<Frame>, f1: seq<Frame>, f2: seq<Frame>, tops: set<nat>, a: nat, path: Path, w: nat)
    requires path != [] && a in tops && Quiet(f0, f1, tops, |path|) && Stored(f1, f2, tops, a, path, w)
    ensures Stored(f0, f2, tops, a, path, w)
  {
    hide RawLeaf, Shares;
  }

  lemma ZeroOneFrame(frames: seq<Frame>, n: nat)
    requires n < |frames|
    ensures ZeroFrames(frames, n, 1) == frames[n := ZeroFrame()]
  {
  }

  lemma AddressOfFrame(n: nat)
    ensures Shr(n * 0x1000, 12) == n && n * 0x1000 / 0x1000 == n
  {
    ShlShl(n, 3, 9);
    ShlValues(n);
    ShlValues(Shl(n, 3));
    ShlOne(12);
    Join(n, 0, 12);
  }

  lemma AddTableReach(frames: seq<Frame>, tops: set<nat>, a: nat, levels: nat, used: set<nat>,
                      p: Path, t: nat, i: nat, n: nat, path: Path, also: Path)
    requires System(frames, tops, levels, used) && a in tops && CanGrow(frames, a, levels, used, p, t, i, n)
    requires |path| < levels && p + [i] <= path && |also| < levels
    ensures Reaches(Grow(frames, t, i, n), a, p + [i], n)
    ensures Missing(Grow(frames, t, i, n), a, path) == Missing(frames, a, path) - 1
    ensures Missing(Grow(frames, t, i, n), a, also) <= Missing(frames, a, also)
  {
    GrowEverywhere(frames, tops, a, a, levels, used, p, t, i, n);
    hide Grow, TableAt, Missing;
    MissingAfterGrow(frames, Grow(frames, t, i, n), a, levels, p, t, i, n, path);
    MissingAfterGrow(frames, Grow(frames, t, i, n), a, levels, p, t, i, n, also);
  }

  /** Everything a new table keeps: the system, all mappings and sharing, and the room for the rest of the walk. */
  lemma GrowStep(frames: seq<Frame>, tops: set<nat>, a: nat, levels: nat, used: set<nat>,
                 p: Path, t: nat, i: nat, n: nat, path: Path, also: Path, limit: nat)
    requires System(frames, tops, levels, used) && a in tops && levels >= 2
    requires CanGrow(frames, a, levels, used, p, t, i, n)
    requires n < limit && |path| < levels && p + [i] <= path && |also| < levels
    requires |FreeFrames(used, limit)| >= Missing(frames, a, path) + Missing(frames, a, also)
    ensures Grow(frames, t, i, n) == WriteWord(frames[n := ZeroFrame()], t, i, TableEntry(frames[t][i], n))
    ensures System(Grow(frames, t, i, n), tops, levels, used + {n})
    ensures Quiet(frames, Grow(frames, t, i, n), tops, levels)
    ensures Reaches(Grow(frames, t, i, n), a, p + [i], n)
    ensures |FreeFrames(used + {n}, limit)| >= Missing(Grow(frames, t, i, n), a, path) +
              Missing(Grow(frames, t, i, n), a, also)
    ensures |FreeFrames(used + {n}, limit)| - Missing(Grow(frames, t, i, n), a, path) ==
              |FreeFrames(used, limit)| - Missing(frames, a, path)
  {
    assert Grow(frames, t, i, n) == WriteWord(frames[n := ZeroFrame()], t, i, TableEntry(frames[t][i], n));
    hide Grow, WriteWord, System, Quiet, TableAt, Missing, FreeFrames;
    GrowSystem(frames, tops, a, levels, used, p, t, i, n);
    GrowQuiet(frames, tops, a, levels, used, p, t, i, n);
    AddTableReach(frames, tops, a, levels, used, p, t, i, n, path, also);
    TakeOne(used, limit, n);
  }

  lemma TakeOne(used: set<nat>, limit: nat, n: nat)
    requires n !in used && n < limit
    ensures |FreeFrames(used + {n}, limit)| == |FreeFrames(used, limit)| - 1
  {
    assert FreeRun(used, n, 1);
    TakeFrames(used, limit, n, 1);
    OneFrameRange(n);
  }

  lemma OneFrameRange(n: nat)
    ensures Range(n, 1) == {n}
  {
    assert Range(n, 0) == {};
  }

  class VMemory {
    const mem: Allocator
    const lvl5: bool
    /** Frame of kernel_pagemap's top-level table, 0 for the null pointer. */
    var kernel: nat
    /** Top-level tables of all page maps. */
    ghost var tops: set<nat>

    constructor (mem: Allocator, lvl5: bool)
      ensures this.mem == mem && this.lvl5 == lvl5 && kernel == 0 && tops == {}
    {
      this.mem, this.lvl5, kernel, tops := mem, lvl5, 0, {};
    }

    ghost predicate Valid()
      reads this, mem, mem.bitmap, mem.bitmap.buffer
    {
      && mem.Valid() && mem.Limit() <= 0x100_0000_0000
      && System(mem.frames, tops, Levels(lvl5), mem.Used())
      && (kernel != 0 ==> kernel in tops)
    }

    /** There are enough free frames for the tables missing on two paths, one of them possibly []. */
    ghost predicate RoomFor(a: nat, path: Path, also: Path)
      reads this, mem, mem.bitmap, mem.bitmap.buffer
    {
      |FreeFrames(mem.Used(), mem.Limit())| >= Missing(mem.frames, a, path) + Missing(mem.frames, a, also)
    }

    /** Free frames beyond those that the path still needs. */
    ghost function Spare(a: nat, path: Path): int
      reads this, mem, mem.bitmap, mem.bitmap.buffer
    {
      |FreeFrames(mem.Used(), mem.Limit())| - Missing(mem.frames, a, path)
    }

    /** get_next_lvl: follow entry i of the table t, adding a zeroed table if it is absent. */
    method GetNextLevel(t: nat, i: nat, ghost a: nat, ghost p: Path, ghost path: Path, ghost also: Path)
      returns (next: nat)
      requires Valid() && a in tops && Reaches(mem.frames, a, p, t) && i < 512
      requires |path| < Levels(lvl5) && |also| < Levels(lvl5) && p + [i] <= path && RoomFor(a, path, also)
      modifies mem, mem.bitmap.buffer
      ensures Valid() && RoomFor(a, path, also) && mem.highPage == old(mem.highPage)
      ensures Reaches(mem.frames, a, p + [i], next) && Spare(a, path) == old(Spare(a, path))
      ensures Quiet(old(mem.frames), mem.frames, tops, Levels(lvl5))
    {
      hide Balanced, TableAt, Missing, FreeFrames, System, Tree;
      TableInUse(mem.frames, tops, a, Levels(lvl5), mem.Used(), p, t);
      var value := mem.frames[t][i];
      GetFlagTestsPresent(value, PRESENT);
      if GetFlag(value, PRESENT) {
        next := GetAddress(value);
        PresentEntry(mem.frames, a, p, t, i);
      } else {
        next := AddLevel(t, i, value, a, p, path, also);
      }
    }

    /** The absent branch of get_next_lvl. */
    method AddLevel(t: nat, i: nat, value: nat, ghost a: nat, ghost p: Path, ghost path: Path, ghost also: Path)
      returns (next: nat)
      requires Valid() && a in tops && Reaches(mem.frames, a, p, t) && i < 512
      requires t < |mem.frames| && t in mem.Used() && value == mem.frames[t][i] && !Present(value)
      requires |path| < Levels(lvl5) && |also| < Levels(lvl5) && p + [i] <= path && RoomFor(a, path, also)
      modifies mem, mem.bitmap.buffer
      ensures Valid() && RoomFor(a, path, also) && mem.highPage == old(mem.highPage)
      ensures Reaches(mem.frames, a, p + [i], next) && Spare(a, path) == old(Spare(a, path))
      ensures Quiet(old(mem.frames), mem.frames, tops, Levels(lvl5))
    {
      hide Balanced, TableAt, Missing, FreeFrames, System, Quiet, TableEntry, Grow;
      ghost var frames, used, levels := mem.frames, mem.Used(), Levels(lvl5);
      FrameFor(a, p, t, i, path, also);
      next := NewFrame();
      GrowStep(frames, tops, a, levels, used, p, t, i, next, path, also, mem.Limit());
      mem.Store(WriteWord(mem.frames, t, i, TableEntry(value, next)));
    }

    /** The tables on the way to the last-level slot of an address. */
    ghost function Dirs(vaddr: nat): (path: Path)
      ensures |path| == Levels(lvl5) - 1
    {
      Indices(vaddr, lvl5)[..Levels(lvl5) - 1]
    }

    /** The path is complete, and exactly the tables that were missing on it took a free frame each. */
    ghost predicate Took(a: nat, path: Path, spare: int)
      reads this, mem, mem.bitmap, mem.bitmap.buffer
    {
      Missing(mem.frames, a, path) == 0 && |FreeFrames(mem.Used(), mem.Limit())| == spare
    }

    /** virt2pte: the slot of an address in map a, adding the tables that are missing. */
    method Virt2Pte(a: nat, vaddr: nat, ghost also: Path) returns (t: nat, i: nat)
      requires Valid() && a in tops && |also| < Levels(lvl5) && RoomFor(a, Dirs(vaddr), also)
      modifies mem, mem.bitmap.buffer
      ensures Valid() && RoomFor(a, Dirs(vaddr), also) && mem.highPage == old(mem.highPage)
      ensures Quiet(old(mem.frames), mem.frames, tops, Levels(lvl5)) && Took(a, Dirs(vaddr), old(Spare(a, Dirs(vaddr))))
      ensures AtLeaf(mem.frames, a, Levels(lvl5), Dirs(vaddr), t, i) && Dirs(vaddr) + [i] == Indices(vaddr, lvl5)
    {
      hide Balanced, TableAt, Missing, FreeFrames, System, Quiet, IndexAt;
      var pml5Entry, pml4Entry, pml3Entry := IndexAt(vaddr, 48), IndexAt(vaddr, 39), IndexAt(vaddr, 30);
      var pml2Entry, pml1Entry := IndexAt(vaddr, 21), IndexAt(vaddr, 12);
      IndexBounds(vaddr);
      ghost var f0, path, levels := mem.frames, Dirs(vaddr), Levels(lvl5);
      ghost var p: Path := if lvl5 then [pml5Entry] else [];
      assert path == p + [pml4Entry] + [pml3Entry] + [pml2Entry] && path + [pml1Entry] == Indices(vaddr, lvl5);
      TopReaches(mem.frames, a);
      QuietSelf(mem.frames, tops, levels);
      var pml4 := a;
      if lvl5 {
        pml4 := GetNextLevel(a, pml5Entry, a, [], path, also);
        assert [] + [pml5Entry] == p;
      }
      ghost var f1 := mem.frames;
      var pml3 := GetNextLevel(pml4, pml4Entry, a, p, path, also);
      ghost var f2 := mem.frames;
      QuietTwice(f0, f1, f2, tops, levels);
      var pml2 := GetNextLevel(pml3, pml3Entry, a, p + [pml4Entry], path, also);
      ghost var f3 := mem.frames;
      QuietTwice(f0, f2, f3, tops, levels);
      var pml1 := GetNextLevel(pml2, pml2Entry, a, p + [pml4Entry] + [pml3Entry], path, also);
      QuietTwice(f0, f3, mem.frames, tops, levels);
      t, i := pml1, pml1Entry;
      MissingNone(mem.frames, a, path) by { ReachesTable(mem.frames, a, path, t); }
      TableInUse(mem.frames, tops, a, levels, mem.Used(), path, t);
    }

    /** Store a word in the slot that Virt2Pte found. */
    method StoreWord(a: nat, t: nat, i: nat, w: nat, ghost path: Path, ghost also: Path)
      requires Valid() && a in tops && AtLeaf(mem.frames, a, Levels(lvl5), path, t, i)
      requires |also| < Levels(lvl5) && RoomFor(a, path, also)
      modifies mem`frames
      ensures Valid() && RoomFor(a, path, also) && Stored(old(mem.frames), mem.frames, tops, a, path + [i], w)
      ensures mem.highPage == old(mem.highPage) && mem.Used() == old(mem.Used())
      ensures Missing(mem.frames, a, path) == old(Missing(mem.frames, a, path))
    {
      hide Balanced, TableAt, System, Stored, RawLeaf, Missing, FreeFrames;
      LeafMissing(mem.frames, tops, a, Levels(lvl5), mem.Used(), path, t, i, w, path);
      LeafMissing(mem.frames, tops, a, Levels(lvl5), mem.Used(), path, t, i, w, also);
      StoreEntry(mem.frames, tops, a, Levels(lvl5), mem.Used(), path, t, i, w);
      LeafSystem(mem.frames, tops, a, Levels(lvl5), mem.Used(), path, t, i, w);
      mem.Store(WriteWord(mem.frames, t, i, w));
    }

    /**
     mapMem: the slot of vaddr gets paddr's frame and the flags in addition to the
     flags already there. Map a, and every map that shares its top-level entry,
     translates vaddr so; every other page of every map translates as before.
     */
    method MapMem(a: nat, vaddr: nat, paddr: nat, flags: nat)
      requires Valid() && a in tops && RoomFor(a, Dirs(vaddr), [])
      modifies mem, mem.bitmap.buffer
      ensures Valid() && mem.highPage == old(mem.highPage) && Took(a, Dirs(vaddr), old(Spare(a, Dirs(vaddr))))
      ensures var path := Indices(vaddr, lvl5);
              Stored(old(mem.frames), mem.frames, tops, a, path,
                     PageEntry(old(RawLeaf(mem.frames, a, path)), paddr, flags))
    {
      hide Balanced, TableAt, Missing, FreeFrames, System, Quiet, Stored, RawLeaf, PageEntry;
      ghost var f0, path := mem.frames, Indices(vaddr, lvl5);
      var t, i := Virt2Pte(a, vaddr, []);
      ghost var f1 := mem.frames;
      SlotWord(f0, f1, tops, a, Levels(lvl5), Dirs(vaddr), t, i);
      var w := PageEntry(mem.frames[t][i], paddr, flags);
      StoreWord(a, t, i, w, Dirs(vaddr), []);
      StoredAfterQuiet(f0, f1, mem.frames, tops, a, path, w);
    }

    /** unmapMem: the slot becomes 0; no other page of any map changes. */
    method UnmapMem(a: nat, vaddr: nat)
      requires Valid() && a in tops && RoomFor(a, Dirs(vaddr), [])
      modifies mem, mem.bitmap.buffer
      ensures Valid() && mem.highPage == old(mem.highPage) && Took(a, Dirs(vaddr), old(Spare(a, Dirs(vaddr))))
      ensures Stored(old(mem.frames), mem.frames, tops, a, Indices(vaddr, lvl5), 0)
    {
      hide Balanced, TableAt, Missing, FreeFrames, System, Quiet, Stored, RawLeaf;
      ghost var f0 := mem.frames;
      var t, i := Virt2Pte(a, vaddr, []);
      ghost var f1 := mem.frames;
      StoreWord(a, t, i, 0, Dirs(vaddr), []);
      StoredAfterQuiet(f0, f1, mem.frames, tops, a, Indices(vaddr, lvl5), 0);
    }

    /** setFlags and remFlags: the flag digits of one page entry are set or cleared. */
    method SetPageFlags(a: nat, vaddr: nat, flags: nat, enabled: bool)
      requires Valid() && a in tops && RoomFor(a, Dirs(vaddr), [])
      modifies mem, mem.bitmap.buffer
      ensures Valid() && mem.highPage == old(mem.highPage) && Took(a, Dirs(vaddr), old(Spare(a, Dirs(vaddr))))
      ensures var path := Indices(vaddr, lvl5);
              Stored(old(mem.frames), mem.frames, tops, a, path,
                     SetFlags(old(RawLeaf(mem.frames, a, path)), flags, enabled))
    {
      hide Balanced, TableAt, Missing, FreeFrames, System, Quiet, Stored, RawLeaf, SetFlags;
      ghost var f0, path := mem.frames, Indices(vaddr, lvl5);
      var t, i := Virt2Pte(a, vaddr, []);
      ghost var f1 := mem.frames;
      SlotWord(f0, f1, tops, a, Levels(lvl5), Dirs(vaddr), t, i);
      var w := SetFlags(mem.frames[t][i], flags, enabled);
      StoreWord(a, t, i, w, Dirs(vaddr), []);
      StoredAfterQuiet(f0, f1, mem.frames, tops, a, path, w);
    }

    /**
     remapMem: the old slot becomes 0, then the frame it held is mapped at the new
     address. No other page of any map changes.
     */
    method RemapMem(a: nat, oldAddr: nat, newAddr: nat, flags: nat)
      requires Valid() && a in tops && RoomFor(a, Dirs(oldAddr), Dirs(newAddr))
      modifies mem, mem.bitmap.buffer
      ensures Valid() && mem.highPage == old(mem.highPage)
      ensures Remapped(old(mem.frames), mem.frames, tops, a, Indices(oldAddr, lvl5), Indices(newAddr, lvl5), flags)
    {
      hide Balanced, TableAt, Missing, FreeFrames, System, Quiet, Stored, RawLeaf, Remapped, PageEntry, GetAddress, Shl;
      ghost var f0, path := mem.frames, Indices(oldAddr, lvl5);
      var t, i := Virt2Pte(a, oldAddr, Dirs(newAddr));
      ghost var f1 := mem.frames;
      SlotWord(f0, f1, tops, a, Levels(lvl5), Dirs(oldAddr), t, i);
      var paddr := Shl(GetAddress(mem.frames[t][i]), 12);
      StoreWord(a, t, i, 0, Dirs(oldAddr), Dirs(newAddr));
      ghost var f2 := mem.frames;
      StoredAfterQuiet(f0, f1, f2, tops, a, path, 0);
      MissingNothing(f2, a);
      MapMem(a, newAddr, paddr, flags);
      RemapEffect(f0, f2, mem.frames, tops, a, path, Indices(newAddr, lvl5), flags);
    }

    /** clonePagemap: a new top-level table with the entries of an old one. */
    method ClonePagemap(src: nat) returns (n: nat)
      requires Valid() && src in tops && FreeFrames(mem.Used(), mem.Limit()) != {}
      modifies this`tops, mem, mem.bitmap.buffer
      ensures Valid() && mem.highPage == old(mem.highPage)
      ensures n !in old(tops) && n !in old(mem.Used()) && tops == old(tops) + {n}
      ensures IsClone(old(mem.frames), mem.frames, old(tops), src, n, Levels(lvl5))
    {
      hide Balanced, TableAt, FreeFrames, System, RawLeaf, IsClone, Tree;
      ghost var f0, used := mem.frames, mem.Used();
      TopInUse(f0, tops, src, Levels(lvl5), used);
      n := NewFrame();
      CopyEntries(src, n);
      assert mem.frames == Cloned(f0, src, n);
      CloneSystem(f0, tops, src, Levels(lvl5), used, n);
      CloneIsClone(f0, tops, src, Levels(lvl5), used, n);
      forall b | b in tops ensures b != n {
        TopInUse(f0, tops, b, Levels(lvl5), used);
      }
      tops := tops + {n};
    }

    /** The loop of clonePagemap and newPagemap over the 512 entries. */
    method CopyEntries(src: nat, n: nat)
      requires mem.Valid() && src < |mem.frames| && n < |mem.frames| && src != n
      modifies mem`frames
      ensures mem.Valid() && mem.frames == old(mem.frames)[n := old(mem.frames)[src]]
    {
      hide Balanced, FreeFrames;
      ghost var f0 := mem.frames;
      assert |f0[src]| == WORDS && |f0[n]| == WORDS;
      for i := 0 to WORDS
        invariant mem.Valid() && |mem.frames| == |f0| && |mem.frames[n]| == WORDS
        invariant forall u | 0 <= u < |f0| && u != n :: mem.frames[u] == f0[u]
        invariant forall j | 0 <= j < i :: mem.frames[n][j] == f0[src][j]
      {
        mem.Store(WriteWord(mem.frames, n, i, mem.frames[src][i]));
      }
      assert mem.frames[n] == f0[src];
    }

    /**
     newPagemap: the first map takes the table that CR3 points to, any later one
     starts as a copy of the kernel's.
     */
    method NewPagemap(cr3: nat) returns (n: nat)
      requires Valid()
      requires kernel == 0 ==> System(mem.frames, tops + {cr3}, Levels(lvl5), mem.Used())
      requires kernel != 0 ==> FreeFrames(mem.Used(), mem.Limit()) != {}
      modifies this`tops, mem, mem.bitmap.buffer
      ensures Valid() && mem.highPage == old(mem.highPage) && tops == old(tops) + {n}
      ensures kernel == 0 ==> n == cr3 && mem.frames == old(mem.frames) && mem.Used() == old(mem.Used())
      ensures kernel != 0 ==>
                && n !in old(tops) && n !in old(mem.Used())
                && IsClone(old(mem.frames), mem.frames, old(tops), kernel, n, Levels(lvl5))
    {
      hide System, IsClone, FreeFrames, Balanced;
      if kernel == 0 {
        tops := tops + {cr3};
        return cr3;
      }
      n := ClonePagemap(kernel);
    }

    lemma FrameFor(a: nat, p: Path, t: nat, i: nat, path: Path, also: Path)
      requires Valid() && Reaches(mem.frames, a, p, t) && Step(mem.frames, t, i).None?
      requires p + [i] <= path && RoomFor(a, path, also)
      ensures FreeFrames(mem.Used(), mem.Limit()) != {}
    {
      MissingHere(mem.frames, a, p, t, i, path);
    }

    /** alloc() for a table: a zeroed frame that was free. */
    method NewFrame() returns (n: nat)
      requires mem.Valid() && FreeFrames(mem.Used(), mem.Limit()) != {}
      modifies mem, mem.bitmap.buffer
      ensures mem.Valid() && mem.highPage == old(mem.highPage)
      ensures n < mem.Limit() && n !in old(mem.Used()) && mem.Used() == old(mem.Used()) + {n}
      ensures mem.frames == old(mem.frames)[n := ZeroFrame()]
    {
      hide Balanced, FreeFrames, RunWithin, Range, ZeroFrames;
      SingleFrame(mem.Used(), mem.Limit(), mem.last);
      var ret := mem.Alloc(1);
      n := Shr(ret, 12);
      AddressOfFrame(ret / 0x1000);
      OneFrameRange(n);
      ZeroOneFrame(old(mem.frames), n);
      assert FreeRun(old(mem.Used()), n, 1);
    }
  }

  /** What remapMem does to the page entries of all maps. */
  ghost predicate Remapped(frames: seq<Frame>, frames': seq<Frame>, tops: set<nat>, a: nat, src: Path, dst: Path,
                           flags: nat)
    requires |src| == |dst| && src != []
  {
    && (forall b, q: Path | b in tops && |q| == |src| && q != [] ::
          RawLeaf(frames', b, q) ==
          if q == dst && Seen(frames, a, b, dst) then
            PageEntry(if dst == src then 0
                      else RawLeaf(frames, a, dst), Shl(GetAddress(RawLeaf(frames, a, src)), 12), flags)
          else if q == src && Seen(frames, a, b, src) then 0
          else RawLeaf(frames, b, q))
    && SharingKept(frames, frames', tops)
  }

  lemma RemapEffect(f0: seq<Frame>, f1: seq<Frame>, f2: seq<Frame>, tops: set<nat>, a: nat, src: Path, dst: Path,
                    flags: nat)
    requires a in tops && |src| == |dst| && src != [] && Stored(f0, f1, tops, a, src, 0)
    requires Stored(f1, f2, tops, a, dst,
                    PageEntry(RawLeaf(f1, a, dst), Shl(GetAddress(RawLeaf(f0, a, src)), 12), flags))
    ensures Remapped(f0, f2, tops, a, src, dst, flags)
  {
    hide RawLeaf, Shares, PageEntry, Shl, GetAddress;
  }

  /** What clonePagemap gives: n translates as src does, and has all its present top-level entries in common with it. */
  ghost predicate IsClone(frames: seq<Frame>, frames': seq<Frame>, tops: set<nat>, src: nat, n: nat, levels: nat) {
    && (forall path: Path | |path| == levels && path != [] :: RawLeaf(frames', n, path) == RawLeaf(frames, src, path))
    && (forall b, path: Path | b in tops && |path| == levels && path != [] ::
        RawLeaf(frames', b, path) == RawLeaf(frames, b, path))
    && (forall i: nat :: Shares(frames', src, n, i) <==> Step(frames, src, i).Some?)
    && (forall i: nat :: Shares(frames', n, src, i) <==> Step(frames, src, i).Some?)
    && SharingKept(frames, frames', tops)
  }

  lemma CloneIsClone(frames: seq<Frame>, tops: set<nat>, src: nat, levels: nat, used: set<nat>, n: nat)
    requires System(frames, tops, levels, used) && src in tops && src < |frames| && n < |frames| && n !in used
    requires levels >= 2
    ensures IsClone(frames, Cloned(frames, src, n), tops, src, n, levels)
  {
    var frames' := Cloned(frames, src, n);
    hide TableAt, RawLeaf, System;
    forall path: Path | |path| == levels && path != []
      ensures RawLeaf(frames', n, path) == RawLeaf(frames, src, path)
      ensures forall b | b in tops :: RawLeaf(frames', b, path) == RawLeaf(frames, b, path)
    {
      CloneLeaves(frames, tops, src, levels, used, n, path);
    }
    forall b | b in tops ensures b != n {
      TopInUse(frames, tops, b, levels, used);
    }
  }

  lemma TopInUse(frames: seq<Frame>, tops: set<nat>, a: nat, levels: nat, used: set<nat>)
    requires System(frames, tops, levels, used) && a in tops && levels >= 1
    ensures a < |frames| && a in used
  {
    TopReaches(frames, a);
    TableInUse(frames, tops, a, levels, used, [], a);
  }

  lemma TableInUse(frames: seq<Frame>, tops: set<nat>, a: nat, levels: nat, used: set<nat>, p: Path, t: nat)
    requires System(frames, tops, levels, used) && a in tops && |p| < levels && Reaches(frames, a, p, t)
    ensures t < |frames| && t in used
  {
    assert Tree(frames, a, levels, used);
  }

  lemma PresentEntry(frames: seq<Frame>, a: nat, p: Path, t: nat, i: nat)
    requires Reaches(frames, a, p, t) && t < |frames| && i < |frames[t]| && Present(frames[t][i])
    ensures Reaches(frames, a, p + [i], GetAddress(frames[t][i]))
  {
    assert (p + [i])[..|p|] == p;
  }

  lemma IndexBounds(vaddr: nat)
    ensures IndexAt(vaddr, 48) < 512 && IndexAt(vaddr, 39) < 512 && IndexAt(vaddr, 30) < 512
    ensures IndexAt(vaddr, 21) < 512 && IndexAt(vaddr, 12) < 512
  {
    IndexIsField(vaddr, 48);
    IndexIsField(vaddr, 39);
    IndexIsField(vaddr, 30);
    IndexIsField(vaddr, 21);
    IndexIsField(vaddr, 12);
  }

  lemma MissingNothing(frames: seq<Frame>, a: nat)
    ensures Missing(frames, a, []) == 0
  {
  }

  lemma ReachesTable(frames: seq<Frame>, a: nat, path: Path, t: nat)
    requires Reaches(frames, a, path, t)
    ensures TableAt(frames, a, path).Some?
  {
  }

  lemma TopReaches(frames: seq<Frame>, a: nat)
    ensures Reaches(frames, a, [], a)
  {
  }

  lemma QuietSelf(frames: seq<Frame>, tops: set<nat>, levels: nat)
    ensures Quiet(frames, frames, tops, levels)
  {
  }

  /** The slot found by the walk holds the word the address had before the walk. */
  lemma SlotWord(f0: seq<Frame>, f1: seq<Frame>, tops: set<nat>, a: nat, levels: nat, p: Path, t: nat, i: nat)
    requires Quiet(f0, f1, tops, levels) && a in tops && AtLeaf(f1, a, levels, p, t, i)
    ensures f1[t][i] == RawLeaf(f0, a, p + [i])
  {
    assert (p + [i])[..|p|] == p;
    assert RawLeaf(f1, a, p + [i]) == f1[t][i];
  }

  // ----- What the maps translate ----------------------------------------------------------

  ghost predicate SameVirtualPage(v: nat, w: nat, lvl5: bool) {
    Low(Shr(v, 12), 9 * Levels(lvl5)) == Low(Shr(w, 12), 9 * Levels(lvl5))
  }

  /** The physical address of a virtual one, if its page is mapped. */
  ghost function Translate(frames: seq<Frame>, top: nat, vaddr: nat, lvl5: bool): Option<nat> {
    match Leaf(frames, top, Indices(vaddr, lvl5))
    case None => None
    case Some(w) => Some(GetAddress(w) * 0x1000 + vaddr % 0x1000)
  }

  /** After mapMem(v, paddr, flags): v's page leads to paddr's frame, every other page where it led before. */
  lemma MapTranslates(frames: seq<Frame>, frames': seq<Frame>, tops: set<nat>, a: nat, b: nat,
                      v: nat, paddr: nat, flags: nat, x: nat, lvl5: bool)
    requires a in tops && b in tops && OutsideAddress(flags) && Present(flags) && Shr(paddr, 12) < 0x100_0000_0000
    requires var path := Indices(v, lvl5); Stored(frames, frames', tops, a, path,
                                                  PageEntry(RawLeaf(frames, a, path), paddr, flags))
    ensures Translate(frames', b, x, lvl5) ==
            if SameVirtualPage(v, x, lvl5) && Seen(frames, a, b, Indices(v, lvl5))
              then Some(Shr(paddr, 12) * 0x1000 + x % 0x1000)
            else Translate(frames, b, x, lvl5)
  {
    hide Indices, RawLeaf, Seen, Shr, PageEntry, Present, GetAddress, OutsideAddress;
    SamePage(v, x, lvl5);
    PageEntryFields(RawLeaf(frames, a, Indices(v, lvl5)), paddr, flags);
  }

  /** After unmapMem(v): v's page is not mapped, every other page leads where it led before. */
  lemma UnmapTranslates(frames: seq<Frame>, frames': seq<Frame>, tops: set<nat>, a: nat, b: nat, v: nat, x: nat,
                        lvl5: bool)
    requires a in tops && b in tops && Stored(frames, frames', tops, a, Indices(v, lvl5), 0)
    ensures Translate(frames', b, x, lvl5) ==
            if SameVirtualPage(v, x, lvl5) && Seen(frames, a, b, Indices(v, lvl5)) then None
              else Translate(frames, b, x, lvl5)
  {
    hide Indices, RawLeaf, Seen, Shr, Present, GetAddress;
    SamePage(v, x, lvl5);
    ZeroWord();
  }

  /** After remapMem(v, w, flags): w's page leads to v's old frame; v's page is not mapped unless it is the same. */
  lemma RemapTranslates(frames: seq<Frame>, frames': seq<Frame>, tops: set<nat>, a: nat, b: nat,
                        v: nat, w: nat, flags: nat, x: nat, lvl5: bool)
    requires a in tops && b in tops && OutsideAddress(flags) && Present(flags)
    requires Remapped(frames, frames', tops, a, Indices(v, lvl5), Indices(w, lvl5), flags)
    ensures Translate(frames', b, x, lvl5) ==
            if SameVirtualPage(w, x, lvl5) && Seen(frames, a, b, Indices(w, lvl5)) then
              Some(GetAddress(RawLeaf(frames, a, Indices(v, lvl5))) * 0x1000 + x % 0x1000)
            else if SameVirtualPage(v, x, lvl5) && Seen(frames, a, b, Indices(v, lvl5)) then None
            else Translate(frames, b, x, lvl5)
  {
    hide Indices, RawLeaf, Seen, Shr, Shl, PageEntry, Present, GetAddress, OutsideAddress;
    SamePage(v, x, lvl5);
    SamePage(w, x, lvl5);
    ZeroWord();
    var src, dst := Indices(v, lvl5), Indices(w, lvl5);
    var frame := GetAddress(RawLeaf(frames, a, src));
    GetAddressBound(RawLeaf(frames, a, src));
    Join(frame, 0, 12);
    PageEntryFields(if dst == src then 0 else RawLeaf(frames, a, dst), Shl(frame, 12), flags);
  }

  /**
   A store through the original or the clone, after any steps that keep the sharing:
   below a top-level entry present at cloning both maps see it, below an absent one
   only the map it was made through.
   */
  lemma StoreAfterClone(f0: seq<Frame>, f1: seq<Frame>, f2: seq<Frame>, f3: seq<Frame>, tops: set<nat>, src: nat,
                        n: nat,
                        a: nat, path: Path, w: nat)
    requires path != [] && src in tops && n !in tops && IsClone(f0, f1, tops, src, n, |path|)
    requires SharingKept(f1, f2, tops + {n}) && (a == src || a == n) && Stored(f2, f3, tops + {n}, a, path, w)
    ensures RawLeaf(f3, a, path) == w
    ensures var other := if a == src then n else src;
            RawLeaf(f3, other, path) == if Step(f0, src, path[0]).Some? then w else RawLeaf(f2, other, path)
    ensures forall q: Path | |q| == |path| && q != path ::
              RawLeaf(f3, src, q) == RawLeaf(f2, src, q) && RawLeaf(f3, n, q) == RawLeaf(f2, n, q)
  {
    hide RawLeaf, Step;
  }
}
