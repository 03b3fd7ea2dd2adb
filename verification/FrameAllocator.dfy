/** The physical frame allocator (pMemory): a cursor over the bitmap, RAM counters, zeroed frames. */
module FrameAllocator {
  import opened Bits
  import opened Bitmaps
  import opened Rounding

  const WORDS: nat := 512

  /** The contents of a 4 KiB frame as 512 64-bit words. */
  type Frame = seq<nat>

  function ZeroFrame(): (f: Frame)
    ensures |f| == WORDS && forall i | 0 <= i < WORDS :: f[i] == 0
  {
    seq(WORDS, _ => 0)
  }

  ghost predicate WholeFrames(frames: seq<Frame>) {
    forall f | 0 <= f < |frames| :: |frames[f]| == WORDS
  }

  // ----- Runs of frames -------------------------------------------------------------

  function Range(page: nat, count: nat): (r: set<nat>)
    ensures forall i: nat :: i in r <==> page <= i < page + count
    decreases count
  {
    if count == 0 then {} else Range(page, count - 1) + {page + count - 1}
  }

  lemma {:induction false} RangeSize(page: nat, count: nat)
    ensures |Range(page, count)| == count
    decreases count
  {
    if count == 0 {
      assert Range(page, 0) == {};
    } else {
      RangeSize(page, count - 1);
      assert Range(page, count) == Range(page, count - 1) + {page + count - 1};
    }
  }

  ghost predicate FreeRun(used: set<nat>, page: nat, count: nat) {
    forall i: nat | page <= i < page + count :: i !in used
  }

  /** Some run of `count` free frames lies wholly within [lo, hi). */
  ghost predicate RunWithin(used: set<nat>, count: nat, lo: nat, hi: nat) {
    exists p: nat :: lo <= p && p + count <= hi && FreeRun(used, p, count)
  }

  /** The choice of alloc: the first free run from the cursor on, or else the first from 0. */
  ghost predicate FirstChoice(used: set<nat>, count: nat, last: nat, limit: nat, page: nat) {
    if RunWithin(used, count, last, limit) then
      last <= page && forall q: nat | last <= q < page :: !FreeRun(used, q, count)
    else forall q: nat | q < page :: !FreeRun(used, q, count)
  }

  ghost function FreeFrames(used: set<nat>, limit: nat): (r: set<nat>)
    ensures forall i: nat :: i in r <==> i < limit && i !in used
  {
    set i: nat | i < limit && i !in used
  }

  lemma TakeFrames(used: set<nat>, limit: nat, page: nat, count: nat)
    requires FreeRun(used, page, count) && page + count <= limit
    ensures |FreeFrames(used + Range(page, count), limit)| == |FreeFrames(used, limit)| - count
  {
    var taken := Range(page, count);
    RangeSize(page, count);
    assert FreeFrames(used + taken, limit) == FreeFrames(used, limit) - taken;
    assert taken <= FreeFrames(used, limit);
  }

  lemma ReturnFrames(used: set<nat>, limit: nat, page: nat, count: nat)
    requires Range(page, count) <= used && page + count <= limit
    ensures |FreeFrames(used - Range(page, count), limit)| == |FreeFrames(used, limit)| + count
  {
    var given := Range(page, count);
    RangeSize(page, count);
    assert FreeFrames(used - given, limit) == FreeFrames(used, limit) + given;
    assert FreeFrames(used, limit) !! given;
  }

  /**
   Outstanding allocations `live` map a first frame to a length, and `owner` maps
   every frame handed out to the first frame of its allocation. Each frame having
   one owner, two outstanding ranges never meet.
   */
  ghost predicate Ownership(live: map<nat, nat>, owner: map<nat, nat>, limit: nat) {
    && (forall p {:trigger Outstanding(live, owner, limit, p)} | p in live :: Outstanding(live, owner, limit, p))
    && (forall i {:trigger Owned(live, owner, i)} | i in owner :: Owned(live, owner, i))
  }

  /** An allocation is not empty and owns all its frames. */
  ghost predicate Outstanding(live: map<nat, nat>, owner: map<nat, nat>, limit: nat, p: nat)
    requires p in live
  {
    live[p] > 0 && p + live[p] <= limit && Owns(owner, p, live[p])
  }

  /** A frame lies in the allocation that owns it. */
  ghost predicate Owned(live: map<nat, nat>, owner: map<nat, nat>, i: nat)
    requires i in owner
  {
    owner[i] in live && owner[i] <= i < owner[i] + live[owner[i]]
  }

  ghost predicate Owns(owner: map<nat, nat>, p: nat, n: nat) {
    forall i: nat | p <= i < p + n :: i in owner && owner[i] == p
  }

  ghost function Claim(owner: map<nat, nat>, page: nat, count: nat): (r: map<nat, nat>)
    ensures forall i: nat :: i in r <==> i in owner || i in Range(page, count)
    ensures forall i | i in r :: r[i] == if i in Range(page, count) then page else owner[i]
  {
    owner + map i | i in Range(page, count) :: page
  }

  lemma AddRange(live: map<nat, nat>, owner: map<nat, nat>, limit: nat, page: nat, count: nat)
    requires Ownership(live, owner, limit)
    requires count > 0 && page + count <= limit && forall i: nat | page <= i < page + count :: i !in owner
    ensures Ownership(live[page := count], Claim(owner, page, count), limit)
    ensures page !in live
  {
    hide Range, Claim;
    assert page in live ==> Outstanding(live, owner, limit, page) && page in owner;
    var live', owner' := live[page := count], Claim(owner, page, count);
    forall p | p in live' ensures Outstanding(live', owner', limit, p) {
      if p != page {
        assert Outstanding(live, owner, limit, p);
        OwnsStill(owner, page, count, p, live[p]);
      }
    }
    forall i | i in owner' ensures Owned(live', owner', i) {
      if i in owner {
        assert Owned(live, owner, i);
      }
    }
  }

  lemma OwnsStill(owner: map<nat, nat>, page: nat, count: nat, p: nat, n: nat)
    requires Owns(owner, p, n) && forall i: nat | page <= i < page + count :: i !in owner
    ensures Owns(Claim(owner, page, count), p, n)
  {
    hide Claim;
  }

  lemma DropRange(live: map<nat, nat>, owner: map<nat, nat>, limit: nat, page: nat)
    requires Ownership(live, owner, limit) && page in live
    ensures Ownership(live - {page}, owner - Range(page, live[page]), limit)
    ensures live[page] > 0 && page + live[page] <= limit && forall i | i in Range(page, live[page]) :: i in owner
  {
    hide Range;
    var live', owner' := live - {page}, owner - Range(page, live[page]);
    assert Outstanding(live, owner, limit, page);
    forall p | p in live' ensures Outstanding(live', owner', limit, p) {
      assert Outstanding(live, owner, limit, p);
      forall i: nat | p <= i < p + live[p] ensures i in owner' && owner'[i] == p {
        assert owner[i] == p;
      }
    }
    forall i | i in owner' ensures Owned(live', owner', i) {
      assert Owned(live, owner, i);
    }
  }

  /** Two different outstanding allocations share no frame. */
  lemma OutstandingDisjoint(live: map<nat, nat>, owner: map<nat, nat>, limit: nat, p: nat, q: nat)
    requires Ownership(live, owner, limit) && p in live && q in live && p != q
    ensures Range(p, live[p]) !! Range(q, live[q])
  {
    assert Outstanding(live, owner, limit, p) && Outstanding(live, owner, limit, q);
    forall i: nat | i in Range(p, live[p]) ensures i !in Range(q, live[q]) {
      assert owner[i] == p;
    }
  }

  lemma GrowSet(handed: set<nat>, page: nat, count: nat)
    requires FreeRun(handed, page, count)
    ensures |handed + Range(page, count)| == |handed| + count
  {
    RangeSize(page, count);
    assert handed !! Range(page, count);
  }

  lemma ShrinkSet(handed: set<nat>, page: nat, count: nat)
    requires Range(page, count) <= handed
    ensures |handed - Range(page, count)| == |handed| - count
  {
    RangeSize(page, count);
  }

  ghost predicate OwnedExactly(owner: map<nat, nat>, used: set<nat>, reserved: set<nat>) {
    forall i: nat :: i in owner <==> i in used && i !in reserved
  }

  /** What the allocator keeps account of. */
  datatype Ledger = Ledger(used: set<nat>, reserved: set<nat>, live: map<nat, nat>, owner: map<nat, nat>, limit: nat,
                           freeRam: int, usedRam: int)

  /**
   The books balance: every used frame is either reserved or owned, frame 0 is
   reserved, and the two counters are the sizes of the free and the owned set.
   */
  ghost predicate Balanced(l: Ledger) {
    match l
    case Ledger(used, reserved, live, owner, limit, freeRam, usedRam) =>
      && Ownership(live, owner, limit)
      && reserved <= used && 0 in reserved && OwnedExactly(owner, used, reserved)
      && freeRam == 0x1000 * |FreeFrames(used, limit)|
      && usedRam == 0x1000 * |used - reserved|
  }

  /** The ledger after `count` frames from `page` are handed out. */
  ghost function Debit(l: Ledger, page: nat, count: nat): Ledger {
    l.(used := l.used + Range(page, count), live := l.live[page := count], owner := Claim(l.owner, page, count),
       freeRam := l.freeRam - count * 0x1000, usedRam := l.usedRam + count * 0x1000)
  }

  /** The ledger after the allocation at `page` is given back. */
  ghost function Credit(l: Ledger, page: nat): Ledger
    requires page in l.live
  {
    var given := Range(page, l.live[page]);
    l.(used := l.used - given, live := l.live - {page}, owner := l.owner - given,
       freeRam := l.freeRam + l.live[page] * 0x1000, usedRam := l.usedRam - l.live[page] * 0x1000)
  }

  lemma BalancedAfterAlloc(l: Ledger, page: nat, count: nat)
    requires Balanced(l) && count > 0 && page + count <= l.limit && FreeRun(l.used, page, count)
    ensures Balanced(Debit(l, page, count))
  {
    hide Range, Claim, Ownership, FreeRun, FreeFrames, OwnedExactly;
    RunOutside(l.owner, l.used, l.reserved, page, count);
    TakeFrames(l.used, l.limit, page, count);
    GrowSet(l.used - l.reserved, page, count);
    AddRange(l.live, l.owner, l.limit, page, count);
    UnionLess(l.used, l.reserved, Range(page, count));
  }

  lemma BalancedAfterFree(l: Ledger, page: nat)
    requires Balanced(l) && page in l.live
    ensures page + l.live[page] <= l.limit && 0 in l.used - Range(page, l.live[page])
    ensures Balanced(Credit(l, page))
  {
    hide Ownership, Range, FreeFrames;
    var given := Range(page, l.live[page]);
    DropRange(l.live, l.owner, l.limit, page);
    assert given <= l.used - l.reserved;
    ReturnFrames(l.used, l.limit, page, l.live[page]);
    ShrinkSet(l.used - l.reserved, page, l.live[page]);
    assert (l.used - l.reserved) - given == (l.used - given) - l.reserved;
  }

  lemma RunOutside(owner: map<nat, nat>, used: set<nat>, reserved: set<nat>, page: nat, count: nat)
    requires OwnedExactly(owner, used, reserved) && reserved <= used && FreeRun(used, page, count)
    ensures FreeRun(used - reserved, page, count) && Range(page, count) !! used
    ensures forall i: nat | page <= i < page + count :: i !in owner
    ensures OwnedExactly(Claim(owner, page, count), used + Range(page, count), reserved)
  {
    hide Range, Claim;
  }

  lemma UnionLess(used: set<nat>, reserved: set<nat>, taken: set<nat>)
    requires reserved <= used && taken !! used
    ensures (used - reserved) + taken == (used + taken) - reserved && reserved <= used + taken
  {
  }

  /** memset over whole frames. */
  function ZeroFrames(frames: seq<Frame>, page: nat, count: nat): (r: seq<Frame>)
    ensures |r| == |frames| && (WholeFrames(frames) ==> WholeFrames(r))
    ensures forall i | 0 <= i < |frames| :: r[i] == if page <= i < page + count then ZeroFrame() else frames[i]
  {
    var r := seq(|frames|, i requires 0 <= i < |frames| => if page <= i < page + count then ZeroFrame() else frames[i]);
    assert forall f | 0 <= f < |r| :: r[f] == if page <= f < page + count then ZeroFrame() else frames[f];
    r
  }

  /** One free frame anywhere is enough for a single-frame request. */
  lemma SingleFrame(used: set<nat>, limit: nat, last: nat)
    requires last <= limit
    ensures RunWithin(used, 1, last, limit) || RunWithin(used, 1, 0, last) <==> FreeFrames(used, limit) != {}
  {
    if FreeFrames(used, limit) != {} {
      var i :| i in FreeFrames(used, limit);
      assert FreeRun(used, i, 1);
    }
    if RunWithin(used, 1, last, limit) || RunWithin(used, 1, 0, last) {
      var p: nat :| p + 1 <= limit && FreeRun(used, p, 1);
      assert FreeRun(used, p, 1);
      assert p !in used;
      assert p in FreeFrames(used, limit);
    }
  }

  // ----- The memory map ------------------------------------------------------------------

  datatype Entry = Entry(base: nat, length: nat, usable: bool)

  function BitmapSize(highPage: nat): nat {
    AlignUp(highPage / 0x1000 / 8, 0x1000)
  }

  /**
   The bitmap, rounded down to bytes before it is rounded up to pages, covers
   every frame except when one to seven frames are left over after full pages
   of bitmap.
   */
  lemma BitmapCovers(highPage: nat)
    requires highPage < WORD
    ensures highPage / 0x1000 <= 8 * BitmapSize(highPage) <==>
            var r := highPage / 0x1000 % 0x8000; r == 0 || r >= 8
    ensures BitmapSize(highPage) % 0x1000 == 0
  {
    var pages := highPage / 0x1000;
    var q := pages / 8;
    assert BitmapSize(highPage) == (q + 0xFFF) / 0x1000 * 0x1000;
  }

  /** One frame more than a page of bitmap covers: its bit lies behind the bitmap. */
  lemma BitmapTooSmall()
    ensures var highPage := 0x8001 * 0x1000; 8 * BitmapSize(highPage) == 0x8000 < highPage / 0x1000
  {
  }

  ghost predicate PageAligned(mmap: seq<Entry>) {
    forall i | 0 <= i < |mmap| :: mmap[i].base % 0x1000 == 0 && mmap[i].length % 0x1000 == 0
  }

  ghost predicate UsableDisjoint(mmap: seq<Entry>) {
    forall i, j | 0 <= i < j < |mmap| && mmap[i].usable && mmap[j].usable ::
      mmap[i].base + mmap[i].length <= mmap[j].base || mmap[j].base + mmap[j].length <= mmap[i].base
  }

  function EntryFrames(e: Entry): set<nat> {
    if e.usable then Range(e.base / 0x1000, e.length / 0x1000) else {}
  }

  /** The frames of the usable entries. */
  ghost function UsableFrames(mmap: seq<Entry>): set<nat> {
    if mmap == [] then {} else UsableFrames(mmap[..|mmap| - 1]) + EntryFrames(mmap[|mmap| - 1])
  }

  function UsableBytes(mmap: seq<Entry>): nat {
    if mmap == [] then 0
    else
      var e := mmap[|mmap| - 1];
      UsableBytes(mmap[..|mmap| - 1]) + (if e.usable then e.length else 0)
  }

  lemma {:induction false} UsableFramesOf(mmap: seq<Entry>, f: nat)
    requires PageAligned(mmap)
    ensures f in UsableFrames(mmap) <==>
            exists i :: 0 <= i < |mmap| && mmap[i].usable && mmap[i].base <= f * 0x1000 < mmap[i].base + mmap[i].length
  {
    if mmap != [] {
      var n := |mmap| - 1;
      UsableFramesOf(mmap[..n], f);
      var e := mmap[n];
      assert e.base == e.base / 0x1000 * 0x1000 && e.length == e.length / 0x1000 * 0x1000;
      assert f in EntryFrames(e) <==> e.usable && e.base <= f * 0x1000 < e.base + e.length;
    }
  }

  /** The frames of the last entry lie in no entry before it. */
  lemma LastEntryApart(mmap: seq<Entry>, f: nat)
    requires PageAligned(mmap) && UsableDisjoint(mmap) && mmap != [] && mmap[|mmap| - 1].usable
    requires f in UsableFrames(mmap[..|mmap| - 1])
    ensures f !in EntryFrames(mmap[|mmap| - 1])
  {
    var n := |mmap| - 1;
    var front, e := mmap[..n], mmap[n];
    UsableFramesOf(front, f);
    hide UsableFrames;
    var i :| 0 <= i < n && mmap[i].usable && mmap[i].base <= f * 0x1000 < mmap[i].base + mmap[i].length;
    assert e.base == e.base / 0x1000 * 0x1000 && e.length == e.length / 0x1000 * 0x1000;
  }

  /** Disjoint page-aligned entries: as many frames as bytes. */
  lemma {:induction false} UsableSize(mmap: seq<Entry>)
    requires PageAligned(mmap) && UsableDisjoint(mmap)
    ensures 0x1000 * |UsableFrames(mmap)| == UsableBytes(mmap)
  {
    if mmap != [] {
      var n := |mmap| - 1;
      var front, e := mmap[..n], mmap[n];
      UsableSize(front);
      if e.usable {
        forall f: nat | f in UsableFrames(front) ensures f !in EntryFrames(e) {
          LastEntryApart(mmap, f);
        }
        hide PageAligned, UsableDisjoint;
        RangeSize(e.base / 0x1000, e.length / 0x1000);
        assert UsableFrames(front) !! EntryFrames(e);
      } else {
        assert UsableFrames(mmap) == UsableFrames(front);
      }
    }
  }

  /** The highest end of a usable entry. */
  function TopOf(mmap: seq<Entry>): nat {
    if mmap == [] then 0
    else
      var rest, e := TopOf(mmap[..|mmap| - 1]), mmap[|mmap| - 1];
      if e.usable && e.base + e.length > rest then e.base + e.length else rest
  }

  /** The highest address is the end of some usable entry, and no usable entry ends behind it. */
  lemma {:induction false} TopIsEnd(mmap: seq<Entry>)
    ensures forall i | 0 <= i < |mmap| && mmap[i].usable :: mmap[i].base + mmap[i].length <= TopOf(mmap)
    ensures TopOf(mmap) != 0 ==>
              exists i :: 0 <= i < |mmap| && mmap[i].usable && mmap[i].base + mmap[i].length == TopOf(mmap)
    decreases |mmap|
  {
    if mmap != [] {
      var n := |mmap| - 1;
      TopIsEnd(mmap[..n]);
      if TopOf(mmap) != 0 && TopOf(mmap) == TopOf(mmap[..n]) {
        var i :| 0 <= i < n && mmap[..n][i].usable && mmap[..n][i].base + mmap[..n][i].length == TopOf(mmap[..n]);
        assert mmap[i] == mmap[..n][i];
      }
      assert forall i | 0 <= i < n :: mmap[i] == mmap[..n][i];
    }
  }

  lemma {:induction false} TopBounds(mmap: seq<Entry>, i: nat)
    requires i < |mmap| && mmap[i].usable
    ensures mmap[i].base + mmap[i].length <= TopOf(mmap)
  {
    var n := |mmap| - 1;
    if i < n {
      TopBounds(mmap[..n], i);
    }
  }

  /** Entry k fits the bitmap and is the first usable one that does. */
  ghost predicate FirstFit(mmap: seq<Entry>, size: nat, k: nat) {
    && k < |mmap| && mmap[k].usable && mmap[k].length >= size
    && forall i | 0 <= i < k && mmap[i].usable :: mmap[i].length < size
  }

  /** The map once the first `size` bytes of entry k hold the bitmap. */
  function Carved(mmap: seq<Entry>, k: nat, size: nat): seq<Entry>
    requires k < |mmap| && size <= mmap[k].length
  {
    mmap[k := Entry(mmap[k].base + size, mmap[k].length - size, mmap[k].usable)]
  }

  lemma CarvedShape(mmap: seq<Entry>, k: nat, size: nat)
    requires PageAligned(mmap) && UsableDisjoint(mmap) && k < |mmap| && size <= mmap[k].length && size % 0x1000 == 0
    ensures PageAligned(Carved(mmap, k, size)) && UsableDisjoint(Carved(mmap, k, size))
  {
  }

  /** Carving frees no new frame, and the bitmap's own frames are not among the free ones. */
  lemma CarvedFrame(mmap: seq<Entry>, k: nat, size: nat, f: nat)
    requires PageAligned(mmap) && UsableDisjoint(mmap) && k < |mmap| && mmap[k].usable
    requires size <= mmap[k].length && size % 0x1000 == 0 && f in UsableFrames(Carved(mmap, k, size))
    ensures f in UsableFrames(mmap)
    ensures !(mmap[k].base / 0x1000 <= f < mmap[k].base / 0x1000 + size / 0x1000)
  {
    var c := Carved(mmap, k, size);
    CarvedShape(mmap, k, size);
    UsableFramesOf(c, f);
    UsableFramesOf(mmap, f);
    var i :| 0 <= i < |c| && c[i].usable && c[i].base <= f * 0x1000 < c[i].base + c[i].length;
    assert mmap[i].usable && mmap[i].base <= f * 0x1000 < mmap[i].base + mmap[i].length;
    assert mmap[k].base == mmap[k].base / 0x1000 * 0x1000 && size == size / 0x1000 * 0x1000;
  }

  lemma {:induction false} CarvedBytes(mmap: seq<Entry>, k: nat, size: nat)
    requires k < |mmap| && mmap[k].usable && size <= mmap[k].length
    ensures UsableBytes(Carved(mmap, k, size)) == UsableBytes(mmap) - size
  {
    var n := |mmap| - 1;
    var c := Carved(mmap, k, size);
    if k < n {
      CarvedBytes(mmap[..n], k, size);
      assert c[..n] == Carved(mmap[..n], k, size);
    } else {
      assert c[..n] == mmap[..n];
    }
  }

  lemma {:induction false} UsableBelowTop(mmap: seq<Entry>, f: nat)
    requires PageAligned(mmap) && f in UsableFrames(mmap)
    ensures f < TopOf(mmap) / 0x1000
  {
    UsableFramesOf(mmap, f);
    var i :| 0 <= i < |mmap| && mmap[i].usable && mmap[i].base <= f * 0x1000 < mmap[i].base + mmap[i].length;
    TopBounds(mmap, i);
    assert mmap[i].base == mmap[i].base / 0x1000 * 0x1000 && mmap[i].length == mmap[i].length / 0x1000 * 0x1000;
  }

  /** The books when exactly the frames of the map are free and nothing is handed out. */
  lemma BalancedAtBoot(mmap: seq<Entry>, used: set<nat>, limit: nat, freeRam: int)
    requires PageAligned(mmap) && UsableDisjoint(mmap) && 0 in used
    requires FreeFrames(used, limit) == UsableFrames(mmap) && freeRam == UsableBytes(mmap)
    ensures Balanced(Ledger(used, used, map[], map[], limit, freeRam, 0))
  {
    UsableSize(mmap);
    assert used - used == {};
  }

  /** The bitmap of init: everything marked, then the frames of the carved map cleared. */
  ghost function BootUsed(mmap: seq<Entry>, k: nat, size: nat): set<nat>
    requires k < |mmap| && size <= mmap[k].length
  {
    Range(0, 8 * size) - UsableFrames(Carved(mmap, k, size))
  }

  ghost predicate BootMap(mmap: seq<Entry>, k: nat, size: nat, limit: nat) {
    && PageAligned(mmap) && UsableDisjoint(mmap) && 0 !in UsableFrames(mmap)
    && k < |mmap| && mmap[k].usable && size <= mmap[k].length && size % 0x1000 == 0
    && limit == TopOf(mmap) / 0x1000 && 0 < limit <= 8 * size
  }

  lemma BootFree(mmap: seq<Entry>, k: nat, size: nat, limit: nat)
    requires BootMap(mmap, k, size, limit)
    ensures PageAligned(Carved(mmap, k, size))
    ensures forall f | f in UsableFrames(Carved(mmap, k, size)) :: f < limit
    ensures 0 in BootUsed(mmap, k, size)
    ensures FreeFrames(BootUsed(mmap, k, size), limit) == UsableFrames(Carved(mmap, k, size))
  {
    CarvedShape(mmap, k, size);
    var clear := UsableFrames(Carved(mmap, k, size));
    hide UsableFrames, TopOf, Carved, PageAligned, UsableDisjoint, Range, FreeFrames;
    forall f | f in clear ensures f < limit && f in UsableFrames(mmap) {
      CarvedFrame(mmap, k, size, f);
      UsableBelowTop(mmap, f);
    }
    ComplementFree(8 * size, limit, clear);
  }

  lemma ComplementFree(capacity: nat, limit: nat, clear: set<nat>)
    requires 0 < limit <= capacity && 0 !in clear && forall f | f in clear :: f < limit
    ensures 0 in Range(0, capacity) - clear && FreeFrames(Range(0, capacity) - clear, limit) == clear
  {
  }

  lemma {:induction false} EntryWithin(mmap: seq<Entry>, i: nat)
    requires i < |mmap|
    ensures EntryFrames(mmap[i]) <= UsableFrames(mmap)
  {
    var n := |mmap| - 1;
    if i < n {
      EntryWithin(mmap[..n], i);
    }
  }

  // ----- The allocator -----------------------------------------------------------------

  class Allocator {
    const bitmap: Bitmap
    var highPage: nat
    var last: nat
    var usedRam: int
    var freeRam: int
    var frames: seq<Frame>
    /** Outstanding allocations: first frame and length. */
    ghost var live: map<nat, nat>
    ghost var owner: map<nat, nat>
    /** Frames that are never handed out: not usable, or holding the bitmap itself. */
    ghost var reserved: set<nat>

    constructor ()
      ensures fresh(bitmap) && fresh(bitmap.buffer) && highPage == 0 && last == 0 && usedRam == 0 && freeRam == 0
    {
      bitmap := new Bitmap(0);
      highPage, last, usedRam, freeRam, frames := 0, 0, 0, 0, [];
      live, owner, reserved := map[], map[], {};
    }

    function Limit(): nat
      reads this`highPage
    {
      highPage / 0x1000
    }

    ghost function Used(): set<nat>
      reads bitmap, bitmap.buffer
    {
      bitmap.Indices()
    }

    /** The cursor and the bitmap fit the memory, and frame 0 is never free. */
    ghost predicate ScanValid()
      reads this`highPage, this`last, bitmap, bitmap.buffer
    {
      Limit() <= bitmap.Capacity() && last <= Limit() && 0 in Used()
    }

    ghost function Books(): Ledger
      reads this, bitmap, bitmap.buffer
    {
      Ledger(Used(), reserved, live, owner, Limit(), freeRam, usedRam)
    }

    ghost predicate Valid()
      reads this, bitmap, bitmap.buffer
    {
      && ScanValid()
      && Balanced(Books())
      && |frames| == Limit() && WholeFrames(frames)
    }

    /** ohMyAlloc: first fit from the cursor up to a limit. The result is an address, 0 for failure. */
    method ScanRun(count: nat, limit: nat) returns (ret: nat)
      requires ScanValid() && limit <= Limit()
      modifies this`last, bitmap.buffer
      ensures ScanValid()
      ensures ret == 0 <==> count == 0 || !RunWithin(old(Used()), count, old(last), limit)
      ensures ret == 0 ==> Used() == old(Used()) && last == if old(last) < limit then limit else old(last)
      ensures ret != 0 ==>
                var page := ret / 0x1000;
                && ret == page * 0x1000 && old(last) <= page && last == page + count <= limit
                && FreeRun(old(Used()), page, count)
                && (forall q: nat | old(last) <= q < page :: !FreeRun(old(Used()), q, count))
                && Used() == old(Used()) + Range(page, count)
    {
      hide Bitmap.Indices;
      var p := 0;
      ghost var used, start := Used(), last;
      while last < limit
        invariant Used() == used && ScanValid() && start <= last
        invariant last <= if start < limit then limit else start
        invariant 0 <= p <= last - start && (count > 0 ==> p < count)
        invariant FreeRun(used, last - p, p)
        invariant last - p == start || last - p - 1 in used
        invariant count > 0 ==> forall q: nat | start <= q && q + count <= last :: !FreeRun(used, q, count)
      {
        var bit := bitmap.Get(last);
        last := last + 1;
        if !bit {
          p := p + 1;
          if p == count {
            var page := last - count;
            assert FreeRun(used, page, count);
            assert page != 0 by {
              assert 0 in used;
            }
            SetRun(page, last);
            return page * 0x1000;
          }
        } else {
          p := 0;
        }
      }
      ret := 0;
    }

    /** The loop that marks a run as used. */
    method SetRun(page: nat, end: nat)
      requires page <= end <= bitmap.Capacity()
      modifies bitmap.buffer
      ensures Used() == old(Used()) + Range(page, end - page)
    {
      hide Bitmap.Indices;
      for i := page to end
        invariant Used() == old(Used()) + Range(page, i - page)
      {
        bitmap.Set(i, true);
      }
    }

    /** The two scans of alloc: from the cursor on, then from 0 up to it. */
    method ScanTwice(count: nat) returns (ret: nat)
      requires ScanValid()
      modifies this`last, bitmap.buffer
      ensures ScanValid()
      ensures ret == 0 <==>
              count == 0 || !(RunWithin(old(Used()), count, old(last), Limit())
                              || RunWithin(old(Used()), count, 0, old(last)))
      ensures ret == 0 ==> Used() == old(Used())
      ensures ret != 0 ==>
                var page := ret / 0x1000;
                && ret == page * 0x1000 && 0 < page && last == page + count <= Limit()
                && FreeRun(old(Used()), page, count) && FirstChoice(old(Used()), count, old(last), Limit(), page)
                && Used() == old(Used()) + Range(page, count)
    {
      hide Bitmap.Indices, Range, FreeRun;
      var tmp := last;
      ret := ScanRun(count, Limit());
      if ret == 0 {
        last := 0;
        ret := ScanRun(count, tmp);
      }
    }

    /**
     alloc: the scan from the cursor, then from 0 up to the old cursor. It fails
     exactly when no free run lies wholly on one side of the old cursor.
     */
    method Alloc(count: nat) returns (ret: nat)
      requires Valid()
      modifies this, bitmap.buffer
      ensures highPage == old(highPage) && reserved == old(reserved) && ScanValid()
      ensures ret == 0 <==>
              count == 0 || !(RunWithin(old(Used()), count, old(last), Limit())
                              || RunWithin(old(Used()), count, 0, old(last)))
      ensures ret != 0 ==>
                var page := ret / 0x1000;
                && Valid()
                && ret == page * 0x1000 && 0 < page && page + count <= Limit()
                && FreeRun(old(Used()), page, count)
                && Used() == old(Used()) + Range(page, count)
                && live == old(live)[page := count]
                && frames == ZeroFrames(old(frames), page, count)
                && last == page + count && FirstChoice(old(Used()), count, old(last), Limit(), page)
                && forall f, j | page <= f < page + count && 0 <= j < 512 :: |frames[f]| == 512 && frames[f][j] == 0
      ensures ret == 0 ==> Used() == old(Used()) && live == old(live) && frames == ZeroFrames(old(frames), 0, count)
      ensures usedRam == old(usedRam) + count * 0x1000 && freeRam == old(freeRam) - count * 0x1000
    {
      hide Bitmap.Indices, Range, FreeRun, Balanced, ZeroFrames, Claim, RunWithin, FirstChoice;
      ret := ScanTwice(count);
      frames := ZeroFrames(frames, ret / 0x1000, count);
      usedRam := usedRam + count * 0x1000;
      freeRam := freeRam - count * 0x1000;
      if ret != 0 {
        ghost var page := ret / 0x1000;
        BalancedAfterAlloc(old(Books()), page, count);
        live, owner := live[page := count], Claim(owner, page, count);
      }
    }

    /** free: a null pointer is ignored, anything else must be an outstanding allocation. */
    method Free(ptr: nat, count: nat)
      requires Valid()
      requires ptr == 0 || (ptr % 0x1000 == 0 && ptr / 0x1000 in live && live[ptr / 0x1000] == count)
      modifies this, bitmap.buffer
      ensures Valid() && highPage == old(highPage) && reserved == old(reserved) && frames == old(frames)
      ensures ptr == 0 ==> Used() == old(Used()) && live == old(live)
      ensures ptr != 0 ==> Used() == old(Used()) - Range(ptr / 0x1000, count) && live == old(live) - {ptr / 0x1000}
      ensures last == if ptr != 0 && old(last) > ptr / 0x1000 then ptr / 0x1000 else old(last)
      ensures usedRam == old(usedRam) - (if ptr == 0 then 0 else count * 0x1000)
      ensures freeRam == old(freeRam) + (if ptr == 0 then 0 else count * 0x1000)
    {
      hide Bitmap.Indices, Range, Balanced;
      if ptr == 0 {
        return;
      }
      var page := ptr / 0x1000;
      BalancedAfterFree(Books(), page);
      ClearRun(page, page + count);
      if last > page {
        last := page;
      }
      usedRam := usedRam - count * 0x1000;
      freeRam := freeRam + count * 0x1000;
      live, owner := live - {page}, owner - Range(page, count);
    }

    method ClearRun(page: nat, end: nat)
      requires page <= end <= bitmap.Capacity()
      modifies bitmap.buffer
      ensures Used() == old(Used()) - Range(page, end - page)
    {
      hide Bitmap.Indices;
      for i := page to end
        invariant Used() == old(Used()) - Range(page, i - page)
      {
        bitmap.Set(i, false);
      }
    }

    /** Whoever owns a frame writes to it; the books do not change. */
    method Store(contents: seq<Frame>)
      requires Valid() && |contents| == |frames| && WholeFrames(contents)
      modifies this`frames
      ensures Valid() && frames == contents
    {
      hide Balanced;
      frames := contents;
    }

    // ----- init ------------------------------------------------------------------------

    /** The first loop of init: total usable bytes and the highest address. */
    method MeasureMap(mmap: seq<Entry>)
      requires highPage == 0 && freeRam == 0
      modifies this`highPage, this`freeRam
      ensures highPage == TopOf(mmap) && freeRam == UsableBytes(mmap)
    {
      for i := 0 to |mmap|
        invariant highPage == TopOf(mmap[..i]) && freeRam == UsableBytes(mmap[..i])
      {
        assert mmap[..i + 1][..i] == mmap[..i];
        if mmap[i].usable {
          var top := mmap[i].base + mmap[i].length;
          freeRam := freeRam + mmap[i].length;
          if top > highPage {
            highPage := top;
          }
        }
      }
      assert mmap[..|mmap|] == mmap;
    }

    /** One usable entry: clear its bits in steps of a page. */
    method ClearEntry(e: Entry)
      requires e.usable && e.base % 0x1000 == 0 && e.length % 0x1000 == 0
      requires forall f | f in EntryFrames(e) :: f < bitmap.Capacity()
      modifies bitmap.buffer
      ensures Used() == old(Used()) - EntryFrames(e)
    {
      hide Bitmap.Indices;
      var j := 0;
      while j < e.length
        invariant 0 <= j <= e.length && j % 0x1000 == 0
        invariant Used() == old(Used()) - Range(e.base / 0x1000, j / 0x1000)
      {
        var index := (e.base + j) / 0x1000;
        assert index == e.base / 0x1000 + j / 0x1000;
        assert index in EntryFrames(e);
        bitmap.Set(index, false);
        j := j + 0x1000;
      }
    }

    /** The third loop of init: clear the bits of every usable entry, page by page. */
    method ClearUsable(mmap: seq<Entry>)
      requires PageAligned(mmap) && forall f | f in UsableFrames(mmap) :: f < bitmap.Capacity()
      modifies bitmap.buffer
      ensures Used() == old(Used()) - UsableFrames(mmap)
    {
      hide Bitmap.Indices;
      for i := 0 to |mmap|
        invariant Used() == old(Used()) - UsableFrames(mmap[..i])
      {
        assert mmap[..i + 1][..i] == mmap[..i];
        if mmap[i].usable {
          EntryWithin(mmap, i);
          ClearEntry(mmap[i]);
        }
      }
      assert mmap[..|mmap|] == mmap;
    }

    /**
     init on a fresh allocator. It finds a place exactly when some usable entry can
     hold the bitmap; then the books are balanced, nothing is handed out, and the
     bitmap's own frames are reserved. Where the bitmap is too small for the frames
     (`spills`) the model stops before the source clears bits behind it.
     */
    method Init(mmap: seq<Entry>, memory: seq<Frame>) returns (k: nat, spills: bool)
      requires highPage == 0 && last == 0 && freeRam == 0 && usedRam == 0
      requires PageAligned(mmap) && UsableDisjoint(mmap) && 0 !in UsableFrames(mmap) && 0x1000 <= TopOf(mmap) < WORD
      requires |memory| == TopOf(mmap) / 0x1000 && WholeFrames(memory)
      modifies this, bitmap
      ensures highPage == TopOf(mmap) && last == 0
      ensures k == |mmap| ==> forall i :: !FirstFit(mmap, BitmapSize(highPage), i)
      ensures k != |mmap| ==> FirstFit(mmap, BitmapSize(highPage), k)
      ensures k <= |mmap| && (k < |mmap| ==> mmap[k].usable && mmap[k].length >= BitmapSize(highPage))
      ensures forall i | 0 <= i < k :: mmap[i].usable ==> mmap[i].length < BitmapSize(highPage)
      ensures spills <==> k != |mmap| && 0 < highPage / 0x1000 % 0x8000 < 8
      ensures k != |mmap| && !spills ==>
                && fresh(bitmap.buffer) && Valid() && live == map[] && usedRam == 0 && frames == memory
                && FreeFrames(Used(), Limit()) == UsableFrames(Carved(mmap, k, BitmapSize(highPage)))
                && freeRam == UsableBytes(mmap) - BitmapSize(highPage)
    {
      MeasureMap(mmap);
      var size := BitmapSize(highPage);
      BitmapCovers(highPage);
      k := FindEntry(mmap, size);
      spills := k < |mmap| && Limit() > 8 * size;
      if k < |mmap| && !spills {
        PlaceBitmap(mmap, k, size, memory);
      }
    }

    /** The rest of init once entry k is chosen for the bitmap. */
    method PlaceBitmap(mmap: seq<Entry>, k: nat, size: nat, memory: seq<Frame>)
      requires highPage == TopOf(mmap) && last == 0 && freeRam == UsableBytes(mmap) && usedRam == 0
      requires BootMap(mmap, k, size, Limit()) && |memory| == Limit() && WholeFrames(memory)
      modifies this, bitmap
      ensures highPage == old(highPage) && last == 0
      ensures fresh(bitmap.buffer) && Valid() && live == map[] && usedRam == 0 && frames == memory
      ensures FreeFrames(Used(), Limit()) == UsableFrames(Carved(mmap, k, size))
      ensures freeRam == UsableBytes(mmap) - size
    {
      hide Balanced, BootUsed, UsableFrames, UsableBytes, TopOf, Carved, FreeFrames, Range, Bitmap.Indices;
      hide PageAligned, UsableDisjoint;
      BootFree(mmap, k, size, Limit());
      CarvedShape(mmap, k, size);
      CarvedBytes(mmap, k, size);
      BalancedAtBoot(Carved(mmap, k, size), BootUsed(mmap, k, size), Limit(), freeRam - size);
      FillBitmap(mmap, k, size);
      freeRam := freeRam - size;
      frames, live, owner, reserved := memory, map[], map[], Used();
    }

    method FillBitmap(mmap: seq<Entry>, k: nat, size: nat)
      requires BootMap(mmap, k, size, Limit())
      modifies bitmap
      ensures fresh(bitmap.buffer) && Used() == BootUsed(mmap, k, size) && bitmap.Capacity() == 8 * size
    {
      hide UsableFrames, TopOf, Carved, FreeFrames, Range, Bitmap.Indices, PageAligned, UsableDisjoint;
      BootFree(mmap, k, size, Limit());
      ResetBitmap(size);
      ClearUsable(Carved(mmap, k, size));
    }

    /** A fresh buffer of 0xFF bytes: every frame is marked used. */
    method ResetBitmap(size: nat)
      modifies bitmap
      ensures fresh(bitmap.buffer) && bitmap.Capacity() == 8 * size && Used() == Range(0, 8 * size)
    {
      bitmap.buffer := new Byte[size](_ => 0xFF);
      AllSet(bitmap);
    }

    /** The second loop of init: the first usable entry large enough, or |mmap|. */
    method FindEntry(mmap: seq<Entry>, size: nat) returns (k: nat)
      ensures k <= |mmap|
      ensures k < |mmap| ==> FirstFit(mmap, size, k)
      ensures k == |mmap| ==> forall i :: !FirstFit(mmap, size, i)
      ensures k < |mmap| ==> mmap[k].usable && mmap[k].length >= size
      ensures forall i | 0 <= i < k :: mmap[i].usable ==> mmap[i].length < size
    {
      k := 0;
      while k < |mmap| && !(mmap[k].usable && mmap[k].length >= size)
        invariant k <= |mmap|
        invariant forall i | 0 <= i < k && mmap[i].usable :: mmap[i].length < size
      {
        k := k + 1;
      }
    }
  }

  /** A buffer of 0xFF bytes marks every index. */
  lemma AllSet(b: Bitmap)
    requires forall i | 0 <= i < b.buffer.Length :: b.buffer[i] == 0xFF
    ensures forall i: nat | i < b.Capacity() :: i in b.Indices()
    ensures forall i | i in b.Indices() :: i < b.Capacity()
  {
    forall i: nat | i < b.Capacity() ensures b.IsSet(i) {
      OnesDigit(7 - i % 8);
    }
  }

  lemma OnesDigit(k: nat)
    requires k < 8
    ensures Bit(0xFF, k) == 1
  {
    assert Pow2(8) == 256 by { Pow2Values(); }
    ComplementDigit(0, 8, k);
    LowSmall(0, k);
  }
}
