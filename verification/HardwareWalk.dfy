/** The page walk of the processor, by arithmetic on addresses and words, and what the page maps mean to it. */
module HardwareWalk {
  import opened Bits
  import opened FrameAllocator
  import opened PageEntries
  import opened PageTables
  import opened VirtualMemory
  import opened Wrappers

  /** 512 to the power k. */
  function Power512(k: nat): (r: nat)
    ensures r > 0
  {
    if k == 0 then 1 else 512 * Power512(k - 1)
  }

  // ----- Indices -------------------------------------------------------------------------------

  /** The index into the table of level k, counted from 1 at the last level. */
  function LevelIndex(vaddr: nat, k: nat): (i: nat)
    requires k > 0
    ensures i < 512
  {
    vaddr / (0x1000 * Power512(k - 1)) % 512
  }

  lemma {:induction false} LowIsRemainder(x: nat, k: nat)
    ensures Low(x, k) == x % Pow2(k)
    decreases k
  {
    Split(x, k);
    ShrIsDiv(x, k);
    ShlIsTimes(Shr(x, k), k);
    LowBound(x, k);
    DivUnique(x, Pow2(k), x / Pow2(k), Low(x, k));
  }

  lemma SomePowers()
    ensures Pow2(9) == 512 && Pow2(12) == 0x1000 && Pow2(21) == 0x1000 * Power512(1)
    ensures Pow2(30) == 0x1000 * Power512(2) && Pow2(39) == 0x1000 * Power512(3) && Pow2(48) == 0x1000 * Power512(4)
    ensures Power512(0) == 1
  {
    hide Pow2, Power512;
    NineAndTwelve();
    PowersOf512();
    Pow2Add(12, 9);
    Pow2Add(21, 9);
    Pow2Add(30, 9);
    Pow2Add(39, 9);
  }

  lemma PowersOf512()
    ensures Power512(0) == 1 && Power512(1) == 512 && Power512(2) == 512 * 512 && Power512(3) == 512 * 512 * 512
    ensures Power512(4) == 512 * 512 * 512 * 512
  {
  }

  lemma NineAndTwelve()
    ensures Pow2(9) == 512 && Pow2(12) == 0x1000
  {
    assert Pow2(8) == 256;
  }

  /** The field of nine digits at 12 + 9 (k - 1) is the index of level k. */
  lemma IndexMeaning(vaddr: nat, shift: nat, k: nat)
    requires 1 <= k <= 5 && shift == 12 + 9 * (k - 1)
    ensures IndexAt(vaddr, shift) == LevelIndex(vaddr, k)
  {
    hide Low, Shr, Pow2, Power512, IndexAt;
    IndexIsField(vaddr, shift);
    LowIsRemainder(Shr(vaddr, shift), 9);
    ShrIsDiv(vaddr, shift);
    SomePowers();
  }

  /** The indices of an address, top level first. */
  lemma IndicesMeaning(vaddr: nat, lvl5: bool, j: nat)
    requires j < Levels(lvl5)
    ensures Indices(vaddr, lvl5)[j] == LevelIndex(vaddr, Levels(lvl5) - j)
  {
    hide IndexAt, LevelIndex;
    IndexMeaning(vaddr, 48, 5);
    IndexMeaning(vaddr, 39, 4);
    IndexMeaning(vaddr, 30, 3);
    IndexMeaning(vaddr, 21, 2);
    IndexMeaning(vaddr, 12, 1);
  }

  /** A path read as digits of base 512, the first one highest. */
  function PathValue(path: Path): nat {
    if path == [] then 0 else 512 * PathValue(path[..|path| - 1]) + path[|path| - 1]
  }

  /** x without its lowest j digits, and the digit below those. */
  lemma NextDigit(x: nat, m: nat, p: nat)
    requires m > 0 && p > 0
    ensures 512 * (x / (512 * m) % p) + x / m % 512 == x / m % (512 * p)
  {
    var y := x / m;
    DivDiv(x, m, 512);
    var q, r := y / 512, y % 512;
    var a, b := q / p, q % p;
    assert q == a * p + b;
    assert y == 512 * (a * p + b) + r;
    assert 512 * (a * p) == a * (512 * p);
    DivUnique(y, 512 * p, a, 512 * b + r);
  }

  /** Together the indices are the number of the virtual page. */
  lemma IndicesValue(vaddr: nat, lvl5: bool)
    ensures PathValue(Indices(vaddr, lvl5)) == vaddr / 0x1000 % Power512(Levels(lvl5))
  {
    var path, n := Indices(vaddr, lvl5), Levels(lvl5);
    hide Indices, Power512, PathValue, LevelIndex;
    forall j: nat | j < n ensures path[j] == LevelIndex(vaddr, n - j) {
      IndicesMeaning(vaddr, lvl5, j);
    }
    PrefixValue(path, vaddr, n, n);
    assert path[..n] == path;
    PowersOf512();
  }

  lemma {:induction false} PrefixValue(path: Path, vaddr: nat, n: nat, j: nat)
    requires j <= n == |path| && forall i: nat | i < n :: path[i] == LevelIndex(vaddr, n - i)
    ensures PathValue(path[..j]) == vaddr / (0x1000 * Power512(n - j)) % Power512(j)
    decreases j
  {
    if j > 0 {
      PrefixValue(path, vaddr, n, j - 1);
      assert path[..j][..j - 1] == path[..j - 1];
      PrefixStep(vaddr, n, j);
    }
  }

  lemma PrefixStep(vaddr: nat, n: nat, j: nat)
    requires 0 < j <= n
    ensures 512 * (vaddr / (0x1000 * Power512(n - j + 1)) % Power512(j - 1)) + LevelIndex(vaddr, n - j + 1) ==
            vaddr / (0x1000 * Power512(n - j)) % Power512(j)
  {
    var m := 0x1000 * Power512(n - j);
    assert 512 * m == 0x1000 * Power512(n - j + 1);
    assert Power512(j) == 512 * Power512(j - 1);
    hide Power512;
    NextDigit(vaddr, m, Power512(j - 1));
  }

  // ----- The walk --------------------------------------------------------------------------------

  /** Where an access goes, and whether it may write and may come from user mode. */
  datatype Access = Access(address: nat, writable: bool, user: bool)

  /**
   What the processor makes of an address from a table of level k on: bit 0 of an entry
   says present, bits 1 and 2 writable and user, bits 12 to 51 hold the next frame. An
   access is allowed what every entry on the way allows. A large page (bit 7 above the
   last level) is not followed.
   */
  ghost function Walk(frames: seq<Frame>, table: nat, vaddr: nat, k: nat): Option<Access>
    requires k > 0
    decreases k
  {
    var i := LevelIndex(vaddr, k);
    if table >= |frames| || i >= |frames[table]| then None
    else
      var e := frames[table][i];
      var frame := e / 0x1000 % 0x100_0000_0000;
      if e % 2 == 0 then None
      else if k == 1 then Some(Access(frame * 0x1000 + vaddr % 0x1000, e / 2 % 2 == 1, e / 4 % 2 == 1))
      else if e / 128 % 2 == 1 then None
      else
        match Walk(frames, frame, vaddr, k - 1)
        case None => None
        case Some(x) => Some(Access(x.address, x.writable && e / 2 % 2 == 1, x.user && e / 4 % 2 == 1))
  }

  /** The digits of an entry by arithmetic. */
  lemma EntryDigits(e: nat)
    ensures Present(e) <==> e % 2 == 1
    ensures Large(e) <==> e / 128 % 2 == 1
    ensures Bit(e, 1) == e / 2 % 2 && Bit(e, 2) == e / 4 % 2
  {
    hide Shr;
    ShrIsDiv(e, 0);
    ShrIsDiv(e, 1);
    ShrIsDiv(e, 2);
    ShrIsDiv(e, 7);
    assert Pow2(0) == 1 && Pow2(1) == 2 && Pow2(2) == 4 && Pow2(7) == 128;
  }

  lemma EntryFrame(e: nat)
    ensures GetAddress(e) == e / 0x1000 % 0x100_0000_0000
  {
    hide Bit, Shr, GetAddress, Low, Pow2;
    var x := Low(Shr(e, 12), 40);
    forall j: nat | j < 40 ensures Bit(GetAddress(e), j) == Bit(x, j) {
      GetAddressDigit(e, j);
      BitLow(Shr(e, 12), 40, j);
      BitShr(e, 12, j);
    }
    EqualBits(GetAddress(e), x, 40);
    WordIsPower();
    GetAddressBound(e);
    LowSmall(GetAddress(e), 40);
    LowBound(Shr(e, 12), 40);
    LowSmall(x, 40);
    LowIsRemainder(Shr(e, 12), 40);
    ShrIsDiv(e, 12);
    NineAndTwelve();
  }

  /** Where the walk stands after the first indices of the path. */
  ghost predicate Standing(frames: seq<Frame>, top: nat, path: Path, j: nat, table: nat) {
    j < |path| && Reaches(frames, top, path[..j], table)
  }

  /** The processor finds what the page map says, and through open tables it may do what the page entry allows. */
  lemma {:induction false} WalkFrom(frames: seq<Frame>, tops: set<nat>, top: nat, vaddr: nat, path: Path, j: nat,
                                    table: nat)
    requires Standing(frames, top, path, j, table) && NoLargePages(frames, top, |path|) && top in tops
    requires forall i: nat | i < |path| :: path[i] == LevelIndex(vaddr, |path| - i)
    ensures var r, w := Walk(frames, table, vaddr, |path| - j), Leaf(frames, top, path);
            && (r.Some? <==> w.Some?)
            && (r.Some? ==> r.value.address == GetAddress(w.value) * 0x1000 + vaddr % 0x1000)
            && (r.Some? && OpenTables(frames, tops, |path|) ==>
                  (r.value.writable <==> Bit(w.value, 1) == 1) && (r.value.user <==> Bit(w.value, 2) == 1))
    decreases |path| - j
  {
    hide Bit, GetAddress, LevelIndex, Present, Large;
    var i := path[j];
    assert path[..j + 1][..j] == path[..j];
    if table < |frames| && i < |frames[table]| {
      var e := frames[table][i];
      EntryDigits(e);
      EntryFrame(e);
      if j == |path| - 1 {
        LastStep(frames, top, path, table);
      } else {
        InnerStep(frames, tops, top, path, j, table);
        if Present(e) {
          WalkFrom(frames, tops, top, vaddr, path, j + 1, GetAddress(e));
        }
      }
    } else {
      NoEntry(frames, top, path, j, table);
    }
  }

  lemma LastStep(frames: seq<Frame>, top: nat, path: Path, table: nat)
    requires path != [] && Standing(frames, top, path, |path| - 1, table)
    requires table < |frames| && path[|path| - 1] < |frames[table]|
    ensures RawLeaf(frames, top, path) == frames[table][path[|path| - 1]]
  {
  }

  lemma InnerStep(frames: seq<Frame>, tops: set<nat>, top: nat, path: Path, j: nat, table: nat)
    requires j + 1 < |path| && Standing(frames, top, path, j, table)
    requires NoLargePages(frames, top, |path|) && top in tops
    requires table < |frames| && path[j] < |frames[table]|
    ensures var e := frames[table][path[j]];
            && !Large(e) && (Present(e) ==> Standing(frames, top, path, j + 1, GetAddress(e)))
            && (Present(e) && OpenTables(frames, tops, |path|) ==> Open(e))
            && (!Present(e) ==> Leaf(frames, top, path).None?)
  {
    hide GetAddress, Present, Large;
    assert path[..j + 1][..j] == path[..j];
    assert !LargeAt(frames, table, path[j]);
    assert OpenTables(frames, tops, |path|) ==> OpenAt(frames, table, path[j]);
    if !Present(frames[table][path[j]]) {
      NowhereAfter(frames, top, path, j + 1);
    }
  }

  lemma NoEntry(frames: seq<Frame>, top: nat, path: Path, j: nat, table: nat)
    requires Standing(frames, top, path, j, table) && !(table < |frames| && path[j] < |frames[table]|)
    ensures Leaf(frames, top, path).None?
  {
    hide GetAddress;
    assert path[..j + 1][..j] == path[..j];
    ZeroWord();
    if j + 1 < |path| {
      NowhereAfter(frames, top, path, j + 1);
    }
  }

  /** Where a prefix leads nowhere, the path does. */
  lemma {:induction false} NowhereAfter(frames: seq<Frame>, top: nat, path: Path, j: nat)
    requires 0 < j < |path| && TableAt(frames, top, path[..j]).None?
    ensures TableAt(frames, top, path[..|path| - 1]).None? && Leaf(frames, top, path).None?
    decreases |path| - j
  {
    ZeroWord();
    if j < |path| - 1 {
      assert path[..j + 1][..j] == path[..j];
      NowhereAfter(frames, top, path, j + 1);
    }
  }

  /** The walk from the top. */
  lemma WalkMeaning(frames: seq<Frame>, tops: set<nat>, top: nat, vaddr: nat, lvl5: bool)
    requires NoLargePages(frames, top, Levels(lvl5)) && top in tops
    ensures var r, w := Walk(frames, top, vaddr, Levels(lvl5)), Leaf(frames, top, Indices(vaddr, lvl5));
            && (r.Some? <==> w.Some?)
            && (r.Some? ==> Translate(frames, top, vaddr, lvl5) == Some(r.value.address))
            && (r.None? ==> Translate(frames, top, vaddr, lvl5).None?)
            && (r.Some? && OpenTables(frames, tops, Levels(lvl5)) ==>
                  (r.value.writable <==> Bit(w.value, 1) == 1) && (r.value.user <==> Bit(w.value, 2) == 1))
  {
    hide Indices, LevelIndex, Walk, Leaf, Bit, GetAddress, OpenTables, NoLargePages, Standing, Translate;
    var path := Indices(vaddr, lvl5);
    forall i: nat | i < |path| ensures path[i] == LevelIndex(vaddr, |path| - i) {
      IndicesMeaning(vaddr, lvl5, i);
    }
    StandingAtTop(frames, top, path);
    WalkFrom(frames, tops, top, vaddr, path, 0, top);
    TranslateIs(frames, top, vaddr, lvl5);
  }

  lemma StandingAtTop(frames: seq<Frame>, top: nat, path: Path)
    requires path != []
    ensures Standing(frames, top, path, 0, top)
  {
  }

  lemma TranslateIs(frames: seq<Frame>, top: nat, vaddr: nat, lvl5: bool)
    ensures var w := Leaf(frames, top, Indices(vaddr, lvl5));
            Translate(frames, top, vaddr, lvl5) ==
            if w.Some? then Some(GetAddress(w.value) * 0x1000 + vaddr % 0x1000) else None
  {
    hide Indices, Leaf, GetAddress;
  }

  // ----- Mapping as the processor sees it ----------------------------------------------------------

  ghost function Where(r: Option<Access>): Option<nat> {
    match r
    case None => None
    case Some(x) => Some(x.address)
  }

  /** What the other lemmas say of translations they say of the processor's walk. */
  lemma WalkTranslates(frames: seq<Frame>, tops: set<nat>, top: nat, vaddr: nat, lvl5: bool)
    requires NoLargePages(frames, top, Levels(lvl5)) && top in tops
    ensures Where(Walk(frames, top, vaddr, Levels(lvl5))) == Translate(frames, top, vaddr, lvl5)
  {
    hide Walk, Translate, OpenTables, NoLargePages, Indices;
    WalkMeaning(frames, tops, top, vaddr, lvl5);
  }

  /** Two addresses of the same virtual page. */
  predicate SamePageNumber(v: nat, x: nat, lvl5: bool) {
    v / 0x1000 % Power512(Levels(lvl5)) == x / 0x1000 % Power512(Levels(lvl5))
  }

  lemma PageNumber(v: nat, x: nat, lvl5: bool)
    ensures SameVirtualPage(v, x, lvl5) <==> SamePageNumber(v, x, lvl5)
  {
    hide Shr, Low, Pow2, Power512;
    LowIsRemainder(Shr(v, 12), 9 * Levels(lvl5));
    LowIsRemainder(Shr(x, 12), 9 * Levels(lvl5));
    ShrIsDiv(v, 12);
    ShrIsDiv(x, 12);
    NineAndTwelve();
    PowerOf512(Levels(lvl5));
  }

  lemma {:induction false} PowerOf512(k: nat)
    ensures Power512(k) == Pow2(9 * k)
    decreases k
  {
    if k > 0 {
      hide Pow2;
      var m := 9 * (k - 1);
      PowerOf512(k - 1);
      Pow2Add(m, 9);
      ShlValues(Pow2(m));
      assert m + 9 == 9 * k;
    } else {
      assert Pow2(0) == 1;
    }
  }

  /** After mapMem the processor finds paddr's frame behind v's page, and every other page where it found it before. */
  lemma MapWalks(frames: seq<Frame>, frames': seq<Frame>, tops: set<nat>, a: nat, b: nat, v: nat, paddr: nat,
                 flags: nat, x: nat, lvl5: bool)
    requires a in tops && b in tops && OutsideAddress(flags) && flags % 2 == 1 && paddr / 0x1000 < 0x100_0000_0000
    requires NoLargePages(frames, b, Levels(lvl5)) && NoLargePages(frames', b, Levels(lvl5))
    requires var path := Indices(v, lvl5);
             Stored(frames, frames', tops, a, path, PageEntry(RawLeaf(frames, a, path), paddr, flags))
    ensures Where(Walk(frames', b, x, Levels(lvl5))) ==
            if SamePageNumber(v, x, lvl5) && Seen(frames, a, b, Indices(v, lvl5))
              then Some(paddr / 0x1000 * 0x1000 + x % 0x1000)
            else Where(Walk(frames, b, x, Levels(lvl5)))
  {
    hide Indices, RawLeaf, Seen, Shr, Pow2, PageEntry, Walk, Translate, Stored, SameVirtualPage, SamePageNumber;
    hide NoLargePages, OpenTables, OutsideAddress;
    EntryDigits(flags);
    ShrIsDiv(paddr, 12);
    NineAndTwelve();
    PageNumber(v, x, lvl5);
    MapTranslates(frames, frames', tops, a, b, v, paddr, flags, x, lvl5);
    WalkTranslates(frames, tops, b, x, lvl5);
    WalkTranslates(frames', tops, b, x, lvl5);
  }

  /** Where all tables are open, the processor may write and may come from user mode as far as the flags say so. */
  lemma MapAllows(frames: seq<Frame>, frames': seq<Frame>, tops: set<nat>, a: nat, v: nat, paddr: nat, flags: nat,
                  lvl5: bool)
    requires a in tops && OutsideAddress(flags) && flags % 2 == 1 && paddr / 0x1000 < 0x100_0000_0000
    requires NoLargePages(frames', a, Levels(lvl5)) && OpenTables(frames, tops, Levels(lvl5))
    requires var path := Indices(v, lvl5);
             Stored(frames, frames', tops, a, path, PageEntry(RawLeaf(frames, a, path), paddr, flags))
    ensures var r := Walk(frames', a, v, Levels(lvl5));
            r.Some? && (flags / 2 % 2 == 1 ==> r.value.writable) && (flags / 4 % 2 == 1 ==> r.value.user)
  {
    hide Indices, Seen, Shr, Pow2, Walk, SameVirtualPage, NoLargePages, OpenTables, SetFlags, SetAddress, Bit;
    var path := Indices(v, lvl5);
    var word := RawLeaf(frames, a, path);
    EntryDigits(flags);
    ShrIsDiv(paddr, 12);
    NineAndTwelve();
    PageEntryFields(word, paddr, flags);
    OwnSlot(frames, a, path);
    EntryDigits(PageEntry(word, paddr, flags));
    SetFlagsDigit(SetAddress(word, Shr(paddr, 12)), flags, true, 1);
    SetFlagsDigit(SetAddress(word, Shr(paddr, 12)), flags, true, 2);
    WalkMeaning(frames', tops, a, v, lvl5);
  }

  lemma OwnSlot(frames: seq<Frame>, a: nat, path: Path)
    requires path != []
    ensures Seen(frames, a, a, path)
  {
  }

  /** mapMem, as the processor sees it. */
  method MapPage(vm: VMemory, a: nat, vaddr: nat, paddr: nat, flags: nat)
    requires vm.Valid() && a in vm.tops && vm.RoomFor(a, vm.Dirs(vaddr), [])
    requires OutsideAddress(flags) && flags % 2 == 1 && paddr / 0x1000 < 0x100_0000_0000
    modifies vm.mem, vm.mem.bitmap.buffer
    ensures vm.Valid()
    ensures forall b, x: nat | b in vm.tops ::
              Where(Walk(vm.mem.frames, b, x, Levels(vm.lvl5))) ==
              if SamePageNumber(vaddr, x, vm.lvl5) && Seen(old(vm.mem.frames), a, b, Indices(vaddr, vm.lvl5))
                then Some(paddr / 0x1000 * 0x1000 + x % 0x1000)
              else Where(Walk(old(vm.mem.frames), b, x, Levels(vm.lvl5)))
    ensures old(OpenTables(vm.mem.frames, vm.tops, Levels(vm.lvl5))) ==>
              && OpenTables(vm.mem.frames, vm.tops, Levels(vm.lvl5))
              && var r := Walk(vm.mem.frames, a, vaddr, Levels(vm.lvl5));
              r.Some? && (flags / 2 % 2 == 1 ==> r.value.writable) && (flags / 4 % 2 == 1 ==> r.value.user)
  {
    hide Walk, Indices, RawLeaf, PageEntry, SamePageNumber, OutsideAddress, OpenTables, Seen;
    ghost var frames := vm.mem.frames;
    NoneLarge(vm);
    vm.MapMem(a, vaddr, paddr, flags);
    NoneLarge(vm);
    forall b, x: nat | b in vm.tops
      ensures Where(Walk(vm.mem.frames, b, x, Levels(vm.lvl5))) ==
              if SamePageNumber(vaddr, x, vm.lvl5) && Seen(frames, a, b, Indices(vaddr, vm.lvl5))
                then Some(paddr / 0x1000 * 0x1000 + x % 0x1000)
              else Where(Walk(frames, b, x, Levels(vm.lvl5)))
    {
      MapWalks(frames, vm.mem.frames, vm.tops, a, b, vaddr, paddr, flags, x, vm.lvl5);
    }
    if OpenTables(frames, vm.tops, Levels(vm.lvl5)) {
      MapAllows(frames, vm.mem.frames, vm.tops, a, vaddr, paddr, flags, vm.lvl5);
    }
  }

  lemma NoneLarge(vm: VMemory)
    requires vm.Valid()
    ensures forall b | b in vm.tops :: NoLargePages(vm.mem.frames, b, Levels(vm.lvl5))
  {
  }

  /** unmapMem, as the processor sees it. */
  method UnmapPage(vm: VMemory, a: nat, vaddr: nat)
    requires vm.Valid() && a in vm.tops && vm.RoomFor(a, vm.Dirs(vaddr), [])
    modifies vm.mem, vm.mem.bitmap.buffer
    ensures vm.Valid()
    ensures forall b, x: nat | b in vm.tops ::
              Where(Walk(vm.mem.frames, b, x, Levels(vm.lvl5))) ==
              if SamePageNumber(vaddr, x, vm.lvl5) && Seen(old(vm.mem.frames), a, b, Indices(vaddr, vm.lvl5)) then None
              else Where(Walk(old(vm.mem.frames), b, x, Levels(vm.lvl5)))
  {
    hide Walk, Indices, RawLeaf, SamePageNumber, OpenTables, Seen, Translate;
    ghost var frames := vm.mem.frames;
    NoneLarge(vm);
    vm.UnmapMem(a, vaddr);
    NoneLarge(vm);
    forall b, x: nat | b in vm.tops
      ensures Where(Walk(vm.mem.frames, b, x, Levels(vm.lvl5))) ==
              if SamePageNumber(vaddr, x, vm.lvl5) && Seen(frames, a, b, Indices(vaddr, vm.lvl5)) then None
              else Where(Walk(frames, b, x, Levels(vm.lvl5)))
    {
      PageNumber(vaddr, x, vm.lvl5);
      UnmapTranslates(frames, vm.mem.frames, vm.tops, a, b, vaddr, x, vm.lvl5);
      WalkTranslates(frames, vm.tops, b, x, vm.lvl5);
      WalkTranslates(vm.mem.frames, vm.tops, b, x, vm.lvl5);
    }
  }
}
