/** Runs of the heap from a fresh page on, that end where the walks miss or leave something. */
module HeapRuns {
  import opened Bits
  import opened Rounding
  import opened HeapBlocks
  import opened HeapWalk
  import H = Heap

  // ----- Layouts of a page -------------------------------------------------------------------

  /** What expand makes of one page at address 16. */
  ghost function Fresh(): Blocks {
    map[16 := Block(4096, true)]
  }

  /** Four blocks of 1024 bytes. */
  ghost function Quarters(a: bool, b: bool, c: bool, d: bool): Blocks {
    map[16 := Block(1024, a), 1040 := Block(1024, b), 2064 := Block(1024, c), 3088 := Block(1024, d)]
  }

  /** A block of 2048 bytes and two of 1024. */
  ghost function Half(c: bool, d: bool): Blocks {
    map[16 := Block(2048, true), 2064 := Block(1024, c), 3088 := Block(1024, d)]
  }

  lemma FirstSearch()
    ensures Searched(Fresh(), 16, 4112, 1024) == (Half(true, true), 3088)
  {
    var half := map[16 := Block(2048, true), 2064 := Block(2048, true)];
    SplitStep(Fresh(), 16, 1024);
    assert Halved(Fresh(), 16) == half;
    SplitStep(half, 2064, 1024);
    assert Halved(half, 2064) == Half(true, true);
    SplitEnd(Half(true, true), 3088, 1024);
    hide SplitFrom;
  }

  lemma SecondSearch()
    ensures Searched(Half(true, false), 16, 4112, 1024) == (Half(true, false), 2064)
  {
    var bs := Half(true, false);
    BestStep(bs, 4112, 16, 0, 1024);
    BestStep(bs, 4112, 2064, 2064, 1024);
    BestEnd(bs, 4112, 4112, 2064, 1024);
    SplitEnd(bs, 2064, 1024);
    hide BestFrom, SplitFrom;
  }

  lemma ThirdSearch()
    ensures Searched(Half(false, false), 16, 4112, 1024) == (Quarters(true, true, false, false), 1040)
  {
    var bs := Half(false, false);
    BestStep(bs, 4112, 16, 0, 1024);
    BestStep(bs, 4112, 2064, 16, 1024);
    BestEnd(bs, 4112, 4112, 16, 1024);
    SplitStep(bs, 16, 1024);
    assert Halved(bs, 16) == Quarters(true, true, false, false);
    SplitEnd(Quarters(true, true, false, false), 1040, 1024);
    hide BestFrom, SplitFrom;
  }

  lemma FourthSearch()
    ensures Searched(Quarters(true, false, false, false), 16, 4112, 1024) == (Quarters(true, false, false, false), 16)
  {
    var bs := Quarters(true, false, false, false);
    BestStep(bs, 4112, 16, 0, 1024);
    BestStep(bs, 4112, 2064, 16, 1024);
    BestEnd(bs, 4112, 4112, 16, 1024);
    SplitEnd(bs, 16, 1024);
    hide BestFrom, SplitFrom;
  }

  /** A pass pairs the first two quarters and the last two; unless one of these pairs is free nothing is merged. */
  lemma QuartersStay(a: bool, b: bool, c: bool, d: bool)
    requires !(a && b) && !(c && d)
    ensures Coalesced(Quarters(a, b, c, d), 16, 4112) == Quarters(a, b, c, d)
  {
    var bs := Quarters(a, b, c, d);
    PassStep(bs, 4112, 16);
    PassStep(bs, 4112, 2064);
    PassEnd(bs, 4112, 4112);
    hide PassFrom, AgainFrom;
  }

  lemma LastMerged()
    ensures Coalesced(Quarters(false, false, true, true), 16, 4112) == Missed()
  {
    var bs := Quarters(false, false, true, true);
    PassStep(bs, 4112, 16);
    PassStep(bs, 4112, 2064);
    assert Merged(bs, 2064) == Missed();
    PassEnd(Missed(), 4112, 4112);
    hide PassFrom, AgainFrom;
  }

  lemma NothingLarge()
    ensures Searched(Neighbours(), 16, 4112, 2048) == (Neighbours(), 0)
  {
    var bs := Neighbours();
    BestStep(bs, 4112, 16, 0, 2048);
    BestStep(bs, 4112, 2064, 0, 2048);
    BestEnd(bs, 4112, 4112, 0, 2048);
    assert Best(bs, 16, 4112, 2048) == (bs, 0);
    NeighboursLeft();
    hide BestFrom, Coalesced;
  }

  /** The block that a request for all but the header of a power of two gets. */
  lemma ServedBy(n: nat, s: nat)
    requires H.Serves(n, s) && n <= H.MAX_REQUEST && Power(n + HEADER)
    ensures s == n + HEADER
  {
  }

  // ----- The runs ---------------------------------------------------------------------------------

  /** One page at address 16. */
  method OnePage(heap: H.Heap)
    requires 4112 <= heap.ram.Length < WORD
    modifies heap, heap.ram
    ensures heap.Valid() && heap.ram == old(heap.ram) && heap.head == 16 && heap.tail == 4112
    ensures heap.blocks == Fresh()
  {
    PagePower();
    var size := heap.Setup(16, 1);
  }

  lemma PagePower()
    ensures Power(4096) && 4096 <= HALF
  {
    PowerOf(12);
    Pow2Values();
  }

  /** malloc of 1008 bytes, where the two searches are known to find a block. */
  method Quarter(heap: H.Heap, ghost bs: Blocks, ghost a: nat) returns (ptr: nat)
    requires heap.Valid() && heap.head == 16 && heap.tail == 4112 && a != 0 && a in bs
    requires Searched(heap.blocks, 16, 4112, 1024) == (bs, a)
    modifies heap`blocks, heap`expanded, heap.ram
    ensures heap.Valid() && heap.blocks == Flagged(bs, a, false) && !heap.expanded && ptr == a + HEADER
  {
    hide Searched, Flagged, H.Serves;
    ghost var before := heap.blocks;
    var grow;
    ptr, grow := heap.Malloc(1008);
    ghost var s :| H.Serves(1008, s) && heap.Outcome(before, s, ptr);
    Powers();
    ServedBy(1008, s);
  }

  /** Four requests of 1008 bytes. */
  method FourQuarters(heap: H.Heap)
    requires 4112 <= heap.ram.Length < WORD
    modifies heap, heap.ram
    ensures heap.Valid() && heap.ram == old(heap.ram) && heap.head == 16 && heap.tail == 4112 && !heap.expanded
    ensures heap.blocks == Quarters(false, false, false, false)
  {
    hide Searched, H.Heap.Valid;
    OnePage(heap);
    FirstSearch();
    var ptr := Quarter(heap, Half(true, true), 3088);
    assert heap.blocks == Half(true, false);
    SecondSearch();
    ptr := Quarter(heap, Half(true, false), 2064);
    assert heap.blocks == Half(false, false);
    ThirdSearch();
    ptr := Quarter(heap, Quarters(true, true, false, false), 1040);
    assert heap.blocks == Quarters(true, false, false, false);
    FourthSearch();
    ptr := Quarter(heap, Quarters(true, false, false, false), 16);
  }

  /** free of a block in use, where the merging is known. */
  method Release(heap: H.Heap, a: nat, ghost bs: Blocks)
    requires heap.Valid() && heap.head == 16 && heap.tail == 4112 && a in heap.blocks && !heap.blocks[a].free
    requires Coalesced(Flagged(heap.blocks, a, true), 16, 4112) == bs
    modifies heap`blocks, heap.ram
    ensures heap.Valid() && heap.blocks == bs
  {
    hide Coalesced, Flagged;
    heap.Free(a + HEADER);
  }

  /** The last two quarters given back: 2048 bytes are free at the end, but a request of 1008 asks for growth. */
  method LoseLast(heap: H.Heap) returns (ptr: nat, grow: bool)
    requires 4112 <= heap.ram.Length < WORD
    modifies heap, heap.ram
    ensures heap.Valid() && heap.blocks == Missed() && heap.tail == 4112 && ptr == 0 && grow
  {
    hide Searched, H.Heap.Valid, Coalesced, H.Serves;
    FourQuarters(heap);
    QuartersStay(false, false, true, false);
    assert Flagged(heap.blocks, 2064, true) == Quarters(false, false, true, false);
    Release(heap, 2064, Quarters(false, false, true, false));
    LastMerged();
    assert Flagged(heap.blocks, 3088, true) == Quarters(false, false, true, true);
    Release(heap, 3088, Missed());
    LastBlockMissed();
    ghost var before := heap.blocks;
    ptr, grow := heap.Malloc(1008);
    ghost var s :| H.Serves(1008, s) && heap.Outcome(before, s, ptr);
    Powers();
    ServedBy(1008, s);
  }

  /** The middle two quarters given back: they stay apart, and a request for both together asks for growth. */
  method LeaveNeighbours(heap: H.Heap) returns (ptr: nat, grow: bool)
    requires 4112 <= heap.ram.Length < WORD
    modifies heap, heap.ram
    ensures heap.Valid() && heap.blocks == Neighbours() && CanMerge(heap.blocks, 1040) && ptr == 0 && grow
  {
    hide Searched, H.Heap.Valid, Coalesced, H.Serves;
    FourQuarters(heap);
    QuartersStay(false, true, false, false);
    assert Flagged(heap.blocks, 1040, true) == Quarters(false, true, false, false);
    Release(heap, 1040, Quarters(false, true, false, false));
    NeighboursLeft();
    assert Flagged(heap.blocks, 2064, true) == Neighbours();
    Release(heap, 2064, Neighbours());
    NothingLarge();
    ghost var before := heap.blocks;
    ptr, grow := heap.Malloc(2032);
    ghost var s :| H.Serves(2032, s) && heap.Outcome(before, s, ptr);
    Powers();
    ServedBy(2032, s);
  }

  // ----- Equal blocks ---------------------------------------------------------------------------

  /** Of two equal free blocks that the walk meets as first ones of a pair, the later one is chosen. */
  lemma LaterFirst()
    ensures Searched(Quarters(true, false, true, false), 16, 4112, 1024) == (Quarters(true, false, true, false), 2064)
  {
    var bs := Quarters(true, false, true, false);
    BestStep(bs, 4112, 16, 0, 1024);
    BestStep(bs, 4112, 2064, 16, 1024);
    BestEnd(bs, 4112, 4112, 2064, 1024);
    SplitEnd(bs, 2064, 1024);
    hide BestFrom, SplitFrom;
  }

  /** Of two that it meets as second ones, the earlier one. */
  lemma EarlierSecond()
    ensures Searched(Quarters(false, true, false, true), 16, 4112, 1024) == (Quarters(false, true, false, true), 1040)
  {
    var bs := Quarters(false, true, false, true);
    BestStep(bs, 4112, 16, 0, 1024);
    BestStep(bs, 4112, 2064, 1040, 1024);
    BestEnd(bs, 4112, 4112, 1040, 1024);
    SplitEnd(bs, 1040, 1024);
    hide BestFrom, SplitFrom;
  }

  /** A block of 1024 bytes, then a used one, then two of 512 bytes, then a used one. */
  ghost function Eighths(): Blocks {
    map[16 := Block(1024, true), 1040 := Block(1024, false), 2064 := Block(512, true), 2576 := Block(512, true),
        3088 := Block(1024, false)]
  }

  /** A block that the search has just merged is chosen before an equal one that it met earlier. */
  lemma MergedFirst()
    ensures Searched(Eighths(), 16, 4112, 1024) == (Quarters(true, false, true, false), 2064)
  {
    var bs, r := Eighths(), Quarters(true, false, true, false);
    BestStep(bs, 4112, 16, 0, 1024);
    BestStep(bs, 4112, 2064, 16, 1024);
    assert Merged(bs, 2064) == r;
    BestEnd(r, 4112, 3088, 2064, 1024);
    SplitEnd(r, 2064, 1024);
    hide BestFrom, SplitFrom;
  }

  /** The first and the third quarter are given back: the next request gets the third one. */
  method TakeLater(heap: H.Heap) returns (ptr: nat)
    requires 4112 <= heap.ram.Length < WORD
    modifies heap, heap.ram
    ensures heap.Valid() && ptr == 2064 + HEADER && heap.blocks == Quarters(true, false, false, false)
  {
    hide Searched, H.Heap.Valid, Coalesced, H.Serves;
    FourQuarters(heap);
    QuartersStay(true, false, false, false);
    assert Flagged(heap.blocks, 16, true) == Quarters(true, false, false, false);
    Release(heap, 16, Quarters(true, false, false, false));
    QuartersStay(true, false, true, false);
    assert Flagged(heap.blocks, 2064, true) == Quarters(true, false, true, false);
    Release(heap, 2064, Quarters(true, false, true, false));
    LaterFirst();
    ptr := Quarter(heap, Quarters(true, false, true, false), 2064);
    assert heap.blocks == Quarters(true, false, false, false);
  }

  /** A page split down to 32 bytes: all blocks are free. */
  ghost function SplitUp(): Blocks {
    Flagged(H.OverReadBlocks(), 4080, true)
  }

  lemma HalfOnce(bs: Blocks, a: nat, h: nat)
    requires a in bs && bs[a] == Block(2 * h, true) && 32 <= h
    ensures SplitFrom(bs, a, 32) == SplitFrom(Halved(bs, a), a + h, 32)
    ensures Halved(bs, a) == bs[a := Block(h, true)][a + h := Block(h, true)]
  {
    SplitStep(bs, a, 32);
    hide SplitFrom;
  }

  lemma SplitDown()
    ensures Searched(Fresh(), 16, 4112, 32) == (SplitUp(), 4080)
  {
    hide SplitFrom;
    var b3 := SplitUpper();
    SplitLower(b3);
    hide SplitUp;
    assert Best(Fresh(), 16, 4112, 32) == SplitFrom(Fresh(), 16, 32);
  }

  lemma SplitUpper() returns (b3: Blocks)
    ensures b3 == map[16 := Block(2048, true), 2064 := Block(1024, true), 3088 := Block(512, true),
                      3600 := Block(512, true)]
    ensures SplitFrom(Fresh(), 16, 32) == SplitFrom(b3, 3600, 32)
  {
    hide SplitFrom, Halved;
    HalfOnce(Fresh(), 16, 2048);
    var b1 := Halved(Fresh(), 16);
    HalfOnce(b1, 2064, 1024);
    var b2 := Halved(b1, 2064);
    HalfOnce(b2, 3088, 512);
    b3 := Halved(b2, 3088);
  }

  lemma SplitLower(b3: Blocks)
    requires b3 == map[16 := Block(2048, true), 2064 := Block(1024, true), 3088 := Block(512, true),
                       3600 := Block(512, true)]
    ensures SplitFrom(b3, 3600, 32) == (SplitUp(), 4080)
  {
    hide SplitFrom, Halved;
    HalfOnce(b3, 3600, 256);
    var b4 := Halved(b3, 3600);
    HalfOnce(b4, 3856, 128);
    var b5 := Halved(b4, 3856);
    HalfOnce(b5, 3984, 64);
    var b6 := Halved(b5, 3984);
    HalfOnce(b6, 4048, 32);
    var b7 := Halved(b6, 4048);
    SplitEnd(b7, 4080, 32);
    assert b7 == SplitUp();
  }

  /** A request of 16 bytes: growing that block to 20 bytes with realloc reads behind the end of the heap. */
  method OverReadRun(heap: H.Heap) returns (ptr: nat)
    requires 4112 <= heap.ram.Length < WORD
    modifies heap, heap.ram
    ensures heap.Valid() && heap.blocks == H.OverReadBlocks() && heap.tail == 4112 && ptr == 4096 && heap.Live(ptr)
    ensures H.Reads(ptr, heap.blocks[4080].size, 20, heap.tail)
  {
    hide Searched, H.Heap.Valid, H.Serves;
    OnePage(heap);
    SplitDown();
    ghost var before := heap.blocks;
    var grow;
    ptr, grow := heap.Malloc(16);
    ghost var s :| H.Serves(16, s) && heap.Outcome(before, s, ptr);
    Powers();
    ServedBy(16, s);
    assert heap.blocks == H.OverReadBlocks();
  }
}
