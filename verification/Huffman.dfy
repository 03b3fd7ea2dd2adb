/** The Huffman tables of ssfn.h: construction, fast lookup and the search by length. */
module Huffman {
  import opened Bits
  import opened HuffmanSpec
  import opened BitReverse

  const FAST_BITS: nat := 9
  const MAX_SYMBOLS: nat := 288

  /** struct _ssfn__zhuffman */
  datatype Table = Table(
    fast: seq<nat>, firstcode: seq<nat>, maxcode: seq<nat>,
    firstsymbol: seq<nat>, size: seq<nat>, value: seq<nat>)

  // ----- Symbols ordered by (length, symbol) --------------------------------------

  /** How many used symbols are shorter than l. */
  function SymbolsBefore(lens: seq<nat>, l: nat): nat
    decreases lens, l
  {
    if l == 0 then 0 else SymbolsBefore(lens, l - 1) + Used(lens, l - 1)
  }

  /** Index of symbol i when symbols are sorted by length, then by value. */
  function Slot(lens: seq<nat>, i: nat): nat
    requires i < |lens|
  {
    SymbolsBefore(lens, lens[i]) + Rank(lens, i)
  }

  lemma {:induction false} SymbolsBeforeStep(lens: seq<nat>, l: nat)
    requires lens != []
    ensures SymbolsBefore(lens, l) ==
            SymbolsBefore(lens[..|lens| - 1], l) + (if 0 < lens[|lens| - 1] < l then 1 else 0)
  {
    if l > 0 {
      SymbolsBeforeStep(lens, l - 1);
    }
  }

  lemma {:induction false} SymbolsBeforeBound(lens: seq<nat>, l: nat)
    ensures SymbolsBefore(lens, l) <= |lens|
  {
    if lens == [] {
      SymbolsBeforeEmpty(l);
    } else {
      SymbolsBeforeStep(lens, l);
      SymbolsBeforeBound(lens[..|lens| - 1], l);
    }
  }

  lemma {:induction false} SymbolsBeforeEmpty(l: nat)
    ensures SymbolsBefore([], l) == 0
  {
    if l > 0 {
      SymbolsBeforeEmpty(l - 1);
    }
  }

  lemma {:induction false} SymbolsBeforeMonotone(lens: seq<nat>, l: nat, m: nat)
    requires l <= m
    ensures SymbolsBefore(lens, l) <= SymbolsBefore(lens, m)
    decreases m
  {
    if l < m {
      SymbolsBeforeMonotone(lens, l, m - 1);
    }
  }

  lemma SlotBound(lens: seq<nat>, i: nat)
    requires i < |lens| && lens[i] > 0
    ensures Slot(lens, i) < SymbolsBefore(lens, lens[i] + 1) <= |lens|
  {
    RankBound(lens, i);
    SymbolsBeforeBound(lens, lens[i] + 1);
  }

  lemma SlotInjective(lens: seq<nat>, i: nat, j: nat)
    requires i < |lens| && j < |lens| && lens[i] > 0 && lens[j] > 0 && i != j
    ensures Slot(lens, i) != Slot(lens, j)
  {
    SlotBound(lens, i);
    SlotBound(lens, j);
    if lens[i] == lens[j] {
      RankOrder(lens, if i < j then i else j, if i < j then j else i);
    } else if lens[i] < lens[j] {
      SymbolsBeforeMonotone(lens, lens[i] + 1, lens[j]);
    } else {
      SymbolsBeforeMonotone(lens, lens[j] + 1, lens[i]);
    }
  }

  // ----- What a finished table says ------------------------------------------------

  ghost predicate ShortMatch(lens: seq<nat>, s: nat, w: nat) {
    Matches(lens, s, w) && lens[s] <= FAST_BITS
  }

  /** Entry v for the nine bits j, when only symbols below n have been entered. */
  ghost predicate FastEntry(lens: seq<nat>, n: nat, j: nat, v: nat) {
    if v == 0 then forall s: nat | s < n :: !ShortMatch(lens, s, j)
    else v % 512 < n && ShortMatch(lens, v % 512, j) && v / 512 == lens[v % 512]
  }

  ghost predicate Shape(z: Table) {
    && |z.fast| == 512 && |z.firstcode| == 16 && |z.maxcode| == 17
    && |z.firstsymbol| == 16 && |z.size| == MAX_SYMBOLS && |z.value| == MAX_SYMBOLS
  }

  ghost predicate LengthRow(z: Table, lens: seq<nat>, l: nat)
    requires Shape(z) && l < 16
  {
    && z.firstcode[l] == FirstCode(lens, l)
    && z.firstsymbol[l] == SymbolsBefore(lens, l)
    && z.maxcode[l] == Shl(CodeLimit(lens, l), 16 - l)
  }

  ghost predicate SymbolRow(z: Table, lens: seq<nat>, i: nat)
    requires Shape(z) && i < |lens|
  {
    lens[i] > 0 ==>
      Slot(lens, i) < MAX_SYMBOLS && z.value[Slot(lens, i)] == i && z.size[Slot(lens, i)] == lens[i]
  }

  ghost predicate Represents(z: Table, lens: seq<nat>) {
    && CodeLengths(lens)
    && Shape(z)
    && (forall l: nat | 1 <= l < 16 :: LengthRow(z, lens, l))
    && z.maxcode[16] == 0x1_0000
    && (forall i: nat | i < |lens| :: SymbolRow(z, lens, i))
    && (forall j: nat | j < 512 :: FastEntry(lens, |lens|, j, z.fast[j]))
  }

  // ----- Construction ---------------------------------------------------------------

  /**
   _ssfn__zbuild_huffman: succeeds exactly when the lengths satisfy Kraft's
   inequality, and then the tables represent the canonical code.
   */
  method BuildHuffman(sizelist: seq<nat>) returns (ok: bool, z: Table)
    requires |sizelist| <= MAX_SYMBOLS && CodeLengths(sizelist)
    ensures ok <==> Kraft(sizelist)
    ensures ok ==> Represents(z, sizelist)
  {
    var sizes := CountSizes(sizelist);
    z := Table(seq(512, _ => 0), seq(16, _ => 0), seq(17, _ => 0), seq(16, _ => 0),
               seq(MAX_SYMBOLS, _ => 0), seq(MAX_SYMBOLS, _ => 0));
    KraftAtEveryLength(sizelist);
    for i := 1 to 16 {
      ShlOne(i);
      if sizes[i] > Shl(1, i) {
        assert !RoomAt(sizelist, i);
        return false, z;
      }
    }
    ok, z := AssignCodes(z, sizelist, sizes);
    if ok {
      z := EnterSymbols(z, sizelist);
    }
  }

  method CountSizes(sizelist: seq<nat>) returns (sizes: seq<nat>)
    requires CodeLengths(sizelist)
    ensures |sizes| == 17
    ensures forall l: nat | l < 16 :: sizes[l] == Used(sizelist, l)
  {
    sizes := seq(17, _ => 0);
    for i := 0 to |sizelist|
      invariant |sizes| == 17
      invariant forall l: nat | l < 16 :: sizes[l] == Count(sizelist[..i], l)
    {
      forall l: nat | l < 16 ensures Count(sizelist[..i + 1], l) ==
        Count(sizelist[..i], l) + (if sizelist[i] == l then 1 else 0) {
        CountStep(sizelist, i, l);
      }
      sizes := sizes[sizelist[i] := sizes[sizelist[i]] + 1];
    }
    assert sizelist[..|sizelist|] == sizelist;
    sizes := sizes[0 := 0];
  }

  /** The loop over lengths 1 to 15: first codes, first symbols and code limits. */
  method AssignCodes(z0: Table, ghost lens: seq<nat>, sizes: seq<nat>) returns (ok: bool, z: Table)
    requires Shape(z0) && |sizes| == 17 && |lens| <= MAX_SYMBOLS
    requires forall l: nat | l < 16 :: sizes[l] == Used(lens, l)
    ensures ok <==> Kraft(lens)
    ensures Shape(z) && z.fast == z0.fast && z.size == z0.size && z.value == z0.value
    ensures ok ==> z.maxcode[16] == 0x1_0000
    ensures ok ==> forall l: nat | 1 <= l < 16 :: LengthRow(z, lens, l)
  {
    KraftAtEveryLength(lens);
    z := z0;
    var code, k := 0, 0;
    assert RoomAt(lens, 0);
    for i := 1 to 16
      invariant code == FirstCode(lens, i) && k == SymbolsBefore(lens, i)
      invariant Shape(z) && z.fast == z0.fast && z.size == z0.size && z.value == z0.value
      invariant forall l: nat | l < i :: RoomAt(lens, l)
      invariant forall l: nat | 1 <= l < i :: LengthRow(z, lens, l)
    {
      Narrow16(lens, i);
      var firstcode, firstsymbol := code % 0x1_0000, k % 0x1_0000;
      code := code + sizes[i];
      RoomStep(lens, i, code);
      if sizes[i] != 0 && code - 1 >= Shl(1, i) {
        return false, z.(firstcode := z.firstcode[i := firstcode], firstsymbol := z.firstsymbol[i := firstsymbol]);
      }
      ghost var z1 := z;
      z := SetRow(z, i, firstcode, firstsymbol, Shl(code, 16 - i));
      forall l: nat | 1 <= l < i + 1 ensures LengthRow(z, lens, l) {
        if l < i {
          assert LengthRow(z1, lens, l);
        }
      }
      code := code * 2;
      k := k + sizes[i];
    }
    ghost var z2 := z;
    z := z.(maxcode := z.maxcode[16 := 0x1_0000]);
    forall l: nat | 1 <= l < 16 ensures LengthRow(z, lens, l) {
      assert LengthRow(z2, lens, l);
    }
    ok := true;
  }

  function SetRow(z: Table, l: nat, firstcode: nat, firstsymbol: nat, maxcode: nat): Table
    requires Shape(z) && l < 16
  {
    z.(firstcode := z.firstcode[l := firstcode], firstsymbol := z.firstsymbol[l := firstsymbol],
       maxcode := z.maxcode[l := maxcode])
  }

  /** The test of the loop, made only for used lengths, decides the room at length l. */
  lemma RoomStep(lens: seq<nat>, l: nat, code: nat)
    requires 1 <= l && RoomAt(lens, l - 1) && code == CodeLimit(lens, l)
    ensures RoomAt(lens, l) <==> !(Used(lens, l) != 0 && code - 1 >= Shl(1, l))
  {
    ShlOne(l);
  }

  /** The (uint16_t) casts lose nothing. */
  lemma Narrow16(lens: seq<nat>, l: nat)
    requires 1 <= l < 16 && |lens| <= MAX_SYMBOLS && RoomAt(lens, l - 1)
    ensures FirstCode(lens, l) % 0x1_0000 == FirstCode(lens, l)
    ensures SymbolsBefore(lens, l) % 0x1_0000 == SymbolsBefore(lens, l)
  {
    FirstCodeBound(lens, l);
    SymbolsBeforeBound(lens, l);
    hide FirstCode, SymbolsBefore, RoomAt;
  }

  lemma FirstCodeBound(lens: seq<nat>, l: nat)
    requires 1 <= l < 16 && RoomAt(lens, l - 1)
    ensures FirstCode(lens, l) <= 0x8000
  {
    hide Pow2;
    assert FirstCode(lens, l) <= Pow2(l) by {
      Pow2Step(l - 1);
    }
    Pow2Monotone(l, 15);
    Pow2Values();
  }

  /** What the symbol loop has established once the symbols below n are entered. */
  ghost predicate Entered(z: Table, lens: seq<nat>, n: nat)
    requires n <= |lens|
  {
    && Shape(z)
    && (forall k: nat | k < n :: SymbolRow(z, lens, k))
    && (forall j: nat | j < 512 :: FastEntry(lens, n, j, z.fast[j]))
  }

  lemma UnusedRow(z: Table, lens: seq<nat>, i: nat)
    requires Shape(z) && i < |lens| && lens[i] == 0
    ensures SymbolRow(z, lens, i)
  {
  }

  lemma EnteredNone(z: Table, lens: seq<nat>)
    requires Shape(z) && CodeLengths(lens) && forall j: nat | j < 512 :: z.fast[j] == 0
    ensures Entered(z, lens, 0)
  {
  }

  /** The loop over symbols: value, size and fast tables. */
  method EnterSymbols(z0: Table, lens: seq<nat>) returns (z: Table)
    requires Shape(z0) && |lens| <= MAX_SYMBOLS && CodeLengths(lens) && Kraft(lens)
    requires z0.maxcode[16] == 0x1_0000
    requires forall l: nat | 1 <= l < 16 :: LengthRow(z0, lens, l)
    requires forall j: nat | j < 512 :: z0.fast[j] == 0
    ensures Represents(z, lens)
  {
    hide FastEntry, SymbolRow, KraftSum, FirstCode;
    z := z0;
    EnteredNone(z0, lens);
    var nextCode := z0.firstcode;
    forall l: nat | 1 <= l < 16 ensures nextCode[l] == FirstCode(lens, l) + Count(lens[..0], l) {
      assert LengthRow(z0, lens, l);
    }
    for i := 0 to |lens|
      invariant Entered(z, lens, i)
      invariant z.firstcode == z0.firstcode && z.maxcode == z0.maxcode && z.firstsymbol == z0.firstsymbol
      invariant |nextCode| == 16
      invariant forall l: nat | 1 <= l < 16 :: nextCode[l] == FirstCode(lens, l) + Count(lens[..i], l)
    {
      var s := lens[i];
      forall l: nat | l < 16 ensures Count(lens[..i + 1], l) == Count(lens[..i], l) + (if s == l then 1 else 0) {
        CountStep(lens, i, l);
      }
      if s != 0 {
        assert LengthRow(z0, lens, s);
        z := EnterSymbol(z, lens, i, nextCode[s]);
        nextCode := nextCode[s := nextCode[s] + 1];
      } else {
        UnusedRow(z, lens, i);
        forall j: nat | j < 512 ensures FastEntry(lens, i + 1, j, z.fast[j]) {
          FastEntryStep(lens, i, j, z.fast[j], z.fast[j]);
        }
      }
    }
    forall l: nat | 1 <= l < 16 ensures LengthRow(z, lens, l) {
      assert LengthRow(z0, lens, l);
    }
  }

  /** One symbol with a code: its row, and its fast entries when the code is short. */
  method EnterSymbol(z0: Table, lens: seq<nat>, i: nat, code: nat) returns (z: Table)
    requires i < |lens| <= MAX_SYMBOLS && CodeLengths(lens) && Kraft(lens) && lens[i] > 0
    requires Entered(z0, lens, i) && LengthRow(z0, lens, lens[i]) && code == Code(lens, i)
    ensures Entered(z, lens, i + 1)
    ensures z.firstcode == z0.firstcode && z.maxcode == z0.maxcode && z.firstsymbol == z0.firstsymbol
  {
    var s := lens[i];
    var c := code - z0.firstcode[s] + z0.firstsymbol[s];
    SlotBound(lens, i);
    var fastv := Or(Shl(s, 9), i) % 0x1_0000;
    z := z0.(size := z0.size[c := s], value := z0.value[c := i]);
    forall k: nat | k < i + 1 ensures SymbolRow(z, lens, k) {
      if k < i && lens[k] > 0 {
        assert SymbolRow(z0, lens, k);
        SlotInjective(lens, k, i);
      }
    }
    if s <= FAST_BITS {
      CodeFits(lens, i);
      FastValue(s, i);
      var j := BitReverseN(code, s);
      BitReverseNCorrect(code, s);
      var fast := FillFast(z.fast, j, s, fastv, code);
      ghost var z1 := z;
      z := z.(fast := fast);
      forall k: nat | k < i + 1 ensures SymbolRow(z, lens, k) {
        assert SymbolRow(z1, lens, k);
      }
    }
    forall j: nat | j < 512 ensures FastEntry(lens, i + 1, j, z.fast[j]) {
      FastEntryStep(lens, i, j, z0.fast[j], z.fast[j]);
    }
  }

  lemma CodeFits(lens: seq<nat>, i: nat)
    requires i < |lens| && 0 < lens[i] <= MAX_BITS && Kraft(lens)
    ensures Code(lens, i) < Pow2(lens[i])
  {
    KraftAtEveryLength(lens);
    assert RoomAt(lens, lens[i]);
    CodeInRange(lens, i);
  }

  /** (s << 9) | i packs both numbers. */
  lemma FastValue(s: nat, i: nat)
    requires 0 < s <= FAST_BITS && i < MAX_SYMBOLS
    ensures Or(Shl(s, 9), i) % 0x1_0000 == 512 * s + i
    ensures (512 * s + i) / 512 == s && (512 * s + i) % 512 == i
  {
    assert Pow2(9) == 512 by { Pow2Values(); }
    OrDisjoint(i, s, 9);
    OrCommutes(i, Shl(s, 9));
    ShlValues(s);
  }

  lemma OrCommutes(x: nat, y: nat)
    ensures Or(x, y) == Or(y, x)
    decreases x + y
  {
  }

  lemma FastEntryStep(lens: seq<nat>, i: nat, j: nat, v: nat, v': nat)
    requires i < |lens| && j < 512 && FastEntry(lens, i, j, v) && i < MAX_SYMBOLS
    requires v' == if ShortMatch(lens, i, j) then 512 * lens[i] + i else v
    ensures FastEntry(lens, i + 1, j, v')
  {
  }

  /** A code c of s bits starts the window w exactly when the low s bits of w are c reversed. */
  lemma ReverseIndex(w: nat, s: nat, c: nat)
    requires c < Pow2(s)
    ensures Reverse(w, s) == c <==> Low(w, s) == Reverse(c, s)
  {
    ReverseTwice(w, s);
    ReverseTwice(c, s);
    LowSmall(c, s);
    ReverseLow(w, s, s);
  }

  /** Numbers with the same low s digits are at least 2^s apart. */
  lemma LowGap(j: nat, k: nat, s: nat)
    requires j < k < j + Pow2(s)
    ensures Low(k, s) != Low(j, s)
  {
    Split(j, s);
    Split(k, s);
    if Shr(j, s) <= Shr(k, s) {
      ShlMonotone(Shr(j, s), Shr(k, s), s);
    } else {
      ShlMonotone(Shr(k, s), Shr(j, s), s);
    }
  }

  lemma LowNext(j: nat, s: nat)
    ensures Low(j + Pow2(s), s) == Low(j, s)
  {
    Split(j, s);
    LowBound(j, s);
    ShlAdd(Shr(j, s), 1, s);
    ShlOne(s);
    Join(Shr(j, s) + 1, Low(j, s), s);
  }

  /** The inner loop: every nine-bit index that starts with the code gets the entry. */
  method FillFast(fast0: seq<nat>, j0: nat, s: nat, fastv: nat, ghost c: nat) returns (fast: seq<nat>)
    requires |fast0| == 512 && 0 < s <= FAST_BITS && c < Pow2(s) && j0 == Reverse(c, s)
    ensures |fast| == 512
    ensures forall k: nat | k < 512 :: fast[k] == if Reverse(k, s) == c then fastv else fast0[k]
  {
    var j := j0;
    fast := fast0;
    ShlOne(s);
    ReverseBound(c, s);
    LowSmall(j0, s);
    forall k: nat | k < j0 ensures Low(k, s) != j0 {
      LowSmall(k, s);
    }
    while j < 512
      invariant Low(j, s) == j0 && |fast| == 512
      invariant forall k: nat | k < 512 :: fast[k] == if k < j && Low(k, s) == j0 then fastv else fast0[k]
    {
      fast := fast[j := fastv];
      forall k: nat | j < k < j + Pow2(s) ensures Low(k, s) != j0 {
        LowGap(j, k, s);
      }
      LowNext(j, s);
      j := j + Shl(1, s);
    }
    forall k: nat | k < 512 ensures Reverse(k, s) == c <==> Low(k, s) == j0 {
      ReverseIndex(k, s, c);
    }
  }

  // ----- Lookup ------------------------------------------------------------------------

  /** A fast hit is the match of the whole window. */
  lemma FastHit(z: Table, lens: seq<nat>, w: nat)
    requires Represents(z, lens)
    ensures Low(w, FAST_BITS) < |z.fast|
    ensures var v := z.fast[Low(w, FAST_BITS)];
            if v == 0 then forall s: nat | s < |lens| :: !ShortMatch(lens, s, w)
            else v % 512 < |lens| && Matches(lens, v % 512, w) && v / 512 == lens[v % 512] <= FAST_BITS
  {
    assert Pow2(9) == 512 by { Pow2Values(); }
    LowBound(w, FAST_BITS);
    var j := Low(w, FAST_BITS);
    assert FastEntry(lens, |lens|, j, z.fast[j]);
    forall s: nat | s < |lens| ensures ShortMatch(lens, s, w) <==> ShortMatch(lens, s, j) {
      if lens[s] <= FAST_BITS {
        ReverseLow(w, FAST_BITS, lens[s]);
      }
    }
  }

  /** Left-aligned, the codes of length l begin where those of length l - 1 end. */
  lemma FirstCodeAligned(lens: seq<nat>, l: nat)
    requires 1 <= l <= 16
    ensures Shl(FirstCode(lens, l), 16 - l) == Shl(CodeLimit(lens, l - 1), 16 - (l - 1))
  {
    var last := CodeLimit(lens, l - 1);
    assert FirstCode(lens, l) == 2 * last;
    hide FirstCode, CodeLimit;
    ShlValues(last);
    ShlShl(last, 1, 16 - l);
  }

  /** A window between two consecutive limits starts with a code of length l. */
  lemma MatchBetweenLimits(lens: seq<nat>, w: nat, l: nat) returns (i: nat)
    requires 1 <= l <= MAX_BITS
    requires Shl(CodeLimit(lens, l - 1), 16 - (l - 1)) <= Reverse(w, 16) < Shl(CodeLimit(lens, l), 16 - l)
    ensures FirstCode(lens, l) <= Shr(Reverse(w, 16), 16 - l)
    ensures Matches(lens, i, w) && lens[i] == l
    ensures Slot(lens, i) == Shr(Reverse(w, 16), 16 - l) - FirstCode(lens, l) + SymbolsBefore(lens, l)
  {
    var k, d := Reverse(w, 16), 16 - l;
    FirstCodeAligned(lens, l);
    ShrCompare(k, FirstCode(lens, l), d);
    ShrCompare(k, CodeLimit(lens, l), d);
    ReverseShift(w, l, 16);
    i := RankInverse(lens, l, Shr(k, d) - FirstCode(lens, l));
  }

  /** A window that starts with a code of length l lies below the limit of l. */
  lemma MatchBelowLimit(lens: seq<nat>, w: nat, s: nat)
    requires Matches(lens, s, w) && lens[s] <= MAX_BITS
    ensures Reverse(w, 16) < Shl(CodeLimit(lens, lens[s]), 16 - lens[s])
  {
    var l := lens[s];
    CodeInRange(lens, s);
    ReverseShift(w, l, 16);
    ShrCompare(Reverse(w, 16), CodeLimit(lens, l), 16 - l);
  }

  /** Left-aligned limits do not decrease with the length. */
  lemma LimitsAscend(lens: seq<nat>, l: nat, m: nat)
    requires l <= m <= 16
    ensures Shl(CodeLimit(lens, l), 16 - l) <= Shl(CodeLimit(lens, m), 16 - m)
  {
    if l < m {
      LimitGrows(lens, l, m);
      ShlShl(CodeLimit(lens, l), m - l, 16 - m);
      ShlMonotone(Shl(CodeLimit(lens, l), m - l), CodeLimit(lens, m), 16 - m);
    }
  }

  /** No code of at most l bits starts the window: it lies at or above the limit of l. */
  lemma {:induction false} NoShortMatch(lens: seq<nat>, w: nat, l: nat)
    requires l <= MAX_BITS
    requires forall s: nat | s < |lens| && lens[s] <= l :: !Matches(lens, s, w)
    ensures Reverse(w, 16) >= Shl(CodeLimit(lens, l), 16 - l)
    decreases l
  {
    if l == 0 {
      ShlOne(16);
    } else {
      NoShortMatch(lens, w, l - 1);
      if Reverse(w, 16) < Shl(CodeLimit(lens, l), 16 - l) {
        var i := MatchBetweenLimits(lens, w, l);
      }
    }
  }

  /** Past the last limit nothing matches. */
  lemma NoMatchAboveLimits(lens: seq<nat>, w: nat)
    requires CodeLengths(lens) && Reverse(w, 16) >= Shl(CodeLimit(lens, MAX_BITS), 16 - MAX_BITS)
    ensures forall s: nat :: !Matches(lens, s, w)
  {
    forall s: nat ensures !Matches(lens, s, w) {
      if Matches(lens, s, w) {
        MatchBelowLimit(lens, w, s);
        LimitsAscend(lens, lens[s], MAX_BITS);
        assert false;
      }
    }
  }
}
