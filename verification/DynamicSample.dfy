/** A dynamic block with its output, element by element. */
module DynamicSample {
  import opened Bits
  import opened HuffmanSpec
  import opened Deflate
  import opened Inflate
  import opened StreamReading
  import opened DeflateTables

  /**
   Literals 'a' to 'd' with three bits each, the end and length symbol 265 with two;
   distance symbols 0 and 4 with one bit. The text is abcdab and twelve bytes from
   distance 6. All repeat symbols occur. Four bytes of padding.
   */
  const DYNAMIC: seq<Byte> :=
    [0x4D, 0xC4, 0x37, 0x01, 0x00, 0x00, 0x00, 0xC2, 0x30, 0xAD,
     0x0C, 0xFF, 0x1A, 0xFA, 0x36, 0x47, 0xD2, 0x3D, 0xF5, 0x00, 0, 0, 0, 0]

  /** The code for code lengths: 3 and 18 with two bits, 1, 2, 16 and 17 with three. */
  const LENGTH_CODE: seq<nat> := [0, 3, 3, 2, 0, 0, 0, 0, 0, 0, 0, 0, 0, 0, 0, 0, 3, 3, 2]
  lemma CountsRead(bits: seq<Digit>)
    requires |bits| == 192 && Spells(bits, 0, [1, 0, 1, 1, 0, 0, 1, 0]) && Spells(bits, 8, [0, 0, 1, 0, 0, 0, 1, 1])
    requires Spells(bits, 16, [1, 1, 1, 0, 1, 1, 0, 0])
    ensures ReadBlockHeader(bits, 0) == Ok((1, 2), 3) && ReadCounts(bits, 3) == Ok((9, 4, 14), 17)
  {
    hide LsbBits;
    LsbValue(bits, 0, 1);
    LsbValue(bits, 1, 2);
    LsbValue(bits, 3, 5);
    LsbValue(bits, 8, 5);
    LsbValue(bits, 13, 4);
  }

  /** One more code length of three bits. */
  lemma LengthCodeStep(bits: seq<Digit>, pos: nat, n: nat, lens: seq<nat>, p: nat, x: nat)
    requires n < 19 && ReadCodeLengthCode(bits, pos, n) == Ok(lens, p) && p + 3 <= |bits|
    requires DigitIn(bits, p, 3, 0) + 2 * DigitIn(bits, p, 3, 1) + 4 * DigitIn(bits, p, 3, 2) == x
    ensures ReadCodeLengthCode(bits, pos, n + 1) == Ok(lens[LENGTH_ORDER[n] := x], p + 3)
  {
    LsbValue(bits, p, 3);
    hide LsbBits;
  }

  lemma LengthCodeFirst(bits: seq<Digit>)
    requires |bits| == 192 && Spells(bits, 16, [1, 1, 1, 0, 1, 1, 0, 0]) && Spells(bits, 24, [1, 0, 0, 0, 0, 0, 0, 0])
    requires Spells(bits, 32, [0, 0, 0, 0, 0, 0, 0, 0])
    requires ReadCodeLengthCode(bits, 17, 0) == Ok([0, 0, 0, 0, 0, 0, 0, 0, 0, 0, 0, 0, 0, 0, 0, 0, 0, 0, 0], 17)
    ensures ReadCodeLengthCode(bits, 17, 6) == Ok([0, 0, 0, 0, 0, 0, 0, 0, 0, 0, 0, 0, 0, 0, 0, 0, 3, 3, 2], 35)
  {
    hide ReadCodeLengthCode;
    var lens := [0, 0, 0, 0, 0, 0, 0, 0, 0, 0, 0, 0, 0, 0, 0, 0, 0, 0, 0];
    LengthCodeStep(bits, 17, 0, lens, 17, 3);
    lens := lens[LENGTH_ORDER[0] := 3];
    LengthCodeStep(bits, 17, 1, lens, 20, 3);
    lens := lens[LENGTH_ORDER[1] := 3];
    LengthCodeStep(bits, 17, 2, lens, 23, 2);
    lens := lens[LENGTH_ORDER[2] := 2];
    LengthCodeStep(bits, 17, 3, lens, 26, 0);
    lens := lens[LENGTH_ORDER[3] := 0];
    LengthCodeStep(bits, 17, 4, lens, 29, 0);
    lens := lens[LENGTH_ORDER[4] := 0];
    LengthCodeStep(bits, 17, 5, lens, 32, 0);
    lens := lens[LENGTH_ORDER[5] := 0];
    assert lens == [0, 0, 0, 0, 0, 0, 0, 0, 0, 0, 0, 0, 0, 0, 0, 0, 3, 3, 2];
  }

  lemma LengthCodeMiddle(bits: seq<Digit>)
    requires |bits| == 192 && Spells(bits, 32, [0, 0, 0, 0, 0, 0, 0, 0]) && Spells(bits, 40, [0, 0, 0, 0, 0, 0, 0, 0])
    requires Spells(bits, 48, [0, 0, 0, 0, 0, 0, 0, 0])
    requires ReadCodeLengthCode(bits, 17, 6) == Ok([0, 0, 0, 0, 0, 0, 0, 0, 0, 0, 0, 0, 0, 0, 0, 0, 3, 3, 2], 35)
    ensures ReadCodeLengthCode(bits, 17, 12) == Ok([0, 0, 0, 0, 0, 0, 0, 0, 0, 0, 0, 0, 0, 0, 0, 0, 3, 3, 2], 53)
  {
    hide ReadCodeLengthCode;
    var lens := [0, 0, 0, 0, 0, 0, 0, 0, 0, 0, 0, 0, 0, 0, 0, 0, 3, 3, 2];
    LengthCodeStep(bits, 17, 6, lens, 35, 0);
    lens := lens[LENGTH_ORDER[6] := 0];
    LengthCodeStep(bits, 17, 7, lens, 38, 0);
    lens := lens[LENGTH_ORDER[7] := 0];
    LengthCodeStep(bits, 17, 8, lens, 41, 0);
    lens := lens[LENGTH_ORDER[8] := 0];
    LengthCodeStep(bits, 17, 9, lens, 44, 0);
    lens := lens[LENGTH_ORDER[9] := 0];
    LengthCodeStep(bits, 17, 10, lens, 47, 0);
    lens := lens[LENGTH_ORDER[10] := 0];
    LengthCodeStep(bits, 17, 11, lens, 50, 0);
    lens := lens[LENGTH_ORDER[11] := 0];
    assert lens == [0, 0, 0, 0, 0, 0, 0, 0, 0, 0, 0, 0, 0, 0, 0, 0, 3, 3, 2];
  }

  lemma LengthCodeLast(bits: seq<Digit>)
    requires |bits| == 192 && Spells(bits, 48, [0, 0, 0, 0, 0, 0, 0, 0]) && Spells(bits, 56, [0, 1, 0, 0, 0, 0, 1, 1])
    requires Spells(bits, 64, [0, 0, 0, 0, 1, 1, 0, 0])
    requires ReadCodeLengthCode(bits, 17, 12) == Ok([0, 0, 0, 0, 0, 0, 0, 0, 0, 0, 0, 0, 0, 0, 0, 0, 3, 3, 2], 53)
    ensures ReadCodeLengthCode(bits, 17, 18) == Ok([0, 3, 3, 2, 0, 0, 0, 0, 0, 0, 0, 0, 0, 0, 0, 0, 3, 3, 2], 71)
  {
    hide ReadCodeLengthCode;
    var lens := [0, 0, 0, 0, 0, 0, 0, 0, 0, 0, 0, 0, 0, 0, 0, 0, 3, 3, 2];
    LengthCodeStep(bits, 17, 12, lens, 53, 0);
    lens := lens[LENGTH_ORDER[12] := 0];
    LengthCodeStep(bits, 17, 13, lens, 56, 2);
    lens := lens[LENGTH_ORDER[13] := 2];
    LengthCodeStep(bits, 17, 14, lens, 59, 0);
    lens := lens[LENGTH_ORDER[14] := 0];
    LengthCodeStep(bits, 17, 15, lens, 62, 3);
    lens := lens[LENGTH_ORDER[15] := 3];
    LengthCodeStep(bits, 17, 16, lens, 65, 0);
    lens := lens[LENGTH_ORDER[16] := 0];
    LengthCodeStep(bits, 17, 17, lens, 68, 3);
    lens := lens[LENGTH_ORDER[17] := 3];
    assert lens == [0, 3, 3, 2, 0, 0, 0, 0, 0, 0, 0, 0, 0, 0, 0, 0, 3, 3, 2];
  }

  /** Six groups of symbols, with the code length of each. */
  ghost function SixRuns(x: seq<nat>, n: seq<nat>): seq<nat>
    requires |x| == 6 && |n| == 6
  {
    Repeat(x[0], n[0]) + Repeat(x[1], n[1]) + Repeat(x[2], n[2]) + Repeat(x[3], n[3]) + Repeat(x[4], n[4])
    + Repeat(x[5], n[5])
  }

  /** How many symbols of one group have length l. */
  function Share(x: nat, n: nat, l: nat): nat {
    if x == l then n else 0
  }

  lemma SixRunsCount(x: seq<nat>, n: seq<nat>, l: nat)
    requires |x| == 6 && |n| == 6
    ensures Count(SixRuns(x, n), l) ==
            Share(x[0], n[0], l) + Share(x[1], n[1], l) + Share(x[2], n[2], l) + Share(x[3], n[3], l)
            + Share(x[4], n[4], l) + Share(x[5], n[5], l)
  {
    hide Count, Repeat;
    CountNone(l);
    CountRepeat([], x[0], n[0], l);
    assert [] + Repeat(x[0], n[0]) == Repeat(x[0], n[0]);
    CountRepeat(Repeat(x[0], n[0]), x[1], n[1], l);
    CountRepeat(Repeat(x[0], n[0]) + Repeat(x[1], n[1]), x[2], n[2], l);
    CountRepeat(Repeat(x[0], n[0]) + Repeat(x[1], n[1]) + Repeat(x[2], n[2]), x[3], n[3], l);
    CountRepeat(Repeat(x[0], n[0]) + Repeat(x[1], n[1]) + Repeat(x[2], n[2]) + Repeat(x[3], n[3]), x[4], n[4], l);
    CountRepeat(Repeat(x[0], n[0]) + Repeat(x[1], n[1]) + Repeat(x[2], n[2]) + Repeat(x[3], n[3])
                + Repeat(x[4], n[4]), x[5], n[5], l);
  }

  /** Part of the code space that a group takes. */
  function Space(x: nat, n: nat): nat
    requires x <= MAX_BITS
  {
    if x == 0 then 0 else Shl(n, MAX_BITS - x)
  }

  lemma {:induction false} KraftRun(lens: seq<nat>, x: nat, n: nat)
    requires x <= MAX_BITS
    ensures KraftSum(lens + Repeat(x, n), MAX_BITS) == KraftSum(lens, MAX_BITS) + Space(x, n)
    decreases n
  {
    if x > 0 {
      KraftRepeat(lens, x, n);
    } else if n == 0 {
      assert lens + Repeat(0, 0) == lens;
    } else {
      KraftRun(lens, 0, n - 1);
      var whole := lens + Repeat(0, n);
      assert whole[..|whole| - 1] == lens + Repeat(0, n - 1);
    }
  }

  lemma SixRunsKraft(x: seq<nat>, n: seq<nat>)
    requires |x| == 6 && |n| == 6 && forall i | 0 <= i < 6 :: x[i] <= MAX_BITS
    ensures KraftSum(SixRuns(x, n), MAX_BITS) ==
            Space(x[0], n[0]) + Space(x[1], n[1]) + Space(x[2], n[2]) + Space(x[3], n[3]) + Space(x[4], n[4])
            + Space(x[5], n[5])
  {
    hide KraftSum, Repeat, Space;
    KraftSumNone();
    KraftRun([], x[0], n[0]);
    assert [] + Repeat(x[0], n[0]) == Repeat(x[0], n[0]);
    KraftRun(Repeat(x[0], n[0]), x[1], n[1]);
    KraftRun(Repeat(x[0], n[0]) + Repeat(x[1], n[1]), x[2], n[2]);
    KraftRun(Repeat(x[0], n[0]) + Repeat(x[1], n[1]) + Repeat(x[2], n[2]), x[3], n[3]);
    KraftRun(Repeat(x[0], n[0]) + Repeat(x[1], n[1]) + Repeat(x[2], n[2]) + Repeat(x[3], n[3]), x[4], n[4]);
    KraftRun(Repeat(x[0], n[0]) + Repeat(x[1], n[1]) + Repeat(x[2], n[2]) + Repeat(x[3], n[3])
             + Repeat(x[4], n[4]), x[5], n[5]);
  }

  /** A code that is the group's first one and its place in the group. */
  lemma SixRunsCode(x: seq<nat>, n: seq<nat>, m: seq<nat>, s: nat)
    requires |x| == 6 && |n| == 6 && |m| == 6 && s < |SixRuns(x, n)|
    requires SixRuns(x, n)[..s] == SixRuns(x, m)
    ensures var l := SixRuns(x, n)[s];
            Code(SixRuns(x, n), s) == FirstCode(SixRuns(x, n), l) +
            Share(x[0], m[0], l) + Share(x[1], m[1], l) + Share(x[2], m[2], l) + Share(x[3], m[3], l)
            + Share(x[4], m[4], l) + Share(x[5], m[5], l)
  {
    SixRunsCount(x, m, SixRuns(x, n)[s]);
    hide Count, FirstCode, SixRuns, Share;
  }

  /** The code for code lengths in groups: 0; 1 and 2; 3; 4 to 15; 16 and 17; 18. */
  lemma LengthCodes()
    ensures Kraft(LENGTH_CODE) && CodeLengths(LENGTH_CODE)
    ensures Code(LENGTH_CODE, 3) == 0 && Code(LENGTH_CODE, 18) == 1
    ensures Code(LENGTH_CODE, 1) == 4 && Code(LENGTH_CODE, 2) == 5
    ensures Code(LENGTH_CODE, 16) == 6 && Code(LENGTH_CODE, 17) == 7
  {
    hide KraftSum, Count, FirstCode, Code, Shl;
    var x, n := [0, 3, 2, 0, 3, 2], [1, 2, 1, 12, 2, 1];
    assert LENGTH_CODE == SixRuns(x, n);
    SixRunsKraft(x, n);
    SharesOf();
    ShortFirstCodes(x, n);
    LengthCodePrefixes(x, n);
    SixRunsCode(x, n, [1, 0, 0, 0, 0, 0], 1);
    SixRunsCode(x, n, [1, 1, 0, 0, 0, 0], 2);
    SixRunsCode(x, n, [1, 2, 0, 0, 0, 0], 3);
    SixRunsCode(x, n, [1, 2, 1, 12, 0, 0], 16);
    SixRunsCode(x, n, [1, 2, 1, 12, 1, 0], 17);
    SixRunsCode(x, n, [1, 2, 1, 12, 2, 0], 18);
    hide SixRuns;
  }

  lemma LengthCodePrefixes(x: seq<nat>, n: seq<nat>)
    requires x == [0, 3, 2, 0, 3, 2] && n == [1, 2, 1, 12, 2, 1]
    ensures |SixRuns(x, n)| == 19
    ensures SixRuns(x, n)[..1] == SixRuns(x, [1, 0, 0, 0, 0, 0]) && SixRuns(x, n)[..2] == SixRuns(x, [1, 1, 0, 0, 0, 0])
    ensures SixRuns(x, n)[..3] == SixRuns(x, [1, 2, 0, 0, 0, 0])
    ensures SixRuns(x, n)[..16] == SixRuns(x, [1, 2, 1, 12, 0, 0])
    ensures SixRuns(x, n)[..17] == SixRuns(x, [1, 2, 1, 12, 1, 0])
    ensures SixRuns(x, n)[..18] == SixRuns(x, [1, 2, 1, 12, 2, 0])
  {
  }

  /** Where no code has one bit, those of two bits start at 0, and those of three behind them. */
  lemma ShortFirstCodes(x: seq<nat>, n: seq<nat>)
    requires |x| == 6 && |n| == 6
    ensures var lens := SixRuns(x, n);
            && (Count(lens, 1) == 0 ==> FirstCode(lens, 2) == 0 && FirstCode(lens, 3) == 2 * Count(lens, 2))
            && FirstCode(lens, 1) == 0
            && Count(lens, 1) == Share(x[0], n[0], 1) + Share(x[1], n[1], 1) + Share(x[2], n[2], 1)
                                 + Share(x[3], n[3], 1) + Share(x[4], n[4], 1) + Share(x[5], n[5], 1)
            && Count(lens, 2) == Share(x[0], n[0], 2) + Share(x[1], n[1], 2) + Share(x[2], n[2], 2)
                                 + Share(x[3], n[3], 2) + Share(x[4], n[4], 2) + Share(x[5], n[5], 2)
  {
    SixRunsCount(x, n, 1);
    SixRunsCount(x, n, 2);
    hide Count, SixRuns, FirstCode, Share;
    var lens := SixRuns(x, n);
    FirstCodeNone(lens, 1);
    FirstCodeStep(lens, 2);
    FirstCodeStep(lens, 3);
  }

  lemma SharesOf()
    ensures Shl(1, 12) == 4096 && Shl(2, 12) == 8192 && Shl(4, 12) == 16384 && Shl(1, 13) == 8192
    ensures Shl(2, 13) == 16384 && Shl(1, 14) == 16384 && forall k: nat :: Shl(0, k) == 0
  {
    hide Shl, Pow2;
    forall k: nat ensures Shl(0, k) == 0 {
      ShlIsTimes(0, k);
    }
    ShlIsTimes(1, 12);
    ShlIsTimes(2, 12);
    ShlIsTimes(4, 12);
    ShlIsTimes(1, 13);
    ShlIsTimes(2, 13);
    ShlIsTimes(1, 14);
    SmallPowers();
    Pow2Step(13);
  }

  /** The code for literals and lengths, in groups: up to 'a'; 'a' to 'd'; up to 256; 256; up to 265; 265. */
  ghost function Literals(): seq<nat> {
    SixRuns([0, 3, 0, 2, 0, 2], [97, 4, 155, 1, 8, 1])
  }

  /** The code for distances: symbols 0 and 4 with one bit. */
  const DISTANCES: seq<nat> := [1, 0, 0, 0, 1]

  lemma LiteralCodes()
    ensures |Literals()| == 266 && Kraft(Literals()) && CodeLengths(Literals())
    ensures Literals()[97] == 3 && Code(Literals(), 97) == 4 && Literals()[98] == 3 && Code(Literals(), 98) == 5
    ensures Literals()[99] == 3 && Code(Literals(), 99) == 6 && Literals()[100] == 3 && Code(Literals(), 100) == 7
    ensures Literals()[256] == 2 && Code(Literals(), 256) == 0 && Literals()[265] == 2 && Code(Literals(), 265) == 1
  {
    hide KraftSum, Count, FirstCode, Code, Shl;
    var x, n := [0, 3, 0, 2, 0, 2], [97, 4, 155, 1, 8, 1];
    SixRunsKraft(x, n);
    SharesOf();
    ShortFirstCodes(x, n);
    LiteralPrefixes(x, n);
    SixRunsCode(x, n, [97, 0, 0, 0, 0, 0], 97);
    SixRunsCode(x, n, [97, 1, 0, 0, 0, 0], 98);
    SixRunsCode(x, n, [97, 2, 0, 0, 0, 0], 99);
    SixRunsCode(x, n, [97, 3, 0, 0, 0, 0], 100);
    SixRunsCode(x, n, [97, 4, 155, 0, 0, 0], 256);
    SixRunsCode(x, n, [97, 4, 155, 1, 8, 0], 265);
    hide SixRuns;
  }

  lemma LiteralPrefixes(x: seq<nat>, n: seq<nat>)
    requires x == [0, 3, 0, 2, 0, 2] && n == [97, 4, 155, 1, 8, 1]
    ensures |SixRuns(x, n)| == 266 && CodeLengths(SixRuns(x, n))
    ensures SixRuns(x, n)[97] == 3 && SixRuns(x, n)[98] == 3 && SixRuns(x, n)[99] == 3 && SixRuns(x, n)[100] == 3
    ensures SixRuns(x, n)[256] == 2 && SixRuns(x, n)[265] == 2
    ensures SixRuns(x, n)[..97] == SixRuns(x, [97, 0, 0, 0, 0, 0])
    ensures SixRuns(x, n)[..98] == SixRuns(x, [97, 1, 0, 0, 0, 0])
    ensures SixRuns(x, n)[..99] == SixRuns(x, [97, 2, 0, 0, 0, 0])
    ensures SixRuns(x, n)[..100] == SixRuns(x, [97, 3, 0, 0, 0, 0])
    ensures SixRuns(x, n)[..256] == SixRuns(x, [97, 4, 155, 0, 0, 0])
    ensures SixRuns(x, n)[..265] == SixRuns(x, [97, 4, 155, 1, 8, 0])
  {
  }

  lemma DistanceCodes()
    ensures Kraft(DISTANCES) && CodeLengths(DISTANCES) && Code(DISTANCES, 0) == 0 && Code(DISTANCES, 4) == 1
  {
    hide KraftSum, Count, FirstCode, Code, Shl;
    var x, n := [1, 0, 1, 0, 0, 0], [1, 3, 1, 0, 0, 0];
    assert DISTANCES == SixRuns(x, n);
    SixRunsKraft(x, n);
    SharesOf();
    ShortFirstCodes(x, n);
    assert SixRuns(x, n)[..0] == SixRuns(x, [0, 0, 0, 0, 0, 0]);
    assert SixRuns(x, n)[..4] == SixRuns(x, [1, 3, 0, 0, 0, 0]);
    SixRunsCode(x, n, [0, 0, 0, 0, 0, 0], 0);
    SixRunsCode(x, n, [1, 3, 0, 0, 0, 0], 4);
    hide SixRuns;
  }

  lemma LengthStep(cl: seq<nat>, bits: seq<Digit>, pos: nat, total: nat, acc: seq<nat>, sym: nat, p: nat)
    requires |acc| < total && ReadSymbol(cl, bits, pos) == Ok(sym, p) && sym < 16
    ensures ReadCodeLengths(cl, bits, pos, total, acc) == ReadCodeLengths(cl, bits, p, total, acc + [sym])
  {
    hide ReadSymbol;
  }

  lemma RunStep(cl: seq<nat>, bits: seq<Digit>, pos: nat, total: nat, acc: seq<nat>, sym: nat, p: nat, e: nat, n: nat,
                x: nat, q: nat)
    requires |acc| < total && ReadSymbol(cl, bits, pos) == Ok(sym, p) && 16 <= sym <= 18
    requires ReadBits(bits, p, if sym == 16 then 2 else if sym == 17 then 3 else 7) == Ok(e, q)
    requires n == e + (if sym == 18 then 11 else 3) && |acc| + n <= total
    requires if sym == 16 then acc != [] && acc[|acc| - 1] == x else x == 0
    ensures ReadCodeLengths(cl, bits, pos, total, acc) == ReadCodeLengths(cl, bits, q, total, acc + Repeat(x, n))
  {
    hide ReadSymbol, ReadBits;
  }

  /** 97 unused symbols, and 3 four times. */
  lemma FirstRunsRead(bits: seq<Digit>)
    requires |bits| == 192 && Spells(bits, 64, [0, 0, 0, 0, 1, 1, 0, 0]) && Spells(bits, 72, [1, 0, 1, 1, 0, 1, 0, 1])
    requires Spells(bits, 80, [0, 0, 1, 1, 0, 0, 0, 0])
    ensures ReadSymbol(LENGTH_CODE, bits, 71) == Ok(18, 73) && ReadBits(bits, 73, 7) == Ok(86, 80)
    ensures ReadSymbol(LENGTH_CODE, bits, 80) == Ok(3, 82)
    ensures ReadSymbol(LENGTH_CODE, bits, 82) == Ok(16, 85) && ReadBits(bits, 85, 2) == Ok(0, 87)
  {
    hide MsbBits, LsbBits, Code, ReadSymbol;
    LengthCodes();
    MsbValues(bits, 71);
    SymbolRead(LENGTH_CODE, bits, 71, 18);
    LsbValue(bits, 73, 7);
    MsbValues(bits, 80);
    SymbolRead(LENGTH_CODE, bits, 80, 3);
    MsbValues(bits, 82);
    SymbolRead(LENGTH_CODE, bits, 82, 16);
    LsbValue(bits, 85, 2);
  }

  /** 138 and 17 unused symbols. */
  lemma ZeroRunsRead(bits: seq<Digit>)
    requires |bits| == 192 && Spells(bits, 80, [0, 0, 1, 1, 0, 0, 0, 0]) && Spells(bits, 88, [1, 1, 1, 1, 1, 1, 1, 1])
    requires Spells(bits, 96, [0, 1, 0, 1, 1, 0, 0, 0])
    requires Spells(bits, 104, [0, 1, 0, 1, 1, 1, 1, 1])
    ensures ReadSymbol(LENGTH_CODE, bits, 87) == Ok(18, 89) && ReadBits(bits, 89, 7) == Ok(127, 96)
    ensures ReadSymbol(LENGTH_CODE, bits, 96) == Ok(18, 98) && ReadBits(bits, 98, 7) == Ok(6, 105)
  {
    hide MsbBits, LsbBits, Code, ReadSymbol;
    LengthCodes();
    MsbValues(bits, 87);
    SymbolRead(LENGTH_CODE, bits, 87, 18);
    LsbValue(bits, 89, 7);
    MsbValues(bits, 96);
    SymbolRead(LENGTH_CODE, bits, 96, 18);
    LsbValue(bits, 98, 7);
  }

  /** 2, eight unused symbols, 2. */
  lemma MiddleRead(bits: seq<Digit>)
    requires |bits| == 192 && Spells(bits, 104, [0, 1, 0, 1, 1, 1, 1, 1]) && Spells(bits, 112, [0, 1, 1, 0, 1, 1, 0, 0])
    ensures ReadSymbol(LENGTH_CODE, bits, 105) == Ok(2, 108)
    ensures ReadSymbol(LENGTH_CODE, bits, 108) == Ok(17, 111) && ReadBits(bits, 111, 3) == Ok(5, 114)
    ensures ReadSymbol(LENGTH_CODE, bits, 114) == Ok(2, 117)
  {
    hide MsbBits, LsbBits, Code, ReadSymbol;
    LengthCodes();
    MsbValues(bits, 105);
    SymbolRead(LENGTH_CODE, bits, 105, 2);
    MsbValues(bits, 108);
    SymbolRead(LENGTH_CODE, bits, 108, 17);
    LsbValue(bits, 111, 3);
    MsbValues(bits, 114);
    SymbolRead(LENGTH_CODE, bits, 114, 2);
  }

  /** 1, three unused symbols, 1. */
  lemma DistancesRead(bits: seq<Digit>)
    requires |bits| == 192 && Spells(bits, 112, [0, 1, 1, 0, 1, 1, 0, 0])
    requires Spells(bits, 120, [1, 1, 1, 0, 0, 0, 1, 0]) && Spells(bits, 128, [0, 1, 0, 0, 1, 0, 1, 1])
    ensures ReadSymbol(LENGTH_CODE, bits, 117) == Ok(1, 120)
    ensures ReadSymbol(LENGTH_CODE, bits, 120) == Ok(17, 123) && ReadBits(bits, 123, 3) == Ok(0, 126)
    ensures ReadSymbol(LENGTH_CODE, bits, 126) == Ok(1, 129)
  {
    hide MsbBits, LsbBits, Code, ReadSymbol;
    LengthCodes();
    MsbValues(bits, 117);
    SymbolRead(LENGTH_CODE, bits, 117, 1);
    MsbValues(bits, 120);
    SymbolRead(LENGTH_CODE, bits, 120, 17);
    LsbValue(bits, 123, 3);
    MsbValues(bits, 126);
    SymbolRead(LENGTH_CODE, bits, 126, 1);
  }

  /** The lengths of the first 256 symbols. */
  lemma FirstLengths(bits: seq<Digit>) returns (a: seq<nat>)
    requires |bits| == 192 && Spells(bits, 64, [0, 0, 0, 0, 1, 1, 0, 0]) && Spells(bits, 72, [1, 0, 1, 1, 0, 1, 0, 1])
    requires Spells(bits, 80, [0, 0, 1, 1, 0, 0, 0, 0]) && Spells(bits, 88, [1, 1, 1, 1, 1, 1, 1, 1])
    requires Spells(bits, 96, [0, 1, 0, 1, 1, 0, 0, 0]) && Spells(bits, 104, [0, 1, 0, 1, 1, 1, 1, 1])
    ensures a == [] + Repeat(0, 97) + [3] + Repeat(3, 3) + Repeat(0, 138) + Repeat(0, 17)
    ensures ReadCodeLengths(LENGTH_CODE, bits, 71, 271, []) == ReadCodeLengths(LENGTH_CODE, bits, 105, 271, a)
  {
    hide Spells, ReadSymbol, ReadBits, ReadCodeLengths;
    FirstRunsRead(bits);
    ZeroRunsRead(bits);
    var cl := LENGTH_CODE;
    var a1 := [] + Repeat(0, 97);
    var a2 := a1 + [3] + Repeat(3, 3);
    a := a2 + Repeat(0, 138) + Repeat(0, 17);
    RunStep(cl, bits, 71, 271, [], 18, 73, 86, 97, 0, 80);
    LengthStep(cl, bits, 80, 271, a1, 3, 82);
    RunStep(cl, bits, 82, 271, a1 + [3], 16, 85, 0, 3, 3, 87);
    RunStep(cl, bits, 87, 271, a2, 18, 89, 127, 138, 0, 96);
    RunStep(cl, bits, 96, 271, a2 + Repeat(0, 138), 18, 98, 6, 17, 0, 105);
  }

  /** The lengths of the other symbols and of the distances. */
  lemma LastLengths(bits: seq<Digit>, a: seq<nat>)
    requires |bits| == 192 && Spells(bits, 104, [0, 1, 0, 1, 1, 1, 1, 1])
    requires Spells(bits, 112, [0, 1, 1, 0, 1, 1, 0, 0]) && Spells(bits, 120, [1, 1, 1, 0, 0, 0, 1, 0])
    requires Spells(bits, 128, [0, 1, 0, 0, 1, 0, 1, 1])
    requires |a| == 256
    ensures ReadCodeLengths(LENGTH_CODE, bits, 105, 271, a) ==
            Ok(a + [2] + Repeat(0, 8) + [2] + [1] + Repeat(0, 3) + [1], 129)
  {
    hide Spells, ReadSymbol, ReadBits, ReadCodeLengths;
    MiddleRead(bits);
    DistancesRead(bits);
    var cl := LENGTH_CODE;
    var b := a + [2] + Repeat(0, 8) + [2];
    LengthStep(cl, bits, 105, 271, a, 2, 108);
    RunStep(cl, bits, 108, 271, a + [2], 17, 111, 5, 8, 0, 114);
    LengthStep(cl, bits, 114, 271, a + [2] + Repeat(0, 8), 2, 117);
    LengthStep(cl, bits, 117, 271, b, 1, 120);
    RunStep(cl, bits, 120, 271, b + [1], 17, 123, 0, 3, 0, 126);
    LengthStep(cl, bits, 126, 271, b + [1] + Repeat(0, 3), 1, 129);
    AllLengths(cl, bits, 129, b + [1] + Repeat(0, 3) + [1]);
  }

  /** All code lengths, in the order in which they come. */
  lemma CodeLengthsRead(bits: seq<Digit>)
    requires |bits| == 192 && Spells(bits, 64, [0, 0, 0, 0, 1, 1, 0, 0]) && Spells(bits, 72, [1, 0, 1, 1, 0, 1, 0, 1])
    requires Spells(bits, 80, [0, 0, 1, 1, 0, 0, 0, 0])
    requires Spells(bits, 88, [1, 1, 1, 1, 1, 1, 1, 1]) && Spells(bits, 96, [0, 1, 0, 1, 1, 0, 0, 0])
    requires Spells(bits, 104, [0, 1, 0, 1, 1, 1, 1, 1]) && Spells(bits, 112, [0, 1, 1, 0, 1, 1, 0, 0])
    requires Spells(bits, 120, [1, 1, 1, 0, 0, 0, 1, 0]) && Spells(bits, 128, [0, 1, 0, 0, 1, 0, 1, 1])
    ensures ReadCodeLengths(LENGTH_CODE, bits, 71, 271, []) == Ok(Literals() + DISTANCES, 129)
  {
    hide Spells, ReadCodeLengths, Literals, Repeat;
    var a := FirstLengths(bits);
    LastLengths(bits, a);
    LengthsAre(a + [2] + Repeat(0, 8) + [2] + [1] + Repeat(0, 3) + [1]);
  }

  lemma AllLengths(cl: seq<nat>, bits: seq<Digit>, pos: nat, acc: seq<nat>)
    ensures ReadCodeLengths(cl, bits, pos, |acc|, acc) == Ok(acc, pos)
  {
  }

  lemma LengthsAre(a: seq<nat>)
    requires a == [] + Repeat(0, 97) + [3] + Repeat(3, 3) + Repeat(0, 138) + Repeat(0, 17) + [2] + Repeat(0, 8) + [2]
                  + [1] + Repeat(0, 3) + [1]
    ensures a == Literals() + DISTANCES
  {
  }

  /** abcdab */
  lemma TextRead(bits: seq<Digit>)
    requires |bits| == 192 && Spells(bits, 128, [0, 1, 0, 0, 1, 0, 1, 1])
    requires Spells(bits, 136, [1, 0, 1, 1, 1, 1, 0, 0]) && Spells(bits, 144, [1, 0, 1, 0, 1, 1, 1, 1])
    ensures ReadSymbol(Literals(), bits, 129) == Ok(0x61, 132)
    ensures ReadSymbol(Literals(), bits, 132) == Ok(0x62, 135)
    ensures ReadSymbol(Literals(), bits, 135) == Ok(0x63, 138)
    ensures ReadSymbol(Literals(), bits, 138) == Ok(0x64, 141)
    ensures ReadSymbol(Literals(), bits, 141) == Ok(0x61, 144)
    ensures ReadSymbol(Literals(), bits, 144) == Ok(0x62, 147)
  {
    hide MsbBits, Code, ReadSymbol, Literals;
    LiteralCodes();
    MsbValues(bits, 129);
    SymbolRead(Literals(), bits, 129, 0x61);
    MsbValues(bits, 132);
    SymbolRead(Literals(), bits, 132, 0x62);
    MsbValues(bits, 135);
    SymbolRead(Literals(), bits, 135, 0x63);
    MsbValues(bits, 138);
    SymbolRead(Literals(), bits, 138, 0x64);
    MsbValues(bits, 141);
    SymbolRead(Literals(), bits, 141, 0x61);
    MsbValues(bits, 144);
    SymbolRead(Literals(), bits, 144, 0x62);
  }

  /** Length 12, distance 6, and the end. */
  lemma MatchRead(bits: seq<Digit>)
    requires |bits| == 192 && Spells(bits, 144, [1, 0, 1, 0, 1, 1, 1, 1])
    requires Spells(bits, 152, [0, 0, 0, 0, 0, 0, 0, 0])
    ensures ReadSymbol(Literals(), bits, 147) == Ok(265, 149) && ReadBits(bits, 149, 1) == Ok(1, 150)
    ensures ReadSymbol(DISTANCES, bits, 150) == Ok(4, 151) && ReadBits(bits, 151, 1) == Ok(1, 152)
    ensures ReadSymbol(Literals(), bits, 152) == Ok(256, 154)
  {
    hide MsbBits, LsbBits, Code, ReadSymbol, Literals;
    LiteralCodes();
    DistanceCodes();
    MsbValues(bits, 147);
    SymbolRead(Literals(), bits, 147, 265);
    LsbValue(bits, 149, 1);
    MsbValues(bits, 150);
    SymbolRead(DISTANCES, bits, 150, 4);
    LsbValue(bits, 151, 1);
    MsbValues(bits, 152);
    SymbolRead(Literals(), bits, 152, 256);
  }

  const TEXT: seq<Byte> := [0x61, 0x62, 0x63, 0x64, 0x61, 0x62]

  lemma TextThrice()
    ensures CopyBack(TEXT, 6, 12) == TEXT + TEXT + TEXT
  {
    hide CopyBack;
    var r := CopyBack(TEXT, 6, 12);
    forall i | 6 <= i < 18 ensures r[i] == r[i - 6] {
      CopyPeriodic(TEXT, 6, 12, i);
    }
    assert r[..6] == TEXT;
    assert r[6..12] == TEXT;
    assert r[12..18] == TEXT;
    assert r == r[..6] + r[6..12] + r[12..18];
  }

  lemma MatchData(rules: Rules, bits: seq<Digit>)
    requires |bits| == 192 && Spells(bits, 144, [1, 0, 1, 0, 1, 1, 1, 1])
    requires Spells(bits, 152, [0, 0, 0, 0, 0, 0, 0, 0])
    ensures BlockData(rules, Literals(), DISTANCES, bits, 147, TEXT) == Ok(TEXT + TEXT + TEXT, 154)
  {
    hide ReadSymbol, LsbBits, Literals, CopyBack, Spells, BlockData;
    MatchRead(bits);
    TextThrice();
    assert ReadLength(rules, 265, bits, 149) == Ok(12, 150);
    assert ReadDistance(rules, DISTANCES, bits, 150) == Ok(6, 152);
    hide ReadLength, ReadDistance, ReadBits;
    MatchStep(rules, Literals(), DISTANCES, bits, 147, TEXT, 265, 149, 12, 150, 6, 152);
    EndStep(rules, Literals(), DISTANCES, bits, 152, CopyBack(TEXT, 6, 12), 154);
  }

  lemma TextData(rules: Rules, bits: seq<Digit>)
    requires |bits| == 192 && Spells(bits, 128, [0, 1, 0, 0, 1, 0, 1, 1])
    requires Spells(bits, 136, [1, 0, 1, 1, 1, 1, 0, 0]) && Spells(bits, 144, [1, 0, 1, 0, 1, 1, 1, 1])
    requires Spells(bits, 152, [0, 0, 0, 0, 0, 0, 0, 0])
    ensures BlockData(rules, Literals(), DISTANCES, bits, 129, []) == Ok(TEXT + TEXT + TEXT, 154)
  {
    hide ReadSymbol, Literals, Spells, BlockData;
    TextRead(bits);
    MatchData(rules, bits);
    var ll, dl := Literals(), DISTANCES;
    var t1: seq<Byte>, t2: seq<Byte>, t3: seq<Byte> := [0x61], [0x61, 0x62], [0x61, 0x62, 0x63];
    var t4: seq<Byte>, t5: seq<Byte> := [0x61, 0x62, 0x63, 0x64], [0x61, 0x62, 0x63, 0x64, 0x61];
    LiteralStep(rules, ll, dl, bits, 129, [], 0x61, 132);
    LiteralStep(rules, ll, dl, bits, 132, t1, 0x62, 135);
    LiteralStep(rules, ll, dl, bits, 135, t2, 0x63, 138);
    LiteralStep(rules, ll, dl, bits, 138, t3, 0x64, 141);
    LiteralStep(rules, ll, dl, bits, 141, t4, 0x61, 144);
    LiteralStep(rules, ll, dl, bits, 144, t5, 0x62, 147);
    assert [] + [0x61] == t1 && t1 + [0x62] == t2 && t2 + [0x63] == t3 && t3 + [0x64] == t4 && t4 + [0x61] == t5;
    assert t5 + [0x62] == TEXT;
  }

  lemma LengthCodeRead(bits: seq<Digit>)
    requires |bits| == 192 && Spells(bits, 16, [1, 1, 1, 0, 1, 1, 0, 0]) && Spells(bits, 24, [1, 0, 0, 0, 0, 0, 0, 0])
    requires Spells(bits, 32, [0, 0, 0, 0, 0, 0, 0, 0]) && Spells(bits, 40, [0, 0, 0, 0, 0, 0, 0, 0])
    requires Spells(bits, 48, [0, 0, 0, 0, 0, 0, 0, 0]) && Spells(bits, 56, [0, 1, 0, 0, 0, 0, 1, 1])
    requires Spells(bits, 64, [0, 0, 0, 0, 1, 1, 0, 0])
    ensures ReadCodeLengthCode(bits, 17, 18) == Ok(LENGTH_CODE, 71)
  {
    hide Spells;
    assert seq(19, _ => 0) == [0, 0, 0, 0, 0, 0, 0, 0, 0, 0, 0, 0, 0, 0, 0, 0, 0, 0, 0];
    assert ReadCodeLengthCode(bits, 17, 0) == Ok([0, 0, 0, 0, 0, 0, 0, 0, 0, 0, 0, 0, 0, 0, 0, 0, 0, 0, 0], 17);
    hide ReadCodeLengthCode;
    LengthCodeFirst(bits);
    LengthCodeMiddle(bits);
    LengthCodeLast(bits);
  }

  lemma DynamicRead(rules: Rules, bits: seq<Digit>)
    requires |bits| == 192 && Spells(bits, 0, [1, 0, 1, 1, 0, 0, 1, 0]) && Spells(bits, 8, [0, 0, 1, 0, 0, 0, 1, 1])
    requires Spells(bits, 16, [1, 1, 1, 0, 1, 1, 0, 0]) && Spells(bits, 24, [1, 0, 0, 0, 0, 0, 0, 0])
    requires Spells(bits, 32, [0, 0, 0, 0, 0, 0, 0, 0]) && Spells(bits, 40, [0, 0, 0, 0, 0, 0, 0, 0])
    requires Spells(bits, 48, [0, 0, 0, 0, 0, 0, 0, 0]) && Spells(bits, 56, [0, 1, 0, 0, 0, 0, 1, 1])
    requires Spells(bits, 64, [0, 0, 0, 0, 1, 1, 0, 0]) && Spells(bits, 72, [1, 0, 1, 1, 0, 1, 0, 1])
    requires Spells(bits, 80, [0, 0, 1, 1, 0, 0, 0, 0]) && Spells(bits, 88, [1, 1, 1, 1, 1, 1, 1, 1])
    requires Spells(bits, 96, [0, 1, 0, 1, 1, 0, 0, 0]) && Spells(bits, 104, [0, 1, 0, 1, 1, 1, 1, 1])
    requires Spells(bits, 112, [0, 1, 1, 0, 1, 1, 0, 0]) && Spells(bits, 120, [1, 1, 1, 0, 0, 0, 1, 0])
    requires Spells(bits, 128, [0, 1, 0, 0, 1, 0, 1, 1]) && Spells(bits, 136, [1, 0, 1, 1, 1, 1, 0, 0])
    requires Spells(bits, 144, [1, 0, 1, 0, 1, 1, 1, 1]) && Spells(bits, 152, [0, 0, 0, 0, 0, 0, 0, 0])
    ensures Stream(rules, bits, 0, []) == Ok(TEXT + TEXT + TEXT, 154)
  {
    hide Spells, ReadCodeLengthCode, ReadCodeLengths, BlockData, Literals, Kraft, CodeLengths;
    hide ReadCounts, ReadBlockHeader;
    CountsRead(bits);
    LengthCodeRead(bits);
    LengthCodes();
    assert ReadHeader(bits, 3) == Ok(Header(266, 5, LENGTH_CODE), 71);
    hide ReadHeader;
    CodeLengthsRead(bits);
    LiteralCodes();
    DistanceCodes();
    assert (Literals() + DISTANCES)[..266] == Literals() && (Literals() + DISTANCES)[266..] == DISTANCES;
    assert ReadCodes(bits, 3) == Ok((Literals(), DISTANCES), 129);
    hide ReadCodes;
    TextData(rules, bits);
  }

  lemma DynamicBytes0()
    ensures var bits := StreamBits(DYNAMIC);
            && Spells(bits, 0, [1, 0, 1, 1, 0, 0, 1, 0])
            && Spells(bits, 8, [0, 0, 1, 0, 0, 0, 1, 1])
            && Spells(bits, 16, [1, 1, 1, 0, 1, 1, 0, 0])
            && Spells(bits, 24, [1, 0, 0, 0, 0, 0, 0, 0])
            && Spells(bits, 32, [0, 0, 0, 0, 0, 0, 0, 0])
  {
    hide StreamBits, Spells;
    ByteSpelled(DYNAMIC, 0, 0x4D, [1, 0, 1, 1, 0, 0, 1, 0]);
    ByteSpelled(DYNAMIC, 1, 0xC4, [0, 0, 1, 0, 0, 0, 1, 1]);
    ByteSpelled(DYNAMIC, 2, 0x37, [1, 1, 1, 0, 1, 1, 0, 0]);
    ByteSpelled(DYNAMIC, 3, 0x01, [1, 0, 0, 0, 0, 0, 0, 0]);
    ByteSpelled(DYNAMIC, 4, 0x00, [0, 0, 0, 0, 0, 0, 0, 0]);
  }

  lemma DynamicBytes5()
    ensures var bits := StreamBits(DYNAMIC);
            && Spells(bits, 40, [0, 0, 0, 0, 0, 0, 0, 0])
            && Spells(bits, 48, [0, 0, 0, 0, 0, 0, 0, 0])
            && Spells(bits, 56, [0, 1, 0, 0, 0, 0, 1, 1])
            && Spells(bits, 64, [0, 0, 0, 0, 1, 1, 0, 0])
            && Spells(bits, 72, [1, 0, 1, 1, 0, 1, 0, 1])
  {
    hide StreamBits, Spells;
    ByteSpelled(DYNAMIC, 5, 0x00, [0, 0, 0, 0, 0, 0, 0, 0]);
    ByteSpelled(DYNAMIC, 6, 0x00, [0, 0, 0, 0, 0, 0, 0, 0]);
    ByteSpelled(DYNAMIC, 7, 0xC2, [0, 1, 0, 0, 0, 0, 1, 1]);
    ByteSpelled(DYNAMIC, 8, 0x30, [0, 0, 0, 0, 1, 1, 0, 0]);
    ByteSpelled(DYNAMIC, 9, 0xAD, [1, 0, 1, 1, 0, 1, 0, 1]);
  }

  lemma DynamicBytes10()
    ensures var bits := StreamBits(DYNAMIC);
            && Spells(bits, 80, [0, 0, 1, 1, 0, 0, 0, 0])
            && Spells(bits, 88, [1, 1, 1, 1, 1, 1, 1, 1])
            && Spells(bits, 96, [0, 1, 0, 1, 1, 0, 0, 0])
            && Spells(bits, 104, [0, 1, 0, 1, 1, 1, 1, 1])
            && Spells(bits, 112, [0, 1, 1, 0, 1, 1, 0, 0])
  {
    hide StreamBits, Spells;
    ByteSpelled(DYNAMIC, 10, 0x0C, [0, 0, 1, 1, 0, 0, 0, 0]);
    ByteSpelled(DYNAMIC, 11, 0xFF, [1, 1, 1, 1, 1, 1, 1, 1]);
    ByteSpelled(DYNAMIC, 12, 0x1A, [0, 1, 0, 1, 1, 0, 0, 0]);
    ByteSpelled(DYNAMIC, 13, 0xFA, [0, 1, 0, 1, 1, 1, 1, 1]);
    ByteSpelled(DYNAMIC, 14, 0x36, [0, 1, 1, 0, 1, 1, 0, 0]);
  }

  lemma DynamicBytes15()
    ensures var bits := StreamBits(DYNAMIC);
            && Spells(bits, 120, [1, 1, 1, 0, 0, 0, 1, 0])
            && Spells(bits, 128, [0, 1, 0, 0, 1, 0, 1, 1])
            && Spells(bits, 136, [1, 0, 1, 1, 1, 1, 0, 0])
            && Spells(bits, 144, [1, 0, 1, 0, 1, 1, 1, 1])
            && Spells(bits, 152, [0, 0, 0, 0, 0, 0, 0, 0])
  {
    hide StreamBits, Spells;
    ByteSpelled(DYNAMIC, 15, 0x47, [1, 1, 1, 0, 0, 0, 1, 0]);
    ByteSpelled(DYNAMIC, 16, 0xD2, [0, 1, 0, 0, 1, 0, 1, 1]);
    ByteSpelled(DYNAMIC, 17, 0x3D, [1, 0, 1, 1, 1, 1, 0, 0]);
    ByteSpelled(DYNAMIC, 18, 0xF5, [1, 0, 1, 0, 1, 1, 1, 1]);
    ByteSpelled(DYNAMIC, 19, 0x00, [0, 0, 0, 0, 0, 0, 0, 0]);
  }

  lemma Dynamic(rules: Rules)
    ensures Inflated(rules, DYNAMIC) == Ok(TEXT + TEXT + TEXT, 154)
  {
    hide Spells, StreamBits, Stream;
    DynamicBytes0();
    DynamicBytes5();
    DynamicBytes10();
    DynamicBytes15();
    DynamicRead(rules, StreamBits(DYNAMIC));
  }

  method DecodeDynamic(buffer: array<Byte>) returns (st: Status, n: nat)
    requires 18 <= buffer.Length
    modifies buffer
    ensures st.Done? && n == 18 && buffer[..6] == [0x61, 0x62, 0x63, 0x64, 0x61, 0x62]
    ensures forall i | 6 <= i < 18 :: buffer[i] == buffer[i - 6]
  {
    hide Inflated;
    Dynamic(Lenient(buffer[..]));
    st, n := DecodePadded(DYNAMIC, buffer);
    var out := TEXT + TEXT + TEXT;
    assert buffer[..6] == out[..6];
    assert forall i | 0 <= i < 18 :: buffer[i] == out[i];
  }
}
