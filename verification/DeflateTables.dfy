/** The tables of sections 3.2.5 to 3.2.7 of RFC 1951 as laws. */
module DeflateTables {
  import opened Bits
  import opened HuffmanSpec
  import opened Deflate
  import opened StreamReading

  // ----- Lengths and distances ---------------------------------------------------------------

  /** Extra bits grow by one every four length symbols; the last symbol has none. */
  lemma LengthExtraBits(k: nat)
    requires k < 29
    ensures LENGTH_EXTRA[k] == if k < 8 || k == 28 then 0 else k / 4 - 1
  {
  }

  /** Lengths 3 to 257 follow each other without a gap, symbol after symbol; 258 has a symbol of its own. */
  lemma LengthsFollow(k: nat)
    requires k < 27
    ensures LENGTH_BASE[0] == 3 && LENGTH_BASE[28] == 258
    ensures LENGTH_BASE[k + 1] == LENGTH_BASE[k] + Pow2(LENGTH_EXTRA[k])
  {
    SmallPowers();
    hide Pow2;
  }

  /** Extra bits grow by one every two distance symbols. */
  lemma DistanceExtraBits(k: nat)
    requires k < 30
    ensures DIST_EXTRA[k] == if k < 2 then 0 else k / 2 - 1
  {
  }

  /** Distances from 1 on follow each other without a gap, symbol after symbol. */
  lemma DistancesFollow(k: nat)
    requires k < 29
    ensures DIST_BASE[0] == 1 && DIST_BASE[k + 1] == DIST_BASE[k] + Pow2(DIST_EXTRA[k])
  {
    SmallPowers();
    hide Pow2;
  }

  lemma SmallPowers()
    ensures Pow2(0) == 1 && Pow2(1) == 2 && Pow2(2) == 4 && Pow2(3) == 8 && Pow2(4) == 16 && Pow2(5) == 32
    ensures Pow2(6) == 64 && Pow2(7) == 128 && Pow2(8) == 256 && Pow2(9) == 512 && Pow2(10) == 1024
    ensures Pow2(11) == 2048 && Pow2(12) == 4096 && Pow2(13) == 8192
  {
  }

  /** Code length code lengths are sent outwards from length 8, behind the repeat symbols and 0. */
  lemma LengthOrder(i: nat)
    requires i < 19
    ensures LENGTH_ORDER[i] == if i < 3 then 16 + i else if i == 3 then 0
                               else if i % 2 == 0 then 6 + i / 2 else 9 - (i - 1) / 2
  {
  }

  // ----- The fixed codes ----------------------------------------------------------------------

  /** How often length l occurs among the first symbols of the fixed literal and length code. */
  lemma FixedCount(a: nat, b: nat, c: nat, d: nat, l: nat)
    ensures Count(Repeat(8, a) + Repeat(9, b) + Repeat(7, c) + Repeat(8, d), l) ==
            (if l == 8 then a + d else 0) + (if l == 9 then b else 0) + (if l == 7 then c else 0)
  {
    hide Count;
    CountRepeat([], 8, a, l);
    assert [] + Repeat(8, a) == Repeat(8, a);
    CountNone(l);
    CountRepeat(Repeat(8, a), 9, b, l);
    CountRepeat(Repeat(8, a) + Repeat(9, b), 7, c, l);
    CountRepeat(Repeat(8, a) + Repeat(9, b) + Repeat(7, c), 8, d, l);
  }

  /** The table of section 3.2.6: length and code of every symbol. */
  lemma FixedCode(s: nat)
    requires s < 288
    ensures FixedLengths()[s] == if s < 144 then 8 else if s < 256 then 9 else if s < 280 then 7 else 8
    ensures Code(FixedLengths(), s) ==
            if s < 144 then 0x30 + s else if s < 256 then 0x190 + (s - 144) else if s < 280 then s - 256
            else 0xC0 + (s - 280)
  {
    hide Count, FirstCode;
    var lens := FixedLengths();
    FixedFirstCodes();
    var a := if s < 144 then s else 144;
    var b := if s < 144 then 0 else if s < 256 then s - 144 else 112;
    var c := if s < 256 then 0 else if s < 280 then s - 256 else 24;
    var d := if s < 280 then 0 else s - 280;
    FixedCount(a, b, c, d, lens[s]);
    assert lens[..s] == Repeat(8, a) + Repeat(9, b) + Repeat(7, c) + Repeat(8, d);
  }

  lemma FixedFirstCodes()
    ensures FirstCode(FixedLengths(), 7) == 0 && FirstCode(FixedLengths(), 8) == 0x30
    ensures FirstCode(FixedLengths(), 9) == 0x190
  {
    hide Count, FirstCode;
    var lens := FixedLengths();
    forall l: nat ensures Count(lens, l) ==
                          (if l == 8 then 152 else 0) + (if l == 9 then 112 else 0) + (if l == 7 then 24 else 0) {
      FixedCount(144, 112, 24, 8, l);
    }
    FirstCodeNone(lens, 7);
    FirstCodeStep(lens, 8);
    FirstCodeStep(lens, 9);
  }

  /** Distance symbols are their own codes of five bits. */
  lemma FixedDistanceCode(s: nat)
    requires s < 32
    ensures FixedDistances()[s] == 5 && Code(FixedDistances(), s) == s
  {
    hide Count, FirstCode;
    var lens := FixedDistances();
    assert [] + Repeat(5, 32) == lens && [] + Repeat(5, s) == lens[..s];
    CountNone(5);
    CountRepeat([], 5, s, 5);
    forall l: nat | l < 5 ensures Count(lens, l) == 0 {
      CountNone(l);
      CountRepeat([], 5, 32, l);
    }
    FirstCodeNone(lens, 5);
  }

  // ----- Copies ----------------------------------------------------------------------------------

  /** Every byte that a copy appends is the one dist before it. */
  lemma {:induction false} CopyPeriodic(out: seq<Byte>, dist: nat, len: nat, i: nat)
    requires 0 < dist <= |out| <= i < |out| + len
    ensures CopyBack(out, dist, len)[i] == CopyBack(out, dist, len)[i - dist]
    decreases len
  {
    if i < |out| + len - 1 {
      CopyPeriodic(out, dist, len - 1, i);
    }
  }
}
