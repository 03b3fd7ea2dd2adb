/** The 16-bit reversal of ssfn.h, four mask-and-shift stages, against `Reverse`. */
module BitReverse {
  import opened Bits
  import opened HuffmanSpec

  /** One stage: exchange neighbouring groups of d digits. */
  function Stage(n: nat, hi: nat, lo: nat, d: nat): nat {
    Or(Shr(And(n, hi), d), Shl(And(n, lo), d))
  }

  function BitReverse16(n: nat): nat {
    var n1 := Stage(n, 0xAAAA, 0x5555, 1);
    var n2 := Stage(n1, 0xCCCC, 0x3333, 2);
    var n3 := Stage(n2, 0xF0F0, 0x0F0F, 4);
    Stage(n3, 0xFF00, 0x00FF, 8)
  }

  function BitReverseN(v: nat, bits: nat): nat
    requires bits <= 16
  {
    Shr(BitReverse16(v), 16 - bits)
  }

  /** Parity of the group of d digits that digit k belongs to. */
  ghost function Group(k: nat, d: nat): (g: nat)
    requires d > 0
    ensures g < 2
  {
    k / d % 2
  }

  /** Digit k of a stage comes from the neighbouring group. */
  ghost function Partner(k: nat, d: nat): int
    requires d > 0
  {
    if Group(k, d) == 0 then k + d else k - d
  }

  /** The digits of mask m are set in the groups of parity g. */
  ghost predicate Digits(m: nat, d: nat, g: nat)
    requires d > 0
  {
    forall i: nat | i < 16 :: Bit(m, i) == if Group(i, d) == g then 1 else 0
  }

  ghost predicate StageMasks(hi: nat, lo: nat, d: nat) {
    && hi < 0x1_0000 && lo < 0x1_0000
    && (d == 1 || d == 2 || d == 4 || d == 8)
    && Digits(hi, d, 1) && Digits(lo, d, 0)
  }

  /** m >> i for a 16-bit word, shift by shift. */
  function ShiftTable(m: nat, i: nat): nat
    requires i < 16
  {
    if i == 0 then m
    else if i == 1 then m / 2
    else if i == 2 then m / 4
    else if i == 3 then m / 8
    else if i == 4 then m / 16
    else if i == 5 then m / 32
    else if i == 6 then m / 64
    else if i == 7 then m / 128
    else if i == 8 then m / 256
    else if i == 9 then m / 512
    else if i == 10 then m / 1024
    else if i == 11 then m / 2048
    else if i == 12 then m / 4096
    else if i == 13 then m / 8192
    else if i == 14 then m / 16384
    else m / 32768
  }

  lemma ShrTable(m: nat, i: nat)
    requires i < 16
    ensures Shr(m, i) == ShiftTable(m, i)
  {
    hide Shr, Pow2;
    ShrIsDiv(m, i);
    Pow2Values();
    if
    case i == 0 => assert Pow2(i) == 1;
    case i == 1 => assert Pow2(i) == 2;
    case i == 2 => assert Pow2(i) == 4;
    case i == 3 => assert Pow2(i) == 8;
    case i == 4 => assert Pow2(i) == 16;
    case i == 5 => assert Pow2(i) == 32;
    case i == 6 => assert Pow2(i) == 64;
    case i == 7 => assert Pow2(i) == 128;
    case i == 8 => assert Pow2(i) == 256;
    case i == 9 => assert Pow2(i) == 512;
    case i == 10 => assert Pow2(i) == 1024;
    case i == 11 => assert Pow2(i) == 2048;
    case i == 12 => assert Pow2(i) == 4096;
    case i == 13 => assert Pow2(i) == 8192;
    case i == 14 => assert Pow2(i) == 16384;
    case i == 15 => assert Pow2(i) == 32768;
  }

  /** The low mask of a stage is the high mask shifted, so its digits are the complement. */
  lemma LowMaskDigits(hi: nat, lo: nat, d: nat)
    requires hi < 0x1_0000 && (d == 1 || d == 2 || d == 4 || d == 8) && Digits(hi, d, 1) && lo == Shr(hi, d)
    ensures Digits(lo, d, 0)
  {
    forall i: nat | i < 16 ensures Bit(lo, i) == if Group(i, d) == 0 then 1 else 0 {
      hide Shr, Group, Bit;
      BitShr(hi, d, i);
      PartnerGroups(i, d);
      if i + d >= 16 {
        assert Pow2(16) == 0x1_0000 by { Pow2Values(); }
        HighBitZero(hi, 16, d + i);
      } else {
        assert Bit(hi, i + d) == if Group(i + d, d) == 1 then 1 else 0;
      }
    }
  }

  lemma DigitsAAAA()
    ensures Digits(0xAAAA, 1, 1)
  {
    hide Shr;
    forall i: nat | i < 16 ensures Bit(0xAAAA, i) == if Group(i, 1) == 1 then 1 else 0 {
      ShrTable(0xAAAA, i);
      if
      case i == 0 => case i == 1 => case i == 2 => case i == 3 =>
      case i == 4 => case i == 5 => case i == 6 => case i == 7 =>
      case i == 8 => case i == 9 => case i == 10 => case i == 11 =>
      case i == 12 => case i == 13 => case i == 14 => case i == 15 =>
    }
  }

  lemma StageMasks1()
    ensures StageMasks(0xAAAA, 0x5555, 1)
  {
    hide Shr;
    DigitsAAAA();
    ShrTable(0xAAAA, 1);
    LowMaskDigits(0xAAAA, 0x5555, 1);
  }

  lemma DigitsCCCC()
    ensures Digits(0xCCCC, 2, 1)
  {
    hide Shr;
    forall i: nat | i < 16 ensures Bit(0xCCCC, i) == if Group(i, 2) == 1 then 1 else 0 {
      ShrTable(0xCCCC, i);
      if
      case i == 0 => case i == 1 => case i == 2 => case i == 3 =>
      case i == 4 => case i == 5 => case i == 6 => case i == 7 =>
      case i == 8 => case i == 9 => case i == 10 => case i == 11 =>
      case i == 12 => case i == 13 => case i == 14 => case i == 15 =>
    }
  }

  lemma StageMasks2()
    ensures StageMasks(0xCCCC, 0x3333, 2)
  {
    hide Shr;
    DigitsCCCC();
    ShrTable(0xCCCC, 2);
    LowMaskDigits(0xCCCC, 0x3333, 2);
  }

  lemma DigitsF0F0()
    ensures Digits(0xF0F0, 4, 1)
  {
    hide Shr;
    forall i: nat | i < 16 ensures Bit(0xF0F0, i) == if Group(i, 4) == 1 then 1 else 0 {
      ShrTable(0xF0F0, i);
      if
      case i == 0 => case i == 1 => case i == 2 => case i == 3 =>
      case i == 4 => case i == 5 => case i == 6 => case i == 7 =>
      case i == 8 => case i == 9 => case i == 10 => case i == 11 =>
      case i == 12 => case i == 13 => case i == 14 => case i == 15 =>
    }
  }

  lemma StageMasks4()
    ensures StageMasks(0xF0F0, 0x0F0F, 4)
  {
    hide Shr;
    DigitsF0F0();
    ShrTable(0xF0F0, 4);
    LowMaskDigits(0xF0F0, 0x0F0F, 4);
  }

  lemma DigitsFF00()
    ensures Digits(0xFF00, 8, 1)
  {
    hide Shr;
    forall i: nat | i < 16 ensures Bit(0xFF00, i) == if Group(i, 8) == 1 then 1 else 0 {
      ShrTable(0xFF00, i);
      if
      case i == 0 => case i == 1 => case i == 2 => case i == 3 =>
      case i == 4 => case i == 5 => case i == 6 => case i == 7 =>
      case i == 8 => case i == 9 => case i == 10 => case i == 11 =>
      case i == 12 => case i == 13 => case i == 14 => case i == 15 =>
    }
  }

  lemma StageMasks8()
    ensures StageMasks(0xFF00, 0x00FF, 8)
  {
    hide Shr;
    DigitsFF00();
    ShrTable(0xFF00, 8);
    LowMaskDigits(0xFF00, 0x00FF, 8);
  }

  lemma HighPart(n: nat, hi: nat, lo: nat, d: nat, k: nat)
    requires StageMasks(hi, lo, d) && k < 16
    ensures Bit(Shr(And(n, hi), d), k) == if Group(k, d) == 0 then Bit(n, k + d) else 0
  {
    hide Shr, Group, Bit, And;
    BitShr(And(n, hi), d, k);
    AndBit(n, hi, k + d);
    PartnerGroups(k, d);
    if k >= 16 - d {
      assert Pow2(16) == 0x1_0000 by { Pow2Values(); }
      HighBitZero(hi, 16, k + d);
    } else {
      assert Bit(hi, k + d) == if Group(k + d, d) == 1 then 1 else 0;
    }
  }

  lemma LowPart(n: nat, hi: nat, lo: nat, d: nat, k: nat)
    requires StageMasks(hi, lo, d) && k < 16
    ensures Group(k, d) == 1 ==> k >= d
    ensures Bit(Shl(And(n, lo), d), k) == if Group(k, d) == 1 then Bit(n, k - d) else 0
  {
    hide Shl, Group, Bit, And;
    BitShl(And(n, lo), d, k);
    PartnerGroups(k, d);
    if k >= d {
      AndBit(n, lo, k - d);
      assert Bit(lo, k - d) == if Group(k - d, d) == 0 then 1 else 0;
    }
  }

  lemma StageDigit(n: nat, hi: nat, lo: nat, d: nat, k: nat)
    requires StageMasks(hi, lo, d) && k < 16
    ensures 0 <= Partner(k, d) < 16 && Bit(Stage(n, hi, lo, d), k) == Bit(n, Partner(k, d))
  {
    hide Shl, Shr, Group, Bit, And, Or;
    OrBit(Shr(And(n, hi), d), Shl(And(n, lo), d), k);
    HighPart(n, hi, lo, d, k);
    LowPart(n, hi, lo, d, k);
    PartnerGroups(k, d);
  }

  lemma GroupNext(k: nat, d: nat)
    requires d > 0
    ensures Group(k + d, d) == 1 - Group(k, d)
  {
    DivUnique(k + d, d, k / d + 1, k % d);
  }

  lemma PartnerGroups(k: nat, d: nat)
    requires k < 16 && (d == 1 || d == 2 || d == 4 || d == 8)
    ensures 0 <= Partner(k, d) < 16
    ensures Group(k + d, d) == 1 - Group(k, d)
    ensures k >= d ==> Group(k - d, d) == 1 - Group(k, d)
    ensures k < d ==> Group(k, d) == 0
    ensures k >= 16 - d ==> Group(k, d) == 1
  {
    assert k < d ==> Group(k, d) == 0;
    assert k >= 16 - d ==> Group(k, d) == 1 by {
      if
      case d == 1 => assert Group(k, 1) == k % 2;
      case d == 2 => assert Group(k, 2) == k / 2 % 2;
      case d == 4 => assert Group(k, 4) == k / 4 % 2;
      case d == 8 => assert Group(k, 8) == k / 8 % 2;
    }
    hide Group;
    GroupNext(k, d);
    if k >= d {
      GroupNext(k - d, d);
    }
  }

  lemma BitReverse16Digit(n: nat, k: nat)
    requires k < 16
    ensures Bit(BitReverse16(n), k) == Bit(n, 15 - k)
  {
    hide Stage, Group, Bit, Digits;
    var n1 := Stage(n, 0xAAAA, 0x5555, 1);
    var n2 := Stage(n1, 0xCCCC, 0x3333, 2);
    var n3 := Stage(n2, 0xF0F0, 0x0F0F, 4);
    StageMasks8();
    StageDigit(n3, 0xFF00, 0x00FF, 8, k);
    var k3 := Partner(k, 8);
    StageMasks4();
    StageDigit(n2, 0xF0F0, 0x0F0F, 4, k3);
    var k2 := Partner(k3, 4);
    StageMasks2();
    StageDigit(n1, 0xCCCC, 0x3333, 2, k2);
    var k1 := Partner(k2, 2);
    StageMasks1();
    StageDigit(n, 0xAAAA, 0x5555, 1, k1);
    PartnersFlip(k);
  }

  /** ssfn.h reverses exactly the low 16 digits, whatever lies above them. */
  lemma BitReverse16Correct(n: nat)
    ensures BitReverse16(n) == Reverse(n, 16)
  {
    var r := BitReverse16(n);
    forall k: nat | k < 16 ensures Bit(r, k) == Bit(Reverse(n, 16), k) {
      BitReverse16Digit(n, k);
      ReverseBit(n, 16, k);
    }
    EqualBits(r, Reverse(n, 16), 16);
    ReverseBound(n, 16);
    LowSmall(Reverse(n, 16), 16);
    LastStageBound(Stage(Stage(Stage(n, 0xAAAA, 0x5555, 1), 0xCCCC, 0x3333, 2), 0xF0F0, 0x0F0F, 4));
    LowSmall(r, 16);
  }

  /** Exchanging groups of 8, 4, 2 and 1 sends digit k to digit 15 - k. */
  lemma PartnersFlip(k: nat)
    requires k < 16
    ensures Partner(k, 8) >= 0 && Partner(Partner(k, 8), 4) >= 0
    ensures Partner(Partner(Partner(k, 8), 4), 2) >= 0
    ensures Partner(Partner(Partner(Partner(k, 8), 4), 2), 1) == 15 - k
  {
  }

  lemma LastStageBound(n: nat)
    ensures Stage(n, 0xFF00, 0x00FF, 8) < Pow2(16)
  {
    Pow2Values();
    ShlBound(And(n, 0x00FF), 8, 8);
    ShrBound(And(n, 0xFF00), 8);
    OrBound(Shr(And(n, 0xFF00), 8), Shl(And(n, 0x00FF), 8), 16);
  }

  lemma BitReverseNCorrect(v: nat, bits: nat)
    requires bits <= 16
    ensures BitReverseN(v, bits) == Reverse(v, bits)
  {
    BitReverse16Correct(v);
    ReverseShift(v, bits, 16);
  }
}
