/**
 Canonical Huffman codes as section 3.2.2 of RFC 1951 defines them, and the
 bit order of section 3.1.1: data elements are packed least significant bit
 first, Huffman codes most significant bit first.
 */
module HuffmanSpec {
  import opened Bits

  const MAX_BITS: nat := 15

  /** The code lengths of an alphabet: lens[s] is the length of symbol s, 0 when unused. */
  ghost predicate CodeLengths(lens: seq<nat>) {
    forall i | 0 <= i < |lens| :: lens[i] <= MAX_BITS
  }

  // ----- Counting -------------------------------------------------------------

  /** How many symbols have length l. */
  function Count(lens: seq<nat>, l: nat): (n: nat)
    ensures n <= |lens|
  {
    if lens == [] then 0
    else Count(lens[..|lens| - 1], l) + (if lens[|lens| - 1] == l then 1 else 0)
  }

  /** bl_count with bl_count[0] = 0. */
  function Used(lens: seq<nat>, l: nat): nat {
    if l == 0 then 0 else Count(lens, l)
  }

  /** Position of symbol i among the symbols of its own length. */
  function Rank(lens: seq<nat>, i: nat): nat
    requires i < |lens|
  {
    Count(lens[..i], lens[i])
  }

  lemma CountStep(lens: seq<nat>, i: nat, l: nat)
    requires i < |lens|
    ensures Count(lens[..i + 1], l) == Count(lens[..i], l) + (if lens[i] == l then 1 else 0)
  {
    assert lens[..i + 1][..i] == lens[..i];
  }

  lemma {:induction false} CountMonotone(lens: seq<nat>, i: nat, j: nat, l: nat)
    requires i <= j <= |lens|
    ensures Count(lens[..i], l) <= Count(lens[..j], l)
    decreases j
  {
    if i < j {
      CountMonotone(lens, i, j - 1, l);
      CountStep(lens, j - 1, l);
    }
  }

  /** Symbols of equal length have different ranks, and ranks follow symbol order. */
  lemma RankOrder(lens: seq<nat>, i: nat, j: nat)
    requires i < j < |lens| && lens[i] == lens[j]
    ensures Rank(lens, i) < Rank(lens, j)
  {
    CountStep(lens, i, lens[i]);
    CountMonotone(lens, i + 1, j, lens[i]);
  }

  lemma RankBound(lens: seq<nat>, i: nat)
    requires i < |lens|
    ensures Rank(lens, i) < Count(lens, lens[i])
  {
    CountStep(lens, i, lens[i]);
    CountMonotone(lens, i + 1, |lens|, lens[i]);
    assert lens[..|lens|] == lens;
  }

  /** Every rank below the count is taken by some symbol. */
  lemma {:induction false} RankInverse(lens: seq<nat>, l: nat, r: nat) returns (i: nat)
    requires r < Count(lens, l)
    ensures i < |lens| && lens[i] == l && Rank(lens, i) == r
  {
    var n := |lens| - 1;
    var front := lens[..n];
    if lens[n] == l && r == Count(front, l) {
      i := n;
    } else {
      i := RankInverse(front, l, r);
      assert front[..i] == lens[..i];
    }
  }

  // ----- Canonical codes --------------------------------------------------------

  /** The smallest code of length l: code = (code + bl_count[l-1]) << 1. */
  function FirstCode(lens: seq<nat>, l: nat): nat
    decreases lens, l
  {
    if l == 0 then 0 else 2 * (FirstCode(lens, l - 1) + Used(lens, l - 1))
  }

  /** One more than the largest code of length l. */
  function CodeLimit(lens: seq<nat>, l: nat): nat {
    FirstCode(lens, l) + Used(lens, l)
  }

  function Code(lens: seq<nat>, i: nat): nat
    requires i < |lens|
  {
    FirstCode(lens, lens[i]) + Rank(lens, i)
  }

  lemma CodeInRange(lens: seq<nat>, i: nat)
    requires i < |lens| && lens[i] > 0
    ensures FirstCode(lens, lens[i]) <= Code(lens, i) < CodeLimit(lens, lens[i])
  {
    RankBound(lens, i);
  }

  /** Codes of a longer length start at or after every shorter code, extended with zeros. */
  lemma {:induction false} LimitGrows(lens: seq<nat>, l: nat, m: nat)
    requires l < m
    ensures Shl(CodeLimit(lens, l), m - l) <= FirstCode(lens, m)
    decreases m
  {
    if l + 1 < m {
      LimitGrows(lens, l, m - 1);
    }
  }

  // ----- The Kraft inequality ---------------------------------------------------

  /** Sum of 2^(l - len) over the symbols of length 1 to l. */
  function KraftSum(lens: seq<nat>, l: nat): nat {
    if lens == [] then 0
    else
      var x := lens[|lens| - 1];
      KraftSum(lens[..|lens| - 1], l) + (if 0 < x <= l then Pow2(l - x) else 0)
  }

  /** The code is not over-subscribed. */
  ghost predicate Kraft(lens: seq<nat>) {
    KraftSum(lens, MAX_BITS) <= 0x8000
  }

  lemma {:induction false} KraftStep(lens: seq<nat>, l: nat)
    requires l > 0
    ensures KraftSum(lens, l) == 2 * KraftSum(lens, l - 1) + Count(lens, l)
  {
    if lens == [] {
    } else {
      KraftStep(lens[..|lens| - 1], l);
      var x := lens[|lens| - 1];
      if 0 < x < l {
        assert Pow2(l - x) == 2 * Pow2(l - 1 - x);
      } else if x == l {
        assert Pow2(0) == 1;
      }
    }
  }

  /** The code limit of length l is exactly the Kraft sum scaled by 2^l. */
  lemma {:induction false} LimitIsKraftSum(lens: seq<nat>, l: nat)
    ensures CodeLimit(lens, l) == KraftSum(lens, l)
  {
    if l == 0 {
      KraftZero(lens);
    } else {
      LimitIsKraftSum(lens, l - 1);
      KraftStep(lens, l);
    }
  }

  lemma {:induction false} KraftZero(lens: seq<nat>)
    ensures KraftSum(lens, 0) == 0
  {
    if lens != [] {
      KraftZero(lens[..|lens| - 1]);
    }
  }

  /** Length l does not run out of codes. */
  ghost predicate RoomAt(lens: seq<nat>, l: nat) {
    CodeLimit(lens, l) <= Pow2(l)
  }

  /** Kraft's inequality holds exactly when no length runs out of codes. */
  lemma KraftAtEveryLength(lens: seq<nat>)
    ensures Kraft(lens) <==> forall l: nat | l <= MAX_BITS :: RoomAt(lens, l)
  {
    LimitIsKraftSum(lens, MAX_BITS);
    assert Pow2(MAX_BITS) == 0x8000 by { Pow2Values(); }
    if Kraft(lens) {
      forall l: nat | l <= MAX_BITS ensures RoomAt(lens, l) {
        if l < MAX_BITS && CodeLimit(lens, l) > Pow2(l) {
          LimitGrows(lens, l, MAX_BITS);
          ShlMonotone(Pow2(l), CodeLimit(lens, l), MAX_BITS - l);
          Pow2Add(l, MAX_BITS - l);
          assert false;
        }
      }
    } else {
      assert !RoomAt(lens, MAX_BITS);
    }
  }

  // ----- Bits of a stream -------------------------------------------------------

  type Digit = b: int | 0 <= b < 2

  /** The bits of a byte stream: bytes in order, least significant bit first. */
  function StreamBits(input: seq<Byte>): (bits: seq<Digit>)
    ensures |bits| == 8 * |input|
  {
    seq(8 * |input|, i requires 0 <= i < 8 * |input| => Bit(input[i / 8], i % 8))
  }

  /** n bits from pos as a data element: first bit least significant. */
  function LsbBits(bits: seq<Digit>, pos: nat, n: nat): (r: nat)
    requires pos + n <= |bits|
    decreases bits, n
  {
    if n == 0 then 0 else bits[pos] + 2 * LsbBits(bits, pos + 1, n - 1)
  }

  /** n bits from pos as a Huffman code: first bit most significant. */
  function MsbBits(bits: seq<Digit>, pos: nat, n: nat): nat
    requires pos + n <= |bits|
    decreases bits, n
  {
    if n == 0 then 0 else 2 * MsbBits(bits, pos, n - 1) + bits[pos + n - 1]
  }

  lemma {:induction false} LsbBound(bits: seq<Digit>, pos: nat, n: nat)
    requires pos + n <= |bits|
    ensures LsbBits(bits, pos, n) < Pow2(n)
    decreases n
  {
    if n > 0 {
      LsbBound(bits, pos + 1, n - 1);
    }
  }

  lemma LsbEmpty(bits: seq<Digit>, pos: nat)
    requires pos <= |bits|
    ensures LsbBits(bits, pos, 0) == 0
  {
  }

  lemma {:induction false} LsbAppend(bits: seq<Digit>, pos: nat, n: nat, m: nat)
    requires pos + n + m <= |bits|
    ensures LsbBits(bits, pos, n + m) == LsbBits(bits, pos, n) + Shl(LsbBits(bits, pos + n, m), n)
    decreases n
  {
    if n > 0 {
      LsbAppend(bits, pos + 1, n - 1, m);
    }
  }

  /** Dropping and keeping the first n buffered bits. */
  lemma {:induction false} LsbSplit(bits: seq<Digit>, pos: nat, n: nat, m: nat)
    requires n <= m && pos + m <= |bits|
    ensures Low(LsbBits(bits, pos, m), n) == LsbBits(bits, pos, n)
    ensures Shr(LsbBits(bits, pos, m), n) == LsbBits(bits, pos + n, m - n)
    decreases n
  {
    if n > 0 {
      LsbSplit(bits, pos + 1, n - 1, m - 1);
    }
  }

  /** Bit j of a data element is stream bit pos + j. */
  lemma LsbBit(bits: seq<Digit>, pos: nat, m: nat, j: nat)
    requires j < m && pos + m <= |bits|
    ensures Bit(LsbBits(bits, pos, m), j) == bits[pos + j]
  {
    LsbSplit(bits, pos, j, m);
  }

  lemma StreamBitAt(input: seq<Byte>, z: nat, i: nat)
    requires z < |input| && i < 8
    ensures StreamBits(input)[8 * z + i] == Bit(input[z], i)
  {
    assert (8 * z + i) / 8 == z && (8 * z + i) % 8 == i;
  }

  /** Eight bits that are the digits of a byte form that byte. */
  lemma LsbOfDigits(bits: seq<Digit>, pos: nat, b: Byte)
    requires pos + 8 <= |bits| && forall i: nat | i < 8 :: bits[pos + i] == Bit(b, i)
    ensures LsbBits(bits, pos, 8) == b
  {
    var v := LsbBits(bits, pos, 8);
    forall i: nat | i < 8 ensures Bit(v, i) == Bit(b, i) {
      LsbBit(bits, pos, 8, i);
    }
    EqualBits(v, b, 8);
    LsbBound(bits, pos, 8);
    assert Pow2(8) == 256 by { Pow2Values(); }
    LowSmall(v, 8);
    LowSmall(b, 8);
  }

  /** A whole byte read at a byte boundary. */
  lemma LsbByte(input: seq<Byte>, z: nat)
    requires z < |input|
    ensures LsbBits(StreamBits(input), 8 * z, 8) == input[z]
  {
    var bits := StreamBits(input);
    forall i: nat | i < 8 ensures bits[8 * z + i] == Bit(input[z], i) {
      StreamBitAt(input, z, i);
    }
    LsbOfDigits(bits, 8 * z, input[z]);
  }

  // ----- Bit reversal -----------------------------------------------------------

  /** The low n digits of w in reverse order. */
  function Reverse(w: nat, n: nat): nat
    decreases w, n
  {
    if n == 0 then 0 else 2 * Reverse(w, n - 1) + Bit(w, n - 1)
  }

  lemma {:induction false} ReverseBound(w: nat, n: nat)
    ensures Reverse(w, n) < Pow2(n)
    decreases n
  {
    if n > 0 {
      ReverseBound(w, n - 1);
    }
  }

  /** A shorter reversal is the longer one shifted right. */
  lemma {:induction false} ReverseShift(w: nat, n: nat, m: nat)
    requires n <= m
    ensures Shr(Reverse(w, m), m - n) == Reverse(w, n)
    decreases m
  {
    if n < m {
      ReverseShift(w, n, m - 1);
      assert Reverse(w, m) / 2 == Reverse(w, m - 1);
    }
  }

  lemma {:induction false} ReverseSameBits(v: nat, w: nat, n: nat)
    requires forall i: nat | i < n :: Bit(v, i) == Bit(w, i)
    ensures Reverse(v, n) == Reverse(w, n)
    decreases n
  {
    if n > 0 {
      ReverseSameBits(v, w, n - 1);
      assert Bit(v, n - 1) == Bit(w, n - 1);
    }
  }

  /** Reversal looks at the low digits only. */
  lemma ReverseLow(w: nat, m: nat, n: nat)
    requires n <= m
    ensures Reverse(Low(w, m), n) == Reverse(w, n)
  {
    forall i: nat | i < n ensures Bit(Low(w, m), i) == Bit(w, i) {
      BitLow(w, m, i);
    }
    ReverseSameBits(Low(w, m), w, n);
  }

  /** Reversal reads off the digits from the other end. */
  lemma {:induction false} ReverseBit(w: nat, n: nat, i: nat)
    requires i < n
    ensures Bit(Reverse(w, n), i) == Bit(w, n - 1 - i)
    decreases n
  {
    if i > 0 {
      ReverseBit(w, n - 1, i - 1);
      assert Reverse(w, n) / 2 == Reverse(w, n - 1);
      BitHalf(Reverse(w, n), i);
    }
  }

  /** Reversing n digits twice gives them back. */
  lemma ReverseTwice(w: nat, n: nat)
    ensures Reverse(Reverse(w, n), n) == Low(w, n)
  {
    var r := Reverse(Reverse(w, n), n);
    forall i: nat | i < n ensures Bit(r, i) == Bit(w, i) {
      ReverseBit(Reverse(w, n), n, i);
      ReverseBit(w, n, n - 1 - i);
    }
    EqualBits(r, w, n);
    ReverseBound(Reverse(w, n), n);
    LowSmall(r, n);
  }

  /** A code read from the stream is the reversed data element. */
  lemma {:induction false} MsbIsReverse(bits: seq<Digit>, pos: nat, n: nat, m: nat)
    requires n <= m && pos + m <= |bits|
    ensures MsbBits(bits, pos, n) == Reverse(LsbBits(bits, pos, m), n)
    decreases n
  {
    if n > 0 {
      MsbIsReverse(bits, pos, n - 1, m);
      LsbBit(bits, pos, m, n - 1);
    }
  }

  // ----- Decoding one symbol ------------------------------------------------------

  /** The code of symbol s is the first lens[s] bits of the window w. */
  ghost predicate Matches(lens: seq<nat>, s: nat, w: nat) {
    s < |lens| && lens[s] > 0 && Reverse(w, lens[s]) == Code(lens, s)
  }

  /** Canonical codes are prefix free: no window starts with two of them. */
  lemma MatchUnique(lens: seq<nat>, s: nat, t: nat, w: nat)
    requires Matches(lens, s, w) && Matches(lens, t, w)
    ensures s == t
  {
    if lens[s] == lens[t] {
      if s < t {
        RankOrder(lens, s, t);
      } else if t < s {
        RankOrder(lens, t, s);
      }
    } else if lens[s] < lens[t] {
      NoLongerMatch(lens, s, t, w);
    } else {
      NoLongerMatch(lens, t, s, w);
    }
  }

  lemma NoLongerMatch(lens: seq<nat>, s: nat, t: nat, w: nat)
    requires s < |lens| && t < |lens| && 0 < lens[s] < lens[t]
    ensures !(Matches(lens, s, w) && Matches(lens, t, w))
  {
    var l, m := lens[s], lens[t];
    CodeInRange(lens, s);
    CodeInRange(lens, t);
    LimitGrows(lens, l, m);
    ReverseShift(w, l, m);
    ShrCompare(Reverse(w, m), CodeLimit(lens, l), m - l);
  }
}
