/** Reading concrete streams: the codes of symbols, and the elements at a position from the bytes there. */
module StreamReading {
  import opened Bits
  import opened HuffmanSpec
  import opened Deflate
  import opened Inflate

  // ----- Codes ------------------------------------------------------------------------------

  lemma {:induction false} CountRepeat(lens: seq<nat>, x: nat, n: nat, l: nat)
    ensures Count(lens + Repeat(x, n), l) == Count(lens, l) + (if x == l then n else 0)
    decreases n
  {
    if n == 0 {
      assert lens + Repeat(x, 0) == lens;
    } else {
      CountRepeat(lens, x, n - 1, l);
      var whole := lens + Repeat(x, n);
      assert whole[..|whole| - 1] == lens + Repeat(x, n - 1);
    }
  }

  lemma CountNone(l: nat)
    ensures Count([], l) == 0
  {
  }

  /** No code is shorter than the shortest length that occurs. */
  lemma {:induction false} FirstCodeNone(lens: seq<nat>, l: nat)
    requires forall k | 0 < k < l :: Count(lens, k) == 0
    ensures FirstCode(lens, l) == 0
    decreases l
  {
    if l > 0 {
      FirstCodeNone(lens, l - 1);
    }
  }

  lemma FirstCodeStep(lens: seq<nat>, l: nat)
    requires l > 0
    ensures FirstCode(lens, l) == 2 * (FirstCode(lens, l - 1) + Used(lens, l - 1))
  {
  }

  /** A code that lies in the stream, with room for the longest code behind its start, is what is read. */
  lemma SymbolRead(lens: seq<nat>, bits: seq<Digit>, pos: nat, s: nat)
    requires CodeLengths(lens) && pos + MAX_BITS <= |bits| && SymbolAt(lens, bits, pos, s)
    ensures ReadSymbol(lens, bits, pos) == Ok(s, pos + lens[s])
  {
    MatchIsSymbolAt(lens, bits, pos, MAX_BITS, s);
    MatchIsSymbol(lens, bits, pos, MAX_BITS, s);
  }

  // ----- Elements ---------------------------------------------------------------------------

  /** The eight digits of a byte at pos, lowest first. */
  predicate Spells(bits: seq<Digit>, pos: nat, d: seq<Digit>) {
    && pos + 8 <= |bits| && |d| == 8
    && bits[pos] == d[0] && bits[pos + 1] == d[1] && bits[pos + 2] == d[2] && bits[pos + 3] == d[3]
    && bits[pos + 4] == d[4] && bits[pos + 5] == d[5] && bits[pos + 6] == d[6] && bits[pos + 7] == d[7]
  }

  lemma ByteSpelled(input: seq<Byte>, z: nat, b: Byte, d: seq<Digit>)
    requires z < |input| && input[z] == b && |d| == 8
    requires d[0] == b % 2 && d[1] == b / 2 % 2 && d[2] == b / 4 % 2 && d[3] == b / 8 % 2
    requires d[4] == b / 16 % 2 && d[5] == b / 32 % 2 && d[6] == b / 64 % 2 && d[7] == b / 128 % 2
    ensures Spells(StreamBits(input), 8 * z, d)
  {
    hide StreamBits, Bit;
    StreamBitAt(input, z, 0);
    StreamBitAt(input, z, 1);
    StreamBitAt(input, z, 2);
    StreamBitAt(input, z, 3);
    StreamBitAt(input, z, 4);
    StreamBitAt(input, z, 5);
    StreamBitAt(input, z, 6);
    StreamBitAt(input, z, 7);
    DigitValues(b);
  }

  /** Halving the byte gives one digit after the other. */
  lemma DigitValues(b: Byte)
    ensures Bit(b, 0) == b % 2 && Bit(b, 1) == b / 2 % 2 && Bit(b, 2) == b / 4 % 2 && Bit(b, 3) == b / 8 % 2
    ensures Bit(b, 4) == b / 16 % 2 && Bit(b, 5) == b / 32 % 2 && Bit(b, 6) == b / 64 % 2 && Bit(b, 7) == b / 128 % 2
  {
    hide Shr;
    ShrIsDiv(b, 0);
    ShrIsDiv(b, 1);
    ShrIsDiv(b, 2);
    ShrIsDiv(b, 3);
    ShrIsDiv(b, 4);
    ShrIsDiv(b, 5);
    ShrIsDiv(b, 6);
    ShrIsDiv(b, 7);
    assert Pow2(0) == 1 && Pow2(1) == 2 && Pow2(2) == 4 && Pow2(3) == 8 && Pow2(4) == 16 && Pow2(5) == 32;
    assert Pow2(6) == 64 && Pow2(7) == 128;
  }

  lemma MsbStep(bits: seq<Digit>, pos: nat, n: nat)
    requires pos + n < |bits|
    ensures MsbBits(bits, pos, n + 1) == 2 * MsbBits(bits, pos, n) + bits[pos + n]
  {
  }

  /** A code, most significant digit first. */
  lemma MsbValues(bits: seq<Digit>, pos: nat)
    requires pos + 8 <= |bits|
    ensures MsbBits(bits, pos, 1) == bits[pos] && MsbBits(bits, pos, 2) == 2 * MsbBits(bits, pos, 1) + bits[pos + 1]
    ensures MsbBits(bits, pos, 3) == 2 * MsbBits(bits, pos, 2) + bits[pos + 2]
    ensures MsbBits(bits, pos, 4) == 2 * MsbBits(bits, pos, 3) + bits[pos + 3]
    ensures MsbBits(bits, pos, 5) == 2 * MsbBits(bits, pos, 4) + bits[pos + 4]
    ensures MsbBits(bits, pos, 6) == 2 * MsbBits(bits, pos, 5) + bits[pos + 5]
    ensures MsbBits(bits, pos, 7) == 2 * MsbBits(bits, pos, 6) + bits[pos + 6]
    ensures MsbBits(bits, pos, 8) == 2 * MsbBits(bits, pos, 7) + bits[pos + 7]
  {
    assert MsbBits(bits, pos, 0) == 0;
    hide MsbBits;
    MsbStep(bits, pos, 0);
    MsbStep(bits, pos, 1);
    MsbStep(bits, pos, 2);
    MsbStep(bits, pos, 3);
    MsbStep(bits, pos, 4);
    MsbStep(bits, pos, 5);
    MsbStep(bits, pos, 6);
    MsbStep(bits, pos, 7);
  }

  /** Digit i of an element of n digits. */
  function DigitIn(bits: seq<Digit>, pos: nat, n: nat, i: nat): nat
    requires pos + n <= |bits|
  {
    if i < n then bits[pos + i] else 0
  }

  /** An element of up to seven digits, least significant digit first. */
  lemma {:induction false} LsbValue(bits: seq<Digit>, pos: nat, n: nat)
    requires n <= 7 && pos + n <= |bits|
    ensures LsbBits(bits, pos, n) ==
            DigitIn(bits, pos, n, 0) + 2 * DigitIn(bits, pos, n, 1) + 4 * DigitIn(bits, pos, n, 2)
            + 8 * DigitIn(bits, pos, n, 3) + 16 * DigitIn(bits, pos, n, 4) + 32 * DigitIn(bits, pos, n, 5)
            + 64 * DigitIn(bits, pos, n, 6)
    decreases n
  {
    if n > 0 {
      LsbValue(bits, pos + 1, n - 1);
    }
  }

  // ----- Block data, symbol by symbol -----------------------------------------------------------

  lemma LiteralStep(rules: Rules, ll: seq<nat>, dl: seq<nat>, bits: seq<Digit>, pos: nat, out: seq<Byte>, c: Byte,
                    p: nat)
    requires ReadSymbol(ll, bits, pos) == Ok(c, p)
    ensures BlockData(rules, ll, dl, bits, pos, out) == BlockData(rules, ll, dl, bits, p, out + [c])
  {
    hide ReadSymbol;
  }

  lemma EndStep(rules: Rules, ll: seq<nat>, dl: seq<nat>, bits: seq<Digit>, pos: nat, out: seq<Byte>, p: nat)
    requires ReadSymbol(ll, bits, pos) == Ok(256, p)
    ensures BlockData(rules, ll, dl, bits, pos, out) == Ok(out, p)
  {
    hide ReadSymbol;
  }

  lemma MatchStep(rules: Rules, ll: seq<nat>, dl: seq<nat>, bits: seq<Digit>, pos: nat, out: seq<Byte>, sym: nat,
                  p: nat, len: nat, lp: nat, dist: nat, q: nat)
    requires ReadSymbol(ll, bits, pos) == Ok(sym, p) && sym > 256 && ReadLength(rules, sym, bits, p) == Ok(len, lp)
    requires ReadDistance(rules, dl, bits, lp) == Ok(dist, q) && 0 < dist <= |out|
    ensures BlockData(rules, ll, dl, bits, pos, out) ==
            BlockData(rules, ll, dl, bits, q, CopyBack(out, dist, len))
  {
    hide ReadSymbol, ReadLength, ReadDistance, CopyBack;
  }
}
