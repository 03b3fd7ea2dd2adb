/**
 A bit-level reference decoder for section 3.2 of RFC 1951. It reads the stream
 one element at a time from a sequence of bits; nothing in it is buffered and
 no table is used, so it is the yardstick for the decoder of ssfn.h.
 */
module Deflate {
  import opened Bits
  import opened HuffmanSpec

  /**
   The result of decoding from some position. `Reserved` marks the length
   symbols 286-287 and distance symbols 30-31, which never occur in a valid
   stream; `Exhausted` marks a stream that ends too early.
   */
  datatype Outcome<+T> = Ok(value: T, pos: nat) | Invalid | Reserved | Exhausted {
    predicate IsFailure() { !Ok? }
    function PropagateFailure<U>(): Outcome<U>
      requires !Ok?
    {
      match this
      case Invalid => Invalid
      case Reserved => Reserved
      case Exhausted => Exhausted
    }
    function Extract(): (T, nat)
      requires Ok?
    {
      (value, pos)
    }
  }

  /**
   How the reserved symbols are read. `Strict` follows RFC 1951: they end the
   decoding. `Lenient` takes them as length 0 and distance 0, and a copy from
   distance 0 appends what `fill`, the output buffer at the start, holds there.
   */
  datatype Rules = Strict | Lenient(fill: seq<Byte>)

  // ----- Elements ----------------------------------------------------------------

  function ReadBits(bits: seq<Digit>, pos: nat, n: nat): (r: Outcome<nat>)
    ensures r.Ok? ==> r.pos == pos + n <= |bits|
    ensures !r.Reserved? && !r.Invalid?
  {
    if pos + n > |bits| then Exhausted else Ok(LsbBits(bits, pos, n), pos + n)
  }

  /** The code of symbol s lies in the stream at pos. */
  ghost predicate SymbolAt(lens: seq<nat>, bits: seq<Digit>, pos: nat, s: nat) {
    && s < |lens| && lens[s] > 0 && pos + lens[s] <= |bits|
    && MsbBits(bits, pos, lens[s]) == Code(lens, s)
  }

  ghost function ReadSymbol(lens: seq<nat>, bits: seq<Digit>, pos: nat): (r: Outcome<nat>)
    ensures r.Ok? ==> pos < r.pos <= |bits| && r.value < |lens|
    ensures !r.Reserved?
  {
    if exists s: nat :: SymbolAt(lens, bits, pos, s) then
      var s: nat :| SymbolAt(lens, bits, pos, s);
      Ok(s, pos + lens[s])
    else if pos + MAX_BITS > |bits| then Exhausted
    else Invalid
  }

  // ----- Compressed data -----------------------------------------------------------

  const LENGTH_BASE: seq<nat> :=
    [3, 4, 5, 6, 7, 8, 9, 10, 11, 13, 15, 17, 19, 23, 27, 31, 35, 43, 51, 59, 67, 83, 99, 115, 131, 163, 195, 227, 258]
  const LENGTH_EXTRA: seq<nat> :=
    [0, 0, 0, 0, 0, 0, 0, 0, 1, 1, 1, 1, 2, 2, 2, 2, 3, 3, 3, 3, 4, 4, 4, 4, 5, 5, 5, 5, 0]
  const DIST_BASE: seq<nat> :=
    [1, 2, 3, 4, 5, 7, 9, 13, 17, 25, 33, 49, 65, 97, 129, 193, 257, 385, 513, 769, 1025, 1537, 2049, 3073, 4097, 6145,
     8193, 12289, 16385, 24577]
  const DIST_EXTRA: seq<nat> :=
    [0, 0, 0, 0, 1, 1, 2, 2, 3, 3, 4, 4, 5, 5, 6, 6, 7, 7, 8, 8, 9, 9, 10, 10, 11, 11, 12, 12, 13, 13]

  /** Append len bytes, each a copy of the byte dist positions back; the source may overlap the copy. */
  function CopyBack(out: seq<Byte>, dist: nat, len: nat): (r: seq<Byte>)
    requires 0 < dist <= |out|
    ensures |r| == |out| + len && r[..|out|] == out
    decreases out, len
  {
    if len == 0 then out
    else
      var r := CopyBack(out, dist, len - 1);
      r + [r[|r| - dist]]
  }

  /** len bytes of fill from position pos on, and zeros behind its end. */
  function FillAt(fill: seq<Byte>, pos: nat, len: nat): (r: seq<Byte>)
    ensures |r| == len
  {
    seq(len, i requires 0 <= i < len => if pos + i < |fill| then fill[pos + i] else 0)
  }

  /** The output after a copy. */
  function Extended(rules: Rules, out: seq<Byte>, dist: nat, len: nat): (r: seq<Byte>)
    requires dist <= |out| && (dist == 0 ==> rules.Lenient?)
    ensures |r| == |out| + len && r[..|out|] == out
  {
    if dist == 0 then out + FillAt(rules.fill, |out|, len) else CopyBack(out, dist, len)
  }

  ghost function ReadLength(rules: Rules, sym: nat, bits: seq<Digit>, pos: nat): (r: Outcome<nat>)
    requires sym >= 257 && pos <= |bits|
    ensures r.Ok? ==> pos <= r.pos <= |bits|
    ensures r.Reserved? <==> sym > 285 && rules.Strict?
    ensures !r.Invalid?
  {
    if sym > 285 then (if rules.Strict? then Reserved else Ok(0, pos))
    else
      var (e, p) :- ReadBits(bits, pos, LENGTH_EXTRA[sym - 257]);
      Ok(LENGTH_BASE[sym - 257] + e, p)
  }

  ghost function ReadDistance(rules: Rules, dl: seq<nat>, bits: seq<Digit>, pos: nat): (r: Outcome<nat>)
    ensures r.Ok? ==> pos <= r.pos <= |bits| && (r.value == 0 ==> rules.Lenient?)
    ensures r.Reserved? ==> rules.Strict?
  {
    var (sym, p) :- ReadSymbol(dl, bits, pos);
    if sym > 29 then (if rules.Strict? then Reserved else Ok(0, p))
    else
      var (e, q) :- ReadBits(bits, p, DIST_EXTRA[sym]);
      Ok(DIST_BASE[sym] + e, q)
  }

  /** A length symbol with its distance: the output after the copy. */
  ghost function ReadMatch(rules: Rules, sym: nat, dl: seq<nat>, bits: seq<Digit>, pos: nat, out: seq<Byte>)
    : (r: Outcome<seq<Byte>>)
    requires sym >= 257 && pos <= |bits|
    ensures r.Ok? ==> pos <= r.pos <= |bits| && |out| <= |r.value|
    ensures r.Reserved? ==> rules.Strict?
  {
    var (len, p) :- ReadLength(rules, sym, bits, pos);
    var (dist, q) :- ReadDistance(rules, dl, bits, p);
    if dist > |out| then Invalid else Ok(Extended(rules, out, dist, len), q)
  }

  /** The symbols of one compressed block, after `out` has been produced. */
  ghost function BlockData(rules: Rules, ll: seq<nat>, dl: seq<nat>, bits: seq<Digit>, pos: nat, out: seq<Byte>)
    : (r: Outcome<seq<Byte>>)
    ensures r.Ok? ==> pos <= r.pos <= |bits| && |out| <= |r.value|
    ensures r.Reserved? ==> rules.Strict?
    decreases |bits| - pos
  {
    var (sym, p) :- ReadSymbol(ll, bits, pos);
    if sym < 256 then BlockData(rules, ll, dl, bits, p, out + [sym])
    else if sym == 256 then Ok(out, p)
    else
      var (out', q) :- ReadMatch(rules, sym, dl, bits, p, out);
      BlockData(rules, ll, dl, bits, q, out')
  }

  // ----- Dynamic codes ----------------------------------------------------------------

  const LENGTH_ORDER: seq<nat> := [16, 17, 18, 0, 8, 7, 9, 6, 10, 5, 11, 4, 12, 3, 13, 2, 14, 1, 15]

  /** The code length alphabet from the first n lengths sent, in the transmission order. */
  ghost function ReadCodeLengthCode(bits: seq<Digit>, pos: nat, n: nat): (r: Outcome<seq<nat>>)
    requires n <= 19
    ensures r.Ok? ==> pos <= r.pos && (pos <= |bits| ==> r.pos <= |bits|)
    ensures r.Ok? ==> |r.value| == 19 && CodeLengths(r.value)
    ensures !r.Reserved? && !r.Invalid?
    decreases bits, n
  {
    if n == 0 then Ok(seq(19, _ => 0), pos)
    else
      var (lens, p) :- ReadCodeLengthCode(bits, pos, n - 1);
      var (x, q) :- ReadBits(bits, p, 3);
      LsbBound(bits, p, 3);
      assert Pow2(3) == 8;
      Ok(lens[LENGTH_ORDER[n - 1] := x], q)
  }

  function Repeat(x: nat, n: nat): (r: seq<nat>)
    ensures |r| == n && forall i | 0 <= i < n :: r[i] == x
  {
    seq(n, _ => x)
  }

  /** What a repeat symbol 16, 17 or 18 stands for: a length and how often it occurs. */
  ghost function ReadRun(sym: nat, bits: seq<Digit>, pos: nat, acc: seq<nat>): (r: Outcome<(nat, nat)>)
    requires sym >= 16
    ensures r.Ok? ==> pos <= r.pos <= |bits|
    ensures r.Ok? && CodeLengths(acc) ==> r.value.0 <= MAX_BITS
    ensures !r.Reserved?
  {
    if sym == 16 then
      var (e, p) :- ReadBits(bits, pos, 2);
      if acc == [] then Invalid else Ok((acc[|acc| - 1], e + 3), p)
    else if sym == 17 then
      var (e, p) :- ReadBits(bits, pos, 3);
      Ok((0, e + 3), p)
    else
      var (e, p) :- ReadBits(bits, pos, 7);
      Ok((0, e + 11), p)
  }

  /** Run-length-coded code lengths until `total` are known. */
  ghost function ReadCodeLengths(cl: seq<nat>, bits: seq<Digit>, pos: nat, total: nat, acc: seq<nat>)
    : (r: Outcome<seq<nat>>)
    requires |acc| <= total
    ensures r.Ok? ==> pos <= r.pos && (pos <= |bits| ==> r.pos <= |bits|)
    ensures r.Ok? ==> |r.value| == total
    ensures r.Ok? && CodeLengths(acc) ==> CodeLengths(r.value)
    ensures !r.Reserved?
    decreases |bits| - pos
  {
    if |acc| == total then Ok(acc, pos)
    else
      var (sym, p) :- ReadSymbol(cl, bits, pos);
      if sym < 16 then ReadCodeLengths(cl, bits, p, total, acc + [sym])
      else
        var (run, q) :- ReadRun(sym, bits, p, acc);
        if total - |acc| < run.1 then Invalid
        else ReadCodeLengths(cl, bits, q, total, acc + Repeat(run.0, run.1))
  }

  /** The header of a dynamic block: how many lengths of each alphabet follow, and the code they use. */
  datatype Header = Header(nl: nat, nd: nat, cl: seq<nat>)

  /** HLIT, HDIST and HCLEN. */
  ghost function ReadCounts(bits: seq<Digit>, pos: nat): (r: Outcome<(nat, nat, nat)>)
    ensures r.Ok? ==> r.pos == pos + 14 <= |bits|
    ensures r.Ok? ==> r.value.0 < 32 && r.value.1 < 32 && r.value.2 < 16
    ensures !r.Reserved? && !r.Invalid?
  {
    var (hlit, p1) :- ReadBits(bits, pos, 5);
    var (hdist, p2) :- ReadBits(bits, p1, 5);
    var (hclen, p3) :- ReadBits(bits, p2, 4);
    HeaderBounds(bits, pos);
    Ok((hlit, hdist, hclen), p3)
  }

  ghost function ReadHeader(bits: seq<Digit>, pos: nat): (r: Outcome<Header>)
    ensures r.Ok? ==> pos + 14 <= r.pos && (pos <= |bits| ==> r.pos <= |bits|)
    ensures r.Ok? ==> r.value.nl <= 288 && r.value.nd <= 32 && |r.value.cl| == 19
    ensures r.Ok? ==> CodeLengths(r.value.cl) && Kraft(r.value.cl)
    ensures !r.Reserved?
  {
    var (n, p) :- ReadCounts(bits, pos);
    var (cl, q) :- ReadCodeLengthCode(bits, p, n.2 + 4);
    if !Kraft(cl) then Invalid else Ok(Header(n.0 + 257, n.1 + 1, cl), q)
  }

  /** The three header fields of a dynamic block fit their widths. */
  lemma HeaderBounds(bits: seq<Digit>, pos: nat)
    requires pos + 14 <= |bits|
    ensures LsbBits(bits, pos, 5) < 32 && LsbBits(bits, pos + 5, 5) < 32 && LsbBits(bits, pos + 10, 4) < 16
  {
    LsbBound(bits, pos, 5);
    LsbBound(bits, pos + 5, 5);
    LsbBound(bits, pos + 10, 4);
    assert Pow2(5) == 32 && Pow2(4) == 16 by { Pow2Values(); }
  }

  /** Section 3.2.7: the two codes of a dynamic block. */
  ghost function ReadCodes(bits: seq<Digit>, pos: nat): (r: Outcome<(seq<nat>, seq<nat>)>)
    ensures r.Ok? ==> pos <= r.pos && (pos <= |bits| ==> r.pos <= |bits|)
    ensures !r.Reserved?
  {
    var (h, p) :- ReadHeader(bits, pos);
    var (lens, q) :- ReadCodeLengths(h.cl, bits, p, h.nl + h.nd, []);
    if Kraft(lens[..h.nl]) && Kraft(lens[h.nl..]) then Ok((lens[..h.nl], lens[h.nl..]), q) else Invalid
  }

  // ----- Blocks -------------------------------------------------------------------------

  /** The fixed code of section 3.2.6. */
  function FixedLengths(): (lens: seq<nat>)
    ensures |lens| == 288 && CodeLengths(lens)
  {
    Repeat(8, 144) + Repeat(9, 112) + Repeat(7, 24) + Repeat(8, 8)
  }

  function FixedDistances(): (lens: seq<nat>)
    ensures |lens| == 32 && CodeLengths(lens)
  {
    Repeat(5, 32)
  }

  function AlignUp8(pos: nat): nat {
    (pos + 7) / 8 * 8
  }

  lemma ByteRange(bits: seq<Digit>, pos: nat)
    requires pos + 8 <= |bits|
    ensures 0 <= LsbBits(bits, pos, 8) < 256
  {
    LsbBound(bits, pos, 8);
    Pow2Values();
  }

  function BytesAt(bits: seq<Digit>, pos: nat, n: nat): (r: seq<Byte>)
    requires pos + 8 * n <= |bits|
    ensures |r| == n
    decreases bits, n
  {
    if n == 0 then []
    else
      ByteRange(bits, pos + 8 * (n - 1));
      BytesAt(bits, pos, n - 1) + [LsbBits(bits, pos + 8 * (n - 1), 8)]
  }

  /** Section 3.2.4: skip to a byte boundary, LEN, its complement, then LEN bytes. */
  ghost function StoredBlock(bits: seq<Digit>, pos: nat, out: seq<Byte>): (r: Outcome<seq<Byte>>)
    ensures r.Ok? ==> pos <= r.pos <= |bits| && |out| <= |r.value|
    ensures !r.Reserved?
  {
    var (len, p) :- ReadBits(bits, AlignUp8(pos), 16);
    var (nlen, q) :- ReadBits(bits, p, 16);
    if nlen != 0xFFFF - len then Invalid
    else if q + 8 * len > |bits| then Exhausted
    else Ok(out + BytesAt(bits, q, len), q + 8 * len)
  }

  ghost function Block(rules: Rules, kind: nat, bits: seq<Digit>, pos: nat, out: seq<Byte>): (r: Outcome<seq<Byte>>)
    ensures r.Ok? ==> pos <= r.pos <= |bits| && |out| <= |r.value|
    ensures r.Reserved? ==> rules.Strict?
  {
    if kind == 0 then StoredBlock(bits, pos, out)
    else if kind == 1 then BlockData(rules, FixedLengths(), FixedDistances(), bits, pos, out)
    else if kind == 2 then
      var (codes, p) :- ReadCodes(bits, pos);
      BlockData(rules, codes.0, codes.1, bits, p, out)
    else Invalid
  }

  /** The final flag and the kind of a block. */
  ghost function ReadBlockHeader(bits: seq<Digit>, pos: nat): (r: Outcome<(nat, nat)>)
    ensures r.Ok? ==> r.pos == pos + 3 <= |bits| && r.value.0 < 2 && r.value.1 < 4
    ensures !r.Reserved? && !r.Invalid?
  {
    var (fin, p) :- ReadBits(bits, pos, 1);
    var (kind, q) :- ReadBits(bits, p, 2);
    LsbBound(bits, pos, 1);
    LsbBound(bits, p, 2);
    assert Pow2(1) == 2 && Pow2(2) == 4;
    Ok((fin, kind), q)
  }

  /** Section 3.2.3: blocks until the final one. */
  ghost function Stream(rules: Rules, bits: seq<Digit>, pos: nat, out: seq<Byte>): (r: Outcome<seq<Byte>>)
    ensures r.Ok? ==> pos <= r.pos <= |bits| && |out| <= |r.value|
    ensures r.Reserved? ==> rules.Strict?
    decreases |bits| - pos
  {
    var (h, p) :- ReadBlockHeader(bits, pos);
    var (out', q) :- Block(rules, h.1, bits, p, out);
    if h.0 == 1 then Ok(out', q) else Stream(rules, bits, q, out')
  }

  ghost function Inflated(rules: Rules, input: seq<Byte>): Outcome<seq<Byte>> {
    Stream(rules, StreamBits(input), 0, [])
  }

  // ----- Strict and lenient reading ---------------------------------------------------------

  /** Up to the first reserved symbol both rules read the same. */
  lemma MatchSame(fill: seq<Byte>, sym: nat, dl: seq<nat>, bits: seq<Digit>, pos: nat, out: seq<Byte>)
    requires sym >= 257 && pos <= |bits|
    ensures var r := ReadMatch(Strict, sym, dl, bits, pos, out);
            r.Reserved? || ReadMatch(Lenient(fill), sym, dl, bits, pos, out) == r
  {
    hide ReadSymbol, ReadBits, CopyBack, FillAt;
  }

  lemma {:induction false} BlockDataSame(fill: seq<Byte>, ll: seq<nat>, dl: seq<nat>, bits: seq<Digit>, pos: nat,
                                         out: seq<Byte>)
    ensures var r := BlockData(Strict, ll, dl, bits, pos, out);
            r.Reserved? || BlockData(Lenient(fill), ll, dl, bits, pos, out) == r
    decreases |bits| - pos
  {
    hide ReadSymbol, ReadMatch;
    var r := ReadSymbol(ll, bits, pos);
    if r.Ok? {
      var sym, p := r.value, r.pos;
      if sym < 256 {
        BlockDataSame(fill, ll, dl, bits, p, out + [sym]);
      } else if sym > 256 {
        MatchSame(fill, sym, dl, bits, p, out);
        var m := ReadMatch(Strict, sym, dl, bits, p, out);
        if m.Ok? {
          BlockDataSame(fill, ll, dl, bits, m.pos, m.value);
        }
      }
    }
  }

  lemma BlockSame(fill: seq<Byte>, kind: nat, bits: seq<Digit>, pos: nat, out: seq<Byte>)
    ensures var r := Block(Strict, kind, bits, pos, out);
            r.Reserved? || Block(Lenient(fill), kind, bits, pos, out) == r
  {
    hide BlockData, ReadCodes, StoredBlock, FixedLengths, FixedDistances;
    BlockDataSame(fill, FixedLengths(), FixedDistances(), bits, pos, out);
    var c := ReadCodes(bits, pos);
    if c.Ok? {
      BlockDataSame(fill, c.value.0, c.value.1, bits, c.pos, out);
    }
  }

  /** A stream without reserved symbols reads the same under both rules, whatever the buffer holds. */
  lemma {:induction false} StreamSame(fill: seq<Byte>, bits: seq<Digit>, pos: nat, out: seq<Byte>)
    ensures var r := Stream(Strict, bits, pos, out);
            r.Reserved? || Stream(Lenient(fill), bits, pos, out) == r
    decreases |bits| - pos
  {
    hide Block, ReadBlockHeader;
    var h := ReadBlockHeader(bits, pos);
    if h.Ok? {
      BlockSame(fill, h.value.1, bits, h.pos, out);
      var b := Block(Strict, h.value.1, bits, h.pos, out);
      if b.Ok? && h.value.0 != 1 {
        StreamSame(fill, bits, b.pos, b.value);
      }
    }
  }

  // ----- The fixed codes ------------------------------------------------------------------

  lemma {:induction false} KraftRepeat(lens: seq<nat>, x: nat, n: nat)
    requires 0 < x <= MAX_BITS
    ensures KraftSum(lens + Repeat(x, n), MAX_BITS) == KraftSum(lens, MAX_BITS) + Shl(n, MAX_BITS - x)
    decreases n
  {
    ShlOne(MAX_BITS - x);
    if n == 0 {
      assert lens + Repeat(x, 0) == lens;
    } else {
      KraftRepeat(lens, x, n - 1);
      ShlAdd(n - 1, 1, MAX_BITS - x);
      var l := lens + Repeat(x, n);
      assert l[..|l| - 1] == lens + Repeat(x, n - 1);
    }
  }

  /** Both fixed codes are complete: Kraft's inequality holds with equality. */
  lemma FixedCodesComplete()
    ensures KraftSum(FixedLengths(), MAX_BITS) == 0x8000
    ensures KraftSum(FixedDistances(), MAX_BITS) == 0x8000
  {
    hide KraftSum, Shl, Pow2, Repeat;
    KraftSumNone();
    FixedShares();
    KraftRepeat([], 8, 144);
    KraftRepeat(Repeat(8, 144), 9, 112);
    KraftRepeat(Repeat(8, 144) + Repeat(9, 112), 7, 24);
    KraftRepeat(Repeat(8, 144) + Repeat(9, 112) + Repeat(7, 24), 8, 8);
    assert [] + Repeat(8, 144) == Repeat(8, 144);
    KraftRepeat([], 5, 32);
    assert [] + Repeat(5, 32) == Repeat(5, 32);
  }

  lemma KraftSumNone()
    ensures KraftSum([], MAX_BITS) == 0
  {
  }

  /** What the five groups of symbols take of the code space. */
  lemma FixedShares()
    ensures Shl(144, 7) + Shl(112, 6) + Shl(24, 8) + Shl(8, 7) == 0x8000 && Shl(32, 10) == 0x8000
  {
    ShlIs(144, 7);
    ShlIs(112, 6);
    ShlIs(24, 8);
    ShlIs(8, 7);
    ShlIs(32, 10);
  }

  lemma ShlIs(x: nat, k: nat)
    requires k == 6 || k == 7 || k == 8 || k == 10
    ensures Shl(x, k) == x * (if k == 6 then 64 else if k == 7 then 128 else if k == 8 then 256 else 1024)
  {
    ShlShl(x, 3, 3);
    ShlShl(x, 3, 1);
    ShlShl(Shl(x, 3), 3, 1);
    ShlShl(x, 6, 1);
    ShlShl(x, 9, 1);
    ShlValues(x);
    ShlValues(Shl(x, 3));
    ShlValues(Shl(x, 6));
    ShlValues(Shl(x, 9));
    hide Shl;
  }
}
