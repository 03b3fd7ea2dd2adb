/**
 The DEFLATE decoder of ssfn.h: a 32-bit bit buffer refilled a byte at a time,
 Huffman tables, and an output buffer written in place. Each method is proved
 against the reference decoder of module `Deflate`.
 */
module Inflate {
  import opened Bits
  import opened HuffmanSpec
  import opened BitReverse
  import opened Huffman
  import opened Deflate

  /**
   How a parsing routine of ssfn.h ends. `Done` and `Corrupt` are its return
   values 1 and 0; `Overrun` is a read past the end of the input memory and
   `NoRoom` the point where it asks _ssfn__zexpand for a larger buffer.
   */
  datatype Status = Done | Corrupt | Overrun | NoRoom

  /** Tables as ssfn.h has them, padded with zeros for the reserved symbols. */
  const ZLENGTH_BASE: seq<nat> := LENGTH_BASE + [0, 0]
  const ZLENGTH_EXTRA: seq<nat> := LENGTH_EXTRA + [0, 0]
  const ZDIST_BASE: seq<nat> := DIST_BASE + [0, 0]
  const ZDIST_EXTRA: seq<nat> := DIST_EXTRA + [0, 0]

  /** A position so close to the end that refilling the bit buffer may overrun the input. */
  ghost predicate NearEnd(input: seq<Byte>, pos: nat) {
    8 * |input| <= pos + 24
  }

  /** What a status, the output and the position say about the reference result r. */
  ghost predicate Agrees(r: Outcome<seq<Byte>>, st: Status, input: seq<Byte>, room: nat, out: seq<Byte>, pos: nat) {
    match st
    case Done => r == Ok(out, pos)
    case Corrupt => r.Invalid?
    case Overrun => r.Exhausted? || (NearEnd(input, pos) && (r.Ok? ==> pos <= r.pos))
    case NoRoom => r.Ok? ==> |r.value| > room
  }

  /** For the windows of the decoder, matching a code and finding it in the stream are the same. */
  lemma MatchIsSymbolAt(lens: seq<nat>, bits: seq<Digit>, pos: nat, n: nat, s: nat)
    requires CodeLengths(lens) && MAX_BITS <= n && pos + n <= |bits|
    ensures Matches(lens, s, LsbBits(bits, pos, n)) <==> SymbolAt(lens, bits, pos, s)
  {
    if s < |lens| {
      MsbIsReverse(bits, pos, lens[s], n);
    }
  }

  /** The match, being unique, is the symbol the reference reads. */
  lemma MatchIsSymbol(lens: seq<nat>, bits: seq<Digit>, pos: nat, n: nat, s: nat)
    requires CodeLengths(lens) && MAX_BITS <= n && pos + n <= |bits|
    requires Matches(lens, s, LsbBits(bits, pos, n))
    ensures ReadSymbol(lens, bits, pos) == Ok(s, pos + lens[s])
  {
    MatchIsSymbolAt(lens, bits, pos, n, s);
    var t := ReadSymbol(lens, bits, pos);
    assert t.Ok? && SymbolAt(lens, bits, pos, t.value);
    MatchIsSymbolAt(lens, bits, pos, n, t.value);
    MatchUnique(lens, s, t.value, LsbBits(bits, pos, n));
  }

  lemma NoMatchIsInvalid(lens: seq<nat>, bits: seq<Digit>, pos: nat, n: nat)
    requires CodeLengths(lens) && MAX_BITS <= n && pos + n <= |bits|
    requires forall s: nat :: !Matches(lens, s, LsbBits(bits, pos, n))
    ensures ReadSymbol(lens, bits, pos).Invalid?
  {
    forall s: nat ensures !SymbolAt(lens, bits, pos, s) {
      MatchIsSymbolAt(lens, bits, pos, n, s);
    }
  }

  /** Byte z of the input is the z-th group of eight bits. */
  ghost predicate ByteView(input: seq<Byte>, bits: seq<Digit>, z: nat)
    requires |bits| == 8 * |input| && z < |input|
  {
    LsbBits(bits, 8 * z, 8) == input[z]
  }

  ghost predicate BitsOf(input: seq<Byte>, bits: seq<Digit>) {
    && |bits| == 8 * |input|
    && forall z: nat | z < |input| :: ByteView(input, bits, z)
  }

  lemma StreamBitsOf(input: seq<Byte>)
    ensures BitsOf(input, StreamBits(input))
  {
    forall z: nat | z < |input| ensures ByteView(input, StreamBits(input), z) {
      LsbByte(input, z);
    }
  }

  /** Or-ing a byte above n buffered bits appends it, within 32 bits. */
  lemma AppendByte(bits: seq<Digit>, pos: nat, n: nat, b: Byte)
    requires n <= 24 && pos + n + 8 <= |bits| && LsbBits(bits, pos + n, 8) == b
    ensures Or(LsbBits(bits, pos, n), Shl(b, n)) == LsbBits(bits, pos, n + 8) < 0x1_0000_0000
  {
    LsbAppend(bits, pos, n, 8);
    LsbBound(bits, pos, n);
    OrDisjoint(LsbBits(bits, pos, n), b, n);
    LsbBound(bits, pos, n + 8);
    Pow2Monotone(n + 8, 32);
    Pow2Word();
  }

  /** The search loop of the slow path: the first length from ten on whose limit exceeds k. */
  method SearchLength(z: Table, k: nat, ghost lens: seq<nat>, ghost w: nat) returns (s: nat)
    requires Represents(z, lens) && k == Reverse(w, 16)
    requires forall s: nat | s < |lens| :: !ShortMatch(lens, s, w)
    ensures FAST_BITS < s <= 16
    ensures s == 16 ==> forall t: nat :: !Matches(lens, t, w)
    ensures s < 16 ==> Shl(CodeLimit(lens, s - 1), 16 - (s - 1)) <= k < Shl(CodeLimit(lens, s), 16 - s)
  {
    forall t: nat | t < |lens| && lens[t] <= FAST_BITS ensures !Matches(lens, t, w) {
      assert !ShortMatch(lens, t, w);
    }
    NoShortMatch(lens, w, FAST_BITS);
    assert k < 0x1_0000 by {
      ReverseBound(w, 16);
      Pow2Values();
    }
    s := FAST_BITS + 1;
    while k >= z.maxcode[s]
      invariant FAST_BITS + 1 <= s <= 16
      invariant k >= Shl(CodeLimit(lens, s - 1), 16 - (s - 1))
      decreases 16 - s
    {
      assert LengthRow(z, lens, s);
      s := s + 1;
    }
    if s == 16 {
      NoMatchAboveLimits(lens, w);
    } else {
      assert LengthRow(z, lens, s);
    }
  }

  /** A failure to read the first i sizes is a failure to read them all. */
  lemma {:induction false} CodeLengthCodePrefix(bits: seq<Digit>, pos: nat, i: nat, n: nat)
    requires i <= n <= 19
    ensures var r, q := ReadCodeLengthCode(bits, pos, n), ReadCodeLengthCode(bits, pos, i);
            r.Ok? ==> q.Ok? && q.pos <= r.pos
    decreases n
  {
    if i < n {
      CodeLengthCodePrefix(bits, pos, i, n - 1);
    }
  }

  /** Behind its symbol a distance is a table base plus extra bits, for the reserved symbols too. */
  lemma DistanceFrom(fill: seq<Byte>, dl: seq<nat>, bits: seq<Digit>, pos: nat, z: nat, p: nat)
    requires ReadSymbol(dl, bits, pos) == Ok(z, p) && z < 32
    ensures var r := ReadDistance(Lenient(fill), dl, bits, pos);
            if ZDIST_EXTRA[z] == 0 then r == Ok(ZDIST_BASE[z], p)
            else
              var e := ReadBits(bits, p, ZDIST_EXTRA[z]);
              if e.Ok? then r == Ok(ZDIST_BASE[z] + e.value, e.pos) else r.Exhausted?
    ensures ReadDistance(Lenient(fill), dl, bits, pos).Ok? ==> ReadDistance(Lenient(fill), dl, bits, pos).pos >= p
    ensures ZDIST_EXTRA[z] <= 13
  {
    hide LsbBits, ReadSymbol;
    LsbEmpty(bits, p);
  }

  lemma NoDistance(fill: seq<Byte>, dl: seq<nat>, bits: seq<Digit>, pos: nat)
    requires ReadSymbol(dl, bits, pos).Invalid?
    ensures ReadDistance(Lenient(fill), dl, bits, pos).Invalid?
  {
    hide ReadSymbol;
  }

  /** Two bytes, low byte first, are a 16-bit element. */
  lemma HeaderWord(bits: seq<Digit>, pos: nat)
    requires pos + 16 <= |bits|
    ensures LsbBits(bits, pos, 16) == LsbBits(bits, pos + 8, 8) * 256 + LsbBits(bits, pos, 8)
    ensures LsbBits(bits, pos, 16) <= 0xFFFF
  {
    LsbAppend(bits, pos, 8, 8);
    LsbBound(bits, pos, 8);
    LsbBound(bits, pos + 8, 8);
    assert Pow2(8) == 256 by { Pow2Values(); }
    ShlValues(LsbBits(bits, pos + 8, 8));
  }

  /** memset on a run of entries. */
  method SetRange(a: array<nat>, from: nat, v: nat, count: nat)
    requires from + count <= a.Length
    modifies a
    ensures a[..from] == old(a[..from]) && a[from..from + count] == Repeat(v, count)
  {
    for i := 0 to count
      invariant a[..from] == old(a[..from])
      invariant forall k | from <= k < from + i :: a[k] == v
    {
      a[from + i] := v;
    }
  }

  /** Dropping the odd buffered bits moves to the next byte boundary. */
  lemma AlignBuffered(z: nat, n: nat)
    requires n <= 8 * z
    ensures AlignUp8(8 * z - n) == 8 * z - n + n % 8
    ensures (n - n % 8) % 8 == 0
  {
  }

  /** struct _ssfn__zbuf */
  class Decoder {
    const input: seq<Byte>
    ghost const bits: seq<Digit>
    var zbuffer: nat
    var numBits: nat
    var codeBuffer: nat
    const buffer: array<Byte>
    /** What the output buffer held at the start. */
    ghost const fill: seq<Byte>
    var zout: nat
    var zLength: Table
    var zDistance: Table

    constructor (input: seq<Byte>, buffer: array<Byte>)
      ensures this.input == input && this.buffer == buffer && bits == StreamBits(input)
      ensures Valid() && Pos() == 0 && fill == buffer[..]
      ensures zbuffer == 0 && zout == 0
    {
      StreamBitsOf(input);
      this.input := input;
      this.bits := StreamBits(input);
      this.buffer := buffer;
      fill := buffer[..];
      zbuffer, numBits, codeBuffer, zout := 0, 0, 0, 0;
      zLength := Table([], [], [], [], [], []);
      zDistance := Table([], [], [], [], [], []);
    }

    /** The position the decoder has reached in the stream. */
    ghost function Pos(): int
      reads this`zbuffer, this`numBits
    {
      8 * zbuffer - numBits
    }

    ghost predicate ReaderValid()
      reads this`zbuffer, this`numBits, this`codeBuffer
    {
      && BitsOf(input, bits)
      && zbuffer <= |input| && numBits <= 32 && numBits <= 8 * zbuffer
      && codeBuffer == LsbBits(bits, Pos(), numBits)
    }

    ghost function Out(): seq<Byte>
      requires zout <= buffer.Length
      reads this`zout, buffer
    {
      buffer[..zout]
    }

    ghost predicate Valid()
      reads this`zbuffer, this`numBits, this`codeBuffer, this`zout
    {
      ReaderValid() && zout <= buffer.Length && |fill| == buffer.Length
    }

    /** From o on the buffer is as it was at the start. */
    ghost predicate Untouched(o: nat)
      reads buffer
    {
      o <= buffer.Length == |fill| && buffer[o..] == fill[o..]
    }

    /** The rules by which the decoder reads: what a reserved distance copies lies in the buffer. */
    ghost function AsRead(): Rules {
      Lenient(fill)
    }

    /** _ssfn__fill_bits, called when at most 24 bits are buffered. */
    method FillBits() returns (ok: bool)
      requires ReaderValid() && numBits <= 24
      modifies this`zbuffer, this`numBits, this`codeBuffer
      ensures ReaderValid() && Pos() == old(Pos())
      ensures ok ==> numBits > 24
      ensures !ok ==> NearEnd(input, Pos())
    {
      hide LsbBits, Or, Shl;
      while true
        invariant ReaderValid() && Pos() == old(Pos()) && numBits <= 24
        decreases 32 - numBits
      {
        if zbuffer == |input| {
          return false;
        }
        assert ByteView(input, bits, zbuffer);
        AppendByte(bits, Pos(), numBits, input[zbuffer]);
        codeBuffer := Or(codeBuffer, Shl(input[zbuffer], numBits)) % 0x1_0000_0000;
        zbuffer := zbuffer + 1;
        numBits := numBits + 8;
        if numBits > 24 {
          return true;
        }
      }
    }

    /** Drop n buffered bits. */
    method Consume(n: nat)
      requires ReaderValid() && n <= numBits
      modifies this`numBits, this`codeBuffer
      ensures ReaderValid() && Pos() == old(Pos()) + n && numBits == old(numBits) - n
    {
      hide LsbBits, Shr, Low;
      LsbSplit(bits, Pos(), n, numBits);
      codeBuffer := Shr(codeBuffer, n);
      numBits := numBits - n;
    }

    /** _ssfn__zreceive: an n-bit data element. */
    method Receive(n: nat) returns (ok: bool, k: nat)
      requires ReaderValid() && n <= 16
      modifies this`zbuffer, this`numBits, this`codeBuffer
      ensures ReaderValid()
      ensures ok ==> ReadBits(bits, old(Pos()), n) == Ok(k, Pos())
      ensures !ok ==> Pos() == old(Pos()) && NearEnd(input, Pos())
    {
      hide LsbBits, Shr, Low, And, Shl, Pow2;
      k := 0;
      if numBits < n {
        ok := FillBits();
        if !ok {
          return;
        }
      }
      LsbSplit(bits, Pos(), n, numBits);
      AndMask(codeBuffer, n);
      ShlOne(n);
      k := And(codeBuffer, Shl(1, n) - 1);
      Consume(n);
      ok := true;
    }

    /** _ssfn__zhuffman_decode_slowpath: search by length from ten bits on. */
    method DecodeSlowPath(z: Table, ghost lens: seq<nat>) returns (v: int)
      requires ReaderValid() && numBits >= 16 && Represents(z, lens)
      requires forall s: nat | s < |lens| :: !ShortMatch(lens, s, codeBuffer)
      modifies this`numBits, this`codeBuffer
      ensures ReaderValid()
      ensures v == -1 ==> Pos() == old(Pos()) && ReadSymbol(lens, bits, old(Pos())).Invalid?
      ensures v != -1 ==> v >= 0 && ReadSymbol(lens, bits, old(Pos())) == Ok(v, Pos())
    {
      hide LsbBits, Shr, Reverse, FirstCode, SymbolsBefore;
      var k := BitReverseN(codeBuffer, 16);
      BitReverseNCorrect(codeBuffer, 16);
      var s := SearchLength(z, k, lens, codeBuffer);
      if s == 16 {
        NoMatchIsInvalid(lens, bits, Pos(), numBits);
        return -1;
      }
      assert LengthRow(z, lens, s);
      ghost var i := MatchBetweenLimits(lens, codeBuffer, s);
      var b := Shr(k, 16 - s) - z.firstcode[s] + z.firstsymbol[s];
      assert SymbolRow(z, lens, i);
      MatchIsSymbol(lens, bits, Pos(), numBits, i);
      Consume(s);
      v := z.value[b];
    }

    /** _ssfn__zhuffman_decode: one symbol, through the nine-bit table when it hits. */
    method Decode(z: Table, ghost lens: seq<nat>) returns (ok: bool, v: int)
      requires ReaderValid() && Represents(z, lens)
      modifies this`zbuffer, this`numBits, this`codeBuffer
      ensures ReaderValid()
      ensures !ok ==> Pos() == old(Pos()) && NearEnd(input, Pos())
      ensures ok && v == -1 ==> Pos() == old(Pos()) && ReadSymbol(lens, bits, old(Pos())).Invalid?
      ensures ok && v != -1 ==> v >= 0 && ReadSymbol(lens, bits, old(Pos())) == Ok(v, Pos())
    {
      hide LsbBits, And, Low;
      if numBits < 16 {
        ok := FillBits();
        if !ok {
          return false, 0;
        }
      }
      AndMask(codeBuffer, 9);
      assert Pow2(9) == 512 by { Pow2Values(); }
      FastHit(z, lens, codeBuffer);
      var b := z.fast[And(codeBuffer, 511)];
      if b != 0 {
        var s := b / 512;
        v := b % 512;
        MatchIsSymbol(lens, bits, Pos(), numBits, v);
        Consume(s);
        return true, v;
      }
      v := DecodeSlowPath(z, lens);
      ok := true;
    }

    /** The shortcut of the copy for distance 1: repeat the last byte. */
    method CopyRun(o: nat, len: nat)
      requires 0 < o && o + len <= buffer.Length
      modifies buffer
      ensures buffer[..o + len] == CopyBack(old(buffer[..o]), 1, len)
      ensures buffer[o + len..] == old(buffer[o + len..])
    {
      ghost var start := buffer[..o];
      var q, k, v := o, len, buffer[o - 1];
      while k > 0
        invariant 0 <= k <= len && q == o + len - k
        invariant buffer[..q] == CopyBack(start, 1, len - k)
        invariant buffer[q - 1] == v
        invariant buffer[o + len..] == old(buffer[o + len..])
      {
        buffer[q] := v;
        assert buffer[..q + 1] == buffer[..q] + [v];
        q, k := q + 1, k - 1;
      }
    }

    /** The byte-by-byte copy, whose source may run into the bytes it writes, or be those bytes for distance 0. */
    method CopyBytes(o: nat, dist: nat, len: nat)
      requires dist <= o && o + len <= buffer.Length
      modifies buffer
      ensures dist > 0 ==> buffer[..o + len] == CopyBack(old(buffer[..o]), dist, len)
      ensures dist == 0 ==> buffer[..] == old(buffer[..])
      ensures buffer[o + len..] == old(buffer[o + len..])
    {
      ghost var start := buffer[..o];
      var p, q, k := o - dist, o, len;
      while k > 0
        invariant 0 <= k <= len && q == o + len - k && p == q - dist
        invariant dist > 0 ==> buffer[..q] == CopyBack(start, dist, len - k)
        invariant dist == 0 ==> buffer[..] == old(buffer[..])
        invariant buffer[o + len..] == old(buffer[o + len..])
      {
        ghost var done := buffer[..q];
        buffer[q] := buffer[p];
        assert buffer[..q] == done;
        assert buffer[..q + 1] == done + [buffer[q]];
        p, q, k := p + 1, q + 1, k - 1;
      }
    }

    /** Both branches of the copy extend the output as the rules say and write nothing behind it. */
    method Copy(o: nat, dist: nat, len: nat)
      requires dist <= o && o + len <= buffer.Length && Untouched(o)
      modifies buffer
      ensures buffer[..o + len] == Extended(AsRead(), old(buffer[..o]), dist, len) && Untouched(o + len)
    {
      ghost var rest := buffer[o..];
      if dist == 1 {
        CopyRun(o, len);
      } else {
        CopyBytes(o, dist, len);
      }
      assert rest == fill[o..];
      StillUntouched(rest, o, len);
      if dist == 0 {
        assert buffer[..o + len] == old(buffer[..o]) + rest[..len];
        assert rest[..len] == FillAt(fill, o, len);
      }
    }

    lemma StillUntouched(rest: seq<Byte>, o: nat, len: nat)
      requires o + len <= |fill| && rest == fill[o..]
      ensures rest[len..] == fill[o + len..]
    {
    }

    // ----- Compressed blocks ---------------------------------------------------------

    /** The length of a match: table base plus extra bits. Reserved symbols give length 0, as the padded tables do. */
    method MatchLength(sym: nat) returns (ok: bool, len: nat)
      requires ReaderValid() && 257 <= sym < 288
      modifies this`zbuffer, this`numBits, this`codeBuffer
      ensures ReaderValid() && Pos() >= old(Pos())
      ensures ok ==> ReadLength(AsRead(), sym, bits, old(Pos())) == Ok(len, Pos())
      ensures sym > 285 ==> ok
      ensures !ok ==> Pos() == old(Pos()) && NearEnd(input, Pos())
    {
      hide LsbBits;
      var z := sym - 257;
      len := ZLENGTH_BASE[z];
      LsbEmpty(bits, Pos());
      ok := true;
      if ZLENGTH_EXTRA[z] != 0 {
        var k;
        ok, k := Receive(ZLENGTH_EXTRA[z]);
        len := len + k;
      }
    }

    /** The distance of a match. Reserved symbols give distance 0. */
    method MatchDistance(ghost dl: seq<nat>) returns (st: Status, dist: nat)
      requires ReaderValid() && Represents(zDistance, dl) && |dl| <= 32
      modifies this`zbuffer, this`numBits, this`codeBuffer
      ensures ReaderValid() && Pos() >= old(Pos())
      ensures var r := ReadDistance(AsRead(), dl, bits, old(Pos()));
              match st
              case Done => r == Ok(dist, Pos())
              case Corrupt => r.Invalid?
              case Overrun => NearEnd(input, Pos()) && (r.Ok? ==> r.pos >= Pos())
              case NoRoom => false
    {
      hide LsbBits, ReadSymbol, Represents, ReadDistance, ReadBits;
      ghost var pos := Pos();
      var ok, z := Decode(zDistance, dl);
      if !ok {
        return Overrun, 0;
      }
      if z < 0 {
        NoDistance(fill, dl, bits, pos);
        return Corrupt, 0;
      }
      dist := ZDIST_BASE[z];
      DistanceFrom(fill, dl, bits, pos, z, Pos());
      if ZDIST_EXTRA[z] != 0 {
        var k;
        ok, k := Receive(ZDIST_EXTRA[z]);
        if !ok {
          return Overrun, 0;
        }
        dist := dist + k;
      }
      st := Done;
    }

    /** A match: length, distance, the checks, and the copy. */
    method ParseMatch(sym: nat, o: nat, ghost dl: seq<nat>) returns (st: Status, o': nat)
      requires ReaderValid() && o <= buffer.Length && 257 <= sym < 288 && Untouched(o)
      requires Represents(zDistance, dl) && |dl| <= 32
      modifies this`zbuffer, this`numBits, this`codeBuffer, buffer
      ensures ReaderValid() && o' <= buffer.Length && Pos() >= old(Pos()) && (st.Done? ==> Untouched(o'))
      ensures Agrees(ReadMatch(AsRead(), sym, dl, bits, old(Pos()), old(buffer[..o])), st, input, buffer.Length,
                     buffer[..o'], Pos())
    {
      hide LsbBits, ReadSymbol, Represents, ReadDistance, ReadLength, CopyBack, Extended;
      o' := o;
      var ok, len := MatchLength(sym);
      if !ok {
        return Overrun, o;
      }
      var dist;
      st, dist := MatchDistance(dl);
      if !st.Done? {
        return;
      }
      if o < dist {
        return Corrupt, o;
      }
      if o + len > buffer.Length {
        return NoRoom, o;
      }
      Copy(o, dist, len);
      o' := o + len;
    }

    /** _ssfn__parse_huffman_block */
    method ParseHuffmanBlock(ghost ll: seq<nat>, ghost dl: seq<nat>) returns (st: Status)
      requires Valid() && Represents(zLength, ll) && |ll| <= 288 && Represents(zDistance, dl) && |dl| <= 32
      requires Untouched(zout)
      modifies this`zbuffer, this`numBits, this`codeBuffer, this`zout, buffer
      ensures Valid() && Pos() >= old(Pos()) && (st.Done? ==> Untouched(zout))
      ensures Agrees(BlockData(AsRead(), ll, dl, bits, old(Pos()), old(Out())), st, input, buffer.Length, Out(), Pos())
    {
      hide LsbBits, ReadSymbol, Represents, ReadMatch;
      var o: nat := zout;
      ghost var whole := BlockData(AsRead(), ll, dl, bits, Pos(), Out());
      while true
        invariant Valid() && Untouched(o) && Pos() >= old(Pos())
        invariant BlockData(AsRead(), ll, dl, bits, Pos(), buffer[..o]) == whole
        decreases 8 * |input| - Pos()
      {
        ghost var out := buffer[..o];
        var ok, z := Decode(zLength, ll);
        if !ok {
          return Overrun;
        }
        if z < 256 {
          if z < 0 {
            return Corrupt;
          }
          if o >= buffer.Length {
            return NoRoom;
          }
          buffer[o] := z;
          o := o + 1;
          assert buffer[..o] == out + [z];
        } else {
          if z == 256 {
            zout := o;
            return Done;
          }
          st, o := ParseMatch(z, o, dl);
          if !st.Done? {
            return;
          }
        }
      }
    }

    // ----- Dynamic codes --------------------------------------------------------------

    /** The code length sizes, in transmission order. */
    method ReceiveCodeLengthSizes(hclen: nat) returns (ok: bool, sizes: seq<nat>)
      requires ReaderValid() && hclen <= 19
      modifies this`zbuffer, this`numBits, this`codeBuffer
      ensures ReaderValid() && Pos() >= old(Pos())
      ensures ok ==> ReadCodeLengthCode(bits, old(Pos()), hclen) == Ok(sizes, Pos())
      ensures !ok ==> NearEnd(input, Pos())
      ensures !ok ==> var r := ReadCodeLengthCode(bits, old(Pos()), hclen); r.Ok? ==> r.pos >= Pos()
    {
      hide LsbBits, KraftSum;
      ghost var start := Pos();
      sizes := seq(19, _ => 0);
      for i := 0 to hclen
        invariant ReaderValid() && start <= Pos()
        invariant ReadCodeLengthCode(bits, start, i) == Ok(sizes, Pos())
      {
        var s;
        ok, s := Receive(3);
        if !ok {
          CodeLengthCodePrefix(bits, start, i, hclen);
          return;
        }
        sizes := sizes[LENGTH_ORDER[i] := s];
      }
      ok := true;
    }

    /** The repeat count and fill value for symbols 16 to 18, when n lengths are known. */
    method ReceiveRun(c: nat, lencodes: array<nat>, n: nat) returns (st: Status, fill: nat, count: nat)
      requires ReaderValid() && c >= 16 && n <= lencodes.Length
      modifies this`zbuffer, this`numBits, this`codeBuffer
      ensures ReaderValid() && Pos() >= old(Pos())
      ensures var r := ReadRun(c, bits, old(Pos()), lencodes[..n]);
              match st
              case Done => r == Ok((fill, count), Pos())
              case Corrupt => r.Invalid?
              case Overrun => NearEnd(input, Pos()) && (r.Ok? ==> r.pos >= Pos())
              case NoRoom => false
    {
      hide LsbBits;
      fill := 0;
      var ok;
      if c == 16 {
        ok, count := Receive(2);
        if !ok {
          return Overrun, 0, 0;
        }
        count := count + 3;
        if n == 0 {
          return Corrupt, 0, 0;
        }
        fill := lencodes[n - 1];
      } else if c == 17 {
        ok, count := Receive(3);
        if !ok {
          return Overrun, 0, 0;
        }
        count := count + 3;
      } else {
        ok, count := Receive(7);
        if !ok {
          return Overrun, 0, 0;
        }
        count := count + 11;
      }
      st := Done;
    }

    /** The loop that expands run-length-coded code lengths into lencodes. */
    method ExpandLengths(z: Table, ghost cl: seq<nat>, ntot: nat, lencodes: array<nat>) returns (st: Status)
      requires ReaderValid() && Represents(z, cl) && |cl| == 19 && ntot <= lencodes.Length
      modifies this`zbuffer, this`numBits, this`codeBuffer, lencodes
      ensures ReaderValid() && Pos() >= old(Pos())
      ensures var r := ReadCodeLengths(cl, bits, old(Pos()), ntot, []);
              match st
              case Done => r == Ok(lencodes[..ntot], Pos())
              case Corrupt => r.Invalid?
              case Overrun => NearEnd(input, Pos()) && (r.Ok? ==> r.pos >= Pos())
              case NoRoom => false
    {
      hide LsbBits, KraftSum, ReadSymbol, ReadRun, Represents;
      ghost var whole := ReadCodeLengths(cl, bits, Pos(), ntot, []);
      var n: nat := 0;
      while n < ntot
        invariant ReaderValid() && n <= ntot && Pos() >= old(Pos())
        invariant ReadCodeLengths(cl, bits, Pos(), ntot, lencodes[..n]) == whole
        decreases 8 * |input| - Pos()
      {
        ghost var acc := lencodes[..n];
        var ok, c := Decode(z, cl);
        if !ok {
          return Overrun;
        }
        if c < 0 || c >= 19 {
          return Corrupt;
        }
        if c < 16 {
          lencodes[n] := c;
          n := n + 1;
          assert lencodes[..n] == acc + [c];
        } else {
          var fill, count;
          st, fill, count := ReceiveRun(c, lencodes, n);
          if !st.Done? {
            return;
          }
          if ntot - n < count {
            return Corrupt;
          }
          SetRange(lencodes, n, fill, count);
          n := n + count;
          assert lencodes[..n] == acc + Repeat(fill, count);
        }
      }
      st := Done;
    }

    method ReceiveCounts() returns (ok: bool, hlit: nat, hdist: nat, hclen: nat)
      requires ReaderValid()
      modifies this`zbuffer, this`numBits, this`codeBuffer
      ensures ReaderValid() && Pos() >= old(Pos())
      ensures ok ==> ReadCounts(bits, old(Pos())) == Ok((hlit, hdist, hclen), Pos())
      ensures !ok ==> NearEnd(input, Pos()) && Pos() <= old(Pos()) + 14
    {
      hide LsbBits;
      hdist, hclen := 0, 0;
      ok, hlit := Receive(5);
      if ok {
        ok, hdist := Receive(5);
      }
      if ok {
        ok, hclen := Receive(4);
      }
    }

    /** The start of _ssfn__compute_huffman_codes, up to the code length table. */
    method ParseHeader() returns (st: Status, nl: nat, nd: nat, z: Table, ghost cl: seq<nat>)
      requires ReaderValid()
      modifies this`zbuffer, this`numBits, this`codeBuffer
      ensures ReaderValid() && Pos() >= old(Pos())
      ensures var r := ReadHeader(bits, old(Pos()));
              match st
              case Done => r == Ok(Header(nl, nd, cl), Pos()) && Represents(z, cl)
              case Corrupt => r.Invalid?
              case Overrun => NearEnd(input, Pos()) && (r.Ok? ==> r.pos >= Pos())
              case NoRoom => false
    {
      hide LsbBits, KraftSum;
      var ok, hlit, hdist, hclen := ReceiveCounts();
      nl, nd, cl := hlit + 257, hdist + 1, [];
      z := Table([], [], [], [], [], []);
      st := Overrun;
      if ok {
        var sizes;
        ok, sizes := ReceiveCodeLengthSizes(hclen + 4);
        if ok {
          cl := sizes;
          ok, z := BuildHuffman(sizes);
          st := if ok then Done else Corrupt;
        }
      }
    }

    /** Both tables from the code lengths, the first nl of them for literals and lengths. */
    method BuildTables(lens: seq<nat>, nl: nat) returns (ok: bool)
      requires nl <= |lens| && nl <= 288 && |lens| - nl <= 32 && CodeLengths(lens)
      modifies this`zLength, this`zDistance
      ensures ok <==> Kraft(lens[..nl]) && Kraft(lens[nl..])
      ensures ok ==> Represents(zLength, lens[..nl]) && Represents(zDistance, lens[nl..])
    {
      hide KraftSum, Represents;
      ok, zLength := BuildHuffman(lens[..nl]);
      if ok {
        ok, zDistance := BuildHuffman(lens[nl..]);
      }
    }

    /** _ssfn__compute_huffman_codes */
    method ComputeHuffmanCodes() returns (st: Status, ghost ll: seq<nat>, ghost dl: seq<nat>)
      requires ReaderValid()
      modifies this`zbuffer, this`numBits, this`codeBuffer, this`zLength, this`zDistance
      ensures ReaderValid() && Pos() >= old(Pos())
      ensures var r := ReadCodes(bits, old(Pos()));
              match st
              case Done => r == Ok((ll, dl), Pos()) && Represents(zLength, ll) && |ll| <= 288
                           && Represents(zDistance, dl) && |dl| <= 32
              case Corrupt => r.Invalid?
              case Overrun => NearEnd(input, Pos()) && (r.Ok? ==> r.pos >= Pos())
              case NoRoom => false
    {
      hide LsbBits, KraftSum, Kraft, Represents, ReadCodeLengths, ReadHeader;
      ll, dl := [], [];
      var nl, nd, z;
      ghost var cl;
      st, nl, nd, z, cl := ParseHeader();
      if st.Done? {
        var lencodes := new nat[286 + 32 + 137];
        st := ExpandLengths(z, cl, nl + nd, lencodes);
        if st.Done? {
          var lens := lencodes[..nl + nd];
          var ok := BuildTables(lens, nl);
          ll, dl := lens[..nl], lens[nl..];
          st := if ok then Done else Corrupt;
        }
      }
    }

    // ----- Stored blocks ---------------------------------------------------------------

    /** One byte out of the bit buffer. */
    method TakeByte() returns (b: nat)
      requires ReaderValid() && numBits >= 8
      modifies this`numBits, this`codeBuffer
      ensures ReaderValid() && Pos() == old(Pos()) + 8 && numBits == old(numBits) - 8
      ensures b == LsbBits(bits, old(Pos()), 8)
    {
      hide Low, Shr, And, LsbBits;
      AndMask(codeBuffer, 8);
      assert Pow2(8) == 256 by { Pow2Values(); }
      LsbSplit(bits, Pos(), 8, numBits);
      b := And(codeBuffer, 255);
      Consume(8);
    }

    /** The header bytes still in the bit buffer. */
    method DrainBuffer() returns (header: seq<nat>)
      requires ReaderValid()
      modifies this`numBits, this`codeBuffer
      ensures ReaderValid() && numBits == 0 && |header| <= 4
      ensures Pos() == AlignUp8(old(Pos())) + 8 * |header|
      ensures forall i | 0 <= i < |header| :: header[i] == LsbBits(bits, AlignUp8(old(Pos())) + 8 * i, 8)
    {
      hide LsbBits, ByteView;
      ghost var p := AlignUp8(Pos());
      AlignBuffered(zbuffer, numBits);
      if numBits % 8 != 0 {
        Consume(numBits % 8);  // _ssfn__zreceive with the bits already buffered, result unused
      }
      header := [];
      while numBits > 0
        invariant ReaderValid() && numBits % 8 == 0 && Pos() == p + 8 * |header|
        invariant |header| <= 4 && 8 * |header| + numBits <= 32
        invariant forall i | 0 <= i < |header| :: header[i] == LsbBits(bits, p + 8 * i, 8)
        decreases numBits
      {
        AlignBuffered(zbuffer, numBits);
        var b := TakeByte();
        header := header + [b];
      }
    }

    /** The four header bytes: those still buffered first, the rest from the input. */
    method StoredHeader() returns (ok: bool, header: seq<nat>)
      requires ReaderValid()
      modifies this`zbuffer, this`numBits, this`codeBuffer
      ensures ReaderValid() && Pos() >= old(Pos())
      ensures ok ==> numBits == 0 && |header| == 4 && AlignUp8(old(Pos())) + 32 == Pos()
      ensures ok ==> forall i | 0 <= i < 4 :: header[i] == LsbBits(bits, AlignUp8(old(Pos())) + 8 * i, 8)
      ensures !ok ==> AlignUp8(old(Pos())) + 32 > |bits|
    {
      hide LsbBits;
      ghost var p := AlignUp8(Pos());
      header := DrainBuffer();
      ok := true;
      while ok && |header| < 4
        invariant ReaderValid() && numBits == 0 && Pos() == p + 8 * |header| && |header| <= 4
        invariant forall i | 0 <= i < |header| :: header[i] == LsbBits(bits, p + 8 * i, 8)
        invariant !ok ==> p + 32 > |bits|
        decreases ok, 4 - |header|
      {
        if zbuffer == |input| {
          ok := false;
        } else {
          assert ByteView(input, bits, zbuffer);
          header := header + [input[zbuffer]];
          zbuffer := zbuffer + 1;
          codeBuffer := 0;
          LsbEmpty(bits, Pos());
        }
      }
    }

    /** _ssfn__parse_uncompressed_block */
    method ParseUncompressedBlock() returns (st: Status)
      requires Valid() && Untouched(zout)
      modifies this`zbuffer, this`numBits, this`codeBuffer, this`zout, buffer
      ensures Valid() && Pos() >= old(Pos()) && (st.Done? ==> Untouched(zout))
      ensures Agrees(StoredBlock(bits, old(Pos()), old(Out())), st, input, buffer.Length, Out(), Pos())
    {
      hide LsbBits;
      var ok, header := StoredHeader();
      if !ok {
        return Overrun;
      }
      ghost var p := AlignUp8(old(Pos()));
      var len := header[1] * 256 + header[0];
      var nlen := header[3] * 256 + header[2];
      HeaderWord(bits, p);
      HeaderWord(bits, p + 16);
      if nlen != 0xFFFF - len {
        return Corrupt;
      }
      if zout + len > buffer.Length {
        return NoRoom;
      }
      st := CopyStored(len);
    }

    /** The copy loop of a stored block. */
    method CopyStored(len: nat) returns (st: Status)
      requires Valid() && numBits == 0 && zout + len <= buffer.Length && Untouched(zout)
      modifies this`zbuffer, this`zout, buffer
      ensures Valid() && (st.Done? ==> Untouched(zout))
      ensures st.Done? || st.Overrun?
      ensures st.Overrun? ==> old(Pos()) + 8 * len > |bits| && Pos() == old(Pos())
      ensures st.Done? ==>
                && old(Pos()) + 8 * len == Pos() <= |bits|
                && Out() == old(Out()) + BytesAt(bits, old(Pos()), len)
    {
      hide LsbBits;
      ghost var p := Pos();
      for k := 0 to len
        invariant zbuffer == old(zbuffer) && zout == old(zout) && Pos() == p
        invariant p + 8 * k <= |bits|
        invariant buffer[..zout + k] == old(Out()) + BytesAt(bits, p, k) && Untouched(zout + k)
      {
        if zbuffer + k >= |input| {
          return Overrun;
        }
        assert ByteView(input, bits, zbuffer + k);
        buffer[zout + k] := input[zbuffer + k];
        assert buffer[..zout + k + 1] == buffer[..zout + k] + [input[zbuffer + k]];
      }
      LsbEmpty(bits, p);
      zbuffer := zbuffer + len;
      zout := zout + len;
      LsbEmpty(bits, Pos());
      st := Done;
    }

    // ----- The stream -------------------------------------------------------------------

    /** The tables of the block kinds 1 and 2. */
    method PrepareTables(kind: nat) returns (st: Status, ghost ll: seq<nat>, ghost dl: seq<nat>)
      requires ReaderValid() && (kind == 1 || kind == 2)
      modifies this`zbuffer, this`numBits, this`codeBuffer, this`zLength, this`zDistance
      ensures ReaderValid() && Pos() >= old(Pos())
      ensures st.Done? ==> Represents(zLength, ll) && |ll| <= 288 && Represents(zDistance, dl) && |dl| <= 32
      ensures kind == 1 ==> st.Done? && Pos() == old(Pos()) && ll == FixedLengths() && dl == FixedDistances()
      ensures kind == 2 ==> var r := ReadCodes(bits, old(Pos()));
                            match st
                            case Done => r == Ok((ll, dl), Pos())
                            case Corrupt => r.Invalid?
                            case Overrun => NearEnd(input, Pos()) && (r.Ok? ==> r.pos >= Pos())
                            case NoRoom => false
    {
      hide LsbBits, KraftSum, Represents, Repeat;
      if kind == 1 {
        FixedCodesComplete();
        ll, dl := FixedLengths(), FixedDistances();
        var lens := FixedLengths() + FixedDistances();
        assert lens[..288] == FixedLengths() && lens[288..] == FixedDistances();
        var ok := BuildTables(lens, 288);
        st := if ok then Done else Corrupt;
      } else {
        st, ll, dl := ComputeHuffmanCodes();
      }
    }

    /** One block after its three header bits. */
    method ParseBlock(kind: nat) returns (st: Status)
      requires Valid() && kind < 4 && Untouched(zout)
      modifies this`zbuffer, this`numBits, this`codeBuffer, this`zout, this`zLength, this`zDistance, buffer
      ensures Valid() && Pos() >= old(Pos()) && (st.Done? ==> Untouched(zout))
      ensures Agrees(Block(AsRead(), kind, bits, old(Pos()), old(Out())), st, input, buffer.Length, Out(), Pos())
    {
      hide LsbBits, KraftSum, Represents;
      if kind == 0 {
        st := ParseUncompressedBlock();
      } else if kind == 3 {
        st := Corrupt;
      } else {
        ghost var ll, dl;
        st, ll, dl := PrepareTables(kind);
        if st.Done? {
          st := ParseHuffmanBlock(ll, dl);
        }
      }
    }

    method ReceiveBlockHeader() returns (ok: bool, fin: nat, kind: nat)
      requires ReaderValid()
      modifies this`zbuffer, this`numBits, this`codeBuffer
      ensures ReaderValid() && Pos() >= old(Pos())
      ensures ok ==> ReadBlockHeader(bits, old(Pos())) == Ok((fin, kind), Pos())
      ensures !ok ==> NearEnd(input, Pos()) && Pos() <= old(Pos()) + 3
    {
      hide LsbBits;
      kind := 0;
      ok, fin := Receive(1);
      if ok {
        ok, kind := Receive(2);
      }
    }

    /**
     _ssfn__parse_zlib, on every input: success means the output that the reference
     decoder reads under the lenient rules, corruption means an invalid stream, and
     the only other ends are too little padding and too small a buffer.
     */
    method ParseZlib() returns (st: Status)
      requires BitsOf(input, bits) && zbuffer == 0 && zout == 0 && fill == buffer[..]
      modifies this`zbuffer, this`numBits, this`codeBuffer, this`zout, this`zLength, this`zDistance, buffer
      ensures Valid()
      ensures Agrees(Stream(AsRead(), bits, 0, []), st, input, buffer.Length, Out(), Pos())
    {
      hide LsbBits, KraftSum, Represents, Block, ReadBlockHeader;
      numBits, codeBuffer := 0, 0;
      LsbEmpty(bits, 0);
      ghost var whole := Stream(AsRead(), bits, 0, []);
      assert Out() == [];
      while true
        invariant Valid() && Untouched(zout) && Stream(AsRead(), bits, Pos(), Out()) == whole
        decreases 8 * |input| - Pos()
      {
        var ok, fin, kind := ReceiveBlockHeader();
        if !ok {
          return Overrun;
        }
        st := ParseBlock(kind);
        if !st.Done? || fin == 1 {
          return;
        }
      }
    }
  }

  /** The reference result of a padded stream whose output fits the buffer. */
  ghost predicate Fits(r: Outcome<seq<Byte>>, input: seq<Byte>, room: nat) {
    r.Ok? && r.pos + 32 <= 8 * |input| && |r.value| <= room
  }

  /**
   The decoder as it is used. By the lenient rules it is exact on every stream; on
   a stream without reserved symbols that is the meaning RFC 1951 gives it.
   */
  method DecodePadded(input: seq<Byte>, buffer: array<Byte>) returns (st: Status, n: nat)
    modifies buffer
    ensures n <= buffer.Length
    ensures var r := Inflated(Lenient(old(buffer[..])), input);
            && (Fits(r, input, buffer.Length) ==> st.Done?) && (st.Done? ==> r.Ok? && buffer[..n] == r.value)
            && (st.Corrupt? ==> r.Invalid?)
    ensures var r := Inflated(Strict, input);
            && (Fits(r, input, buffer.Length) ==> st.Done?)
            && (st.Done? ==> r.Reserved? || (r.Ok? && buffer[..n] == r.value))
            && (st.Corrupt? ==> r.Reserved? || r.Invalid?)
  {
    StreamSame(buffer[..], StreamBits(input), 0, []);
    var a := new Decoder(input, buffer);
    st := a.ParseZlib();
    n := a.zout;
  }
}
