/** A stream of a stored and a fixed block with its output, element by element, and streams that are refused. */
module SampleStreams {
  import opened Bits
  import opened HuffmanSpec
  import opened Deflate
  import opened Inflate
  import opened StreamReading
  import opened DeflateTables

  // ----- A stored block and a fixed one --------------------------------------------------------

  /** The bytes 'h' and 'i' as they are, then 'a', and eleven bytes from distance 1; four bytes of padding. */
  const TWO_BLOCKS: seq<Byte> := [0x00, 0x02, 0x00, 0xFD, 0xFF, 0x68, 0x69, 0x4B, 0x44, 0x02, 0x00, 0, 0, 0, 0]

  lemma StoredRead(bits: seq<Digit>)
    requires |bits| == 120 && Spells(bits, 0, [0, 0, 0, 0, 0, 0, 0, 0])
    requires LsbBits(bits, 8, 8) == 0x02 && LsbBits(bits, 16, 8) == 0 && LsbBits(bits, 24, 8) == 0xFD
    requires LsbBits(bits, 32, 8) == 0xFF && LsbBits(bits, 40, 8) == 0x68 && LsbBits(bits, 48, 8) == 0x69
    ensures ReadBlockHeader(bits, 0) == Ok((0, 0), 3)
    ensures StoredBlock(bits, 3, []) == Ok([0x68, 0x69], 56)
  {
    hide LsbBits;
    LsbValue(bits, 0, 1);
    LsbValue(bits, 1, 2);
    HeaderWord(bits, 8);
    HeaderWord(bits, 24);
    TwoBytes(bits, 40);
    assert [] + BytesAt(bits, 40, 2) == [0x68, 0x69];
    hide BytesAt;
  }

  lemma TwoBytes(bits: seq<Digit>, pos: nat)
    requires pos + 16 <= |bits|
    requires 0 <= LsbBits(bits, pos, 8) < 256 && 0 <= LsbBits(bits, pos + 8, 8) < 256
    ensures BytesAt(bits, pos, 2) == [LsbBits(bits, pos, 8), LsbBits(bits, pos + 8, 8)]
  {
    hide LsbBits;
    assert BytesAt(bits, pos, 0) == [];
    assert BytesAt(bits, pos, 1) == [LsbBits(bits, pos, 8)];
  }

  lemma FixedRead(bits: seq<Digit>)
    requires |bits| == 120 && Spells(bits, 56, [1, 1, 0, 1, 0, 0, 1, 0]) && Spells(bits, 64, [0, 0, 1, 0, 0, 0, 1, 0])
    requires Spells(bits, 72, [0, 1, 0, 0, 0, 0, 0, 0])
    requires Spells(bits, 80, [0, 0, 0, 0, 0, 0, 0, 0])
    ensures ReadBlockHeader(bits, 56) == Ok((1, 1), 59)
    ensures ReadSymbol(FixedLengths(), bits, 59) == Ok(0x61, 67) && ReadSymbol(FixedLengths(), bits, 67) == Ok(265, 74)
    ensures ReadBits(bits, 74, 1) == Ok(0, 75) && ReadSymbol(FixedDistances(), bits, 75) == Ok(0, 80)
    ensures ReadSymbol(FixedLengths(), bits, 80) == Ok(256, 87)
  {
    hide MsbBits, LsbBits, Code, FixedLengths, FixedDistances, ReadSymbol;
    LsbValue(bits, 56, 1);
    LsbValue(bits, 57, 2);
    FixedCode(0x61);
    FixedCode(265);
    FixedCode(256);
    FixedDistanceCode(0);
    MsbValues(bits, 59);
    SymbolRead(FixedLengths(), bits, 59, 0x61);
    MsbValues(bits, 67);
    SymbolRead(FixedLengths(), bits, 67, 265);
    LsbValue(bits, 74, 1);
    MsbValues(bits, 75);
    SymbolRead(FixedDistances(), bits, 75, 0);
    MsbValues(bits, 80);
    SymbolRead(FixedLengths(), bits, 80, 256);
  }

  /** A copy from distance 1 repeats the last byte. */
  lemma {:induction false} CopyLast(out: seq<Byte>, c: Byte, len: nat)
    ensures CopyBack(out + [c], 1, len) == out + [c] + Repeated(c, len)
    decreases len
  {
    if len == 0 {
      assert Repeated(c, 0) == [];
    } else {
      CopyLast(out, c, len - 1);
      assert Repeated(c, len) == Repeated(c, len - 1) + [c];
      var r := CopyBack(out + [c], 1, len - 1);
      assert r[|r| - 1] == c;
    }
  }

  function Repeated(c: Byte, n: nat): (r: seq<Byte>)
    ensures |r| == n && forall i | 0 <= i < n :: r[i] == c
  {
    seq(n, _ => c)
  }

  const TWO_BLOCKS_OUTPUT: seq<Byte> := [0x68, 0x69] + Repeated(0x61, 12)

  lemma TwoBlocksRead(rules: Rules, bits: seq<Digit>)
    requires |bits| == 120
    requires ReadBlockHeader(bits, 0) == Ok((0, 0), 3) && StoredBlock(bits, 3, []) == Ok([0x68, 0x69], 56)
    requires ReadBlockHeader(bits, 56) == Ok((1, 1), 59)
    requires ReadSymbol(FixedLengths(), bits, 59) == Ok(0x61, 67) && ReadSymbol(FixedLengths(), bits, 67) == Ok(265, 74)
    requires ReadBits(bits, 74, 1) == Ok(0, 75) && ReadSymbol(FixedDistances(), bits, 75) == Ok(0, 80)
    requires ReadSymbol(FixedLengths(), bits, 80) == Ok(256, 87)
    ensures Stream(rules, bits, 0, []) == Ok(TWO_BLOCKS_OUTPUT, 87)
  {
    hide ReadSymbol, LsbBits, FixedLengths, FixedDistances, CopyBack, StoredBlock, ReadBlockHeader, Repeated;
    var ll, dl := FixedLengths(), FixedDistances();
    var hi: seq<Byte> := [0x68, 0x69];
    LsbEmpty(bits, 80);
    CopyLast(hi, 0x61, 11);
    assert hi + [0x61] + Repeated(0x61, 11) == TWO_BLOCKS_OUTPUT;
    assert ReadLength(rules, 265, bits, 74) == Ok(11, 75);
    assert ReadDistance(rules, dl, bits, 75) == Ok(1, 80);
    hide ReadLength, ReadDistance, ReadBits;
    LiteralStep(rules, ll, dl, bits, 59, hi, 0x61, 67);
    MatchStep(rules, ll, dl, bits, 67, hi + [0x61], 265, 74, 11, 75, 1, 80);
    EndStep(rules, ll, dl, bits, 80, TWO_BLOCKS_OUTPUT, 87);
    assert Block(rules, 1, bits, 59, hi) == Ok(TWO_BLOCKS_OUTPUT, 87);
    hide BlockData;
    assert Stream(rules, bits, 56, hi) == Ok(TWO_BLOCKS_OUTPUT, 87);
  }

  lemma TwoBlocksSpelled()
    ensures var bits := StreamBits(TWO_BLOCKS);
            && Spells(bits, 0, [0, 0, 0, 0, 0, 0, 0, 0])
            && Spells(bits, 56, [1, 1, 0, 1, 0, 0, 1, 0])
            && Spells(bits, 64, [0, 0, 1, 0, 0, 0, 1, 0])
            && Spells(bits, 72, [0, 1, 0, 0, 0, 0, 0, 0])
            && Spells(bits, 80, [0, 0, 0, 0, 0, 0, 0, 0])
  {
    hide StreamBits, Spells;
    ByteSpelled(TWO_BLOCKS, 0, 0x00, [0, 0, 0, 0, 0, 0, 0, 0]);
    ByteSpelled(TWO_BLOCKS, 7, 0x4B, [1, 1, 0, 1, 0, 0, 1, 0]);
    ByteSpelled(TWO_BLOCKS, 8, 0x44, [0, 0, 1, 0, 0, 0, 1, 0]);
    ByteSpelled(TWO_BLOCKS, 9, 0x02, [0, 1, 0, 0, 0, 0, 0, 0]);
    ByteSpelled(TWO_BLOCKS, 10, 0x00, [0, 0, 0, 0, 0, 0, 0, 0]);
  }

  lemma TwoBlocks(rules: Rules)
    ensures Inflated(rules, TWO_BLOCKS) == Ok(TWO_BLOCKS_OUTPUT, 87)
  {
    hide LsbBits, StreamBits, Spells, Stream;
    var bits := StreamBits(TWO_BLOCKS);
    TwoBlocksSpelled();
    LsbByte(TWO_BLOCKS, 1);
    LsbByte(TWO_BLOCKS, 2);
    LsbByte(TWO_BLOCKS, 3);
    LsbByte(TWO_BLOCKS, 4);
    LsbByte(TWO_BLOCKS, 5);
    LsbByte(TWO_BLOCKS, 6);
    StoredRead(bits);
    FixedRead(bits);
    TwoBlocksRead(rules, bits);
  }

  method DecodeTwoBlocks(buffer: array<Byte>) returns (st: Status, n: nat)
    requires 14 <= buffer.Length
    modifies buffer
    ensures st.Done? && n == 14 && buffer[0] == 0x68 && buffer[1] == 0x69 && forall i | 2 <= i < 14 :: buffer[i] == 0x61
  {
    hide Inflated;
    TwoBlocks(Lenient(buffer[..]));
    st, n := DecodePadded(TWO_BLOCKS, buffer);
    assert forall i | 0 <= i < n :: buffer[i] == buffer[..n][i];
  }

  // ----- Refused streams ------------------------------------------------------------------------

  /** Block kind 3. */
  const BAD_KIND: seq<Byte> := [0x07, 0, 0, 0, 0]

  /** A stored block of one byte whose length is not followed by its complement. */
  const BAD_LENGTH: seq<Byte> := [0x01, 0x01, 0, 0xFE, 0xFE, 0x68, 0, 0, 0, 0]

  /** A fixed block that starts with a copy from distance 1. */
  const TOO_FAR: seq<Byte> := [0x03, 0x02, 0, 0, 0, 0]

  lemma BadKind(rules: Rules)
    ensures Inflated(rules, BAD_KIND).Invalid?
  {
    hide LsbBits, StreamBits, Spells;
    var bits := StreamBits(BAD_KIND);
    ByteSpelled(BAD_KIND, 0, 0x07, [1, 1, 1, 0, 0, 0, 0, 0]);
    HeaderIs(bits, 1, 1, 1);
  }

  lemma HeaderIs(bits: seq<Digit>, a: Digit, b: Digit, c: Digit)
    requires |bits| >= 8 && Spells(bits, 0, [a, b, c, 0, 0, 0, 0, 0])
    ensures ReadBlockHeader(bits, 0) == Ok((a, b + 2 * (c as nat)), 3)
  {
    hide LsbBits;
    LsbValue(bits, 0, 1);
    LsbValue(bits, 1, 2);
  }

  lemma BadLength(rules: Rules)
    ensures Inflated(rules, BAD_LENGTH).Invalid?
  {
    hide LsbBits, StreamBits, Spells;
    var bits := StreamBits(BAD_LENGTH);
    ByteSpelled(BAD_LENGTH, 0, 0x01, [1, 0, 0, 0, 0, 0, 0, 0]);
    HeaderIs(bits, 1, 0, 0);
    LsbByte(BAD_LENGTH, 1);
    LsbByte(BAD_LENGTH, 2);
    LsbByte(BAD_LENGTH, 3);
    LsbByte(BAD_LENGTH, 4);
    HeaderWord(bits, 8);
    HeaderWord(bits, 24);
    assert StoredBlock(bits, 3, []).Invalid?;
  }

  lemma TooFar(rules: Rules)
    ensures Inflated(rules, TOO_FAR).Invalid?
  {
    hide LsbBits, StreamBits, Spells, FixedLengths, FixedDistances, ReadSymbol;
    var bits := StreamBits(TOO_FAR);
    ByteSpelled(TOO_FAR, 0, 0x03, [1, 1, 0, 0, 0, 0, 0, 0]);
    ByteSpelled(TOO_FAR, 1, 0x02, [0, 1, 0, 0, 0, 0, 0, 0]);
    ByteSpelled(TOO_FAR, 2, 0, [0, 0, 0, 0, 0, 0, 0, 0]);
    HeaderIs(bits, 1, 1, 0);
    FirstMatch(bits);
    LsbEmpty(bits, 10);
    LsbEmpty(bits, 15);
    assert ReadLength(rules, 257, bits, 10) == Ok(3, 10);
    assert ReadDistance(rules, FixedDistances(), bits, 10) == Ok(1, 15);
    assert BlockData(rules, FixedLengths(), FixedDistances(), bits, 3, []).Invalid?;
  }

  lemma FirstMatch(bits: seq<Digit>)
    requires |bits| == 48 && Spells(bits, 0, [1, 1, 0, 0, 0, 0, 0, 0]) && Spells(bits, 8, [0, 1, 0, 0, 0, 0, 0, 0])
    requires Spells(bits, 16, [0, 0, 0, 0, 0, 0, 0, 0])
    ensures ReadSymbol(FixedLengths(), bits, 3) == Ok(257, 10) && ReadSymbol(FixedDistances(), bits, 10) == Ok(0, 15)
  {
    hide MsbBits, Code, FixedLengths, FixedDistances, ReadSymbol;
    FixedCode(257);
    FixedDistanceCode(0);
    MsbValues(bits, 3);
    SymbolRead(FixedLengths(), bits, 3, 257);
    MsbValues(bits, 10);
    SymbolRead(FixedDistances(), bits, 10, 0);
  }

  method RefuseThree(buffer: array<Byte>) returns (a: Status, b: Status, c: Status)
    modifies buffer
    ensures !a.Done? && !b.Done? && !c.Done?
  {
    hide Inflated;
    BadKind(Lenient(buffer[..]));
    var n;
    a, n := DecodePadded(BAD_KIND, buffer);
    BadLength(Lenient(buffer[..]));
    b, n := DecodePadded(BAD_LENGTH, buffer);
    TooFar(Lenient(buffer[..]));
    c, n := DecodePadded(TOO_FAR, buffer);
  }
}
