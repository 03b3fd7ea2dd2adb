/** A stream with the symbols that RFC 1951 reserves, which the decoder of ssfn.h accepts. */
module ReservedSymbols {
  import opened Bits
  import opened HuffmanSpec
  import opened Deflate
  import opened Inflate
  import opened StreamReading
  import opened DeflateTables

  // ----- The stream ----------------------------------------------------------------------------------

  /** A final block with the fixed codes: 286, 30, 257, 30 and the end of the block, then four bytes of padding. */
  const RESERVED: seq<Byte> := [0x1B, 0x7B, 0xC0, 0x07, 0, 0, 0, 0, 0]

  /** The symbols of the stream in order. */
  lemma ReservedRead(bits: seq<Digit>)
    requires |bits| == 72 && Spells(bits, 0, [1, 1, 0, 1, 1, 0, 0, 0]) && Spells(bits, 8, [1, 1, 0, 1, 1, 1, 1, 0])
    requires Spells(bits, 16, [0, 0, 0, 0, 0, 0, 1, 1])
    requires Spells(bits, 24, [1, 1, 1, 0, 0, 0, 0, 0]) && Spells(bits, 32, [0, 0, 0, 0, 0, 0, 0, 0])
    ensures ReadBlockHeader(bits, 0) == Ok((1, 1), 3)
    ensures ReadSymbol(FixedLengths(), bits, 3) == Ok(286, 11) && ReadSymbol(FixedDistances(), bits, 11) == Ok(30, 16)
    ensures ReadSymbol(FixedLengths(), bits, 16) == Ok(257, 23) && ReadSymbol(FixedDistances(), bits, 23) == Ok(30, 28)
    ensures ReadSymbol(FixedLengths(), bits, 28) == Ok(256, 35)
  {
    hide MsbBits, LsbBits, Code, FixedLengths, FixedDistances, ReadSymbol;
    LsbValue(bits, 0, 1);
    LsbValue(bits, 1, 2);
    FixedCode(286);
    FixedCode(257);
    FixedCode(256);
    FixedDistanceCode(30);
    MsbValues(bits, 3);
    SymbolRead(FixedLengths(), bits, 3, 286);
    MsbValues(bits, 11);
    SymbolRead(FixedDistances(), bits, 11, 30);
    MsbValues(bits, 16);
    SymbolRead(FixedLengths(), bits, 16, 257);
    MsbValues(bits, 23);
    SymbolRead(FixedDistances(), bits, 23, 30);
    MsbValues(bits, 28);
    SymbolRead(FixedLengths(), bits, 28, 256);
  }

  lemma ReservedSpelled()
    ensures var bits := StreamBits(RESERVED);
            && Spells(bits, 0, [1, 1, 0, 1, 1, 0, 0, 0])
            && Spells(bits, 8, [1, 1, 0, 1, 1, 1, 1, 0])
            && Spells(bits, 16, [0, 0, 0, 0, 0, 0, 1, 1])
            && Spells(bits, 24, [1, 1, 1, 0, 0, 0, 0, 0])
            && Spells(bits, 32, [0, 0, 0, 0, 0, 0, 0, 0])
  {
    hide StreamBits, Spells;
    ByteSpelled(RESERVED, 0, 0x1B, [1, 1, 0, 1, 1, 0, 0, 0]);
    ByteSpelled(RESERVED, 1, 0x7B, [1, 1, 0, 1, 1, 1, 1, 0]);
    ByteSpelled(RESERVED, 2, 0xC0, [0, 0, 0, 0, 0, 0, 1, 1]);
    ByteSpelled(RESERVED, 3, 0x07, [1, 1, 1, 0, 0, 0, 0, 0]);
    ByteSpelled(RESERVED, 4, 0x00, [0, 0, 0, 0, 0, 0, 0, 0]);
  }

  /**
   RFC 1951 gives the stream no meaning. By the lenient rules the first match
   appends nothing, and the second one three bytes of what the buffer holds.
   */
  lemma ReservedResult(fill: seq<Byte>)
    ensures Inflated(Strict, RESERVED).Reserved?
    ensures Inflated(Lenient(fill), RESERVED) == Ok(FillAt(fill, 0, 3), 35)
  {
    hide ReadSymbol, LsbBits, StreamBits, FillAt, FixedLengths, FixedDistances, Spells;
    var bits := StreamBits(RESERVED);
    ReservedSpelled();
    ReservedRead(bits);
    LsbEmpty(bits, 23);
    var out := FillAt(fill, 0, 3);
    assert ReadMatch(Strict, 286, FixedDistances(), bits, 11, []).Reserved?;
    assert [] + FillAt(fill, 0, 0) == [] && [] + out == out;
    assert ReadMatch(Lenient(fill), 286, FixedDistances(), bits, 11, []) == Ok([], 16);
    assert ReadMatch(Lenient(fill), 257, FixedDistances(), bits, 23, []) == Ok(out, 28);
    hide ReadMatch;
    assert BlockData(Lenient(fill), FixedLengths(), FixedDistances(), bits, 28, out) == Ok(out, 35);
    assert BlockData(Lenient(fill), FixedLengths(), FixedDistances(), bits, 16, []) == Ok(out, 35);
    assert BlockData(Lenient(fill), FixedLengths(), FixedDistances(), bits, 3, []) == Ok(out, 35);
    assert BlockData(Strict, FixedLengths(), FixedDistances(), bits, 3, []).Reserved?;
  }

  /** The decoder accepts it: the output are the first three bytes that lay in the buffer. */
  method DecodeReserved(buffer: array<Byte>) returns (st: Status, n: nat)
    requires 3 <= buffer.Length
    modifies buffer
    ensures Inflated(Strict, RESERVED).Reserved?
    ensures st.Done? && n == 3 && buffer[..3] == old(buffer[..3])
  {
    hide Inflated;
    ghost var fill := buffer[..];
    ReservedResult(fill);
    st, n := DecodePadded(RESERVED, buffer);
    assert FillAt(fill, 0, 3) == fill[..3];
  }
}
