/** The table-driven CRC-32 of the installer, against its bit-serial definition. */
module Crc32 {
  /** crc32_table, in rows of sixteen. */
  const TABLE: seq<seq<bv32>> := [
    [ 0x00000000, 0x77073096, 0xee0e612c, 0x990951ba, 0x076dc419, 0x706af48f, 0xe963a535, 0x9e6495a3,
      0x0edb8832, 0x79dcb8a4, 0xe0d5e91e, 0x97d2d988, 0x09b64c2b, 0x7eb17cbd, 0xe7b82d07, 0x90bf1d91 ],
    [ 0x1db71064, 0x6ab020f2, 0xf3b97148, 0x84be41de, 0x1adad47d, 0x6ddde4eb, 0xf4d4b551, 0x83d385c7,
      0x136c9856, 0x646ba8c0, 0xfd62f97a, 0x8a65c9ec, 0x14015c4f, 0x63066cd9, 0xfa0f3d63, 0x8d080df5 ],
    [ 0x3b6e20c8, 0x4c69105e, 0xd56041e4, 0xa2677172, 0x3c03e4d1, 0x4b04d447, 0xd20d85fd, 0xa50ab56b,
      0x35b5a8fa, 0x42b2986c, 0xdbbbc9d6, 0xacbcf940, 0x32d86ce3, 0x45df5c75, 0xdcd60dcf, 0xabd13d59 ],
    [ 0x26d930ac, 0x51de003a, 0xc8d75180, 0xbfd06116, 0x21b4f4b5, 0x56b3c423, 0xcfba9599, 0xb8bda50f,
      0x2802b89e, 0x5f058808, 0xc60cd9b2, 0xb10be924, 0x2f6f7c87, 0x58684c11, 0xc1611dab, 0xb6662d3d ],
    [ 0x76dc4190, 0x01db7106, 0x98d220bc, 0xefd5102a, 0x71b18589, 0x06b6b51f, 0x9fbfe4a5, 0xe8b8d433,
      0x7807c9a2, 0x0f00f934, 0x9609a88e, 0xe10e9818, 0x7f6a0dbb, 0x086d3d2d, 0x91646c97, 0xe6635c01 ],
    [ 0x6b6b51f4, 0x1c6c6162, 0x856530d8, 0xf262004e, 0x6c0695ed, 0x1b01a57b, 0x8208f4c1, 0xf50fc457,
      0x65b0d9c6, 0x12b7e950, 0x8bbeb8ea, 0xfcb9887c, 0x62dd1ddf, 0x15da2d49, 0x8cd37cf3, 0xfbd44c65 ],
    [ 0x4db26158, 0x3ab551ce, 0xa3bc0074, 0xd4bb30e2, 0x4adfa541, 0x3dd895d7, 0xa4d1c46d, 0xd3d6f4fb,
      0x4369e96a, 0x346ed9fc, 0xad678846, 0xda60b8d0, 0x44042d73, 0x33031de5, 0xaa0a4c5f, 0xdd0d7cc9 ],
    [ 0x5005713c, 0x270241aa, 0xbe0b1010, 0xc90c2086, 0x5768b525, 0x206f85b3, 0xb966d409, 0xce61e49f,
      0x5edef90e, 0x29d9c998, 0xb0d09822, 0xc7d7a8b4, 0x59b33d17, 0x2eb40d81, 0xb7bd5c3b, 0xc0ba6cad ],
    [ 0xedb88320, 0x9abfb3b6, 0x03b6e20c, 0x74b1d29a, 0xead54739, 0x9dd277af, 0x04db2615, 0x73dc1683,
      0xe3630b12, 0x94643b84, 0x0d6d6a3e, 0x7a6a5aa8, 0xe40ecf0b, 0x9309ff9d, 0x0a00ae27, 0x7d079eb1 ],
    [ 0xf00f9344, 0x8708a3d2, 0x1e01f268, 0x6906c2fe, 0xf762575d, 0x806567cb, 0x196c3671, 0x6e6b06e7,
      0xfed41b76, 0x89d32be0, 0x10da7a5a, 0x67dd4acc, 0xf9b9df6f, 0x8ebeeff9, 0x17b7be43, 0x60b08ed5 ],
    [ 0xd6d6a3e8, 0xa1d1937e, 0x38d8c2c4, 0x4fdff252, 0xd1bb67f1, 0xa6bc5767, 0x3fb506dd, 0x48b2364b,
      0xd80d2bda, 0xaf0a1b4c, 0x36034af6, 0x41047a60, 0xdf60efc3, 0xa867df55, 0x316e8eef, 0x4669be79 ],
    [ 0xcb61b38c, 0xbc66831a, 0x256fd2a0, 0x5268e236, 0xcc0c7795, 0xbb0b4703, 0x220216b9, 0x5505262f,
      0xc5ba3bbe, 0xb2bd0b28, 0x2bb45a92, 0x5cb36a04, 0xc2d7ffa7, 0xb5d0cf31, 0x2cd99e8b, 0x5bdeae1d ],
    [ 0x9b64c2b0, 0xec63f226, 0x756aa39c, 0x026d930a, 0x9c0906a9, 0xeb0e363f, 0x72076785, 0x05005713,
      0x95bf4a82, 0xe2b87a14, 0x7bb12bae, 0x0cb61b38, 0x92d28e9b, 0xe5d5be0d, 0x7cdcefb7, 0x0bdbdf21 ],
    [ 0x86d3d2d4, 0xf1d4e242, 0x68ddb3f8, 0x1fda836e, 0x81be16cd, 0xf6b9265b, 0x6fb077e1, 0x18b74777,
      0x88085ae6, 0xff0f6a70, 0x66063bca, 0x11010b5c, 0x8f659eff, 0xf862ae69, 0x616bffd3, 0x166ccf45 ],
    [ 0xa00ae278, 0xd70dd2ee, 0x4e048354, 0x3903b3c2, 0xa7672661, 0xd06016f7, 0x4969474d, 0x3e6e77db,
      0xaed16a4a, 0xd9d65adc, 0x40df0b66, 0x37d83bf0, 0xa9bcae53, 0xdebb9ec5, 0x47b2cf7f, 0x30b5ffe9 ],
    [ 0xbdbdf21c, 0xcabac28a, 0x53b39330, 0x24b4a3a6, 0xbad03605, 0xcdd70693, 0x54de5729, 0x23d967bf,
      0xb3667a2e, 0xc4614ab8, 0x5d681b02, 0x2a6f2b94, 0xb40bbe37, 0xc30c8ea1, 0x5a05df1b, 0x2d02ef8d ]]

  function Entry(i: nat): bv32
    requires i < 256
  {
    TABLE[i / 16][i % 16]
  }

  // ----- The bit-serial definition ---------------------------------------------------

  const POLYNOMIAL: bv32 := 0xEDB88320

  /** One bit through the reflected register. */
  function Step(c: bv32): bv32 {
    if c & 1 == 1 then (c >> 1) ^ POLYNOMIAL else c >> 1
  }

  function EightSteps(c: bv32): bv32 {
    Step(Step(Step(Step(Step(Step(Step(Step(c))))))))
  }

  function Xor(a: bv32, b: bv32): bv32 {
    a ^ b
  }

  /** The register after the bytes, from the given start. */
  function Serial(start: bv32, bytes: seq<bv8>): bv32 {
    if bytes == [] then start
    else EightSteps(Xor(Serial(start, bytes[..|bytes| - 1]), bytes[|bytes| - 1] as bv32))
  }

  /** Reflected CRC-32 with polynomial 0xEDB88320, all-ones start and final complement. */
  function SerialCrc(bytes: seq<bv8>): bv32 {
    Xor(Serial(0xFFFFFFFF, bytes), 0xFFFFFFFF)
  }

  // ----- The table ---------------------------------------------------------------------

  lemma Row0(x: bv32)
    requires x >> 4 == 0
    ensures (x as nat) / 16 == 0 && Entry(x as nat) == EightSteps(x)
  {
  }

  lemma Row1(x: bv32)
    requires x >> 4 == 1
    ensures (x as nat) / 16 == 1 && Entry(x as nat) == EightSteps(x)
  {
  }

  lemma Row2(x: bv32)
    requires x >> 4 == 2
    ensures (x as nat) / 16 == 2 && Entry(x as nat) == EightSteps(x)
  {
  }

  lemma Row3(x: bv32)
    requires x >> 4 == 3
    ensures (x as nat) / 16 == 3 && Entry(x as nat) == EightSteps(x)
  {
  }

  lemma Row4(x: bv32)
    requires x >> 4 == 4
    ensures (x as nat) / 16 == 4 && Entry(x as nat) == EightSteps(x)
  {
  }

  lemma Row5(x: bv32)
    requires x >> 4 == 5
    ensures (x as nat) / 16 == 5 && Entry(x as nat) == EightSteps(x)
  {
  }

  lemma Row6(x: bv32)
    requires x >> 4 == 6
    ensures (x as nat) / 16 == 6 && Entry(x as nat) == EightSteps(x)
  {
  }

  lemma Row7(x: bv32)
    requires x >> 4 == 7
    ensures (x as nat) / 16 == 7 && Entry(x as nat) == EightSteps(x)
  {
  }

  lemma Row8(x: bv32)
    requires x >> 4 == 8
    ensures (x as nat) / 16 == 8 && Entry(x as nat) == EightSteps(x)
  {
  }

  lemma Row9(x: bv32)
    requires x >> 4 == 9
    ensures (x as nat) / 16 == 9 && Entry(x as nat) == EightSteps(x)
  {
  }

  lemma Row10(x: bv32)
    requires x >> 4 == 10
    ensures (x as nat) / 16 == 10 && Entry(x as nat) == EightSteps(x)
  {
  }

  lemma Row11(x: bv32)
    requires x >> 4 == 11
    ensures (x as nat) / 16 == 11 && Entry(x as nat) == EightSteps(x)
  {
  }

  lemma Row12(x: bv32)
    requires x >> 4 == 12
    ensures (x as nat) / 16 == 12 && Entry(x as nat) == EightSteps(x)
  {
  }

  lemma Row13(x: bv32)
    requires x >> 4 == 13
    ensures (x as nat) / 16 == 13 && Entry(x as nat) == EightSteps(x)
  {
  }

  lemma Row14(x: bv32)
    requires x >> 4 == 14
    ensures (x as nat) / 16 == 14 && Entry(x as nat) == EightSteps(x)
  {
  }

  lemma Row15(x: bv32)
    requires x >> 4 == 15
    ensures (x as nat) / 16 == 15 && Entry(x as nat) == EightSteps(x)
  {
  }

  /** Entry i of the table is what eight steps make of i. */
  lemma TableEntry(x: bv32)
    requires x <= 0xFF
    ensures (x as nat) < 256 && Entry(x as nat) == EightSteps(x)
  {
    hide EightSteps, Entry;
    if x >> 4 == 0 {
      Row0(x);
    } else if x >> 4 == 1 {
      Row1(x);
    } else if x >> 4 == 2 {
      Row2(x);
    } else if x >> 4 == 3 {
      Row3(x);
    } else if x >> 4 == 4 {
      Row4(x);
    } else if x >> 4 == 5 {
      Row5(x);
    } else if x >> 4 == 6 {
      Row6(x);
    } else if x >> 4 == 7 {
      Row7(x);
    } else if x >> 4 == 8 {
      Row8(x);
    } else if x >> 4 == 9 {
      Row9(x);
    } else if x >> 4 == 10 {
      Row10(x);
    } else if x >> 4 == 11 {
      Row11(x);
    } else if x >> 4 == 12 {
      Row12(x);
    } else if x >> 4 == 13 {
      Row13(x);
    } else if x >> 4 == 14 {
      Row14(x);
    } else {
      assert x >> 4 == 15;
      Row15(x);
    }
  }

  predicate Odd(c: bv32) {
    c & 1 == 1
  }

  function Half(c: bv32): bv32 {
    c >> 1
  }

  lemma StepCases(c: bv32)
    ensures Step(c) == if Odd(c) then Xor(Half(c), POLYNOMIAL) else Half(c)
  {
  }

  lemma OddXor(a: bv32, b: bv32)
    ensures Odd(Xor(a, b)) <==> Odd(a) != Odd(b)
  {
  }

  lemma HalfXor(a: bv32, b: bv32)
    ensures Half(Xor(a, b)) == Xor(Half(a), Half(b))
  {
  }

  lemma XorCommutes(a: bv32, b: bv32)
    ensures Xor(a, b) == Xor(b, a)
  {
  }

  lemma XorAssociates(a: bv32, b: bv32, c: bv32)
    ensures Xor(Xor(a, b), c) == Xor(a, Xor(b, c))
  {
  }

  lemma XorCancels(a: bv32, b: bv32)
    ensures Xor(Xor(a, b), b) == a
  {
  }

  lemma XorLaws(a: bv32, b: bv32, p: bv32)
    ensures Xor(Xor(a, p), Xor(b, p)) == Xor(a, b)
    ensures Xor(Xor(a, b), p) == Xor(Xor(a, p), b) && Xor(Xor(a, b), p) == Xor(a, Xor(b, p))
  {
    hide Xor;
    XorAssociates(a, b, p);
    XorCommutes(b, p);
    XorAssociates(a, p, b);
    XorAssociates(Xor(a, p), b, p);
    XorCancels(Xor(a, b), p);
  }

  /** A step is linear over exclusive or. */
  lemma StepLinear(a: bv32, b: bv32)
    ensures Step(Xor(a, b)) == Xor(Step(a), Step(b))
  {
    hide Step, Xor, Odd, Half;
    StepCases(a);
    StepCases(b);
    StepCases(Xor(a, b));
    OddXor(a, b);
    HalfXor(a, b);
    XorLaws(Half(a), Half(b), POLYNOMIAL);
  }

  lemma EightLinear(a: bv32, b: bv32)
    ensures EightSteps(Xor(a, b)) == Xor(EightSteps(a), EightSteps(b))
  {
    hide Step, Xor;
    StepLinear(a, b);
    StepLinear(Step(a), Step(b));
    StepLinear(Step(Step(a)), Step(Step(b)));
    StepLinear(Step(Step(Step(a))), Step(Step(Step(b))));
    StepLinear(Step(Step(Step(Step(a)))), Step(Step(Step(Step(b)))));
    StepLinear(Step(Step(Step(Step(Step(a))))), Step(Step(Step(Step(Step(b))))));
    StepLinear(Step(Step(Step(Step(Step(Step(a)))))), Step(Step(Step(Step(Step(Step(b)))))));
    StepLinear(Step(Step(Step(Step(Step(Step(Step(a))))))), Step(Step(Step(Step(Step(Step(Step(b))))))));
  }

  lemma HighSteps(h: bv32)
    requires h & 0xFF == 0
    ensures EightSteps(h) == h >> 8
  {
  }

  function Rest(c: bv32): bv32 {
    c >> 8
  }

  function LowByte(c: bv32): bv32 {
    c & 0xFF
  }

  function HighBytes(c: bv32): bv32 {
    c & 0xFFFFFF00
  }

  lemma Halves(c: bv32)
    ensures c == Xor(HighBytes(c), LowByte(c)) && LowByte(c) <= 0xFF
  {
  }

  lemma HighWord(c: bv32)
    ensures HighBytes(c) & 0xFF == 0 && HighBytes(c) >> 8 == Rest(c)
  {
  }

  lemma HighHalf(c: bv32)
    ensures EightSteps(HighBytes(c)) == Rest(c)
  {
    hide EightSteps, HighBytes, Rest;
    HighWord(c);
    HighSteps(HighBytes(c));
  }

  /** Only the low byte meets the polynomial; the rest is shifted. */
  lemma ByteAtATime(c: bv32)
    ensures EightSteps(c) == Xor(Rest(c), EightSteps(LowByte(c)))
  {
    hide EightSteps, Xor, Rest, LowByte, HighBytes;
    Halves(c);
    HighHalf(c);
    EightLinear(HighBytes(c), LowByte(c));
  }

  lemma SameRest(c: bv32, b: bv8)
    ensures Rest(Xor(c, b as bv32)) == Rest(c)
  {
  }

  /** One round of crc32: a look-up does what eight bit-serial steps do. */
  lemma LookUp(c: bv32, b: bv8)
    ensures var x := LowByte(Xor(c, b as bv32));
            (x as nat) < 256 && Xor(Rest(c), Entry(x as nat)) == EightSteps(Xor(c, b as bv32))
  {
    hide EightSteps, Entry, Xor, Rest, LowByte, HighBytes;
    var y := Xor(c, b as bv32);
    SameRest(c, b);
    Halves(y);
    TableEntry(LowByte(y));
    ByteAtATime(y);
  }

  /** crc32: one table look-up per byte. */
  method Crc(bytes: seq<bv8>) returns (ret: bv32)
    ensures ret == SerialCrc(bytes)
  {
    hide EightSteps, Entry, Xor, Rest, LowByte;
    ret := 0xFFFFFFFF;
    for i := 0 to |bytes|
      invariant ret == Serial(0xFFFFFFFF, bytes[..i])
    {
      assert bytes[..i + 1][..i] == bytes[..i];
      LookUp(ret, bytes[i]);
      ret := Xor(Rest(ret), Entry(LowByte(Xor(ret, bytes[i] as bv32)) as nat));
    }
    assert bytes[..|bytes|] == bytes;
    ret := Xor(ret, 0xFFFFFFFF);
  }

  // ----- Differences that the checksum shows -------------------------------------------------

  lemma StepNonZero(c: bv32)
    ensures Step(c) == 0 <==> c == 0
  {
  }

  lemma EightNonZero(c: bv32)
    ensures EightSteps(c) == 0 <==> c == 0
  {
    hide Step;
    StepNonZero(c);
    StepNonZero(Step(c));
    StepNonZero(Step(Step(c)));
    StepNonZero(Step(Step(Step(c))));
    StepNonZero(Step(Step(Step(Step(c)))));
    StepNonZero(Step(Step(Step(Step(Step(c))))));
    StepNonZero(Step(Step(Step(Step(Step(Step(c)))))));
    StepNonZero(Step(Step(Step(Step(Step(Step(Step(c))))))));
  }

  lemma XorNone(a: bv32)
    ensures Xor(0, a) == a && Xor(a, a) == 0
  {
  }

  lemma XorZero(a: bv32, b: bv32)
    ensures Xor(a, b) == 0 <==> a == b
  {
    hide Xor;
    XorNone(a);
    XorNone(b);
    XorCancels(a, b);
  }

  /** Eight steps lose nothing: different registers stay different. */
  lemma EightInjective(a: bv32, b: bv32)
    ensures EightSteps(a) == EightSteps(b) <==> a == b
  {
    hide EightSteps, Xor;
    EightLinear(a, b);
    EightNonZero(Xor(a, b));
    XorZero(a, b);
    XorZero(EightSteps(a), EightSteps(b));
  }

  lemma SerialStep(c: bv32, bytes: seq<bv8>)
    requires bytes != []
    ensures Serial(c, bytes) == EightSteps(Xor(Serial(c, bytes[..|bytes| - 1]), bytes[|bytes| - 1] as bv32))
  {
  }

  lemma {:induction false} SerialJoin(c: bv32, a: seq<bv8>, b: seq<bv8>)
    ensures Serial(c, a + b) == Serial(Serial(c, a), b)
    decreases |b|
  {
    if b == [] {
      assert a + b == a;
    } else {
      hide EightSteps, Xor, Serial;
      var front := b[..|b| - 1];
      assert (a + b)[..|a + b| - 1] == a + front;
      SerialStep(c, a + b);
      SerialStep(Serial(c, a), b);
      SerialJoin(c, a, front);
    }
  }

  /** The bytes that follow keep different registers different. */
  lemma {:induction false} SerialInjective(a: bv32, b: bv32, bytes: seq<bv8>)
    ensures Serial(a, bytes) == Serial(b, bytes) <==> a == b
    decreases |bytes|
  {
    if bytes != [] {
      hide EightSteps, Xor, Serial;
      var front, x := bytes[..|bytes| - 1], bytes[|bytes| - 1] as bv32;
      SerialStep(a, bytes);
      SerialStep(b, bytes);
      EightInjective(Xor(Serial(a, front), x), Xor(Serial(b, front), x));
      XorCancels(Serial(a, front), x);
      XorCancels(Serial(b, front), x);
      SerialInjective(a, b, front);
    }
  }

  /** The register with four bytes in it, the first one lowest. */
  function Loaded(c: bv32, d: seq<bv8>): bv32
    requires |d| == 4
  {
    LoadedBytes(c, d[0], d[1], d[2], d[3])
  }

  function At8(b: bv8): bv32 {
    (b as bv32) << 8
  }

  function At16(b: bv8): bv32 {
    (b as bv32) << 16
  }

  function At24(b: bv8): bv32 {
    (b as bv32) << 24
  }

  /** A byte that waits above the low one moves down by eight steps. */
  lemma Waiting(b: bv8)
    ensures EightSteps(At8(b)) == b as bv32 && EightSteps(At16(b)) == At8(b) && EightSteps(At24(b)) == At16(b)
  {
    hide EightSteps;
    HighSteps(At8(b));
    HighSteps(At16(b));
    HighSteps(At24(b));
  }

  /** One byte after the other is the same as all four at once. */
  lemma FourAtOnce(c: bv32, d: seq<bv8>)
    requires |d| == 4
    ensures Serial(c, d) == EightSteps(EightSteps(EightSteps(EightSteps(Loaded(c, d)))))
  {
    hide EightSteps, Xor, Serial, At8, At16, At24;
    var x1 := Xor(c, d[0] as bv32);
    var x2 := Xor(x1, At8(d[1]));
    var x3 := Xor(x2, At16(d[2]));
    FourSerial(c, d);
    Waiting(d[1]);
    Waiting(d[2]);
    Waiting(d[3]);
    EightLinear(x1, At8(d[1]));
    EightLinear(x2, At16(d[2]));
    EightLinear(EightSteps(x2), At8(d[2]));
    EightLinear(x3, At24(d[3]));
    EightLinear(EightSteps(x3), At16(d[3]));
    EightLinear(EightSteps(EightSteps(x3)), At8(d[3]));
  }

  lemma FourSerial(c: bv32, d: seq<bv8>)
    requires |d| == 4
    ensures Serial(c, d) ==
            EightSteps(Xor(EightSteps(Xor(EightSteps(Xor(EightSteps(Xor(c, d[0] as bv32)), d[1] as bv32)),
                                          d[2] as bv32)), d[3] as bv32))
  {
    hide EightSteps, Xor, Serial;
    SerialStep(c, d);
    assert d[..3][..2] == d[..2] && d[..2][..1] == d[..1] && d[..1][..0] == [];
    SerialStep(c, d[..3]);
    SerialStep(c, d[..2]);
    SerialStep(c, d[..1]);
    SerialNone(c);
  }

  lemma SerialNone(c: bv32)
    ensures Serial(c, []) == c
  {
  }

  function Byte0(x: bv32): bv8 {
    (x & 0xFF) as bv8
  }

  function Byte1(x: bv32): bv8 {
    ((x >> 8) & 0xFF) as bv8
  }

  function Byte2(x: bv32): bv8 {
    ((x >> 16) & 0xFF) as bv8
  }

  function Byte3(x: bv32): bv8 {
    (x >> 24) as bv8
  }

  function LoadedBytes(c: bv32, d0: bv8, d1: bv8, d2: bv8, d3: bv8): bv32 {
    Xor(Xor(Xor(Xor(c, d0 as bv32), At8(d1)), At16(d2)), At24(d3))
  }

  lemma BytesIn(c: bv32, d0: bv8, d1: bv8, d2: bv8, d3: bv8)
    ensures var x := Xor(LoadedBytes(c, d0, d1, d2, d3), c);
            Byte0(x) == d0 && Byte1(x) == d1 && Byte2(x) == d2 && Byte3(x) == d3
  {
    hide Xor, At8, At16, At24, Byte0, Byte1, Byte2, Byte3;
    EachByte(c, d0, d1, d2, d3);
  }

  lemma EachByte(c: bv32, d0: bv8, d1: bv8, d2: bv8, d3: bv8)
    ensures var x := Xor(Xor(Xor(Xor(Xor(c, d0 as bv32), At8(d1)), At16(d2)), At24(d3)), c);
            Byte0(x) == d0 && Byte1(x) == d1 && Byte2(x) == d2 && Byte3(x) == d3
  {
  }

  /** The register tells which four bytes were loaded. */
  lemma LoadedInjective(c: bv32, d: seq<bv8>, e: seq<bv8>)
    requires |d| == 4 && |e| == 4 && Loaded(c, d) == Loaded(c, e)
    ensures d == e
  {
    hide LoadedBytes, Xor, Byte0, Byte1, Byte2, Byte3;
    BytesIn(c, d[0], d[1], d[2], d[3]);
    BytesIn(c, e[0], e[1], e[2], e[3]);
  }

  /** The checksum shows every difference within four bytes in a row, wherever they lie. */
  lemma BurstShown(p: seq<bv8>, d: seq<bv8>, e: seq<bv8>, z: seq<bv8>)
    requires |d| == 4 && |e| == 4
    ensures SerialCrc(p + d + z) == SerialCrc(p + e + z) <==> d == e
  {
    hide EightSteps, Xor, Serial, Loaded;
    var c := Serial(0xFFFFFFFF, p);
    SerialJoin(0xFFFFFFFF, p + d, z);
    SerialJoin(0xFFFFFFFF, p, d);
    SerialJoin(0xFFFFFFFF, p + e, z);
    SerialJoin(0xFFFFFFFF, p, e);
    XorCancels(Serial(0xFFFFFFFF, p + d + z), 0xFFFFFFFF);
    XorCancels(Serial(0xFFFFFFFF, p + e + z), 0xFFFFFFFF);
    SerialInjective(Serial(c, d), Serial(c, e), z);
    if Serial(c, d) == Serial(c, e) {
      FourAtOnce(c, d);
      FourAtOnce(c, e);
      FourInjective(Loaded(c, d), Loaded(c, e));
      LoadedInjective(c, d, e);
    }
  }

  lemma FourInjective(a: bv32, b: bv32)
    requires EightSteps(EightSteps(EightSteps(EightSteps(a)))) == EightSteps(EightSteps(EightSteps(EightSteps(b))))
    ensures a == b
  {
    hide EightSteps;
    EightInjective(a, b);
    EightInjective(EightSteps(a), EightSteps(b));
    EightInjective(EightSteps(EightSteps(a)), EightSteps(EightSteps(b)));
    EightInjective(EightSteps(EightSteps(EightSteps(a))), EightSteps(EightSteps(EightSteps(b))));
  }

  // ----- Numbers for registers and bytes --------------------------------------------------------

  function Number(x: bv32): nat {
    x as nat
  }

  function Register(n: nat): bv32
    requires n < 0x1_0000_0000
  {
    n as bv32
  }

  lemma NumberBack(x: bv32)
    ensures Number(x) < 0x1_0000_0000 && Register(Number(x)) == x
  {
  }

  function EightBits(x: int): bv8
    requires 0 <= x < 256
  {
    x as bv8
  }

  function EightNumber(x: bv8): int {
    x as int
  }

  lemma EightBack(x: int)
    requires 0 <= x < 256
    ensures EightNumber(EightBits(x)) == x
  {
    var b := EightFor(x);
    hide EightBits, EightNumber;
    NumberEight(b);
  }

  lemma NumberEight(b: bv8)
    ensures 0 <= EightNumber(b) < 256 && EightBits(EightNumber(b)) == b
  {
  }

  lemma NextEight(b: bv8)
    requires b != 255
    ensures EightNumber(b + 1) == EightNumber(b) + 1
  {
  }

  lemma EightEnds()
    ensures EightNumber(0) == 0 && EightNumber(255) == 255
  {
  }

  /** Every number below 256 is that of a byte. */
  lemma {:induction false} EightFor(x: int) returns (b: bv8)
    requires 0 <= x < 256
    ensures EightNumber(b) == x
    decreases x
  {
    hide EightNumber;
    EightEnds();
    b := 0;
    if x > 0 {
      var p := EightFor(x - 1);
      NextEight(p);
      b := p + 1;
    }
  }

  // ----- The check value ---------------------------------------------------------------------------

  /** One more byte. */
  lemma Fed(bytes: seq<bv8>, b: bv8, c: bv32, d: bv32)
    requires Serial(0xFFFFFFFF, bytes) == c && EightSteps(Xor(c, b as bv32)) == d
    ensures Serial(0xFFFFFFFF, bytes + [b]) == d
  {
    hide EightSteps, Xor;
    assert (bytes + [b])[..|bytes|] == bytes;
  }

  /** The registers after each character of 123456789. */
  lemma CheckSteps()
    ensures EightSteps(Xor(0xFFFFFFFF, 0x31)) == 0x7C231048
    ensures EightSteps(Xor(0x7C231048, 0x32)) == 0xB0ACBB32
    ensures EightSteps(Xor(0xB0ACBB32, 0x33)) == 0x77B79C2D
    ensures EightSteps(Xor(0x77B79C2D, 0x34)) == 0x641C1F5C
    ensures EightSteps(Xor(0x641C1F5C, 0x35)) == 0x340AC5E3
    ensures EightSteps(Xor(0x340AC5E3, 0x36)) == 0xF68D2C9E
    ensures EightSteps(Xor(0xF68D2C9E, 0x37)) == 0xAFFC9660
    ensures EightSteps(Xor(0xAFFC9660, 0x38)) == 0x651F2550
    ensures EightSteps(Xor(0x651F2550, 0x39)) == 0x340BC6D9
  {
  }

  /** The published check value of this CRC: 0xCBF43926 for the text 123456789. */
  lemma CheckValue()
    ensures SerialCrc([0x31, 0x32, 0x33, 0x34, 0x35, 0x36, 0x37, 0x38, 0x39]) == 0xCBF43926
  {
    hide EightSteps, Xor, Serial;
    CheckSteps();
    SerialNone(0xFFFFFFFF);
    var t0: seq<bv8> := [];
    var t1: seq<bv8> := t0 + [0x31];
    Fed(t0, 0x31, 0xFFFFFFFF, 0x7C231048);
    var t2: seq<bv8> := t1 + [0x32];
    Fed(t1, 0x32, 0x7C231048, 0xB0ACBB32);
    var t3: seq<bv8> := t2 + [0x33];
    Fed(t2, 0x33, 0xB0ACBB32, 0x77B79C2D);
    var t4: seq<bv8> := t3 + [0x34];
    Fed(t3, 0x34, 0x77B79C2D, 0x641C1F5C);
    var t5: seq<bv8> := t4 + [0x35];
    Fed(t4, 0x35, 0x641C1F5C, 0x340AC5E3);
    var t6: seq<bv8> := t5 + [0x36];
    Fed(t5, 0x36, 0x340AC5E3, 0xF68D2C9E);
    var t7: seq<bv8> := t6 + [0x37];
    Fed(t6, 0x37, 0xF68D2C9E, 0xAFFC9660);
    var t8: seq<bv8> := t7 + [0x38];
    Fed(t7, 0x38, 0xAFFC9660, 0x651F2550);
    var t9: seq<bv8> := t8 + [0x39];
    Fed(t8, 0x39, 0x651F2550, 0x340BC6D9);
    assert t9 == [0x31, 0x32, 0x33, 0x34, 0x35, 0x36, 0x37, 0x38, 0x39];
    FinalXor();
  }

  lemma FinalXor()
    ensures Xor(0x340BC6D9, 0xFFFFFFFF) == 0xCBF43926
  {
  }
}
