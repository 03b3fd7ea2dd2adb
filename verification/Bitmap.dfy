/** The byte-packed bitmap of the frame allocator, most significant bit first in each byte. */
module Bitmaps {
  import opened Bits

  /** 0b10000000 >> biti */
  function BitIndexer(biti: nat): nat
    requires biti < 8
  {
    Shr(0x80, biti)
  }

  lemma BitIndexerIsPower(biti: nat)
    requires biti < 8
    ensures BitIndexer(biti) == Pow2(7 - biti)
  {
    hide Shr, Pow2;
    ShrIsDiv(0x80, biti);
    Pow2Values();
    if
    case biti == 0 => case biti == 1 => case biti == 2 => case biti == 3 =>
    case biti == 4 => case biti == 5 => case biti == 6 => case biti == 7 =>
  }

  /** A power of two has one digit. */
  lemma {:induction false} PowerDigit(k: nat, j: nat)
    ensures Bit(Pow2(k), j) == if j == k then 1 else 0
    decreases j
  {
    if k == 0 {
      if j > 0 {
        LowSmall(0, j - 1);
        BitHalf(1, j);
      }
    } else if j > 0 {
      PowerDigit(k - 1, j - 1);
      BitHalf(Pow2(k), j);
    }
  }

  /** The complement of x within n digits. */
  lemma {:induction false} ComplementDigit(x: nat, n: nat, j: nat)
    requires x < Pow2(n) && j < n
    ensures Bit(Pow2(n) - 1 - x, j) == 1 - Bit(x, j)
    decreases n
  {
    var y := Pow2(n) - 1 - x;
    assert y / 2 == Pow2(n - 1) - 1 - x / 2 && y % 2 == 1 - x % 2;
    if j > 0 {
      ComplementDigit(x / 2, n - 1, j - 1);
      BitHalf(x, j);
      BitHalf(y, j);
    }
  }

  /** A masked byte is nonzero exactly when the digit is set. */
  lemma MaskTest(b: Byte, k: nat)
    requires k < 8
    ensures And(b, Pow2(k)) > 0 <==> Bit(b, k) == 1
  {
    var m := And(b, Pow2(k));
    AndBit(b, Pow2(k), k);
    PowerDigit(k, k);
    if Bit(b, k) == 0 {
      forall j: nat | j < 8 ensures Bit(m, j) == Bit(0, j) {
        AndBit(b, Pow2(k), j);
        PowerDigit(k, j);
        LowSmall(0, j);
      }
      EqualBits(m, 0, 8);
      assert Pow2(8) == 256 by { Pow2Values(); }
      LowSmall(m, 8);
      LowSmall(0, 8);
    } else {
      LowSmall(0, k);
    }
  }

  /** Clearing and then possibly setting digit k of a byte. */
  function WriteBit(b: Byte, k: nat, value: bool): nat
    requires k < 8
  {
    var cleared := And(b, if Pow2(k) <= 255 then 255 - Pow2(k) else 0);
    if value then Or(cleared, Pow2(k)) else cleared
  }

  lemma WriteBitDigits(b: Byte, k: nat, value: bool)
    requires k < 8
    ensures Pow2(k) <= 255
    ensures WriteBit(b, k, value) < 256
    ensures forall j: nat | j < 8 ::
              Bit(WriteBit(b, k, value), j) == if j == k then (if value then 1 else 0) else Bit(b, j)
  {
    hide Pow2, And, Or, Bit;
    Pow2Values();
    Pow2Monotone(k, 7);
    var cleared := And(b, 255 - Pow2(k));
    OrBound(cleared, Pow2(k), 8);
    forall j: nat | j < 8
      ensures Bit(WriteBit(b, k, value), j) == if j == k then (if value then 1 else 0) else Bit(b, j)
    {
      ComplementDigit(Pow2(k), 8, j);
      AndBit(b, 255 - Pow2(k), j);
      OrBit(cleared, Pow2(k), j);
      PowerDigit(k, j);
      DigitRange(b, j);
    }
  }

  lemma DigitRange(x: nat, j: nat)
    ensures Bit(x, j) == 0 || Bit(x, j) == 1
  {
  }

  class Bitmap {
    var buffer: array<Byte>

    constructor (size: nat)
      ensures fresh(buffer) && buffer.Length == size && forall i | 0 <= i < size :: buffer[i] == 0xFF
    {
      buffer := new Byte[size](_ => 0xFF);
    }

    /** How many indices the buffer covers. */
    function Capacity(): nat
      reads this
    {
      8 * buffer.Length
    }

    ghost predicate IsSet(i: nat)
      requires i < Capacity()
      reads this, buffer
    {
      Bit(buffer[i / 8], 7 - i % 8) == 1
    }

    /** The set of indices the bytes stand for. */
    ghost function Indices(): set<nat>
      reads this, buffer
    {
      set i: nat | i < Capacity() && IsSet(i)
    }

    method Get(index: nat) returns (r: bool)
      requires index < Capacity()
      ensures r <==> index in Indices()
    {
      var bitindexer := BitIndexer(index % 8);
      BitIndexerIsPower(index % 8);
      MaskTest(buffer[index / 8], 7 - index % 8);
      r := And(buffer[index / 8], bitindexer) > 0;
    }

    method Set(index: nat, value: bool)
      requires index < Capacity()
      modifies buffer
      ensures Indices() == if value then old(Indices()) + {index} else old(Indices()) - {index}
    {
      var bytei, k := index / 8, 7 - index % 8;
      var bitindexer := BitIndexer(index % 8);
      BitIndexerIsPower(index % 8);
      WriteBitDigits(buffer[bytei], k, value);
      ghost var written := WriteBit(buffer[bytei], k, value);
      buffer[bytei] := And(buffer[bytei], 255 - bitindexer);
      if value {
        buffer[bytei] := Or(buffer[bytei], bitindexer);
      }
      assert buffer[bytei] == written;
      forall i: nat | i < Capacity()
        ensures IsSet(i) <==> if i == index then value else old(IsSet(i))
      {
        hide Bit;
        if i / 8 == bytei {
          assert i == 8 * bytei + i % 8;
        }
      }
    }
  }
}
