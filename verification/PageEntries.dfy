/** Page-table entries (PDEntry): the mask arithmetic of vMemory.cpp, digit by digit. */
module PageEntries {
  import opened Bits
  import opened Bitmaps

  const ADDRESS_MASK: nat := 0x000F_FFFF_FFFF_F000
  const FLAGS_MASK: nat := 0xFFF0_0000_0000_0FFF

  const PRESENT: nat := 1

  /** getFlag(present): the source tests bit 0 whatever flag is asked for. */
  function GetFlag(value: nat, flag: nat): bool {
    And(value, if flag > 0 then 1 else 0) != 0
  }

  function GetAddress(value: nat): nat {
    Shr(And(value, ADDRESS_MASK), 12)
  }

  function SetAddress(value: nat, address: nat): nat {
    Or(And(value, FLAGS_MASK), Shl(And(address, 0xFF_FFFF_FFFF), 12))
  }

  function SetFlags(value: nat, flags: nat, enabled: bool): nat {
    var cleared := And(value, Not64(flags));
    if enabled then Or(cleared, flags) else cleared
  }

  /** The entry says its page or table is there. */
  predicate Present(value: nat) {
    Bit(value, 0) == 1
  }

  predicate Large(value: nat) {
    Bit(value, 7) == 1
  }

  /** The entry allows writing and user access. */
  predicate Open(value: nat) {
    Bit(value, 1) == 1 && Bit(value, 2) == 1
  }

  /** Flags that leave the address digits 12 to 51 alone. */
  ghost predicate OutsideAddress(flags: nat) {
    flags < WORD && forall j: nat | 12 <= j < 52 :: Bit(flags, j) == 0
  }

  lemma WordIsPower()
    ensures Pow2(64) == WORD && Pow2(40) == 0x100_0000_0000
  {
    Pow2Large();
  }

  lemma ZeroDigit(j: nat)
    ensures Bit(0, j) == 0
  {
    LowSmall(0, j);
  }

  /** Digits 12 to 51 of the address mask are set, the others are not. */
  lemma AddressMaskDigit(j: nat)
    ensures Bit(ADDRESS_MASK, j) == if 12 <= j < 52 then 1 else 0
  {
    hide Pow2, Shl, Bit;
    WordIsPower();
    var ones := Pow2(40) - 1;
    ShlShl(ones, 3, 9);
    ShlValues(ones);
    ShlValues(Shl(ones, 3));
    BitShl(ones, 12, j);
    if 12 <= j < 52 {
      ComplementDigit(0, 40, j - 12);
      ZeroDigit(j - 12);
    } else if 52 <= j {
      HighBitZero(ones, 40, j - 12);
    }
  }

  lemma FlagsMaskDigit(j: nat)
    requires j < 64
    ensures Bit(FLAGS_MASK, j) == if 12 <= j < 52 then 0 else 1
  {
    WordIsPower();
    ComplementDigit(ADDRESS_MASK, 64, j);
    AddressMaskDigit(j);
  }

  lemma FrameMaskDigit(j: nat)
    ensures Bit(0xFF_FFFF_FFFF, j) == if j < 40 then 1 else 0
  {
    WordIsPower();
    if j < 40 {
      ComplementDigit(0, 40, j);
      LowSmall(0, j);
    } else {
      HighBitZero(0xFF_FFFF_FFFF, 40, j);
    }
  }

  // ----- What each accessor does to the digits ---------------------------------------

  /** getFlag answers for every flag whether the entry is present, and false for no flag. */
  lemma GetFlagTestsPresent(value: nat, flag: nat)
    ensures GetFlag(value, flag) <==> flag > 0 && Present(value)
  {
    AndUnfold(value, 1);
    assert And(value / 2, 0) == 0;
  }

  /** The writable flag of a read-only present entry is reported as set. */
  lemma WritableMisread()
    ensures Bit(1, 1) == 0 && GetFlag(1, 2)
  {
    GetFlagTestsPresent(1, 2);
  }

  lemma GetAddressDigit(value: nat, j: nat)
    ensures Bit(GetAddress(value), j) == if j < 40 then Bit(value, 12 + j) else 0
  {
    hide Bit, And, Shr;
    BitShr(And(value, ADDRESS_MASK), 12, j);
    AndBit(value, ADDRESS_MASK, 12 + j);
    AddressMaskDigit(12 + j);
    DigitRange(value, 12 + j);
  }

  lemma SetAddressDigit(value: nat, address: nat, j: nat)
    requires j < 64
    ensures Bit(SetAddress(value, address), j) == if 12 <= j < 52 then Bit(address, j - 12) else Bit(value, j)
  {
    hide Bit, And, Shl, Or;
    var a := And(address, 0xFF_FFFF_FFFF);
    OrBit(And(value, FLAGS_MASK), Shl(a, 12), j);
    AndBit(value, FLAGS_MASK, j);
    FlagsMaskDigit(j);
    BitShl(a, 12, j);
    DigitRange(value, j);
    if j >= 12 {
      AndBit(address, 0xFF_FFFF_FFFF, j - 12);
      FrameMaskDigit(j - 12);
      DigitRange(address, j - 12);
    }
  }

  lemma SetFlagsDigit(value: nat, flags: nat, enabled: bool, j: nat)
    requires flags < WORD && j < 64
    ensures Bit(SetFlags(value, flags, enabled), j) ==
            if Bit(flags, j) == 1 then (if enabled then 1 else 0) else Bit(value, j)
  {
    WordIsPower();
    hide Bit, And, Or;
    ComplementDigit(flags, 64, j);
    AndBit(value, Not64(flags), j);
    OrBit(And(value, Not64(flags)), flags, j);
    DigitRange(value, j);
    DigitRange(flags, j);
  }

  // ----- Addresses -----------------------------------------------------------------------

  lemma GetAddressBound(value: nat)
    ensures GetAddress(value) < 0x100_0000_0000
  {
    WordIsPower();
    ShrCompare(And(value, ADDRESS_MASK), 0x100_0000_0000, 12);
    assert Shl(0x100_0000_0000, 12) > ADDRESS_MASK by {
      ShlShl(0x100_0000_0000, 3, 9);
      ShlValues(0x100_0000_0000);
      ShlValues(Shl(0x100_0000_0000, 3));
    }
  }

  /** Words that agree on digits 12 to 51 hold the same address. */
  lemma SameAddress(v: nat, w: nat)
    requires forall j: nat | 12 <= j < 52 :: Bit(v, j) == Bit(w, j)
    ensures GetAddress(v) == GetAddress(w)
  {
    hide Bit, And, Shr;
    forall j: nat | j < 40 ensures Bit(GetAddress(v), j) == Bit(GetAddress(w), j) {
      GetAddressDigit(v, j);
      GetAddressDigit(w, j);
    }
    EqualBits(GetAddress(v), GetAddress(w), 40);
    WordIsPower();
    GetAddressBound(v);
    GetAddressBound(w);
    LowSmall(GetAddress(v), 40);
    LowSmall(GetAddress(w), 40);
  }

  /** setAddress followed by getAddress gives the low 40 digits back. */
  lemma AddressRoundTrip(value: nat, address: nat)
    requires address < 0x100_0000_0000
    ensures GetAddress(SetAddress(value, address)) == address
  {
    var w := SetAddress(value, address);
    hide Bit, And, Shr, SetAddress;
    forall j: nat | j < 40 ensures Bit(GetAddress(w), j) == Bit(address, j) {
      GetAddressDigit(w, j);
      SetAddressDigit(value, address, 12 + j);
    }
    EqualBits(GetAddress(w), address, 40);
    WordIsPower();
    GetAddressBound(w);
    LowSmall(GetAddress(w), 40);
    LowSmall(address, 40);
  }

  lemma FlagsKeepAddress(value: nat, flags: nat, enabled: bool)
    requires OutsideAddress(flags)
    ensures GetAddress(SetFlags(value, flags, enabled)) == GetAddress(value)
  {
    forall j: nat | 12 <= j < 52 ensures Bit(SetFlags(value, flags, enabled), j) == Bit(value, j) {
      SetFlagsDigit(value, flags, enabled, j);
    }
    SameAddress(SetFlags(value, flags, enabled), value);
  }

  // ----- The two words vMemory builds ------------------------------------------------------

  /** The entry get_next_lvl writes for a new table in frame n. */
  function TableEntry(value: nat, n: nat): nat {
    SetFlags(SetAddress(value, n), 7, true)
  }

  lemma SevenDigits(j: nat)
    ensures Bit(7, j) == if j < 3 then 1 else 0
  {
    assert Pow2(3) == 8;
    if j < 3 {
      ComplementDigit(0, 3, j);
      LowSmall(0, j);
    } else {
      HighBitZero(7, 3, j);
    }
  }

  lemma TableEntryFields(value: nat, n: nat)
    requires n < 0x100_0000_0000
    ensures Present(TableEntry(value, n)) && GetAddress(TableEntry(value, n)) == n
    ensures (Large(TableEntry(value, n)) <==> Large(value)) && Open(TableEntry(value, n))
  {
    hide Bit;
    forall j: nat ensures Bit(7, j) == if j < 3 then 1 else 0 {
      SevenDigits(j);
    }
    AddressRoundTrip(value, n);
    FlagsKeepAddress(SetAddress(value, n), 7, true);
    SetFlagsDigit(SetAddress(value, n), 7, true, 0);
    SetFlagsDigit(SetAddress(value, n), 7, true, 1);
    SetFlagsDigit(SetAddress(value, n), 7, true, 2);
    SetFlagsDigit(SetAddress(value, n), 7, true, 7);
    SetAddressDigit(value, n, 7);
  }

  /** The entry mapMem writes for physical address paddr. */
  function PageEntry(value: nat, paddr: nat, flags: nat): nat {
    SetFlags(SetAddress(value, Shr(paddr, 12)), flags, true)
  }

  lemma PageEntryFields(value: nat, paddr: nat, flags: nat)
    requires OutsideAddress(flags) && Present(flags) && Shr(paddr, 12) < 0x100_0000_0000
    ensures Present(PageEntry(value, paddr, flags)) && GetAddress(PageEntry(value, paddr, flags)) == Shr(paddr, 12)
  {
    hide Bit, Shr;
    AddressRoundTrip(value, Shr(paddr, 12));
    FlagsKeepAddress(SetAddress(value, Shr(paddr, 12)), flags, true);
    SetFlagsDigit(SetAddress(value, Shr(paddr, 12)), flags, true, 0);
  }
}
