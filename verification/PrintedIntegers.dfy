/** What the text of a printed integer says, whatever flags, width and precision. */
module PrintedIntegers {
  import opened Printf

  // ----- Digits and decoration ---------------------------------------------------------------

  /** What print_integer_finalization adds to the digits. */
  predicate Decoration(c: char, base: nat) {
    c == '0' || c == 'x' || c == 'X' || (c == 'b' && base == 2) || c == '-' || c == '+' || c == ' '
  }

  /** s consists of buf and decoration after it. */
  ghost predicate Decorates(s: string, buf: string, base: nat) {
    buf <= s && forall k | |buf| <= k < |s| :: Decoration(s[k], base)
  }

  /** Padding, prefix and sign leave the digits alone and fit the buffer. */
  lemma FinalisedKeepsDigits(buf: string, negative: bool, base: nat, precision: nat, width: nat, flags: Flags)
    requires |buf| <= BUFFER
    ensures Decorates(Finalised(buf, negative, base, precision, width, flags), buf, base)
    ensures |Finalised(buf, negative, base, precision, width, flags)| <= BUFFER
  {
    hide ZeroPadded, Prefixed;
    var padded := ZeroPadded(buf, negative, precision, width, flags);
    ZeroPaddedKeepsDigits(buf, negative, base, precision, width, flags);
    PrefixedKeepsDigits(padded, buf, base, precision, WidthLeft(negative, width, flags), flags);
    AppendedKeepsDigits(WithPrefix(buf, negative, base, precision, width, flags), buf, base, SignMark(negative, flags));
  }

  lemma ZeroPaddedKeepsDigits(buf: string, negative: bool, base: nat, precision: nat, width: nat, flags: Flags)
    requires |buf| <= BUFFER
    ensures var padded := ZeroPadded(buf, negative, precision, width, flags);
            Decorates(padded, buf, base) && |padded| <= BUFFER
  {
    hide WidthLeft;
  }

  lemma AppendedKeepsDigits(s: string, buf: string, base: nat, mark: string)
    requires Decorates(s, buf, base) && |s| <= BUFFER && |mark| <= 1
    requires forall k | 0 <= k < |mark| :: Decoration(mark[k], base)
    ensures Decorates(Appended(s, mark), buf, base) && |Appended(s, mark)| <= BUFFER
    ensures |s| <= |Appended(s, mark)|
  {
  }

  /** The prefix takes back at most as many padding zeros as it has characters. */
  lemma PrefixedKeepsDigits(padded: string, buf: string, base: nat, precision: nat, width: nat, flags: Flags)
    requires Decorates(padded, buf, base) && |padded| <= BUFFER
    ensures var r := Prefixed(padded, |buf|, base, precision, width, flags);
            Decorates(r, buf, base) && |padded| <= |r| <= BUFFER
  {
    var t := Trimmed(padded, |buf|, base);
    var room := if !flags.precise && padded != "" && (|padded| == precision || |padded| == width) then t else padded;
    var mark := BaseMark(base, flags.uppercase);
    assert Decorates(t, buf, base) && |padded| - (if base == 16 then 2 else 1) <= |t|;
    AppendedKeepsDigits(room, buf, base, mark);
    AppendedKeepsDigits(Appended(room, mark), buf, base, "0");
    hide Trimmed, Decorates, Decoration;
  }

  // ----- Reading the text back ---------------------------------------------------------------------

  /** Not a space, a sign or the letter of a prefix. */
  predicate Numeral(c: char, base: nat) {
    c != ' ' && c != '-' && c != '+' && c != 'x' && c != 'X' && (base == 2 ==> c != 'b')
  }

  /** The numerals of a text. */
  function Numerals(s: string, base: nat): string {
    if s == "" then "" else (if Numeral(s[0], base) then [s[0]] else "") + Numerals(s[1..], base)
  }

  /** The number that a text stands for, highest digit first. */
  function NumberIn(text: string, base: nat): nat {
    Parsed(Reversed(Numerals(text, base)), base)
  }

  lemma NumeralsStep(s: string, base: nat)
    requires s != ""
    ensures Numerals(s, base) == (if Numeral(s[0], base) then [s[0]] else "") + Numerals(s[1..], base)
  {
  }

  lemma {:induction false} NumeralsJoin(a: string, b: string, base: nat)
    ensures Numerals(a + b, base) == Numerals(a, base) + Numerals(b, base)
  {
    if a == "" {
      assert a + b == b;
    } else {
      hide Numerals;
      NumeralsJoin(a[1..], b, base);
      NumeralsStep(a, base);
      NumeralsStep(a + b, base);
      assert (a + b)[1..] == a[1..] + b;
      Joins(if Numeral(a[0], base) then [a[0]] else "", Numerals(a[1..], base), Numerals(b, base));
    }
  }

  lemma {:induction false} NumeralsReversed(s: string, base: nat)
    ensures Numerals(Reversed(s), base) == Reversed(Numerals(s, base))
  {
    if s == "" {
      assert Reversed("") == "";
    } else {
      var c := if Numeral(s[0], base) then [s[0]] else "";
      NumeralsReversed(s[1..], base);
      ReversedMore(s, 0);
      assert s[0..] == s;
      NumeralsJoin(Reversed(s[1..]), [s[0]], base);
      NumeralsOne(s[0], base);
      ReversedJoin(c, Numerals(s[1..], base));
    }
  }

  lemma NumeralsOne(c: char, base: nat)
    ensures Numerals([c], base) == if Numeral(c, base) then [c] else ""
  {
    assert [c][1..] == "";
    assert Numerals("", base) == "";
  }

  lemma ReversedJoin(c: string, s: string)
    requires |c| <= 1
    ensures Reversed(c + s) == Reversed(s) + c
  {
    if c == "" {
      assert c + s == s;
    }
  }

  lemma {:induction false} NumeralsAll(s: string, base: nat)
    requires forall k | 0 <= k < |s| :: Numeral(s[k], base)
    ensures Numerals(s, base) == s
  {
    if s != "" {
      NumeralsAll(s[1..], base);
      assert s == [s[0]] + s[1..];
    }
  }

  lemma {:induction false} NumeralsNone(s: string, base: nat)
    requires forall k | 0 <= k < |s| :: !Numeral(s[k], base)
    ensures Numerals(s, base) == ""
  {
    if s != "" {
      NumeralsNone(s[1..], base);
    }
  }

  /** Of the decoration only zeros are numerals. */
  lemma {:induction false} NumeralsDecoration(s: string, base: nat)
    requires forall k | 0 <= k < |s| :: Decoration(s[k], base)
    ensures forall k | 0 <= k < |Numerals(s, base)| :: Numerals(s, base)[k] == '0'
  {
    if s != "" {
      NumeralsDecoration(s[1..], base);
    }
  }

  /** Zeros in front of a number do not change it. */
  lemma {:induction false} ParsedZeros(a: string, z: string, base: nat)
    requires forall k | 0 <= k < |z| :: z[k] == '0'
    ensures Parsed(a + z, base) == Parsed(a, base)
    decreases |a| + |z|
  {
    if a != "" {
      assert (a + z)[1..] == a[1..] + z;
      ParsedZeros(a[1..], z, base);
    } else if z != "" {
      assert a + z == z;
      assert [] + z[1..] == z[1..];
      ParsedZeros("", z[1..], base);
    }
  }

  lemma {:induction false} DigitsAreNumerals(value: nat, base: nat, uppercase: bool, n: nat)
    requires 2 <= base <= 16
    ensures forall k | 0 <= k < |Digits(value, base, uppercase, n)| ::
              Numeral(Digits(value, base, uppercase, n)[k], base)
    decreases n
  {
    if n > 0 && value > 0 {
      DigitsAreNumerals(value / base, base, uppercase, n - 1);
      DigitIsNumeral(value % base, base, uppercase);
      hide DigitChar;
    }
  }

  lemma DigitIsNumeral(d: nat, base: nat, uppercase: bool)
    requires d < base <= 16
    ensures Numeral(DigitChar(d, uppercase), base)
  {
  }

  /** The text is the reversed buffer with spaces around it. */
  lemma RevTextNumerals(buf: string, base: nat, width: nat, flags: Flags)
    ensures Reversed(Numerals(RevText(buf, width, flags), base)) == Numerals(buf, base)
  {
    hide Numerals, Times, Reversed;
    var pad := Times(' ', Gap(|buf|, width));
    var before := if !flags.left && !flags.zeropad then pad else "";
    var behind := if flags.left then pad else "";
    NoNumerals(Gap(|buf|, width), base);
    NumeralsJoin(before + Reversed(buf), behind, base);
    NumeralsJoin(before, Reversed(buf), base);
    NumeralsReversed(buf, base);
    ReversedTwice(Numerals(buf, base));
    assert Numerals(RevText(buf, width, flags), base) == Reversed(Numerals(buf, base));
  }

  lemma NoNumerals(n: nat, base: nat)
    ensures Numerals(Times(' ', n), base) == "" && Numerals("", base) == ""
  {
    NumeralsNone(Times(' ', n), base);
  }

  lemma ReversedTwice(s: string)
    ensures Reversed(Reversed(s)) == s
  {
  }

  /** The values whose digits fit: all 64-bit ones in base 8, 10 and 16, and 32-bit ones in base 2. */
  predicate Printable(value: nat, base: nat) {
    if base == 2 then value < 0x1_0000_0000
    else value < 0x1_0000_0000_0000_0000 && (base == 8 || base == 10 || base == 16)
  }

  /**
   For every such value, whatever flags, width and precision: the printed text, without
   spaces, sign and prefix letter, is the number printed.
   */
  lemma IntegerReadsBack(value: nat, negative: bool, base: nat, precision: nat, width: nat, flags: Flags)
    requires Printable(value, base)
    ensures NumberIn(IntText(value, negative, base, precision, width, flags), base) == value
  {
    hide Finalised, RevText, FirstDigits, Parsed, Reversed, Numerals, HashLeft, Decorates;
    var flags' := HashLeft(value, base, flags);
    var digits := FirstDigits(value, base, flags);
    var whole := Finalised(digits, negative, base, precision, width, flags');
    DigitsStandFor(value, base, flags);
    FinalisedKeepsDigits(digits, negative, base, precision, width, flags');
    RevTextNumerals(whole, base, WidthLeft(negative, width, flags'), flags');
    DecoratedNumber(whole, digits, base);
  }

  lemma DecoratedNumber(whole: string, digits: string, base: nat)
    requires Decorates(whole, digits, base) && forall k | 0 <= k < |digits| :: Numeral(digits[k], base)
    ensures Parsed(Numerals(whole, base), base) == Parsed(digits, base)
  {
    hide Parsed, Numerals;
    var rest := whole[|digits|..];
    assert whole == digits + rest;
    NumeralsAll(digits, base);
    NumeralsJoin(digits, rest, base);
    NumeralsDecoration(rest, base);
    ParsedZeros(digits, Numerals(rest, base), base);
  }

  lemma DigitsStandFor(value: nat, base: nat, flags: Flags)
    requires Printable(value, base)
    ensures var digits := FirstDigits(value, base, flags);
            && Parsed(digits, base) == value && |digits| <= BUFFER
            && forall k | 0 <= k < |digits| :: Numeral(digits[k], base)
  {
    if value > 0 {
      DigitsParse(value, base, flags.uppercase, BUFFER);
      if base == 2 {
        TwoToTheThirtyTwo();
      } else {
        PowerGrows(8, base, BUFFER);
        EightToTheThirtyTwo();
      }
      DigitsAreNumerals(value, base, flags.uppercase, BUFFER);
      hide Power, Digits, Parsed;
    } else {
      assert Parsed("0", base) == 0 by { assert Parsed("", base) == 0; }
    }
  }

  lemma {:induction false} PowerGrows(a: nat, b: nat, n: nat)
    requires a <= b
    ensures Power(a, n) <= Power(b, n)
    decreases n
  {
    if n > 0 {
      PowerGrows(a, b, n - 1);
      MulBoth(a, b, Power(a, n - 1), Power(b, n - 1));
    }
  }

  lemma MulBoth(a: nat, b: nat, x: nat, y: nat)
    requires a <= b && x <= y
    ensures a * x <= b * y
  {
    assert a * x <= a * y;
    assert a * y <= b * y;
  }

  lemma TwoToTheThirtyTwo()
    ensures Power(2, 32) == 0x1_0000_0000
  {
    PowerSum(2, 8, 8);
    PowerSum(2, 16, 16);
    assert Power(2, 8) == 256;
  }

  lemma EightToTheThirtyTwo()
    ensures Power(8, 32) >= 0x1_0000_0000_0000_0000
  {
    assert Power(8, 8) == 0x100_0000;
    PowerSum(8, 8, 8);
    PowerSum(8, 16, 16);
  }

  lemma {:induction false} PowerSum(b: nat, m: nat, n: nat)
    ensures Power(b, m + n) == Power(b, m) * Power(b, n)
    decreases m
  {
    if m > 0 {
      PowerSum(b, m - 1, n);
      assert b * (Power(b, m - 1) * Power(b, n)) == (b * Power(b, m - 1)) * Power(b, n);
    }
  }

  // ----- Width, precision and sign ----------------------------------------------------------------

  /** The field is as wide as asked for, except when zeros pad it beyond the 32 characters of the buffer. */
  lemma WidthKept(value: nat, negative: bool, base: nat, precision: nat, width: nat, flags: Flags)
    requires 2 <= base <= 16
    ensures |IntText(value, negative, base, precision, width, flags)| >= width <==>
            flags.left || !flags.zeropad || width <= BUFFER
  {
    hide Digits, Finalised, FirstDigits, RevText;
    var flags' := HashLeft(value, base, flags);
    var digits := FirstDigits(value, base, flags);
    DigitsFit(value, base, flags);
    FinalisedLength(digits, negative, base, precision, width, flags');
    RevTextLength(Finalised(digits, negative, base, precision, width, flags'), WidthLeft(negative, width, flags'),
                  flags');
  }

  lemma DigitsFit(value: nat, base: nat, flags: Flags)
    requires 2 <= base <= 16
    ensures |FirstDigits(value, base, flags)| <= BUFFER
  {
    hide Digits;
  }

  lemma RevTextLength(buf: string, width: nat, flags: Flags)
    ensures |RevText(buf, width, flags)| == |buf| + (if flags.left || !flags.zeropad then Gap(|buf|, width) else 0)
  {
  }

  /** Zero padding fills the width up to the end of the buffer. */
  lemma FinalisedLength(buf: string, negative: bool, base: nat, precision: nat, width: nat, flags: Flags)
    requires |buf| <= BUFFER
    ensures |Finalised(buf, negative, base, precision, width, flags)| <= BUFFER
    ensures !flags.left && flags.zeropad && width <= BUFFER ==>
              |Finalised(buf, negative, base, precision, width, flags)| >= width
  {
    FinalisedKeepsDigits(buf, negative, base, precision, width, flags);
    ZeroPaddedKeepsDigits(buf, negative, base, precision, width, flags);
    var padded := ZeroPadded(buf, negative, precision, width, flags);
    PrefixedKeepsDigits(padded, buf, base, precision, WidthLeft(negative, width, flags), flags);
    assert !flags.left && flags.zeropad ==>
             |padded| >= (if WidthLeft(negative, width, flags) < BUFFER then WidthLeft(negative, width, flags)
                          else BUFFER);
    hide ZeroPadded, Prefixed, Decorates;
  }

  /** A decimal has at least as many digits as its precision, up to the 32 characters of the buffer. */
  lemma PrecisionKept(value: nat, negative: bool, precision: nat, width: nat, flags: Flags)
    requires value < 0x1_0000_0000_0000_0000 && !flags.hash && !flags.pointer
    ensures |Numerals(IntText(value, negative, 10, precision, width, flags), 10)| >= precision <==> precision <= BUFFER
  {
    hide Digits, FirstDigits, RevText, Numerals, ZeroPadded, Reversed;
    var digits := FirstDigits(value, 10, flags);
    var padded := ZeroPadded(digits, negative, precision, width, flags);
    var whole := Finalised(digits, negative, 10, precision, width, flags);
    DigitsStandFor(value, 10, flags);
    RevTextNumerals(whole, 10, WidthLeft(negative, width, flags), flags);
    ZeroPaddedKeepsDigits(digits, negative, 10, precision, width, flags);
    PaddedDecimal(digits, negative, precision, width, flags);
    NumeralsAll(padded, 10);
    NumeralsJoin(padded, SignMark(negative, flags), 10);
    SignIsNoNumeral(negative, flags);
  }

  lemma PaddedDecimal(buf: string, negative: bool, precision: nat, width: nat, flags: Flags)
    requires |buf| <= BUFFER && forall k | 0 <= k < |buf| :: Numeral(buf[k], 10)
    ensures var padded := ZeroPadded(buf, negative, precision, width, flags);
            && (|padded| >= precision <==> precision <= BUFFER) && |padded| <= BUFFER
            && forall k | 0 <= k < |padded| :: Numeral(padded[k], 10)
  {
    hide WidthLeft;
  }

  lemma SignIsNoNumeral(negative: bool, flags: Flags)
    ensures Numerals(SignMark(negative, flags), 10) == ""
  {
    NumeralsNone(SignMark(negative, flags), 10);
  }

  /**
   The minus sign of a signed conversion is printed exactly when neither the
   precision nor zero padding fills the 32 characters of the buffer.
   */
  lemma SignShown(c: char, s: Spec)
    requires (c == 'd' || c == 'i') && !s.flags.pointer && Signed(NumberOf(s.args), Bits(s.flags)) < 0
    ensures '-' in IntegerText(c, s) <==>
            s.precision < BUFFER && (s.flags.left || !s.flags.zeropad || s.flags.precise || s.width <= BUFFER)
  {
    hide Digits, IntText, Signed;
    var flags := IntegerFlags(c, s.flags);
    var v := Signed(NumberOf(s.args), Bits(flags));
    SignedRange(NumberOf(s.args), Bits(flags));
    DecimalSign(Magnitude(v), s.precision, s.width, flags);
  }

  lemma SignedRange(v: int, bits: nat)
    ensures -0x8000_0000_0000_0000 <= Signed(v, bits) < 0x8000_0000_0000_0000
  {
  }

  lemma DecimalSign(value: nat, precision: nat, width: nat, flags: Flags)
    requires 0 < value < 0x1_0000_0000_0000_0000 && !flags.hash && !flags.pointer
    ensures '-' in IntText(value, true, 10, precision, width, flags) <==>
            precision < BUFFER && (flags.left || !flags.zeropad || width <= BUFFER)
  {
    hide Digits, FirstDigits, RevText, ZeroPadded;
    var digits := FirstDigits(value, 10, flags);
    var padded := ZeroPadded(digits, true, precision, width, flags);
    DigitsStandFor(value, 10, flags);
    ShortDecimal(value, flags);
    PaddedDecimal(digits, true, precision, width, flags);
    PaddedFull(digits, precision, width, flags);
    var whole := Finalised(digits, true, 10, precision, width, flags);
    MinusInText(whole, WidthLeft(true, width, flags), flags);
    if |padded| < BUFFER {
      assert whole[|padded|] == '-';
    }
  }

  /** Zeros fill the whole buffer exactly when precision or padded width asks for it. */
  lemma PaddedFull(buf: string, precision: nat, width: nat, flags: Flags)
    requires |buf| < BUFFER
    ensures |ZeroPadded(buf, true, precision, width, flags)| < BUFFER <==>
            precision < BUFFER && (flags.left || !flags.zeropad || width <= BUFFER)
  {
  }

  lemma MinusInText(buf: string, width: nat, flags: Flags)
    ensures '-' in RevText(buf, width, flags) <==> '-' in buf
  {
    forall k | 0 <= k < |buf| ensures Reversed(buf)[|buf| - 1 - k] == buf[k] {
    }
    assert '-' in Reversed(buf) <==> '-' in buf;
    hide Reversed;
  }

  /** A 64-bit decimal has at most twenty digits. */
  lemma ShortDecimal(value: nat, flags: Flags)
    requires value < 0x1_0000_0000_0000_0000
    ensures |FirstDigits(value, 10, flags)| < BUFFER
  {
    if value > 0 {
      TenToTheTwenty();
      DigitsLength(value, 10, flags.uppercase, BUFFER, 20);
    }
  }

  lemma {:induction false} DigitsLength(value: nat, base: nat, uppercase: bool, n: nat, k: nat)
    requires 2 <= base <= 16 && value < Power(base, k)
    ensures |Digits(value, base, uppercase, n)| <= k
    decreases k
  {
    if k > 0 && n > 0 && value > 0 {
      assert Power(base, k) == base * Power(base, k - 1);
      hide Digits, Power;
      PositivePower(base, k - 1);
      Horner(value, base, Power(base, k - 1), 0);
      DigitsStep(value, base, uppercase, n);
      DigitsLength(value / base, base, uppercase, n - 1, k - 1);
    }
  }

  lemma TenToTheTwenty()
    ensures Power(10, 20) >= 0x1_0000_0000_0000_0000
  {
    assert Power(10, 5) == 100_000;
    PowerSum(10, 5, 5);
    PowerSum(10, 10, 10);
  }

  /** Base 2 loses the digits above the 32nd: 2^32 is printed as zeros. */
  lemma BinaryCut()
    ensures Parsed(Digits(0x1_0000_0000, 2, false, BUFFER), 2) != 0x1_0000_0000
  {
    TwoToTheThirtyTwo();
    DigitsExact(0x1_0000_0000, 2, false, BUFFER);
    hide Digits, Parsed;
  }
}
