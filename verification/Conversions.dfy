/** What each conversion of a format puts out, in terms of the directive as written and of its argument. */
module Conversions {
  import opened Wrappers
  import opened Printf
  import opened PrintedIntegers
  import opened Directives
  import Arithmetic = Bits

  // ----- Directives as written ----------------------------------------------------------------

  /** Flag characters, width, precision, length field and conversion character. */
  datatype Directive = Directive(flags: string, width: Field, precision: Option<Field>, len: string, conv: char)

  predicate Good(d: Directive) {
    && (forall k | 0 <= k < |d.flags| :: IsFlag(d.flags[k])) && IsField(d.width)
    && (d.width.Written? && d.width.digits != "" ==> d.width.digits[0] != '0')
    && (d.precision.Some? ==> IsField(d.precision.value)) && IsLength(d.len) && Converts(d.conv)
  }

  function Text(d: Directive): string {
    "%" + (d.flags + (FieldText(d.width) + (PrecisionText(d.precision) + (d.len + [d.conv]))))
  }

  /** Padding goes behind: for the flag -, or a negative argument as width. */
  predicate Left(d: Directive, args: seq<Arg>) {
    '-' in d.flags || FieldValue(d.width, args) < 0
  }

  function Width(d: Directive, args: seq<Arg>): nat {
    var v := FieldValue(d.width, args);
    if v < 0 then -v else v
  }

  /** The arguments behind one that * took for the width. */
  function AfterWidth(d: Directive, args: seq<Arg>): seq<Arg> {
    AfterField(d.width, args)
  }

  /** The precision; none and a negative argument count as 0. */
  function Precision(d: Directive, args: seq<Arg>): nat {
    if d.precision.None? || FieldValue(d.precision.value, AfterWidth(d, args)) < 0 then 0
    else FieldValue(d.precision.value, AfterWidth(d, args))
  }

  /** The arguments from the one that is converted on. */
  function Operands(d: Directive, args: seq<Arg>): seq<Arg> {
    if d.precision.Some? then AfterField(d.precision.value, AfterWidth(d, args)) else AfterWidth(d, args)
  }

  /** One more than the largest unsigned value of the length field. */
  function Modulo(len: string): nat {
    if len == "hh" then 0x100 else if len == "h" then 0x1_0000 else if len == "" then 0x1_0000_0000
    else 0x1_0000_0000_0000_0000
  }

  predicate IsSigned(c: char) {
    c == 'd' || c == 'i'
  }

  predicate IsUnsigned(c: char) {
    c == 'u' || c == 'x' || c == 'X' || c == 'o' || c == 'b'
  }

  /** How the directive is read. */
  function ReadAs(d: Directive, args: seq<Arg>, rest: string): Spec {
    Spec(LengthFlags(FlagsOf(d.flags).(left := Left(d, args), precise := d.precision.Some?), d.len), Width(d, args),
         Precision(d, args), [d.conv] + rest, Operands(d, args))
  }

  lemma DirectiveRead(d: Directive, rest: string, args: seq<Arg>)
    requires Good(d)
    ensures (Text(d) + rest)[0] == '%' && SpecOf((Text(d) + rest)[1..], args) == ReadAs(d, args, rest)
  {
    hide SpecOf, FieldValue, AfterField;
    var f3 := d.len + ([d.conv] + rest);
    var f2 := PrecisionText(d.precision) + f3;
    var f1 := FieldText(d.width) + f2;
    SpecReads(d.flags, d.width, d.precision, d.len, [d.conv] + rest, args);
    TextTail(d, rest);
  }

  lemma TextTail(d: Directive, rest: string)
    ensures (Text(d) + rest)[0] == '%'
    ensures (Text(d) + rest)[1..] ==
            d.flags + (FieldText(d.width) + (PrecisionText(d.precision) + (d.len + ([d.conv] + rest))))
  {
    hide FieldText, PrecisionText;
    var w, p := FieldText(d.width), PrecisionText(d.precision);
    Joins(d.len, [d.conv], rest);
    Joins(p, d.len + [d.conv], rest);
    Joins(w, p + (d.len + [d.conv]), rest);
    Joins(d.flags, w + (p + (d.len + [d.conv])), rest);
    assert (Text(d) + rest)[1..] == d.flags + (w + (p + (d.len + [d.conv]))) + rest;
  }

  /** A conversion puts out its text; behind it the format goes on with the arguments that are left. */
  lemma Rendering(d: Directive, rest: string, args: seq<Arg>)
    requires Good(d)
    ensures Rendered(Text(d) + rest, args) ==
            ConversionText(d.conv, ReadAs(d, args, rest)) +
            Rendered(rest, if Takes(d.conv) then Rest(Operands(d, args)) else Operands(d, args))
  {
    DirectiveRead(d, rest, args);
    hide SpecOf, Text, ConversionText;
    assert ([d.conv] + rest)[1..] == rest;
  }

  // ----- Plain characters ------------------------------------------------------------------------

  /** Characters other than % stand for themselves and take no argument. */
  lemma {:induction false} PlainText(s: string, rest: string, args: seq<Arg>)
    requires forall k | 0 <= k < |s| :: s[k] != '%'
    ensures Rendered(s + rest, args) == s + Rendered(rest, args)
    decreases |s|
  {
    if s == "" {
      assert s + rest == rest;
    } else {
      assert (s + rest)[1..] == s[1..] + rest;
      PlainText(s[1..], rest, args);
      assert [s[0]] + (s[1..] + Rendered(rest, args)) == s + Rendered(rest, args);
    }
  }

  /** %%, and % before a character that is no conversion, put out that character and take no argument. */
  lemma Percent(d: Directive, rest: string, args: seq<Arg>)
    requires Good(d) && !IsSigned(d.conv) && !IsUnsigned(d.conv) && d.conv != 'c' && d.conv != 's' && d.conv != 'p'
    ensures Rendered(Text(d) + rest, args) == [d.conv] + Rendered(rest, Operands(d, args))
  {
    Rendering(d, rest, args);
    hide Rendered, Text;
  }

  lemma PercentPercent(rest: string, args: seq<Arg>)
    ensures Rendered("%%" + rest, args) == "%" + Rendered(rest, args)
  {
    var d := Directive("", Written(""), None, "", '%');
    assert Text(d) == "%%";
    Percent(d, rest, args);
    hide Rendered, Text;
  }

  // ----- Characters and strings ----------------------------------------------------------------------

  /** t is the piece, with spaces up to the width behind it or in front of it. */
  ghost predicate PaddedTo(t: string, piece: string, width: nat, left: bool) {
    && |t| == (if |piece| < width then width else |piece|)
    && (if left then t[..|piece|] == piece && forall k | |piece| <= k < |t| :: t[k] == ' '
        else t[|t| - |piece|..] == piece && forall k | 0 <= k < |t| - |piece| :: t[k] == ' ')
  }

  lemma AlignedIs(piece: string, s: Spec)
    ensures PaddedTo(Aligned(piece, |piece|, s), piece, s.width, s.flags.left)
  {
  }

  /** What the fields of the directive become. */
  lemma ReadFields(d: Directive, args: seq<Arg>, rest: string)
    requires Good(d)
    ensures var s := ReadAs(d, args, rest);
            && s.width == Width(d, args) && s.precision == Precision(d, args) && s.args == Operands(d, args)
            && s.flags.left == Left(d, args) && s.flags.zeropad == ('0' in d.flags)
            && s.flags.precise == d.precision.Some? && s.flags.plus == ('+' in d.flags)
            && s.flags.space == (' ' in d.flags) && s.flags.hash == ('#' in d.flags)
            && !s.flags.uppercase && !s.flags.pointer
            && Modulus(Bits(s.flags)) == Modulo(d.len)
  {
    hide FieldValue, Operands, Precision, LengthFlags, Modulo, Bits, Modulus;
    LengthKeeps(FlagsOf(d.flags).(left := Left(d, args), precise := d.precision.Some?), d.len);
  }

  /** The length field decides the width of the argument and nothing else. */
  lemma LengthKeeps(flags: Flags, len: string)
    requires IsLength(len) && !flags.wide && !flags.half && !flags.tiny
    ensures Modulus(Bits(LengthFlags(flags, len))) == Modulo(len)
    ensures var r := LengthFlags(flags, len); r.(wide := false, half := false, tiny := false) == flags
  {
    if len == "hh" || len == "h" {
      assert len[0] == 'h';
      assert len == "h" ==> len != "hh";
    } else if len != "" {
      assert len[0] != 'h';
    }
    hide IsLength;
  }

  lemma CharacterText(s: Spec)
    ensures var c := CharOf(NumberOf(s.args));
            PaddedTo(ConversionText('c', s), [c], s.width, s.flags.left)
  {
    AlignedIs([CharOf(NumberOf(s.args))], s);
    hide Aligned, PaddedTo;
  }

  /** %c: the character of the argument, padded to the width. */
  lemma CharacterPrinted(d: Directive, rest: string, args: seq<Arg>) returns (t: string, c: char)
    requires Good(d) && d.conv == 'c'
    ensures Rendered(Text(d) + rest, args) == t + Rendered(rest, Rest(Operands(d, args)))
    ensures PaddedTo(t, [c], Width(d, args), Left(d, args)) && c as nat == NumberOf(Operands(d, args)) % 256
  {
    hide Rendered, Text, ConversionText, PaddedTo, ReadAs, FieldValue;
    Rendering(d, rest, args);
    ReadFields(d, args, rest);
    CharacterText(ReadAs(d, args, rest));
    c := CharOf(NumberOf(Operands(d, args)));
    t := ConversionText('c', ReadAs(d, args, rest));
  }

  lemma StringIs(s: Spec)
    requires s.args != [] && s.args[0].Chars?
    ensures var chars := s.args[0].chars;
            var m := if s.flags.precise && s.precision < |chars| then s.precision else |chars|;
            PaddedTo(ConversionText('s', s), chars[..m], s.width, s.flags.left)
  {
    var chars := s.args[0].chars;
    var m := if s.flags.precise && s.precision < |chars| then s.precision else |chars|;
    assert chars[..|chars|] == chars;
    AlignedIs(chars[..m], s);
    hide Aligned, PaddedTo;
  }

  /** %s: all characters of the argument, or the first ones up to the precision, padded to the width. */
  lemma StringPrinted(d: Directive, rest: string, args: seq<Arg>) returns (t: string, m: nat)
    requires Good(d) && d.conv == 's' && Operands(d, args) != [] && Operands(d, args)[0].Chars?
    ensures Rendered(Text(d) + rest, args) == t + Rendered(rest, Rest(Operands(d, args)))
    ensures var chars := Operands(d, args)[0].chars;
            && m == (if d.precision.Some? && Precision(d, args) < |chars| then Precision(d, args) else |chars|)
            && PaddedTo(t, chars[..m], Width(d, args), Left(d, args))
  {
    hide Rendered, Text, ConversionText, PaddedTo, ReadAs, FieldValue;
    Rendering(d, rest, args);
    ReadFields(d, args, rest);
    StringIs(ReadAs(d, args, rest));
    var chars := Operands(d, args)[0].chars;
    m := if d.precision.Some? && Precision(d, args) < |chars| then Precision(d, args) else |chars|;
    t := ConversionText('s', ReadAs(d, args, rest));
  }

  lemma NullIs(s: Spec)
    requires s.args != [] && s.args[0].NoChars?
    ensures PaddedTo(ConversionText('s', s), "(null)", if s.flags.zeropad && !s.flags.left then 0 else s.width,
                     s.flags.left)
  {
    assert Reversed(")llun(") == "(null)";
    hide Reversed;
  }

  /** %s of a null pointer: (null), padded to the width unless zeros are asked for in front of it. */
  lemma NullPrinted(d: Directive, rest: string, args: seq<Arg>) returns (t: string)
    requires Good(d) && d.conv == 's' && Operands(d, args) != [] && Operands(d, args)[0].NoChars?
    ensures Rendered(Text(d) + rest, args) == t + Rendered(rest, Rest(Operands(d, args)))
    ensures PaddedTo(t, "(null)", if '0' in d.flags && !Left(d, args) then 0 else Width(d, args), Left(d, args))
  {
    hide Rendered, Text, ConversionText, PaddedTo, ReadAs, FieldValue;
    Rendering(d, rest, args);
    ReadFields(d, args, rest);
    NullIs(ReadAs(d, args, rest));
    t := ConversionText('s', ReadAs(d, args, rest));
  }

  // ----- Integers ----------------------------------------------------------------------------------

  /** The base that the conversion character names. */
  function BaseNamed(c: char): nat {
    match c
    case 'x' => 16
    case 'X' => 16
    case 'o' => 8
    case 'b' => 2
    case _ => 10
  }

  /** No letter of the other case. */
  ghost predicate OneCase(t: string, upper: bool) {
    forall k | 0 <= k < |t| :: if upper then !('a' <= t[k] <= 'z') else !('A' <= t[k] <= 'Z')
  }

  lemma {:induction false} DigitsOneCase(value: nat, base: nat, upper: bool, n: nat)
    requires 2 <= base <= 16
    ensures OneCase(Digits(value, base, upper, n), upper) && '-' !in Digits(value, base, upper, n)
    decreases n
  {
    if n > 0 && value > 0 {
      DigitsOneCase(value / base, base, upper, n - 1);
      DigitCase(value % base, upper);
      hide DigitChar;
    }
  }

  lemma DigitCase(d: nat, upper: bool)
    requires d < 16
    ensures OneCase([DigitChar(d, upper)], upper) && DigitChar(d, upper) != '-'
  {
  }

  /** Only a negative number has a minus sign, and letters are upper case only for X. */
  lemma TextCase(value: nat, negative: bool, base: nat, precision: nat, width: nat, flags: Flags)
    requires 2 <= base <= 16 && (base == 2 ==> !flags.uppercase)
    ensures var t := IntText(value, negative, base, precision, width, flags);
            OneCase(t, flags.uppercase) && (!negative ==> '-' !in t)
  {
    hide Digits, Finalised, FirstDigits, RevText;
    var flags' := HashLeft(value, base, flags);
    var digits := FirstDigits(value, base, flags);
    FirstDigitsCase(value, base, flags);
    FinalisedCase(digits, negative, base, precision, width, flags');
    RevTextCase(Finalised(digits, negative, base, precision, width, flags'), WidthLeft(negative, width, flags'), flags',
                flags.uppercase);
  }

  lemma FirstDigitsCase(value: nat, base: nat, flags: Flags)
    requires 2 <= base <= 16
    ensures OneCase(FirstDigits(value, base, flags), flags.uppercase) && '-' !in FirstDigits(value, base, flags)
  {
    DigitsOneCase(value, base, flags.uppercase, BUFFER);
    hide Digits;
  }

  lemma FinalisedCase(buf: string, negative: bool, base: nat, precision: nat, width: nat, flags: Flags)
    requires OneCase(buf, flags.uppercase) && '-' !in buf && (base == 2 ==> !flags.uppercase)
    ensures var r := Finalised(buf, negative, base, precision, width, flags);
            OneCase(r, flags.uppercase) && (!negative ==> '-' !in r)
  {
    hide ZeroPadded, Prefixed, OneCase;
    var padded := ZeroPadded(buf, negative, precision, width, flags);
    PaddedCase(buf, negative, precision, width, flags);
    PrefixedCase(padded, |buf|, base, precision, WidthLeft(negative, width, flags), flags);
    AppendedCase(WithPrefix(buf, negative, base, precision, width, flags), SignMark(negative, flags), flags.uppercase);
    SignCase(negative, flags);
  }

  lemma SignCase(negative: bool, flags: Flags)
    ensures OneCase(SignMark(negative, flags), flags.uppercase) && (!negative ==> '-' !in SignMark(negative, flags))
  {
  }

  lemma PaddedCase(buf: string, negative: bool, precision: nat, width: nat, flags: Flags)
    requires OneCase(buf, flags.uppercase) && '-' !in buf
    ensures var r := ZeroPadded(buf, negative, precision, width, flags); OneCase(r, flags.uppercase) && '-' !in r
  {
    hide WidthLeft;
  }

  lemma AppendedCase(s: string, mark: string, upper: bool)
    requires OneCase(s, upper) && OneCase(mark, upper)
    ensures OneCase(Appended(s, mark), upper) && ('-' !in s && '-' !in mark ==> '-' !in Appended(s, mark))
  {
  }

  lemma PrefixedCase(buf: string, unpadded: nat, base: nat, precision: nat, width: nat, flags: Flags)
    requires OneCase(buf, flags.uppercase) && '-' !in buf && (base == 2 ==> !flags.uppercase)
    ensures var r := Prefixed(buf, unpadded, base, precision, width, flags); OneCase(r, flags.uppercase) && '-' !in r
  {
    var room := if !flags.precise && buf != "" && (|buf| == precision || |buf| == width)
      then Trimmed(buf, unpadded, base) else buf;
    assert room <= buf;
    hide Trimmed;
    var mark := BaseMark(base, flags.uppercase);
    AppendedCase(room, mark, flags.uppercase);
    AppendedCase(Appended(room, mark), "0", flags.uppercase);
  }

  lemma RevTextCase(buf: string, width: nat, flags: Flags, upper: bool)
    requires OneCase(buf, upper)
    ensures OneCase(RevText(buf, width, flags), upper) && ('-' in RevText(buf, width, flags) <==> '-' in buf)
  {
    MinusInText(buf, width, flags);
  }

  /** x is the value of v in a signed type with m values. */
  predicate SignedAs(v: int, m: nat, x: int)
    requires m > 0
  {
    (x - v) % m == 0 && -(m as int) <= 2 * x < m
  }

  lemma SignedIs(v: int, bits: nat)
    ensures SignedAs(v, Modulus(bits), Signed(v, bits))
  {
    var m := Modulus(bits);
    var u := v % m;
    assert v == v / m * m + u;
    Arithmetic.DivUnique(u - v, m, -(v / m), 0);
    Arithmetic.DivUnique(u - m - v, m, -(v / m) - 1, 0);
  }

  /** The condition under which the minus sign of a negative number is printed. */
  predicate RoomForSign(d: Directive, args: seq<Arg>) {
    Precision(d, args) < BUFFER && RoomForWidth(d, args)
  }

  /** What the conversion character does to the flags. */
  lemma FlagsFor(c: char, flags: Flags)
    requires !flags.uppercase && (IsSigned(c) || IsUnsigned(c))
    ensures var r := IntegerFlags(c, flags);
            && r.uppercase == (c == 'X') && Bits(r) == Bits(flags) && r.pointer == flags.pointer
            && r.left == flags.left && r.precise == flags.precise && r.zeropad == (flags.zeropad && !flags.precise)
            && r.hash == (flags.hash && BaseNamed(c) != 10)
            && r.plus == (flags.plus && IsSigned(c)) && r.space == (flags.space && IsSigned(c))
  {
  }

  lemma SignedIsText(c: char, s: Spec, x: int)
    requires IsSigned(c) && x == Signed(NumberOf(s.args), Bits(s.flags)) && !s.flags.uppercase
    ensures ConversionText(c, s) == IntText(if x < 0 then -x else x, x < 0, 10, s.precision, s.width,
                                            IntegerFlags(c, s.flags))
  {
    hide IntText, Signed, IntegerFlags, Bits;
    FlagsFor(c, s.flags);
  }

  lemma UnsignedIsText(c: char, s: Spec, x: nat)
    requires IsUnsigned(c) && x == Unsigned(NumberOf(s.args), Bits(s.flags)) && !s.flags.uppercase
    ensures ConversionText(c, s) == IntText(x, false, BaseNamed(c), s.precision, s.width, IntegerFlags(c, s.flags))
  {
    hide IntText, Unsigned, IntegerFlags, Bits;
    FlagsFor(c, s.flags);
  }

  /** Zero padding and precision end at the 32 characters of the buffer. */
  predicate RoomForWidth(d: Directive, args: seq<Arg>) {
    Left(d, args) || '0' !in d.flags || d.precision.Some? || Width(d, args) <= BUFFER
  }

  lemma SignedText(c: char, s: Spec, x: int)
    requires IsSigned(c) && x == Signed(NumberOf(s.args), Bits(s.flags))
    requires !s.flags.pointer && !s.flags.uppercase
    ensures var t := ConversionText(c, s);
            && NumberIn(t, 10) == (if x < 0 then -x else x) && OneCase(t, false)
            && ('-' in t <==> x < 0 && s.precision < BUFFER &&
                              (s.flags.left || !s.flags.zeropad || s.flags.precise || s.width <= BUFFER))
            && (|t| >= s.width <==> s.flags.left || !s.flags.zeropad || s.flags.precise || s.width <= BUFFER)
            && (|Numerals(t, 10)| >= s.precision <==> s.precision <= BUFFER)
  {
    hide IntText, NumberIn, OneCase, Signed, IntegerFlags, ConversionText, Bits, Numerals;
    SignedRange(NumberOf(s.args), Bits(s.flags));
    FlagsFor(c, s.flags);
    SignedIsText(c, s, x);
    var flags := IntegerFlags(c, s.flags);
    var size := if x < 0 then -x else x;
    IntegerReadsBack(size, x < 0, 10, s.precision, s.width, flags);
    TextCase(size, x < 0, 10, s.precision, s.width, flags);
    WidthKept(size, x < 0, 10, s.precision, s.width, flags);
    PrecisionKept(size, x < 0, s.precision, s.width, flags);
    if x < 0 {
      SignShown(c, s);
      SameText(c, s);
    }
  }

  lemma SameText(c: char, s: Spec)
    requires IsSigned(c)
    ensures ConversionText(c, s) == IntegerText(c, s)
  {
    hide IntegerText;
  }

  /** %d and %i: the argument as a signed number of the length field's width, in base 10. */
  lemma SignedPrinted(d: Directive, rest: string, args: seq<Arg>) returns (t: string, x: int)
    requires Good(d) && IsSigned(d.conv)
    ensures Rendered(Text(d) + rest, args) == t + Rendered(rest, Rest(Operands(d, args)))
    ensures SignedAs(NumberOf(Operands(d, args)), Modulo(d.len), x)
    ensures NumberIn(t, 10) == (if x < 0 then -x else x) && OneCase(t, false)
    ensures '-' in t <==> x < 0 && RoomForSign(d, args)
    ensures |t| >= Width(d, args) <==> RoomForWidth(d, args)
    ensures |Numerals(t, 10)| >= Precision(d, args) <==> Precision(d, args) <= BUFFER
  {
    hide Rendered, Text, ConversionText, ReadAs, FieldValue, NumberIn, OneCase, Signed, SignedAs, Modulus, Bits, Modulo;
    hide Numerals, Width, Left, Precision, Operands;
    Rendering(d, rest, args);
    var s := ReadAs(d, args, rest);
    ReadFields(d, args, rest);
    x := Signed(NumberOf(s.args), Bits(s.flags));
    SignedIs(NumberOf(s.args), Bits(s.flags));
    SignedText(d.conv, s, x);
    t := ConversionText(d.conv, s);
  }

  lemma UnsignedText(c: char, s: Spec, x: nat)
    requires IsUnsigned(c) && x == Unsigned(NumberOf(s.args), Bits(s.flags)) && (c == 'b' ==> x < 0x1_0000_0000)
    requires !s.flags.pointer && !s.flags.uppercase
    ensures var t := ConversionText(c, s);
            && NumberIn(t, BaseNamed(c)) == x && OneCase(t, c == 'X') && '-' !in t
            && (|t| >= s.width <==> s.flags.left || !s.flags.zeropad || s.flags.precise || s.width <= BUFFER)
  {
    hide IntText, NumberIn, OneCase, Unsigned, IntegerFlags, ConversionText, Bits;
    UnsignedRange(NumberOf(s.args), Bits(s.flags));
    FlagsFor(c, s.flags);
    UnsignedIsText(c, s, x);
    var flags := IntegerFlags(c, s.flags);
    IntegerReadsBack(x, false, BaseNamed(c), s.precision, s.width, flags);
    TextCase(x, false, BaseNamed(c), s.precision, s.width, flags);
    WidthKept(x, false, BaseNamed(c), s.precision, s.width, flags);
  }

  lemma UnsignedRange(v: int, bits: nat)
    ensures 0 <= Unsigned(v, bits) < 0x1_0000_0000_0000_0000 && Unsigned(v, bits) == v % Modulus(bits)
  {
  }

  /** %u, %x, %X, %o and %b: the argument as an unsigned number of the length field's width, in the base named. */
  lemma UnsignedPrinted(d: Directive, rest: string, args: seq<Arg>) returns (t: string, x: nat)
    requires Good(d) && IsUnsigned(d.conv)
    requires d.conv == 'b' ==> NumberOf(Operands(d, args)) % Modulo(d.len) < 0x1_0000_0000
    ensures Rendered(Text(d) + rest, args) == t + Rendered(rest, Rest(Operands(d, args)))
    ensures x == NumberOf(Operands(d, args)) % Modulo(d.len)
    ensures NumberIn(t, BaseNamed(d.conv)) == x && OneCase(t, d.conv == 'X') && '-' !in t
    ensures |t| >= Width(d, args) <==> RoomForWidth(d, args)
  {
    hide Rendered, Text, ConversionText, ReadAs, FieldValue, NumberIn, OneCase, Unsigned, Modulus, Bits, Modulo;
    hide Width, Left, Precision, Operands;
    Rendering(d, rest, args);
    var s := ReadAs(d, args, rest);
    ReadFields(d, args, rest);
    x := Unsigned(NumberOf(s.args), Bits(s.flags));
    UnsignedRange(NumberOf(s.args), Bits(s.flags));
    UnsignedText(d.conv, s, x);
    t := ConversionText(d.conv, s);
  }

  // ----- The exact text -----------------------------------------------------------------------------

  const LOWER: string := "0123456789abcdef"
  const UPPER: string := "0123456789ABCDEF"

  /** The digits of every base are the first characters of these two rows. */
  lemma DigitRow(d: nat, upper: bool)
    requires d < 16
    ensures DigitChar(d, upper) == (if upper then UPPER[d] else LOWER[d])
    ensures DigitValue(UPPER[d]) == d && DigitValue(LOWER[d]) == d
  {
  }

  /** c is a digit of the base. */
  ghost predicate DigitOf(c: char, base: nat, upper: bool)
    requires base <= 16
  {
    exists d: nat :: d < base && c == if upper then UPPER[d] else LOWER[d]
  }

  /** The digits, highest first, of n in the base: as few as possible. */
  ghost predicate Shortest(digits: string, base: nat, upper: bool, n: nat)
    requires base <= 16
  {
    && digits != "" && (if n == 0 then digits == "0" else digits[0] != '0')
    && Parsed(Reversed(digits), base) == n && forall k | 0 <= k < |digits| :: DigitOf(digits[k], base, upper)
  }

  lemma {:induction false} DigitsAre(value: nat, base: nat, upper: bool, n: nat)
    requires 2 <= base <= 16 && value < Power(base, n)
    ensures var s := Digits(value, base, upper, n);
            && (forall k | 0 <= k < |s| :: DigitOf(s[k], base, upper))
            && (value > 0 ==> s != "" && s[|s| - 1] != '0')
    decreases n
  {
    hide DigitChar, Power, DigitOf, Digits;
    if n > 0 && value > 0 {
      PowerStep(base, n);
      PositivePower(base, n - 1);
      Horner(value, base, Power(base, n - 1), 0);
      Parts(value, base);
      DigitsStep(value, base, upper, n);
      DigitsAre(value / base, base, upper, n - 1);
      OneDigit(value % base, base, upper);
      if value / base == 0 {
        DigitsNone(0, base, upper, n - 1);
      }
    } else {
      PowerNone(base);
      DigitsNone(value, base, upper, n);
    }
  }

  lemma Parts(value: nat, base: nat)
    requires base >= 2
    ensures 0 <= value / base && 0 <= value % base < base && (value / base == 0 ==> value % base == value)
  {
    assert value == value / base * base + value % base;
  }

  lemma PowerStep(base: nat, n: nat)
    requires n > 0
    ensures Power(base, n) == base * Power(base, n - 1)
  {
  }

  lemma PowerNone(base: nat)
    ensures Power(base, 0) == 1
  {
  }

  lemma OneDigit(d: nat, base: nat, upper: bool)
    requires d < base <= 16
    ensures DigitOf(DigitChar(d, upper), base, upper) && (d > 0 ==> DigitChar(d, upper) != '0')
  {
    DigitRow(d, upper);
  }

  /** What print_integer starts with is the shortest numeral. */
  lemma FirstDigitsShortest(value: nat, base: nat, flags: Flags)
    requires Printable(value, base) && !flags.precise
    ensures Shortest(Reversed(FirstDigits(value, base, flags)), base, flags.uppercase, value)
  {
    var s := FirstDigits(value, base, flags);
    DigitsStandFor(value, base, flags);
    ReversedTwice(s);
    if value > 0 {
      EnoughDigits(value, base);
      DigitsAre(value, base, flags.uppercase, BUFFER);
      hide Digits, Parsed, DigitOf;
      assert Reversed(s)[0] == s[|s| - 1];
      assert forall k | 0 <= k < |s| :: Reversed(s)[k] == s[|s| - 1 - k];
    } else {
      assert Reversed("0") == "0";
      OneDigit(0, base, flags.uppercase);
    }
  }

  lemma EnoughDigits(value: nat, base: nat)
    requires Printable(value, base)
    ensures 2 <= base <= 16 && value < Power(base, BUFFER)
  {
    if base == 2 {
      TwoToTheThirtyTwo();
    } else {
      PowerGrows(8, base, BUFFER);
      EightToTheThirtyTwo();
    }
    hide Power;
  }

  /** The prefix of the flag #. */
  function Prefix(base: nat, upper: bool): string {
    if base == 16 then (if upper then "0X" else "0x") else if base == 8 then "0" else if base == 2 then "0b" else ""
  }

  /** Values whose digits leave room for a prefix and a sign. */
  predicate Roomy(value: nat, base: nat) {
    Printable(value, base) && (base == 2 ==> value < 0x2000_0000)
  }

  lemma FewDigits(value: nat, base: nat, flags: Flags)
    requires Roomy(value, base)
    ensures |FirstDigits(value, base, flags)| <= 29
  {
    if value > 0 {
      TopPowers();
      if base != 2 {
        PowerGrows(8, base, 22);
      }
      hide Power, Digits;
      DigitsLength(value, base, flags.uppercase, BUFFER, if base == 2 then 29 else 22);
    }
  }

  lemma TopPowers()
    ensures Power(2, 29) == 0x2000_0000 && Power(8, 22) >= 0x1_0000_0000_0000_0000
  {
    assert Power(2, 8) == 256 && Power(2, 5) == 32 && Power(8, 5) == 32768 && Power(8, 2) == 64;
    hide Power;
    PowerSum(2, 8, 8);
    PowerSum(2, 16, 8);
    PowerSum(2, 24, 5);
    PowerSum(8, 5, 5);
    PowerSum(8, 10, 10);
    PowerSum(8, 20, 2);
  }

  /** The buffer without padding zeros: digits, prefix and sign, lowest character first. */
  lemma PlainBuffer(buf: string, negative: bool, base: nat, width: nat, flags: Flags)
    requires |buf| <= 29 && !flags.zeropad && !flags.precise && !flags.pointer && buf != ""
    requires base == 2 || base == 8 || base == 16 || (base == 10 && !flags.hash)
    ensures Reversed(Finalised(buf, negative, base, 0, width, flags)) ==
            SignMark(negative, flags) + (if flags.hash then Prefix(base, flags.uppercase) else "") + Reversed(buf)
  {
    hide WithPrefix, SignMark, Prefix, Reversed;
    var sign := SignMark(negative, flags);
    var prefix := if flags.hash then Prefix(base, flags.uppercase) else "";
    PlainPrefix(buf, negative, base, width, flags);
    SignShort(negative, flags);
    PrefixShort(base, flags.uppercase);
    ReversedNone();
    assert Finalised(buf, negative, base, 0, width, flags) == buf + Reversed(prefix) + sign;
    hide Finalised;
    ReversedTwice(prefix);
    ReversedSum(buf + Reversed(prefix), sign);
    ReversedSum(buf, Reversed(prefix));
    Joins(sign, prefix, Reversed(buf));
  }

  lemma SignShort(negative: bool, flags: Flags)
    ensures |SignMark(negative, flags)| <= 1 && Reversed(SignMark(negative, flags)) == SignMark(negative, flags)
  {
  }

  lemma PrefixShort(base: nat, upper: bool)
    ensures |Prefix(base, upper)| <= 2
  {
  }

  lemma ReversedNone()
    ensures Reversed("") == ""
  {
  }

  lemma ReversedSum(a: string, b: string)
    ensures Reversed(a + b) == Reversed(b) + Reversed(a)
  {
  }

  lemma PlainPadded(buf: string, negative: bool, width: nat, flags: Flags)
    requires !flags.zeropad
    ensures ZeroPadded(buf, negative, 0, width, flags) == buf && WidthLeft(negative, width, flags) == width
  {
  }

  lemma PlainPrefix(buf: string, negative: bool, base: nat, width: nat, flags: Flags)
    requires |buf| <= 29 && !flags.zeropad && !flags.precise && !flags.pointer && buf != ""
    requires base == 2 || base == 8 || base == 16 || (base == 10 && !flags.hash)
    ensures WithPrefix(buf, negative, base, 0, width, flags) ==
            buf + (if flags.hash then Reversed(Prefix(base, flags.uppercase)) else "")
  {
    PlainPadded(buf, negative, width, flags);
    hide ZeroPadded, WidthLeft;
    assert Trimmed(buf, |buf|, base) == buf;
    assert Reversed("0x") == "x0" && Reversed("0X") == "X0" && Reversed("0b") == "b0" && Reversed("0") == "0";
    assert (buf + "x") + "0" == buf + "x0" && (buf + "X") + "0" == buf + "X0" && (buf + "b") + "0" == buf + "b0";
    hide Reversed;
  }

  /** Without zero padding and precision: sign, prefix and the shortest numeral, padded with spaces. */
  lemma PlainIs(value: nat, negative: bool, base: nat, width: nat, flags: Flags) returns (digits: string)
    requires Roomy(value, base) && !flags.zeropad && !flags.precise && !flags.pointer && (base == 10 ==> !flags.hash)
    ensures Shortest(digits, base, flags.uppercase, value)
    ensures PaddedTo(IntText(value, negative, base, 0, width, flags),
                     SignMark(negative, flags)
                     + (if flags.hash && value != 0 then Prefix(base, flags.uppercase) else "") + digits,
                     width, flags.left)
  {
    hide FirstDigits, Finalised, Shortest, RevText, PaddedTo, Prefix, SignMark, Reversed;
    var flags' := HashLeft(value, base, flags);
    var buf := FirstDigits(value, base, flags);
    digits := Reversed(buf);
    FirstDigitsShortest(value, base, flags);
    FewDigits(value, base, flags);
    NotEmpty(buf, base, flags.uppercase, value);
    PlainBuffer(buf, negative, base, width, flags');
    PlainPadded(buf, negative, width, flags');
    SameSign(negative, flags, flags');
    RevTextIs(Finalised(buf, negative, base, 0, width, flags'), width, flags');
  }

  lemma NotEmpty(buf: string, base: nat, upper: bool, value: nat)
    requires base <= 16 && Shortest(Reversed(buf), base, upper, value)
    ensures buf != ""
  {
  }

  lemma SameSign(negative: bool, flags: Flags, flags': Flags)
    requires flags' == flags || flags' == flags.(hash := false)
    ensures SignMark(negative, flags') == SignMark(negative, flags) && flags'.uppercase == flags.uppercase
  {
  }

  lemma RevTextIs(buf: string, width: nat, flags: Flags)
    requires !flags.zeropad
    ensures PaddedTo(RevText(buf, width, flags), Reversed(buf), width, flags.left)
  {
    hide Reversed;
  }

  /** The sign of a signed conversion. */
  function Sign(d: Directive, negative: bool): string {
    if negative then "-" else if '+' in d.flags then "+" else if ' ' in d.flags then " " else ""
  }

  /** The prefix of an unsigned conversion of a number that is not 0. */
  function Mark(d: Directive): string {
    if '#' !in d.flags then ""
    else match d.conv
      case 'x' => "0x"
      case 'X' => "0X"
      case 'o' => "0"
      case 'b' => "0b"
      case _ => ""
  }

  lemma SmallSigned(v: int, bits: nat, x: int)
    requires x == Signed(v, bits)
    ensures Roomy(if x < 0 then -x else x, 10)
  {
    SignedRange(v, bits);
    hide Signed;
  }

  /** %d and %i without zero padding and precision: sign and shortest decimal, padded with spaces to the width. */
  lemma PlainSigned(d: Directive, rest: string, args: seq<Arg>) returns (t: string, x: int, digits: string)
    requires Good(d) && IsSigned(d.conv) && '0' !in d.flags && d.precision.None?
    ensures Rendered(Text(d) + rest, args) == t + Rendered(rest, Rest(Operands(d, args)))
    ensures SignedAs(NumberOf(Operands(d, args)), Modulo(d.len), x)
    ensures Shortest(digits, 10, false, if x < 0 then -x else x)
    ensures PaddedTo(t, Sign(d, x < 0) + digits, Width(d, args), Left(d, args))
  {
    hide Rendered, Text, ConversionText, ReadAs, FieldValue, Signed, SignedAs, Modulus, Bits, Modulo, PaddedTo;
    hide Shortest, IntText, IntegerFlags, Left, Width, Operands, Good, Roomy;
    Rendering(d, rest, args);
    var s := ReadAs(d, args, rest);
    ReadFields(d, args, rest);
    x := Signed(NumberOf(s.args), Bits(s.flags));
    SignedIs(NumberOf(s.args), Bits(s.flags));
    SignedIsText(d.conv, s, x);
    FlagsFor(d.conv, s.flags);
    SmallSigned(NumberOf(s.args), Bits(s.flags), x);
    t := ConversionText(d.conv, s);
    digits := PlainIs(if x < 0 then -x else x, x < 0, 10, s.width, IntegerFlags(d.conv, s.flags));
    NoPrefix(Sign(d, x < 0));
  }

  lemma NoPrefix(sign: string)
    ensures sign + "" == sign
  {
  }

  /** %u, %x, %X, %o and %b without zero padding and precision: prefix and shortest numeral, padded with spaces. */
  lemma PlainUnsigned(d: Directive, rest: string, args: seq<Arg>) returns (t: string, digits: string)
    requires Good(d) && IsUnsigned(d.conv) && '0' !in d.flags && d.precision.None?
    requires d.conv == 'b' ==> NumberOf(Operands(d, args)) % Modulo(d.len) < 0x2000_0000
    ensures Rendered(Text(d) + rest, args) == t + Rendered(rest, Rest(Operands(d, args)))
    ensures var x := NumberOf(Operands(d, args)) % Modulo(d.len);
            && Shortest(digits, BaseNamed(d.conv), d.conv == 'X', x)
            && PaddedTo(t, (if x == 0 then "" else Mark(d)) + digits, Width(d, args), Left(d, args))
  {
    hide Rendered, Text, ConversionText, ReadAs, FieldValue, Unsigned, Modulus, Bits, Modulo, PaddedTo;
    hide Shortest, IntText, IntegerFlags, Left, Width, Operands, Good;
    Rendering(d, rest, args);
    var s := ReadAs(d, args, rest);
    ReadFields(d, args, rest);
    var x := Unsigned(NumberOf(s.args), Bits(s.flags));
    UnsignedRange(NumberOf(s.args), Bits(s.flags));
    UnsignedIsText(d.conv, s, x);
    FlagsFor(d.conv, s.flags);
    var flags := IntegerFlags(d.conv, s.flags);
    t := ConversionText(d.conv, s);
    digits := PlainIs(x, false, BaseNamed(d.conv), s.width, flags);
    MarkIs(d, x, flags);
  }

  lemma MarkIs(d: Directive, x: nat, flags: Flags)
    requires IsUnsigned(d.conv) && flags.uppercase == (d.conv == 'X') && !flags.plus && !flags.space
    requires flags.hash == ('#' in d.flags && BaseNamed(d.conv) != 10)
    ensures SignMark(false, flags)
            + (if flags.hash && x != 0 then Prefix(BaseNamed(d.conv), flags.uppercase) else "") ==
            if x == 0 then "" else Mark(d)
  {
    var p := if flags.hash && x != 0 then Prefix(BaseNamed(d.conv), flags.uppercase) else "";
    assert "" + p == p;
  }

  // ----- Pointers -----------------------------------------------------------------------------------

  lemma PointerIs(s: Spec, v: nat)
    requires v == NumberOf(s.args) % 0x1_0000_0000_0000_0000 && v > 0 && !s.flags.uppercase
    ensures ConversionText('p', s) == IntText(v, false, 16, s.precision, 18,
                                              s.flags.(zeropad := true, pointer := true))
  {
    hide IntText;
  }

  /** %p of an address: it reads back in base 16, whatever flags, width and precision. */
  lemma PointerPrinted(d: Directive, rest: string, args: seq<Arg>) returns (t: string, v: nat)
    requires Good(d) && d.conv == 'p' && NumberOf(Operands(d, args)) % 0x1_0000_0000_0000_0000 > 0
    ensures Rendered(Text(d) + rest, args) == t + Rendered(rest, Rest(Operands(d, args)))
    ensures v == NumberOf(Operands(d, args)) % 0x1_0000_0000_0000_0000
    ensures NumberIn(t, 16) == v && OneCase(t, false) && '-' !in t
    ensures !Left(d, args) && '+' !in d.flags && ' ' !in d.flags && d.precision.None? ==> PointerText16(t)
  {
    hide Rendered, Text, ConversionText, ReadAs, FieldValue, IntText, NumberIn, OneCase, PointerText16;
    Rendering(d, rest, args);
    var s := ReadAs(d, args, rest);
    ReadFields(d, args, rest);
    v := NumberOf(s.args) % 0x1_0000_0000_0000_0000;
    var flags := s.flags.(zeropad := true, pointer := true);
    PointerIs(s, v);
    t := ConversionText('p', s);
    IntegerReadsBack(v, false, 16, s.precision, 18, flags);
    TextCase(v, false, 16, s.precision, 18, flags);
    if !Left(d, args) && '+' !in d.flags && ' ' !in d.flags && d.precision.None? {
      PointerShape(v, flags);
    }
  }

  /** 0x and sixteen hexadecimal digits. */
  ghost predicate PointerText16(t: string) {
    |t| == 18 && t[..2] == "0x" && forall k | 2 <= k < 18 :: DigitOf(t[k], 16, false)
  }

  lemma PointerShape(v: nat, flags: Flags)
    requires 0 < v < 0x1_0000_0000_0000_0000 && flags.zeropad && flags.pointer && !flags.left && !flags.plus
    requires !flags.space && !flags.precise && !flags.uppercase
    ensures PointerText16(IntText(v, false, 16, 0, 18, flags))
  {
    hide Digits, DigitOf;
    var buf := FirstDigits(v, 16, flags);
    EnoughDigits(v, 16);
    DigitsAre(v, 16, false, BUFFER);
    SixteenDigits(v);
    PointerBuffer(buf, flags);
  }

  lemma SixteenDigits(v: nat)
    requires v < 0x1_0000_0000_0000_0000
    ensures |Digits(v, 16, false, BUFFER)| <= 16
  {
    assert Power(16, 4) == 0x10000;
    hide Power, Digits;
    PowerSum(16, 4, 4);
    PowerSum(16, 8, 8);
    DigitsLength(v, 16, false, BUFFER, 16);
  }

  lemma PointerBuffer(buf: string, flags: Flags)
    requires 0 < |buf| <= 16 && flags.zeropad && flags.pointer && !flags.left && !flags.plus
    requires !flags.space && !flags.precise && !flags.uppercase
    requires forall k | 0 <= k < |buf| :: DigitOf(buf[k], 16, false)
    ensures PointerText16(RevText(Finalised(buf, false, 16, 0, 18, flags), 18, flags))
    ensures WidthLeft(false, 18, flags) == 18
  {
    hide DigitOf;
    OneDigit(0, 16, false);
    var padded := buf + Times('0', 18 - |buf|);
    assert ZeroPadded(buf, false, 0, 18, flags) == padded;
    var room := buf + Times('0', 16 - |buf|);
    assert padded[..17][..16] == room;
    assert Trimmed(padded, |buf|, 16) == room;
    var whole := room + "x" + "0";
    assert Finalised(buf, false, 16, 0, 18, flags) == whole;
    assert Reversed(whole)[0] == '0' && Reversed(whole)[1] == 'x';
    assert forall k | 2 <= k < 18 :: Reversed(whole)[k] == room[17 - k];
    assert RevText(whole, 18, flags) == Reversed(whole);
  }

  lemma NilIs(s: Spec)
    requires NumberOf(s.args) % 0x1_0000_0000_0000_0000 == 0
    ensures PaddedTo(ConversionText('p', s), "(nil)", if s.flags.left then 18 else 0, s.flags.left)
  {
    assert Reversed(")lin(") == "(nil)";
    hide Reversed;
  }

  /** %p of a null pointer: (nil). */
  lemma NilPrinted(d: Directive, rest: string, args: seq<Arg>) returns (t: string)
    requires Good(d) && d.conv == 'p' && NumberOf(Operands(d, args)) % 0x1_0000_0000_0000_0000 == 0
    ensures Rendered(Text(d) + rest, args) == t + Rendered(rest, Rest(Operands(d, args)))
    ensures PaddedTo(t, "(nil)", if Left(d, args) then 18 else 0, Left(d, args))
  {
    hide Rendered, Text, ConversionText, PaddedTo, ReadAs, FieldValue;
    Rendering(d, rest, args);
    ReadFields(d, args, rest);
    NilIs(ReadAs(d, args, rest));
    t := ConversionText('p', ReadAs(d, args, rest));
  }

  // ----- A format ------------------------------------------------------------------------------------

  lemma TwoHexDigits()
    ensures Digits(255, 16, false, BUFFER) == "ff"
  {
    hide Digits;
    DigitsStep(255, 16, false, 32);
    DigitsStep(15, 16, false, 31);
    DigitsNone(0, 16, false, 30);
  }

  lemma HexText()
    ensures ConversionText('x', Spec(PLAIN, 0, 0, "x%%", [Number(255)])) == "ff"
  {
    hide IntText, IntegerFlags, ConversionText, Digits;
    var s := Spec(PLAIN, 0, 0, "x%%", [Number(255)]);
    UnsignedIsText('x', s, 255);
    assert IntegerFlags('x', PLAIN) == PLAIN by { HexFlags(); }
    HexInteger();
  }

  lemma HexFlags()
    ensures IntegerFlags('x', PLAIN) == PLAIN
  {
  }

  lemma HexInteger()
    ensures IntText(255, false, 16, 0, 0, PLAIN) == "ff"
  {
    hide Digits, Finalised, Reversed, WidthLeft;
    TwoHexDigits();
    PlainBuffer("ff", false, 16, 0, PLAIN);
    PlainPadded("ff", false, 0, PLAIN);
    assert Reversed("ff") == "ff" by { SameBackwards(); }
    assert SignMark(false, PLAIN) + "" + "ff" == "ff";
    NoPadding(Finalised("ff", false, 16, 0, 0, PLAIN));
  }

  lemma SameBackwards()
    ensures Reversed("ff") == "ff"
  {
  }

  lemma NoPadding(buf: string)
    ensures RevText(buf, 0, PLAIN) == Reversed(buf)
  {
  }

  /** 255 as %x, and a percent sign. */
  lemma HexSample()
    ensures Rendered("%x%%", [Number(255)]) == "ff%"
  {
    var d := Directive("", Written(""), None, "", 'x');
    assert Text(d) == "%x" && "%x" + "%%" == "%x%%";
    Rendering(d, "%%", [Number(255)]);
    PlainRead(d, [Number(255)]);
    HexText();
    PercentPercent("", []);
    hide Rendered, Text, ConversionText, ReadAs;
    assert "%%" + "" == "%%";
    NothingRendered();
    assert "ff" + ("%" + "") == "ff%";
  }

  lemma NothingRendered()
    ensures Rendered("", []) == ""
  {
  }

  lemma PlainRead(d: Directive, args: seq<Arg>)
    requires d == Directive("", Written(""), None, "", 'x') && args == [Number(255)]
    ensures ReadAs(d, args, "%%") == Spec(PLAIN, 0, 0, "x%%", args) && Rest(Operands(d, args)) == []
  {
    EmptyDecimal();
    hide Decimal;
    assert ['x'] + "%%" == "x%%";
  }
}
