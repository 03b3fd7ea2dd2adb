/** What the fields of a conversion mean: flags, decimal numbers, length. */
module Directives {
  import opened Wrappers
  import opened Printf
  import opened PrintedIntegers

  // ----- Numbers -------------------------------------------------------------------------------

  /** How many digits f starts with. */
  function DigitSpan(f: string): (k: nat)
    ensures k <= |f| && (forall i | 0 <= i < k :: IsDigit(f[i])) && (k < |f| ==> !IsDigit(f[k]))
  {
    if f != "" && IsDigit(f[0]) then 1 + DigitSpan(f[1..]) else 0
  }

  /** The decimal number that s writes, highest digit first. */
  function Decimal(s: string): nat {
    Parsed(Reversed(s), 10)
  }

  /** A digit appended on the high side. */
  lemma {:induction false} ParsedAppend(a: string, c: char, base: nat)
    ensures Parsed(a + [c], base) == Parsed(a, base) + DigitValue(c) * Power(base, |a|)
  {
    hide DigitValue;
    if a == "" {
      assert a + [c] == [c] && [c][1..] == "";
      assert Parsed("", base) == 0;
    } else {
      assert (a + [c])[1..] == a[1..] + [c];
      ParsedAppend(a[1..], c, base);
      var v, p := DigitValue(c), Power(base, |a| - 1);
      assert base * (Parsed(a[1..], base) + v * p) == base * Parsed(a[1..], base) + v * (base * p);
    }
  }

  lemma DecimalFirst(s: string)
    requires s != ""
    ensures Decimal(s) == Decimal(s[1..]) + DigitValue(s[0]) * Power(10, |s| - 1)
  {
    hide DigitValue, Parsed, Power, Reversed;
    FirstLast(s);
    ParsedAppend(Reversed(s[1..]), s[0], 10);
  }

  lemma FirstLast(s: string)
    requires s != ""
    ensures Reversed(s) == Reversed(s[1..]) + [s[0]]
  {
    ReversedMore(s, 0);
    assert s[0..] == s;
  }

  /** _atoi stops at the first character that is no digit, with the decimal number before it modulo 2^32. */
  lemma {:induction false} AtoiMeaning(i: nat, f: string)
    ensures var k := DigitSpan(f);
            AtoiFrom(i % 0x1_0000_0000, f) == ((i * Power(10, k) + Decimal(f[..k])) % 0x1_0000_0000, f[k..])
    decreases |f|
  {
    var k := DigitSpan(f);
    if k > 0 {
      var d := DigitValue(f[0]);
      AtoiMeaning(i * 10 + d, f[1..]);
      AtoiRound(i, d);
      DecimalFirst(f[..k]);
      assert f[..k][1..] == f[1..][..k - 1] && f[k..] == f[1..][k - 1..];
      assert Power(10, k) == 10 * Power(10, k - 1);
      hide AtoiFrom, Power, Decimal, DigitValue;
      Scaled(i, d, Power(10, k - 1));
    } else {
      assert f[..0] == "" && f[0..] == f;
      assert Reversed("") == "";
    }
  }

  lemma AtoiRound(i: nat, d: nat)
    ensures (i % 0x1_0000_0000 * 10 + d) % 0x1_0000_0000 == (i * 10 + d) % 0x1_0000_0000
  {
    var q := i / 0x1_0000_0000;
    assert i * 10 + d == q * 10 * 0x1_0000_0000 + (i % 0x1_0000_0000 * 10 + d);
  }

  lemma Scaled(i: nat, d: nat, p: nat)
    ensures (i * 10 + d) * p == i * (10 * p) + d * p
  {
  }

  /** A field of digits reads as its decimal number modulo 2^32. */
  lemma AtoiReads(w: string, rest: string)
    requires (forall k | 0 <= k < |w| :: IsDigit(w[k])) && (rest != "" ==> !IsDigit(rest[0]))
    ensures AtoiFrom(0, w + rest) == (Decimal(w) % 0x1_0000_0000, rest)
  {
    hide AtoiFrom, Decimal, Power;
    AtoiMeaning(0, w + rest);
    SpanIs(w, rest);
    assert (w + rest)[..|w|] == w && (w + rest)[|w|..] == rest;
  }

  lemma {:induction false} SpanIs(w: string, rest: string)
    requires (forall k | 0 <= k < |w| :: IsDigit(w[k])) && (rest != "" ==> !IsDigit(rest[0]))
    ensures DigitSpan(w + rest) == |w|
  {
    if w == "" {
      assert w + rest == rest;
    } else {
      assert (w + rest)[1..] == w[1..] + rest;
      SpanIs(w[1..], rest);
    }
  }

  // ----- Flags ------------------------------------------------------------------------------------

  /** The flags that a field of flag characters sets. */
  function FlagsOf(fl: string): Flags {
    PLAIN.(zeropad := '0' in fl, left := '-' in fl, plus := '+' in fl, space := ' ' in fl, hash := '#' in fl)
  }

  function Joined(a: Flags, b: Flags): Flags {
    a.(zeropad := a.zeropad || b.zeropad, left := a.left || b.left, plus := a.plus || b.plus,
       space := a.space || b.space, hash := a.hash || b.hash)
  }

  lemma InFirst(c: char, fl: string)
    requires fl != ""
    ensures c in fl <==> c == fl[0] || c in fl[1..]
  {
    assert fl == [fl[0]] + fl[1..];
  }

  lemma FlagSetFields(flags: Flags, c: char)
    requires IsFlag(c)
    ensures FlagSet(flags, c) == flags.(zeropad := flags.zeropad || c == '0', left := flags.left || c == '-',
                                        plus := flags.plus || c == '+', space := flags.space || c == ' ',
                                        hash := flags.hash || c == '#')
  {
  }

  lemma FlagsFirst(flags: Flags, fl: string)
    requires fl != "" && IsFlag(fl[0])
    ensures Joined(FlagSet(flags, fl[0]), FlagsOf(fl[1..])) == Joined(flags, FlagsOf(fl))
  {
    hide FlagSet;
    FlagSetFields(flags, fl[0]);
    InFirst('0', fl);
    InFirst('-', fl);
    InFirst('+', fl);
    InFirst(' ', fl);
    InFirst('#', fl);
  }

  lemma FlagsNone(flags: Flags, rest: string)
    requires rest != "" ==> !IsFlag(rest[0])
    ensures FlagsFrom(flags, rest) == (Joined(flags, FlagsOf("")), rest)
  {
  }

  lemma FlagsStep(flags: Flags, f: string)
    requires f != "" && IsFlag(f[0])
    ensures FlagsFrom(flags, f) == FlagsFrom(FlagSet(flags, f[0]), f[1..])
  {
  }

  /** The flags loop stops at the first other character, and sets exactly the flags whose characters it read. */
  lemma {:induction false} FlagsRead(flags: Flags, fl: string, rest: string)
    requires (forall k | 0 <= k < |fl| :: IsFlag(fl[k])) && (rest != "" ==> !IsFlag(rest[0]))
    ensures FlagsFrom(flags, fl + rest) == (Joined(flags, FlagsOf(fl)), rest)
    decreases |fl|
  {
    hide FlagSet, FlagsOf, Joined, FlagsFrom;
    if fl == "" {
      assert fl + rest == rest;
      FlagsNone(flags, rest);
    } else {
      assert (fl + rest)[1..] == fl[1..] + rest;
      FlagsStep(flags, fl + rest);
      FlagsFirst(flags, fl);
      FlagsRead(FlagSet(flags, fl[0]), fl[1..], rest);
    }
  }

  // ----- Whole conversions ---------------------------------------------------------------------------

  /** The length fields, with the flags each of them sets. */
  predicate IsLength(len: string) {
    len == "" || len == "l" || len == "ll" || len == "h" || len == "hh" || len == "t" || len == "j" || len == "z"
  }

  function LengthFlags(flags: Flags, len: string): Flags {
    if len == "" then flags
    else if len[0] == 'h' then (if len == "hh" then flags.(half := true, tiny := true) else flags.(half := true))
    else flags.(wide := true)
  }

  /** A character that can only be the conversion itself. */
  predicate Converts(c: char) {
    !IsFlag(c) && !IsDigit(c) && c != '*' && c != '.' && c != 'l' && c != 'h' && c != 't' && c != 'j' && c != 'z'
  }

  /** A width or precision as written: digits, or * for an argument. */
  datatype Field = Written(digits: string) | Star

  predicate IsField(w: Field) {
    w.Written? ==> forall k | 0 <= k < |w.digits| :: IsDigit(w.digits[k])
  }

  function FieldText(w: Field): string {
    if w.Star? then "*" else w.digits
  }

  /** The precision field as written. */
  function PrecisionText(p: Option<Field>): string {
    if p.Some? then "." + FieldText(p.value) else ""
  }

  /** The next argument as a 32-bit int. */
  function IntOf(args: seq<Arg>): (v: int)
    ensures -0x8000_0000 <= v < 0x8000_0000
  {
    Signed(NumberOf(args), 32)
  }

  /** An int passed to a * is read as it is. */
  lemma IntRead(v: int, rest: seq<Arg>)
    requires -0x8000_0000 <= v < 0x8000_0000
    ensures IntOf([Number(v)] + rest) == v && Rest([Number(v)] + rest) == rest
  {
  }

  /** The number that a field stands for, negative only from an argument. */
  function FieldValue(w: Field, args: seq<Arg>): int {
    if w.Star? then IntOf(args) else Decimal(w.digits) % 0x1_0000_0000
  }

  /** The arguments after a field. */
  function AfterField(w: Field, args: seq<Arg>): seq<Arg> {
    if w.Star? then Rest(args) else args
  }

  lemma LengthReads(s: Spec, len: string, rest: string)
    requires IsLength(len) && s.f == len + rest && rest != "" && Converts(rest[0])
    ensures LengthStep(s) == s.(flags := LengthFlags(s.flags, len), f := rest)
  {
    if len == "" {
      assert s.f == rest;
    } else if |len| == 1 {
      assert s.f[0] == len[0] && s.f[1..] == rest && s.f[1] == rest[0];
    } else {
      assert s.f[0] == len[0] && s.f[1] == len[1] && s.f[2..] == rest;
    }
  }

  /** What a precision field does to a conversion: a negative precision counts as 0. */
  function WithPrecision(s: Spec, p: Option<Field>, rest: string): Spec {
    match p
    case None => s.(f := rest)
    case Some(w) =>
      var v := FieldValue(w, s.args);
      s.(flags := s.flags.(precise := true), precision := if v < 0 then 0 else v, f := rest,
         args := AfterField(w, s.args))
  }

  lemma PrecisionReads(s: Spec, p: Option<Field>, rest: string)
    requires (p.Some? ==> IsField(p.value)) && s.f == PrecisionText(p) + rest && s.precision == 0
    requires rest != "" && !IsDigit(rest[0]) && rest[0] != '.' && rest[0] != '*'
    ensures PrecisionStep(s) == WithPrecision(s, p, rest)
  {
    hide AtoiFrom, Decimal, Signed;
    match p
    case None =>
      assert s.f == rest;
    case Some(Star) =>
      assert s.f[1..] == "*" + rest && ("*" + rest)[1..] == rest;
    case Some(Written(digits)) =>
      PrecisionDigits(s, digits, rest);
  }

  lemma PrecisionDigits(s: Spec, digits: string, rest: string)
    requires IsField(Written(digits)) && s.f == "." + digits + rest && s.precision == 0
    requires rest != "" && !IsDigit(rest[0]) && rest[0] != '*'
    ensures PrecisionStep(s) == s.(flags := s.flags.(precise := true), precision := Decimal(digits) % 0x1_0000_0000,
                                   f := rest)
  {
    hide AtoiFrom, Decimal;
    assert s.f[1..] == digits + rest;
    if digits == "" {
      assert s.f[1..] == rest;
      EmptyDecimal();
    } else {
      assert s.f[1] == digits[0];
      AtoiReads(digits, rest);
    }
  }

  lemma EmptyDecimal()
    ensures Decimal("") == 0
  {
    assert Reversed("") == "";
  }

  /** What a width field does to a conversion: a negative width stands for left alignment. */
  function WithWidth(s: Spec, w: Field, rest: string): Spec {
    var v := FieldValue(w, s.args);
    s.(flags := if v < 0 then s.flags.(left := true) else s.flags, width := if v < 0 then -v else v, f := rest,
       args := AfterField(w, s.args))
  }

  lemma WidthReads(s: Spec, w: Field, rest: string)
    requires IsField(w) && s.f == FieldText(w) + rest && s.width == 0
    requires rest != "" && !IsDigit(rest[0]) && rest[0] != '*'
    ensures WidthStep(s) == WithWidth(s, w, rest)
  {
    hide AtoiFrom, Decimal, Signed;
    match w
    case Star =>
      assert s.f[1..] == rest;
    case Written(digits) =>
      if digits == "" {
        assert s.f == rest;
        EmptyDecimal();
      } else {
        AtoiReads(digits, rest);
      }
  }

  /**
   A conversion written as flag characters, width, precision and length reads as
   exactly those: every flag set that is written, the decimal numbers modulo 2^32 or
   the int arguments in their order, and the rest of the format behind it.
   */
  lemma SpecReads(fl: string, w: Field, p: Option<Field>, len: string, rest: string, args: seq<Arg>)
    requires (forall k | 0 <= k < |fl| :: IsFlag(fl[k])) && IsField(w) && (p.Some? ==> IsField(p.value))
    requires w.Written? && w.digits != "" ==> w.digits[0] != '0'
    requires IsLength(len) && rest != "" && Converts(rest[0])
    ensures var s := WithPrecision(WithWidth(Spec(FlagsOf(fl), 0, 0, "", args), w, ""), p, "");
            SpecOf(fl + (FieldText(w) + (PrecisionText(p) + (len + rest))), args) ==
            s.(flags := LengthFlags(s.flags, len), f := rest)
  {
    hide FlagsFrom, WidthStep, PrecisionStep, LengthStep, FieldValue;
    var f3 := len + rest;
    var f2 := PrecisionText(p) + f3;
    var f1 := FieldText(w) + f2;
    FieldStarts(w, p, len, rest);
    FlagsRead(PLAIN, fl, f1);
    assert Joined(PLAIN, FlagsOf(fl)) == FlagsOf(fl);
    var s0 := Spec(FlagsOf(fl), 0, 0, f1, args);
    WidthReads(s0, w, f2);
    PrecisionReads(WithWidth(s0, w, f2), p, f3);
    LengthReads(PrecisionStep(WidthStep(s0)), len, rest);
  }

  /** Each field ends where the next one starts. */
  lemma FieldStarts(w: Field, p: Option<Field>, len: string, rest: string)
    requires IsField(w) && (w.Written? && w.digits != "" ==> w.digits[0] != '0')
    requires IsLength(len) && rest != "" && Converts(rest[0])
    ensures var f3 := len + rest;
            var f2 := PrecisionText(p) + f3;
            && !IsDigit(f3[0]) && f3[0] != '.' && f3[0] != '*' && !IsDigit(f2[0]) && f2[0] != '*'
            && !IsFlag((FieldText(w) + f2)[0])
  {
  }

  /** %033d of -5: zero padding fills the buffer and the sign is lost. */
  lemma SignLost()
    ensures '-' !in Rendered("%033d", [Number(-5)])
  {
    hide IntegerText, SpecOf, Decimal;
    var args := [Number(-5)];
    SpecReads("0", Written("33"), None, "", "d", args);
    assert "033d" == "0" + ("33" + (PrecisionText(None) + ("" + "d")));
    ThirtyThree();
    var s := Spec(PLAIN.(zeropad := true), 33, 0, "d", args);
    assert SpecOf("033d", args) == s;
    assert "%033d"[1..] == "033d" && "d"[1..] == "";
    SignShown('d', s);
    assert Rendered("", []) == "";
    assert Rendered("%033d", args) == IntegerText('d', s) + "";
  }

  lemma ThirtyThree()
    ensures Decimal("33") == 33
  {
    DecimalFirst("33");
    DecimalFirst("3");
    assert "33"[1..] == "3" && "3"[1..] == "";
    EmptyDecimal();
  }
}
