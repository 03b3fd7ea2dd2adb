/** vsnprintf_: formatted output into a bounded buffer. */
module Printf {
  import opened Strings

  /** PRINT_INTEGER_BUFFER_SIZE */
  const BUFFER: nat := 32

  datatype Flags = Flags(zeropad: bool, left: bool, plus: bool, space: bool, hash: bool, uppercase: bool,
                         half: bool, tiny: bool, wide: bool, precise: bool, pointer: bool)

  // ----- The bounded buffer ---------------------------------------------------------------

  /** The buffer m after text went through an output function that stops at n. */
  function Written(m: seq<char>, text: string, n: nat): (r: seq<char>)
    requires n <= |m|
    ensures |r| == |m|
  {
    var k := if |text| < n then |text| else n;
    text[..k] + m[k..]
  }

  /** The buffer after the terminating NUL as well. */
  function Terminated(m: seq<char>, text: string, n: nat): (r: seq<char>)
    requires n <= |m|
    ensures |r| == |m|
  {
    if n == 0 then m
    else
      var k := if |text| < n - 1 then |text| else n - 1;
      text[..k] + [NUL] + m[k + 1..]
  }

  lemma TerminatedIs(m: seq<char>, text: string, n: nat)
    requires n <= |m|
    ensures var r := Terminated(m, text, n);
            && (n == 0 ==> r == m)
            && (n > 0 ==>
                  var k := if |text| < n - 1 then |text| else n - 1;
                  r[..k] == text[..k] && r[k] == '\0' && r[k + 1..] == m[k + 1..])
  {
    if n > 0 {
      var k := if |text| < n - 1 then |text| else n - 1;
      var r := Terminated(m, text, n);
      assert r == text[..k] + [NUL] + m[k + 1..];
      assert r[..k] == text[..k] && r[k + 1..] == m[k + 1..];
    }
  }

  lemma WrittenMore(m: seq<char>, text: string, c: char, n: nat)
    requires n <= |m|
    ensures Written(m, text + [c], n) == if |text| < n then Written(m, text, n)[|text| := c] else Written(m, text, n)
  {
  }

  lemma WrittenEnd(m: seq<char>, text: string, n: nat)
    requires n <= |m|
    ensures n > 0 ==> Terminated(m, text, n) == Written(m, text, n)[(if |text| < n then |text| else n - 1) := NUL]
    ensures n == 0 ==> Terminated(m, text, n) == Written(m, text, n) == m
  {
    if n == 0 {
      assert text[..0] + m[0..] == m;
    } else {
      var k := if |text| < n then |text| else n - 1;
      var written, terminated := Written(m, text, n), Terminated(m, text, n);
      assert terminated == text[..k] + [NUL] + m[k + 1..];
      assert written[..k] == text[..k] && written[k + 1..] == m[k + 1..];
      assert written[k := NUL] == written[..k] + [NUL] + written[k + 1..];
    }
  }

  class Sink {
    const buffer: array<char>
    const maxlen: nat
    var idx: nat
    /** What the buffer held at the start, and all characters put out so far. */
    ghost const start: seq<char>
    ghost var text: string

    constructor (buffer: array<char>, maxlen: nat)
      requires maxlen <= buffer.Length
      ensures this.buffer == buffer && this.maxlen == maxlen && start == buffer[..] && text == "" && Valid()
    {
      this.buffer, this.maxlen, idx, text, start := buffer, maxlen, 0, "", buffer[..];
    }

    ghost predicate Valid()
      reads this, buffer
    {
      maxlen <= buffer.Length == |start| && idx == |text| && buffer[..] == Written(start, text, maxlen)
    }

    /** out(c, buffer, idx++, maxlen) with _out_buffer */
    method Put(c: char)
      requires Valid()
      modifies this`idx, this`text, buffer
      ensures Valid() && text == old(text) + [c]
    {
      hide Written;
      WrittenMore(start, text, c, maxlen);
      if idx < maxlen {
        buffer[idx] := c;
      }
      idx, text := idx + 1, text + [c];
    }

    /** The termination at the end of _vsnprintf. */
    method Terminate()
      requires Valid()
      modifies buffer
      ensures buffer[..] == Terminated(start, text, maxlen)
    {
      hide Written, Terminated;
      WrittenEnd(start, text, maxlen);
      if maxlen > 0 {
        buffer[if idx < maxlen then idx else maxlen - 1] := NUL;
      }
    }

    /** A padding loop: n times the same character. */
    method PutMany(c: char, n: nat)
      requires Valid()
      modifies this`idx, this`text, buffer
      ensures Valid() && text == old(text) + Times(c, n)
    {
      hide Written;
      for i := 0 to n
        invariant Valid() && text == old(text) + Times(c, i)
      {
        Put(c);
      }
    }

    /** The loop of _out_rev that puts out a buffer backwards. */
    method PutReversed(buf: string)
      requires Valid()
      modifies this`idx, this`text, buffer
      ensures Valid() && text == old(text) + Reversed(buf)
    {
      hide Written;
      var len := |buf|;
      assert buf[len..] == [];
      while len > 0
        invariant 0 <= len <= |buf| && Valid() && text == old(text) + Reversed(buf[len..])
      {
        len := len - 1;
        ReversedMore(buf, len);
        Put(buf[len]);
      }
      assert buf[0..] == buf;
    }

    /** _out_rev */
    method OutRev(buf: string, width: nat, flags: Flags)
      requires Valid()
      modifies this`idx, this`text, buffer
      ensures Valid() && text == old(text) + RevText(buf, width, flags)
    {
      hide Written, Times, Reversed;
      if !flags.left && !flags.zeropad {
        PutMany(' ', Gap(|buf|, width));
      }
      PutReversed(buf);
      if flags.left {
        PutMany(' ', Gap(|buf|, width));
      }
    }
  }

  function Times(c: char, n: nat): (s: string)
    ensures |s| == n
  {
    seq(n, _ => c)
  }

  function Reversed(s: string): (r: string)
    ensures |r| == |s|
  {
    seq(|s|, i requires 0 <= i < |s| => s[|s| - 1 - i])
  }

  lemma ReversedMore(s: string, k: nat)
    requires k < |s|
    ensures Reversed(s[k..]) == Reversed(s[k + 1..]) + [s[k]]
  {
  }

  /** How many characters are missing to the width. */
  function Gap(len: nat, width: nat): nat {
    if len < width then width - len else 0
  }

  /** What _out_rev puts out. */
  function RevText(buf: string, width: nat, flags: Flags): string {
    var pad := Times(' ', Gap(|buf|, width));
    (if !flags.left && !flags.zeropad then pad else "") + Reversed(buf) + (if flags.left then pad else "")
  }

  // ----- Integers ----------------------------------------------------------------------------

  function DigitChar(d: nat, uppercase: bool): char
    requires d < 16
  {
    if d < 10 then ['0', '1', '2', '3', '4', '5', '6', '7', '8', '9'][d]
    else if uppercase then ['A', 'B', 'C', 'D', 'E', 'F'][d - 10]
    else ['a', 'b', 'c', 'd', 'e', 'f'][d - 10]
  }

  function DigitValue(c: char): nat {
    if '0' <= c <= '9' then c as nat - '0' as nat
    else if 'A' <= c <= 'F' then c as nat - 'A' as nat + 10
    else if 'a' <= c <= 'f' then c as nat - 'a' as nat + 10
    else 0
  }

  /** The digits of a value, lowest first, at most n of them. */
  function Digits(value: nat, base: nat, uppercase: bool, n: nat): (s: string)
    requires 2 <= base <= 16
    ensures |s| <= n
    decreases base, n
  {
    if n == 0 || value == 0 then ""
      else [DigitChar(value % base, uppercase)] + Digits(value / base, base, uppercase, n - 1)
  }

  /** The number that digits, lowest first, stand for. */
  function Parsed(s: string, base: nat): nat {
    if s == "" then 0 else DigitValue(s[0]) + base * Parsed(s[1..], base)
  }

  function Power(base: nat, n: nat): nat
    decreases base, n
  {
    if n == 0 then 1 else base * Power(base, n - 1)
  }

  lemma DigitRoundTrip(d: nat, uppercase: bool)
    requires d < 16
    ensures DigitValue(DigitChar(d, uppercase)) == d
  {
  }

  /** The printed digits stand for the value, cut off at n digits of the base. */
  lemma {:induction false} DigitsParse(value: nat, base: nat, uppercase: bool, n: nat)
    requires 2 <= base <= 16
    ensures value < Power(base, n) ==> Parsed(Digits(value, base, uppercase, n), base) == value
    ensures Parsed(Digits(value, base, uppercase, n), base) < Power(base, n)
    decreases n
  {
    hide DigitChar, DigitValue;
    if n > 0 {
      PositivePower(base, n - 1);
      if value > 0 {
        DigitRoundTrip(value % base, uppercase);
        DigitsParse(value / base, base, uppercase, n - 1);
        var rest := Digits(value / base, base, uppercase, n - 1);
        assert Digits(value, base, uppercase, n)[1..] == rest;
        Horner(value, base, Power(base, n - 1), Parsed(rest, base));
      } else {
        PositivePower(base, n);
      }
    }
  }

  lemma PositivePower(base: nat, n: nat)
    requires base > 0
    ensures Power(base, n) > 0
  {
  }

  lemma Horner(value: nat, base: nat, p: nat, rest: nat)
    requires base >= 2 && rest < p
    ensures value < base * p ==> value / base < p
    ensures value / base == rest ==> value % base + base * rest == value
    ensures value % base + base * rest < base * p
  {
    assert base * rest + base <= base * p by {
      assert base * (rest + 1) <= base * p;
    }
    assert value / base >= p ==> base * (value / base) >= base * p;
  }

  /** The digits read back as the value exactly when they fit. */
  lemma DigitsExact(value: nat, base: nat, uppercase: bool, n: nat)
    requires 2 <= base <= 16
    ensures Parsed(Digits(value, base, uppercase, n), base) == value <==> value < Power(base, n)
  {
    DigitsParse(value, base, uppercase, n);
  }

  /** buf[len++] = '0' while there is room and the length is not reached. */
  function Padded(buf: string, n: nat): string {
    buf + Times('0', Gap(|buf|, if n < BUFFER then n else BUFFER))
  }

  /** Two padding digits are taken back to make room for a prefix. */
  function Trimmed(buf: string, unpadded: nat, base: nat): (r: string)
    ensures r <= buf && (unpadded <= |buf| ==> unpadded <= |r|)
  {
    var one := if unpadded < |buf| then buf[..|buf| - 1] else buf;
    if one != "" && base == 16 && unpadded < |one| then one[..|one| - 1] else one
  }

  function BaseMark(base: nat, uppercase: bool): string {
    if base == 16 then (if uppercase then "X" else "x") else if base == 2 then "b" else ""
  }

  /** At most one character more, if there is room. */
  function Appended(buf: string, c: string): string {
    if |buf| < BUFFER then buf + c else buf
  }

  /** The part of print_integer_finalization for # and %p. */
  function Prefixed(buf: string, unpadded: nat, base: nat, precision: nat, width: nat, flags: Flags): string {
    var room := if !flags.precise && buf != "" && (|buf| == precision || |buf| == width)
      then Trimmed(buf, unpadded, base) else buf;
    Appended(Appended(room, BaseMark(base, flags.uppercase)), "0")
  }

  function SignMark(negative: bool, flags: Flags): string {
    if negative then "-" else if flags.plus then "+" else if flags.space then " " else ""
  }

  /** The width that is left when a sign will be put before padding zeros. */
  function WidthLeft(negative: bool, width: nat, flags: Flags): nat {
    if !flags.left && width > 0 && flags.zeropad && (negative || flags.plus || flags.space) then width - 1 else width
  }

  /** Digits and padding zeros. */
  function ZeroPadded(buf: string, negative: bool, precision: nat, width: nat, flags: Flags): string {
    Padded(if !flags.left && flags.zeropad then Padded(buf, WidthLeft(negative, width, flags)) else buf, precision)
  }

  function WithPrefix(buf: string, negative: bool, base: nat, precision: nat, width: nat, flags: Flags): string {
    var padded := ZeroPadded(buf, negative, precision, width, flags);
    if (flags.hash && !(base == 8 && |padded| > |buf|)) || flags.pointer
    then Prefixed(padded, |buf|, base, precision, WidthLeft(negative, width, flags), flags)
    else padded
  }

  /** The whole buffer of print_integer_finalization, lowest character first. */
  function Finalised(buf: string, negative: bool, base: nat, precision: nat, width: nat, flags: Flags): string {
    Appended(WithPrefix(buf, negative, base, precision, width, flags), SignMark(negative, flags))
  }

  /** The digits print_integer starts with, and whether # still counts. */
  function FirstDigits(value: nat, base: nat, flags: Flags): string
    requires 2 <= base <= 16
  {
    if value == 0 then (if flags.precise then "" else "0") else Digits(value, base, flags.uppercase, BUFFER)
  }

  function HashLeft(value: nat, base: nat, flags: Flags): Flags {
    if value == 0 && (!flags.precise || base == 16) then flags.(hash := false) else flags
  }

  /** What print_integer puts out. */
  function IntText(value: nat, negative: bool, base: nat, precision: nat, width: nat, flags: Flags): string
    requires 2 <= base <= 16
  {
    var flags' := HashLeft(value, base, flags);
    RevText(Finalised(FirstDigits(value, base, flags), negative, base, precision, width, flags'),
            WidthLeft(negative, width, flags'), flags')
  }

  // ----- Directives ---------------------------------------------------------------------------------

  /** One variadic argument: a number or address, a string, or a null string. */
  datatype Arg = Number(value: int) | Chars(chars: string) | NoChars

  function NumberOf(args: seq<Arg>): int {
    if args != [] && args[0].Number? then args[0].value else 0
  }

  function Rest(args: seq<Arg>): (r: seq<Arg>)
    ensures |r| <= |args|
  {
    if args == [] then [] else args[1..]
  }

  /** A conversion as far as it is read; f and args are what is left of the format and of the arguments. */
  datatype Spec = Spec(flags: Flags, width: nat, precision: nat, f: string, args: seq<Arg>)

  const PLAIN: Flags := Flags(false, false, false, false, false, false, false, false, false, false, false)

  predicate IsFlag(c: char) {
    c == '0' || c == '-' || c == '+' || c == ' ' || c == '#'
  }

  function FlagSet(flags: Flags, c: char): Flags {
    match c
    case '0' => flags.(zeropad := true)
    case '-' => flags.(left := true)
    case '+' => flags.(plus := true)
    case ' ' => flags.(space := true)
    case _ => flags.(hash := true)
  }

  /** The flags loop. */
  function FlagsFrom(flags: Flags, f: string): (r: (Flags, string))
    ensures |r.1| <= |f|
    decreases |f|
  {
    if f != "" && IsFlag(f[0]) then FlagsFrom(FlagSet(flags, f[0]), f[1..]) else (flags, f)
  }

  predicate IsDigit(c: char) {
    '0' <= c <= '9'
  }

  /** _atoi in 32 bits. */
  function AtoiFrom(i: nat, f: string): (r: (nat, string))
    ensures |r.1| <= |f|
    decreases |f|
  {
    if f != "" && IsDigit(f[0]) then AtoiFrom((i * 10 + (f[0] as nat - '0' as nat)) % 0x1_0000_0000, f[1..]) else (i, f)
  }

  function Magnitude(w: int): nat {
    if w < 0 then -w else w
  }

  function WidthStep(s: Spec): (r: Spec)
    ensures |r.f| <= |s.f|
  {
    if s.f != "" && IsDigit(s.f[0]) then
      var r := AtoiFrom(0, s.f);
      s.(width := r.0, f := r.1)
    else if s.f != "" && s.f[0] == '*' then
      var w := Signed(NumberOf(s.args), 32);
      s.(flags := if w < 0 then s.flags.(left := true)
         else s.flags, width := Magnitude(w), f := s.f[1..], args := Rest(s.args))
    else s
  }

  function PrecisionStep(s: Spec): (r: Spec)
    ensures |r.f| <= |s.f|
  {
    if s.f != "" && s.f[0] == '.' then
      var flags := s.flags.(precise := true);
      var f := s.f[1..];
      if f != "" && IsDigit(f[0]) then
        var r := AtoiFrom(0, f);
        s.(flags := flags, precision := r.0, f := r.1)
      else if f != "" && f[0] == '*' then
        var p := Signed(NumberOf(s.args), 32);
        s.(flags := flags, precision := if p > 0 then p else 0, f := f[1..], args := Rest(s.args))
      else s.(flags := flags, f := f)
    else s
  }

  /** The length field; long, long long, size_t, intmax_t and ptrdiff_t are all 64 bits wide. */
  function LengthStep(s: Spec): (r: Spec)
    ensures |r.f| <= |s.f|
  {
    if s.f == "" then s
    else match s.f[0]
      case 'l' =>
        s.(flags := s.flags.(wide := true), f := if |s.f| > 1 && s.f[1] == 'l' then s.f[2..] else s.f[1..])
      case 'h' =>
        if |s.f| > 1 && s.f[1] == 'h' then s.(flags := s.flags.(half := true, tiny := true), f := s.f[2..])
        else s.(flags := s.flags.(half := true), f := s.f[1..])
      case 't' => s.(flags := s.flags.(wide := true), f := s.f[1..])
      case 'j' => s.(flags := s.flags.(wide := true), f := s.f[1..])
      case 'z' => s.(flags := s.flags.(wide := true), f := s.f[1..])
      case _ => s
  }

  /** Everything between % and the conversion character. */
  function SpecOf(f: string, args: seq<Arg>): (s: Spec)
    ensures |s.f| <= |f|
  {
    var r := FlagsFrom(PLAIN, f);
    LengthStep(PrecisionStep(WidthStep(Spec(r.0, 0, 0, r.1, args))))
  }

  // ----- Conversions ----------------------------------------------------------------------------------

  predicate IsInteger(c: char) {
    c == 'd' || c == 'i' || c == 'u' || c == 'x' || c == 'X' || c == 'o' || c == 'b'
  }

  function BaseOf(c: char): (base: nat)
    ensures 2 <= base <= 16
  {
    if c == 'x' || c == 'X' then 16 else if c == 'o' then 8 else if c == 'b' then 2 else 10
  }

  /**
   The flags after the adjustments for an integer conversion: no # in base 10, upper case
   for X, no + and space for unsigned numbers, no zero padding with a precision.
   */
  function IntegerFlags(c: char, flags: Flags): Flags {
    var signed := c == 'i' || c == 'd';
    flags.(hash := flags.hash && BaseOf(c) != 10, uppercase := flags.uppercase || c == 'X',
           plus := flags.plus && signed, space := flags.space && signed, zeropad := flags.zeropad && !flags.precise)
  }

  /** Bits of the argument that count. */
  function Bits(flags: Flags): nat {
    if flags.wide then 64 else if flags.tiny then 8 else if flags.half then 16 else 32
  }

  function Modulus(bits: nat): (m: nat)
    ensures m > 0
  {
    if bits == 64 then 0x1_0000_0000_0000_0000 else if bits == 32 then 0x1_0000_0000 else if bits == 16
      then 0x1_0000 else 0x100
  }

  function Unsigned(v: int, bits: nat): nat {
    v % Modulus(bits)
  }

  function Signed(v: int, bits: nat): int {
    var u := v % Modulus(bits);
    if u < Modulus(bits) / 2 then u else u - Modulus(bits)
  }

  function IntegerText(c: char, s: Spec): string
    requires IsInteger(c)
  {
    var flags := IntegerFlags(c, s.flags);
    if c == 'i' || c == 'd' then
      var v := Signed(NumberOf(s.args), Bits(flags));
      IntText(Magnitude(v), v < 0, BaseOf(c), s.precision, s.width, flags)
    else IntText(Unsigned(NumberOf(s.args), Bits(flags)), false, BaseOf(c), s.precision, s.width, flags)
  }

  /** A piece padded to the width with spaces, on the right for - and else on the left. */
  function Aligned(piece: string, counted: nat, s: Spec): string {
    var pad := Times(' ', Gap(counted, s.width));
    (if s.flags.left then "" else pad) + piece + (if s.flags.left then pad else "")
  }

  function CharOf(v: int): char {
    (v % 256) as char
  }

  /** The characters of a string that %s puts out. */
  function Clipped(chars: string, s: Spec): string {
    if s.flags.precise && s.precision < |chars| then chars[..s.precision] else chars
  }

  function StringText(s: Spec): string {
    if s.args != [] && s.args[0].Chars? then Aligned(Clipped(s.args[0].chars, s), |Clipped(s.args[0].chars, s)|, s)
    else RevText(")llun(", s.width, s.flags)
  }

  function PointerText(s: Spec): string {
    var flags := s.flags.(zeropad := true, pointer := true);
    var v := Unsigned(NumberOf(s.args), 64);
    if v == 0 then RevText(")lin(", 18, flags) else IntText(v, false, 16, s.precision, 18, flags)
  }

  /** Whether a conversion takes an argument. */
  predicate Takes(c: char) {
    IsInteger(c) || c == 'c' || c == 's' || c == 'p'
  }

  /** What one conversion puts out. */
  function ConversionText(c: char, s: Spec): string {
    if IsInteger(c) then IntegerText(c, s)
    else match c
      case 'c' => Aligned([CharOf(NumberOf(s.args))], 1, s)
      case 's' => StringText(s)
      case 'p' => PointerText(s)
      case _ => [c]
  }

  /** The unbounded output of a format. A format that ends inside a conversion is cut off there. */
  function Rendered(f: string, args: seq<Arg>): string
    decreases |f|
  {
    if f == "" then ""
    else if f[0] != '%' then [f[0]] + Rendered(f[1..], args)
    else
      var s := SpecOf(f[1..], args);
      if s.f == "" then ""
      else ConversionText(s.f[0], s) + Rendered(s.f[1..], if Takes(s.f[0]) then Rest(s.args) else s.args)
  }

  /** No conversion runs into the end of the format. */
  predicate Complete(f: string, args: seq<Arg>)
    decreases |f|
  {
    f == "" ||
    if f[0] != '%' then Complete(f[1..], args)
    else
      var s := SpecOf(f[1..], args);
      s.f != "" && Complete(s.f[1..], if Takes(s.f[0]) then Rest(s.args) else s.args)
  }

  // ----- The program -------------------------------------------------------------------------------------

  /** A loop that adds zeros while there is room. */
  method AddZeros(buf: string, n: nat) returns (r: string)
    ensures r == Padded(buf, n)
  {
    r := buf;
    while |r| < n && |r| < BUFFER
      invariant |buf| <= |r| && r == buf + Times('0', |r| - |buf|)
      invariant |buf| == |r| || |r| <= (if n < BUFFER then n else BUFFER)
      decreases n - |r|
    {
      r := r + ['0'];
    }
  }

  /** The digit loop of print_integer. */
  method WriteDigits(value: nat, base: nat, uppercase: bool) returns (buf: string)
    requires value > 0 && 2 <= base <= 16
    ensures buf == Digits(value, base, uppercase, BUFFER)
  {
    hide DigitChar, Digits;
    var v: nat := value;
    buf := "";
    while v > 0 && |buf| < BUFFER
      invariant |buf| <= BUFFER
      invariant buf + Digits(v, base, uppercase, BUFFER - |buf|) == Digits(value, base, uppercase, BUFFER)
      decreases v
    {
      DigitsRound(buf, v, base, uppercase, BUFFER - |buf|);
      buf := buf + [DigitChar(v % base, uppercase)];
      v := v / base;
    }
    DigitsNone(v, base, uppercase, BUFFER - |buf|);
  }

  lemma DigitsRound(buf: string, v: nat, base: nat, uppercase: bool, n: nat)
    requires v > 0 && n > 0 && 2 <= base <= 16
    ensures 0 <= v / base < v && 0 <= v % base < 16
    ensures buf + [DigitChar(v % base, uppercase)] + Digits(v / base, base, uppercase, n - 1) ==
            buf + Digits(v, base, uppercase, n)
  {
    hide DigitChar, Digits;
    DigitsStep(v, base, uppercase, n);
    Joins(buf, [DigitChar(v % base, uppercase)], Digits(v / base, base, uppercase, n - 1));
  }

  lemma DigitsNone(v: nat, base: nat, uppercase: bool, n: nat)
    requires 2 <= base <= 16 && (v == 0 || n == 0)
    ensures Digits(v, base, uppercase, n) == ""
  {
  }

  lemma DigitsStep(v: nat, base: nat, uppercase: bool, n: nat)
    requires v > 0 && n > 0 && 2 <= base <= 16
    ensures Digits(v, base, uppercase, n) == [DigitChar(v % base, uppercase)] + Digits(v / base, base, uppercase, n - 1)
    ensures v / base < v
  {
    hide DigitChar;
    DivShrinks(v, base);
  }

  lemma DivShrinks(v: nat, base: nat)
    requires v > 0 && base >= 2
    ensures v / base < v
  {
  }

  /** print_integer and its finalization. */
  method PrintInteger(sink: Sink, value: nat, negative: bool, base: nat, precision: nat, width: nat, flags: Flags)
    requires sink.Valid() && 2 <= base <= 16
    modifies sink`idx, sink`text, sink.buffer
    ensures sink.Valid() && sink.text == old(sink.text) + IntText(value, negative, base, precision, width, flags)
  {
    hide Written, RevText, Finalised, FirstDigits, HashLeft;
    var buf := StartDigits(value, base, flags);
    var flags' := HashLeft(value, base, flags);
    var whole := Finalise(buf, negative, base, precision, width, flags');
    sink.OutRev(whole, WidthLeft(negative, width, flags'), flags');
  }

  /** The digits, or what stands for 0. */
  method StartDigits(value: nat, base: nat, flags: Flags) returns (buf: string)
    requires 2 <= base <= 16
    ensures buf == FirstDigits(value, base, flags)
  {
    hide Digits;
    buf := "";
    if value != 0 {
      buf := WriteDigits(value, base, flags.uppercase);
    } else if !flags.precise {
      buf := "0";
    }
  }

  /** Padding zeros, prefix and sign. */
  method Finalise(buf: string, negative: bool, base: nat, precision: nat, width: nat, flags: Flags) returns (r: string)
    ensures r == Finalised(buf, negative, base, precision, width, flags)
  {
    hide Padded, Prefixed;
    r := buf;
    if !flags.left && flags.zeropad {
      r := AddZeros(r, WidthLeft(negative, width, flags));
    }
    r := AddZeros(r, precision);
    var hash := flags.hash && !(base == 8 && |r| > |buf|);
    if hash || flags.pointer {
      r := Prefixed(r, |buf|, base, precision, WidthLeft(negative, width, flags), flags);
    }
    if |r| < BUFFER {
      r := r + SignMark(negative, flags);
    }
  }

  /** The flags loop. */
  method ReadFlags(f: string) returns (flags: Flags, rest: string)
    ensures (flags, rest) == FlagsFrom(PLAIN, f)
  {
    flags, rest := PLAIN, f;
    while rest != "" && IsFlag(rest[0])
      invariant FlagsFrom(flags, rest) == FlagsFrom(PLAIN, f)
      decreases |rest|
    {
      flags, rest := FlagSet(flags, rest[0]), rest[1..];
    }
  }

  /** _atoi */
  method Atoi(f: string) returns (i: nat, rest: string)
    ensures (i, rest) == AtoiFrom(0, f)
  {
    i, rest := 0, f;
    while rest != "" && IsDigit(rest[0])
      invariant AtoiFrom(i, rest) == AtoiFrom(0, f)
      decreases |rest|
    {
      i, rest := (i * 10 + (rest[0] as nat - '0' as nat)) % 0x1_0000_0000, rest[1..];
    }
  }

  /** Flags, width, precision and length. */
  method ReadSpec(f: string, args: seq<Arg>) returns (s: Spec)
    ensures s == SpecOf(f, args)
  {
    hide FlagsFrom, WidthStep, PrecisionStep, LengthStep;
    var flags, rest := ReadFlags(f);
    s := ReadWidth(Spec(flags, 0, 0, rest, args));
    s := ReadPrecision(s);
    s := ReadLength(s);
  }

  /** The width field: digits, or an argument whose sign means -. */
  method ReadWidth(s: Spec) returns (r: Spec)
    ensures r == WidthStep(s)
  {
    hide AtoiFrom, Signed;
    r := s;
    if r.f != "" && IsDigit(r.f[0]) {
      var width, after := Atoi(r.f);
      r := r.(width := width, f := after);
    } else if r.f != "" && r.f[0] == '*' {
      var w := Signed(NumberOf(r.args), 32);
      if w < 0 {
        r := r.(flags := r.flags.(left := true), width := -w);
      } else {
        r := r.(width := w);
      }
      r := r.(f := r.f[1..], args := Rest(r.args));
    }
  }

  /** The precision field: a dot, then digits, an argument, or nothing. */
  method ReadPrecision(s: Spec) returns (r: Spec)
    ensures r == PrecisionStep(s)
  {
    hide AtoiFrom, Signed;
    r := s;
    if r.f != "" && r.f[0] == '.' {
      r := r.(flags := r.flags.(precise := true), f := r.f[1..]);
      if r.f != "" && IsDigit(r.f[0]) {
        var precision, after := Atoi(r.f);
        r := r.(precision := precision, f := after);
      } else if r.f != "" && r.f[0] == '*' {
        var p := Signed(NumberOf(r.args), 32);
        if p > 0 {
          r := r.(precision := p);
        } else {
          r := r.(precision := 0);
        }
        r := r.(f := r.f[1..], args := Rest(r.args));
      }
    }
  }

  /** The length field. */
  method ReadLength(s: Spec) returns (r: Spec)
    ensures r == LengthStep(s)
  {
    r := s;
    if r.f == "" {
      return;
    }
    match r.f[0]
    case 'l' =>
      r := r.(flags := r.flags.(wide := true), f := r.f[1..]);
      if r.f != "" && r.f[0] == 'l' {
        r := r.(f := r.f[1..]);
      }
    case 'h' =>
      r := r.(flags := r.flags.(half := true), f := r.f[1..]);
      if r.f != "" && r.f[0] == 'h' {
        r := r.(flags := r.flags.(tiny := true), f := r.f[1..]);
      }
    case 't' =>
      r := r.(flags := r.flags.(wide := true), f := r.f[1..]);
    case 'j' =>
      r := r.(flags := r.flags.(wide := true), f := r.f[1..]);
    case 'z' =>
      r := r.(flags := r.flags.(wide := true), f := r.f[1..]);
    case _ =>
  }

  /** The padding loops around a character or string. */
  method PutAligned(sink: Sink, piece: string, s: Spec)
    requires sink.Valid()
    modifies sink`idx, sink`text, sink.buffer
    ensures sink.Valid() && sink.text == old(sink.text) + Aligned(piece, |piece|, s)
  {
    hide Written, Times;
    if !s.flags.left {
      sink.PutMany(' ', Gap(|piece|, s.width));
    }
    ghost var before := sink.text;
    for i := 0 to |piece|
      invariant sink.Valid() && sink.text == before + piece[..i]
    {
      sink.Put(piece[i]);
    }
    assert piece[..|piece|] == piece;
    if s.flags.left {
      sink.PutMany(' ', Gap(|piece|, s.width));
    }
  }

  /** The switch over the conversion character. */
  method Convert(sink: Sink, c: char, s: Spec)
    requires sink.Valid()
    modifies sink`idx, sink`text, sink.buffer
    ensures sink.Valid() && sink.text == old(sink.text) + ConversionText(c, s)
  {
    hide Written, IntText, RevText, Aligned, Signed, Unsigned, Clipped, IntegerFlags;
    if IsInteger(c) {
      var flags := IntegerFlags(c, s.flags);
      if c == 'i' || c == 'd' {
        var v := Signed(NumberOf(s.args), Bits(flags));
        PrintInteger(sink, Magnitude(v), v < 0, BaseOf(c), s.precision, s.width, flags);
      } else {
        PrintInteger(sink, Unsigned(NumberOf(s.args), Bits(flags)), false, BaseOf(c), s.precision, s.width, flags);
      }
    } else if c == 'c' {
      PutAligned(sink, [CharOf(NumberOf(s.args))], s);
    } else if c == 's' {
      PutString(sink, s);
    } else if c == 'p' {
      PutPointer(sink, s);
    } else {
      sink.Put(c);
    }
  }

  method PutString(sink: Sink, s: Spec)
    requires sink.Valid()
    modifies sink`idx, sink`text, sink.buffer
    ensures sink.Valid() && sink.text == old(sink.text) + StringText(s)
  {
    hide Written, RevText, Aligned;
    if s.args != [] && s.args[0].Chars? {
      PutAligned(sink, Clipped(s.args[0].chars, s), s);
    } else {
      sink.OutRev(")llun(", s.width, s.flags);
    }
  }

  method PutPointer(sink: Sink, s: Spec)
    requires sink.Valid()
    modifies sink`idx, sink`text, sink.buffer
    ensures sink.Valid() && sink.text == old(sink.text) + PointerText(s)
  {
    hide Written, RevText, IntText, Unsigned;
    var flags := s.flags.(zeropad := true, pointer := true);
    var v := Unsigned(NumberOf(s.args), 64);
    if v == 0 {
      sink.OutRev(")lin(", 18, flags);
    } else {
      PrintInteger(sink, v, false, 16, s.precision, 18, flags);
    }
  }

  /**
   vsnprintf_: whatever the size n of the buffer, the result is the length of the
   unbounded output; the buffer gets its first n - 1 characters at most and a NUL,
   and is otherwise untouched. Nothing is written when n is 0.
   */
  method Vsnprintf(buffer: array<char>, n: nat, format: string, args: seq<Arg>) returns (count: nat)
    requires n <= buffer.Length && Complete(format, args)
    modifies buffer
    ensures count == |Rendered(format, args)|
    ensures buffer[..] == Terminated(old(buffer[..]), Rendered(format, args), n)
    ensures n == 0 ==> buffer[..] == old(buffer[..])
    ensures n > 0 ==>
              var text := Rendered(format, args);
              var k := if |text| < n - 1 then |text| else n - 1;
              buffer[..k] == text[..k] && buffer[k] == '\0' && buffer[k + 1..] == old(buffer[k + 1..])
  {
    TerminatedIs(buffer[..], Rendered(format, args), n);
    hide Written, Rendered, Complete, Terminated;
    var sink := new Sink(buffer, n);
    var f, rest := format, args;
    assert "" + Rendered(format, args) == Rendered(format, args);
    while f != ""
      invariant sink.Valid() && sink.buffer == buffer && sink.maxlen == n && sink.start == old(buffer[..])
      invariant Complete(f, rest) && sink.text + Rendered(f, rest) == Rendered(format, args)
      decreases |f|
    {
      f, rest := Item(sink, f, rest);
    }
    RenderedNothing(sink.text, rest);
    sink.Terminate();
    count := sink.idx;
  }

  lemma RenderedNothing(text: string, args: seq<Arg>)
    ensures text + Rendered("", args) == text
  {
  }

  /** One round of _vsnprintf's loop: a plain character or a conversion. */
  method Item(sink: Sink, f: string, args: seq<Arg>) returns (f': string, args': seq<Arg>)
    requires sink.Valid() && f != "" && Complete(f, args)
    modifies sink`idx, sink`text, sink.buffer
    ensures sink.Valid() && Complete(f', args') && |f'| < |f|
    ensures sink.text + Rendered(f', args') == old(sink.text) + Rendered(f, args)
  {
    hide Written, ConversionText, SpecOf;
    ghost var before := sink.text;
    if f[0] != '%' {
      sink.Put(f[0]);
      f', args' := f[1..], args;
      Joins(before, [f[0]], Rendered(f', args'));
    } else {
      var s := ReadSpec(f[1..], args);
      Convert(sink, s.f[0], s);
      f', args' := s.f[1..], if Takes(s.f[0]) then Rest(s.args) else s.args;
      Joins(before, ConversionText(s.f[0], s), Rendered(f', args'));
    }
  }

  lemma Joins(a: string, b: string, c: string)
    ensures (a + b) + c == a + (b + c)
  {
  }
}
