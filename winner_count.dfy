/** The winner-count field: every edit stores `parseInt(e.target.value) || 1`.

    `parseInt` without a radix skips leading white space, reads an optional sign,
    switches to base 16 after a `0x` or `0X` prefix, and converts the longest run of
    digits that follows; with no digits it yields NaN. The `|| 1` then replaces the
    falsy results, NaN and (signed) zero, by 1. */
module WinnerCountInput {

  /** The Number `parseInt` returns. Both zeros are kept as `Integer(0)`: `|| 1`
      treats them alike. */
  datatype ParsedNumber = NaN | Integer(value: int)

  /** The characters `parseInt` skips before the number (white space and line
      terminators). */
  predicate IsStrWhiteSpace(c: char) {
    || c == '\t' || c == '\n' || c == '\U{B}' || c == '\U{C}' || c == '\r'
    || c == ' ' || c == '\U{A0}' || c == '\U{1680}' || ('\U{2000}' <= c <= '\U{200A}')
    || c == '\U{2028}' || c == '\U{2029}' || c == '\U{202F}' || c == '\U{205F}'
    || c == '\U{3000}' || c == '\U{FEFF}'
  }

  predicate IsDecimalDigit(c: char) {
    '0' <= c <= '9'
  }

  /** A digit in base 10 or, when `radix` is 16, a hexadecimal digit in either case. */
  predicate IsDigit(c: char, radix: nat) {
    IsDecimalDigit(c) || (radix == 16 && ('a' <= c <= 'f' || 'A' <= c <= 'F'))
  }

  function DigitValue(c: char, radix: nat): (v: nat)
    requires IsDigit(c, radix)
    ensures v < 16 && (radix != 16 ==> v < 10)
  {
    if IsDecimalDigit(c) then c as int - '0' as int
    else if 'a' <= c <= 'f' then c as int - 'a' as int + 10
    else c as int - 'A' as int + 10
  }

  /** The input without its leading white space. */
  function TrimStart(s: string): (r: string)
    ensures |r| <= |s| && r == s[|s| - |r|..]
    ensures forall k :: 0 <= k < |s| - |r| ==> IsStrWhiteSpace(s[k])
    ensures r == [] || !IsStrWhiteSpace(r[0])
  {
    if s != [] && IsStrWhiteSpace(s[0]) then TrimStart(s[1..]) else s
  }

  /** The longest prefix of `s` made of digits in base `radix`. */
  function LeadingDigits(s: string, radix: nat): (z: string)
    ensures |z| <= |s| && z == s[..|z|]
    ensures forall k :: 0 <= k < |z| ==> IsDigit(z[k], radix)
    ensures |z| < |s| ==> !IsDigit(s[|z|], radix)
  {
    if s != [] && IsDigit(s[0], radix) then [s[0]] + LeadingDigits(s[1..], radix) else []
  }

  /** The value of a digit string, most significant digit first. */
  function DigitsValue(z: string, radix: nat): nat
    requires forall k :: 0 <= k < |z| ==> IsDigit(z[k], radix)
  {
    if z == [] then 0
    else DigitsValue(z[..|z| - 1], radix) * radix + DigitValue(z[|z| - 1], radix)
  }

  /** A `0x` or `0X` prefix, which switches `parseInt` to base 16. */
  predicate HexPrefix(s: string) {
    |s| >= 2 && s[0] == '0' && (s[1] == 'x' || s[1] == 'X')
  }

  /** Whether a number can be read from the start of `s`: a hexadecimal digit right
      after a hex prefix, otherwise a decimal digit. */
  predicate StartsWithNumber(s: string) {
    if HexPrefix(s) then |s| > 2 && IsDigit(s[2], 16) else s != [] && IsDecimalDigit(s[0])
  }

  /** The number after the sign: base 16 after a hex prefix, else base 10; NaN when
      no digit follows. */
  function ParseMagnitude(s: string): (r: ParsedNumber)
    ensures r.NaN? <==> !StartsWithNumber(s)
    ensures r.Integer? ==> r.value >= 0
  {
    var radix := if HexPrefix(s) then 16 else 10;
    var digits := LeadingDigits(if HexPrefix(s) then s[2..] else s, radix);
    if digits == [] then NaN else Integer(DigitsValue(digits, radix))
  }

  function Negate(r: ParsedNumber): ParsedNumber {
    match r
    case NaN => NaN
    case Integer(v) => Integer(-v)
  }

  /** The text `parseInt` reads its digits from: the input without its leading white
      space and without one leading sign. */
  function Unsigned(input: string): (u: string)
    ensures u == TrimStart(input) || (TrimStart(input) != [] && u == TrimStart(input)[1..])
  {
    var s := TrimStart(input);
    if s != [] && (s[0] == '-' || s[0] == '+') then s[1..] else s
  }

  /** `parseInt(input)` with no radix argument. */
  function ParseInt(input: string): (r: ParsedNumber)
    ensures r.NaN? <==> !StartsWithNumber(Unsigned(input))
    ensures r.Integer? && r.value < 0 ==> TrimStart(input) != [] && TrimStart(input)[0] == '-'
    ensures r.Integer? && r.value < 0 ==> '-' in input
  {
    var s := TrimStart(input);
    assert s != [] ==> s[0] == input[|input| - |s|];
    if s != [] && s[0] == '-' then Negate(ParseMagnitude(s[1..]))
    else ParseMagnitude(Unsigned(input))
  }

  /** `parseInt(value) || 1`: never zero; what was read when it is not zero, else 1. */
  function WinnerCountFromInput(value: string): (count: int)
    ensures count != 0
    ensures ParseInt(value) == NaN || ParseInt(value) == Integer(0) ==> count == 1
    ensures ParseInt(value).Integer? && ParseInt(value).value != 0 ==> count == ParseInt(value).value
  {
    match ParseInt(value)
    case NaN => 1
    case Integer(v) => if v == 0 then 1 else v
  }

  /** The decimal rendering of a natural number, without leading zeros. */
  function Decimal(n: nat): (d: string)
    ensures |d| > 0 && forall k :: 0 <= k < |d| ==> IsDecimalDigit(d[k])
    ensures n > 0 ==> d[0] != '0'
  {
    if n < 10 then [('0' as int + n) as char]
    else Decimal(n / 10) + [('0' as int + n % 10) as char]
  }

  /** Reading back a decimal rendering gives the number. */
  lemma {:induction false} DecimalValue(n: nat)
    ensures DigitsValue(Decimal(n), 10) == n
    decreases n
  {
    var d := Decimal(n);
    if n >= 10 {
      DecimalValue(n / 10);
      assert d[..|d| - 1] == Decimal(n / 10);
    }
  }

  /** Leading white space is skipped. */
  lemma {:induction false} TrimStartSkipsPadding(pad: string, s: string)
    requires forall k :: 0 <= k < |pad| ==> IsStrWhiteSpace(pad[k])
    requires s == [] || !IsStrWhiteSpace(s[0])
    ensures TrimStart(pad + s) == s
    decreases |pad|
  {
    if pad != [] {
      assert (pad + s)[1..] == pad[1..] + s;
      TrimStartSkipsPadding(pad[1..], s);
    } else {
      assert pad + s == s;
    }
  }

  /** The digit run stops where the digits stop. */
  lemma {:induction false} LeadingDigitsStop(d: string, rest: string, radix: nat)
    requires forall k :: 0 <= k < |d| ==> IsDigit(d[k], radix)
    requires rest == [] || !IsDigit(rest[0], radix)
    ensures LeadingDigits(d + rest, radix) == d
    decreases |d|
  {
    if d != [] {
      assert (d + rest)[1..] == d[1..] + rest;
      LeadingDigitsStop(d[1..], rest, radix);
    } else {
      assert d + rest == rest;
    }
  }

  /** A decimal rendering followed by a non-digit reads back as its number. */
  lemma MagnitudeOfDecimal(n: nat, rest: string)
    requires n > 0
    requires rest == [] || !IsDecimalDigit(rest[0])
    ensures ParseMagnitude(Decimal(n) + rest) == Integer(n)
  {
    var d := Decimal(n);
    assert (d + rest)[0] == d[0];
    LeadingDigitsStop(d, rest, 10);
    DecimalValue(n);
  }

  /** Unsigned text after the padding is read as a magnitude. */
  lemma ParseUnsigned(pad: string, s: string)
    requires forall k :: 0 <= k < |pad| ==> IsStrWhiteSpace(pad[k])
    requires s == [] || !(IsStrWhiteSpace(s[0]) || s[0] == '-' || s[0] == '+')
    ensures ParseInt(pad + s) == ParseMagnitude(s)
  {
    TrimStartSkipsPadding(pad, s);
  }

  /** A leading sign after the padding applies to the magnitude that follows. */
  lemma ParseSigned(pad: string, sign: char, s: string)
    requires forall k :: 0 <= k < |pad| ==> IsStrWhiteSpace(pad[k])
    requires sign == '-' || sign == '+'
    ensures ParseInt(pad + [sign] + s) == if sign == '-' then Negate(ParseMagnitude(s)) else ParseMagnitude(s)
  {
    assert pad + [sign] + s == pad + ([sign] + s);
    assert ([sign] + s)[1..] == s;
    TrimStartSkipsPadding(pad, [sign] + s);
  }

  /** A positive count typed in decimal, with optional leading white space and any
      trailing text that does not start with a digit, is stored as typed. */
  lemma ParsesTypedCount(n: nat, pad: string, rest: string)
    requires n > 0
    requires forall k :: 0 <= k < |pad| ==> IsStrWhiteSpace(pad[k])
    requires rest == [] || !IsDecimalDigit(rest[0])
    ensures WinnerCountFromInput(pad + Decimal(n) + rest) == n
  {
    var d := Decimal(n);
    assert pad + d + rest == pad + (d + rest);
    assert (d + rest)[0] == d[0];
    ParseUnsigned(pad, d + rest);
    MagnitudeOfDecimal(n, rest);
  }

  /** A negative count passes through unchanged (the draw rejects it later). */
  lemma ParsesNegativeCount(n: nat, pad: string, rest: string)
    requires n > 0
    requires forall k :: 0 <= k < |pad| ==> IsStrWhiteSpace(pad[k])
    requires rest == [] || !IsDecimalDigit(rest[0])
    ensures WinnerCountFromInput(pad + "-" + Decimal(n) + rest) == -(n as int)
  {
    var d := Decimal(n);
    assert pad + "-" + d + rest == pad + ['-'] + (d + rest);
    ParseSigned(pad, '-', d + rest);
    MagnitudeOfDecimal(n, rest);
  }

  /** A lone zero digit reads as zero. */
  lemma ZeroMagnitude(rest: string)
    requires rest == [] || !(IsDecimalDigit(rest[0]) || rest[0] == 'x' || rest[0] == 'X')
    ensures ParseMagnitude("0" + rest) == Integer(0)
  {
    var z := "0" + rest;
    LeadingDigitsStop("0", rest, 10);
    assert |z| >= 2 ==> z[1] == rest[0];
  }

  /** Zero, with or without a sign, becomes 1. */
  lemma ZeroCountBecomesOne(sign: string, rest: string)
    requires sign == "" || sign == "+" || sign == "-"
    requires rest == [] || !(IsDecimalDigit(rest[0]) || rest[0] == 'x' || rest[0] == 'X')
    ensures WinnerCountFromInput(sign + "0" + rest) == 1
  {
    ZeroMagnitude(rest);
    if sign == "" {
      assert sign + "0" + rest == [] + ("0" + rest);
      ParseUnsigned([], "0" + rest);
    } else {
      assert sign + "0" + rest == [] + [sign[0]] + ("0" + rest);
      ParseSigned([], sign[0], "0" + rest);
    }
  }

  /** The magnitude of text that does not start with a decimal digit is NaN. */
  lemma MagnitudeWithoutDigit(s: string)
    requires s == [] || !IsDecimalDigit(s[0])
    ensures ParseMagnitude(s) == NaN
  {
  }

  /** Input without a single decimal digit (empty, letters, a lone sign) becomes 1. */
  lemma InputWithoutDigitsBecomesOne(value: string)
    requires forall k :: 0 <= k < |value| ==> !IsDecimalDigit(value[k])
    ensures WinnerCountFromInput(value) == 1
  {
    var s := TrimStart(value);
    var start := |value| - |s|;
    if s != [] {
      assert s[0] == value[start];
      MagnitudeWithoutDigit(s);
      if |s| > 1 {
        assert s[1..][0] == value[start + 1];
      }
      MagnitudeWithoutDigit(s[1..]);
    } else {
      MagnitudeWithoutDigit(s);
    }
  }
}
