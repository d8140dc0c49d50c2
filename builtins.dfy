/** The JavaScript built-ins the habit tracker leans on, restricted to the
    values it gives them: `String(n)` of an integer, `padStart` with a
    one-character filler, `parseInt` without a radix, `Math.round` and
    `Math.ceil`. Numbers are exact integers and reals here. */
module Builtins {
  import opened Wrappers

  // ---------------------------------------------------------------------
  // Digits

  /** The value of a character read as a digit of radix up to 36, as
      parseInt reads it; 36 for a character that is no digit at all. */
  function DigitValue(c: char): (v: nat)
    ensures v <= 36
    ensures v < 10 <==> '0' <= c <= '9'
  {
    if '0' <= c <= '9' then c as int - '0' as int
    else if 'a' <= c <= 'z' then c as int - 'a' as int + 10
    else if 'A' <= c <= 'Z' then c as int - 'A' as int + 10
    else 36
  }

  predicate AllDigits(z: string, radix: nat)
  {
    forall i :: 0 <= i < |z| ==> DigitValue(z[i]) < radix
  }

  /** The number a string of radix digits denotes, most significant first. */
  function DigitsValue(z: string, radix: nat): nat
    requires AllDigits(z, radix)
  {
    if z == [] then 0
    else DigitsValue(z[..|z| - 1], radix) * radix + DigitValue(z[|z| - 1])
  }

  function DecimalDigit(n: nat): (c: char)
    requires n < 10
    ensures DigitValue(c) == n
  {
    ['0', '1', '2', '3', '4', '5', '6', '7', '8', '9'][n]
  }

  // ---------------------------------------------------------------------
  // String(n)

  /** `String(n)` for a non-negative integer: its decimal digits with no
      leading zero. */
  function NatToDecimal(n: nat): (s: string)
    ensures 1 <= |s|
    ensures AllDigits(s, 10)
    ensures n < 10 <==> |s| == 1
    ensures n < 100 ==> |s| <= 2
    ensures s[0] == '0' <==> n == 0
  {
    if n < 10 then [DecimalDigit(n)]
    else NatToDecimal(n / 10) + [DecimalDigit(n % 10)]
  }

  lemma {:induction false} NatToDecimalValue(n: nat)
    ensures DigitsValue(NatToDecimal(n), 10) == n
  {
    var s := NatToDecimal(n);
    if n >= 10 {
      NatToDecimalValue(n / 10);
      assert s[..|s| - 1] == NatToDecimal(n / 10);
    }
  }

  /** `String(n)` for any integer: a minus sign before the digits of a
      negative number. */
  function IntToDecimal(n: int): (s: string)
    ensures 1 <= |s|
    ensures s[0] == '-' <==> n < 0
    ensures n >= 0 ==> s == NatToDecimal(n)
    ensures n < 0 ==> s[1..] == NatToDecimal(-n)
  {
    if n < 0 then "-" + NatToDecimal(-n) else NatToDecimal(n)
  }

  // ---------------------------------------------------------------------
  // String.prototype.padStart

  /** `s.padStart(width, fill)` with a one-character `fill`: `fill` is put in
      front of `s` until it is `width` long; a longer `s` is left alone. */
  function PadStart(s: string, width: nat, fill: char): (r: string)
    ensures |r| == if |s| < width then width else |s|
    ensures r[|r| - |s|..] == s
    ensures forall i :: 0 <= i < |r| - |s| ==> r[i] == fill
  {
    if |s| >= width then s else seq(width - |s|, _ => fill) + s
  }

  /** A single digit padded to two places is that digit after a zero. */
  lemma PadOneDigit(s: string)
    requires |s| == 1
    ensures PadStart(s, 2, '0') == ['0', s[0]]
  {
  }

  /** A leading zero does not change the value of a digit string. */
  lemma LeadingZero(c: char)
    requires DigitValue(c) < 10
    ensures AllDigits(['0', c], 10)
    ensures DigitsValue(['0', c], 10) == DigitValue(c)
  {
    var p := ['0', c];
    assert p[..1] == ['0'];
    assert ['0'][..0] == [];
  }

  /** `String(n).padStart(2, '0')`, the form of a month or a day in a date. */
  function TwoDigits(n: nat): string
  {
    PadStart(NatToDecimal(n), 2, '0')
  }

  lemma TwoDigitsSmall(n: nat)
    requires n < 10
    ensures |TwoDigits(n)| == 2 && AllDigits(TwoDigits(n), 10)
    ensures DigitsValue(TwoDigits(n), 10) == n
  {
    var s := NatToDecimal(n);
    assert s == [DecimalDigit(n)];
    PadOneDigit(s);
    LeadingZero(s[0]);
  }

  lemma TwoDigitsLarge(n: nat)
    requires 10 <= n < 100
    ensures |TwoDigits(n)| == 2 && AllDigits(TwoDigits(n), 10)
    ensures DigitsValue(TwoDigits(n), 10) == n
  {
    var s := NatToDecimal(n);
    NatToDecimalValue(n);
    assert |s| == 2;
  }

  /** A number below 100 padded to two places is exactly two digits that
      still denote it. */
  lemma TwoDigitsValue(n: nat)
    requires n < 100
    ensures |TwoDigits(n)| == 2 && AllDigits(TwoDigits(n), 10)
    ensures DigitsValue(TwoDigits(n), 10) == n
  {
    if n < 10 { TwoDigitsSmall(n); } else { TwoDigitsLarge(n); }
  }

  // ---------------------------------------------------------------------
  // parseInt(s) with no radix

  /** The code units ECMAScript's StrWhiteSpaceChar admits: WhiteSpace
      (including every Unicode space separator) and LineTerminator. */
  predicate IsJsWhitespace(c: char)
  {
    || c == '\U{0009}' || c == '\U{000A}' || c == '\U{000B}' || c == '\U{000C}'
    || c == '\U{000D}' || c == '\U{0020}' || c == '\U{00A0}' || c == '\U{1680}'
    || ('\U{2000}' <= c <= '\U{200A}')
    || c == '\U{2028}' || c == '\U{2029}' || c == '\U{202F}' || c == '\U{205F}'
    || c == '\U{3000}' || c == '\U{FEFF}'
  }

  /** The string with its leading white space removed. */
  function TrimStart(s: string): (r: string)
    ensures |r| <= |s| && r == s[|s| - |r|..]
    ensures r == [] || !IsJsWhitespace(r[0])
    ensures forall i :: 0 <= i < |s| - |r| ==> IsJsWhitespace(s[i])
  {
    if s != [] && IsJsWhitespace(s[0]) then TrimStart(s[1..]) else s
  }

  /** The longest prefix of `v` made of radix digits. */
  function RadixPrefix(v: string, radix: nat): (z: string)
    ensures |z| <= |v| && z == v[..|z|]
    ensures AllDigits(z, radix)
    ensures |z| < |v| ==> DigitValue(v[|z|]) >= radix
  {
    if v == [] || DigitValue(v[0]) >= radix then []
    else [v[0]] + RadixPrefix(v[1..], radix)
  }

  /** The sign parseInt reads: -1 after a leading minus, 1 otherwise. */
  function SignOf(t: string): int
  {
    if t != [] && t[0] == '-' then -1 else 1
  }

  /** The text after one leading sign character, if any. */
  function Unsigned(t: string): (u: string)
    ensures u == t || (t != [] && u == t[1..])
  {
    if t != [] && (t[0] == '-' || t[0] == '+') then t[1..] else t
  }

  /** The digits parseInt reads from unsigned text: hexadecimal after a
      `0x`/`0X` prefix, decimal otherwise; `None` when there are none. */
  function ParseUnsigned(u: string): (r: Option<nat>)
    ensures r == None <==> if |u| >= 2 && u[0] == '0' && (u[1] == 'x' || u[1] == 'X')
                           then u[2..] == [] || DigitValue(u[2]) >= 16
                           else u == [] || DigitValue(u[0]) >= 10
  {
    var hex := |u| >= 2 && u[0] == '0' && (u[1] == 'x' || u[1] == 'X');
    var radix := if hex then 16 else 10;
    var z := RadixPrefix(if hex then u[2..] else u, radix);
    if z == [] then None else Some(DigitsValue(z, radix))
  }

  /** `parseInt(s)`: leading white space is skipped, one sign is read, a
      `0x`/`0X` prefix switches to radix 16, and the longest run of digits
      that follows is the number; `None` stands for `NaN` (no digit). */
  function ParseInt(s: string): (r: Option<int>)
    ensures r == None <==> ParseUnsigned(Unsigned(TrimStart(s))) == None
  {
    var t := TrimStart(s);
    match ParseUnsigned(Unsigned(t))
    case None => None
    case Some(v) => Some(SignOf(t) * v)
  }

  /** A string of decimal digits is read back whole. */
  lemma RadixPrefixOfDigits(v: string)
    requires AllDigits(v, 10)
    ensures RadixPrefix(v, 10) == v
  {
  }

  /** Decimal digits never start a `0x` prefix. */
  lemma NoHexPrefix(d: string)
    requires AllDigits(d, 10)
    ensures !(|d| >= 2 && d[0] == '0' && (d[1] == 'x' || d[1] == 'X'))
  {
    if |d| >= 2 {
      assert DigitValue(d[1]) < 10;
    }
  }

  /** Unsigned decimal digits are read as their value. */
  lemma ParseUnsignedDecimal(d: string)
    requires d != [] && AllDigits(d, 10)
    ensures ParseUnsigned(d) == Some(DigitsValue(d, 10))
  {
    RadixPrefixOfDigits(d);
    NoHexPrefix(d);
  }

  /** The printed form of an integer has no leading white space; parseInt
      reads its sign and then the magnitude's digits. */
  lemma PrintedSign(n: int)
    ensures var s := IntToDecimal(n);
      && TrimStart(s) == s
      && Unsigned(s) == NatToDecimal(if n < 0 then -n else n)
      && SignOf(s) == if n < 0 then -1 else 1
  {
    var s := IntToDecimal(n);
    if n < 0 {
      NoLeadingSpace(s);
    } else {
      assert DigitValue(s[0]) < 10;
      NoLeadingSpace(s);
    }
  }

  /** Text that starts with a minus sign or a digit has nothing to trim. */
  lemma NoLeadingSpace(s: string)
    requires s != [] && (s[0] == '-' || DigitValue(s[0]) < 10)
    ensures TrimStart(s) == s
  {
    assert !IsJsWhitespace(s[0]);
  }

  /** Reading decimal digits stops at the first character that is no
      digit. */
  lemma {:induction false} RadixPrefixStops(d: string, rest: string)
    requires AllDigits(d, 10)
    requires rest != [] && DigitValue(rest[0]) >= 10
    ensures RadixPrefix(d + rest, 10) == d
  {
    if d != [] {
      assert (d + rest)[1..] == d[1..] + rest;
      RadixPrefixStops(d[1..], rest);
    }
  }

  /** Unsigned decimal digits followed by a character that is no digit in
      any radix are read as the digits' value. */
  lemma ParseUnsignedStops(d: string, rest: string)
    requires d != [] && AllDigits(d, 10)
    requires rest != [] && DigitValue(rest[0]) == 36
    ensures ParseUnsigned(d + rest) == Some(DigitsValue(d, 10))
  {
    var u := d + rest;
    if |d| >= 2 {
      assert u[1] == d[1] && DigitValue(d[1]) < 10;
    } else {
      assert u[1] == rest[0];
    }
    RadixPrefixStops(d, rest);
  }

  /** `parseInt` reads the printed natural at the front of a string and
      ignores the rest when the rest starts with a character that is no
      digit in any radix. */
  lemma ParseIntOfPrefix(m: nat, rest: string)
    requires rest != [] && DigitValue(rest[0]) == 36
    ensures ParseInt(NatToDecimal(m) + rest) == Some(m)
  {
    var d := NatToDecimal(m);
    var s := d + rest;
    assert s[0] == d[0] && DigitValue(d[0]) < 10;
    NoLeadingSpace(s);
    assert Unsigned(s) == s && SignOf(s) == 1;
    ParseUnsignedStops(d, rest);
    NatToDecimalValue(m);
  }

  /** `parseInt(String(n)) == n`: the integer printer and parser agree. */
  lemma ParseIntRoundTrip(n: int)
    ensures ParseInt(IntToDecimal(n)) == Some(n)
  {
    var m: nat := if n < 0 then -n else n;
    NatToDecimalValue(m);
    ParseUnsignedDecimal(NatToDecimal(m));
    PrintedSign(n);
  }

  // ---------------------------------------------------------------------
  // Math.round and Math.ceil

  /** `Math.round(x)`: the nearest integer, halves rounded up. */
  function Round(x: real): (r: int)
    ensures x - 0.5 < r as real <= x + 0.5
  {
    (x + 0.5).Floor
  }

  /** `Math.ceil(x)`: the least integer not below `x`. */
  function Ceil(x: real): (r: int)
    ensures x <= r as real < x + 1.0
  {
    -((-x).Floor)
  }
}
