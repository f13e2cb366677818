/**
 * JavaScript's global `parseInt(string)` without a radix argument, as the
 * cover upgrade uses it on a copyright year: leading white space is skipped,
 * one sign is read, a `0x`/`0X` prefix switches to radix 16, and the longest
 * run of digits of the radix is read; without a single digit the result is
 * NaN, written `None`.
 */
module ParseInt {
  import opened Wrappers
  import opened Text
  import opened Json

  /** The white space and line terminators that `parseInt` skips. */
  predicate IsSpace(c: char)
  {
    c == ' ' || c == '\t' || c == '\n' || c == '\r' ||
    c == '\U{000B}' || c == '\U{000C}' || c == '\U{00A0}' || c == '\U{1680}' ||
    ('\U{2000}' <= c <= '\U{200A}') || c == '\U{2028}' || c == '\U{2029}' ||
    c == '\U{202F}' || c == '\U{205F}' || c == '\U{3000}' || c == '\U{FEFF}'
  }

  /** `s` without its leading white space. */
  function TrimStart(s: string): (r: string)
    ensures |r| <= |s| && r == s[|s| - |r|..]
    ensures r == [] || !IsSpace(r[0])
  {
    if |s| > 0 && IsSpace(s[0]) then TrimStart(s[1..]) else s
  }

  /** The value of `c` as a digit (`0`-`9`, then `a`-`z` or `A`-`Z` from 10), if it is one. */
  function DigitValue(c: char): (r: Option<nat>)
    ensures r.Some? ==> r.value < 36
  {
    if '0' <= c <= '9' then Some(c as nat - '0' as nat)
    else if 'a' <= c <= 'z' then Some(c as nat - 'a' as nat + 10)
    else if 'A' <= c <= 'Z' then Some(c as nat - 'A' as nat + 10)
    else None
  }

  /** `c` is a digit of the given radix. */
  predicate IsDigit(c: char, radix: nat)
  {
    DigitValue(c).Some? && DigitValue(c).value < radix
  }

  /** The longest prefix of `s` made of digits of the radix. */
  function DigitRun(s: string, radix: nat): (r: string)
    ensures |r| <= |s| && r == s[..|r|]
    ensures forall i :: 0 <= i < |r| ==> IsDigit(r[i], radix)
    ensures |r| < |s| ==> !IsDigit(s[|r|], radix)
  {
    if |s| > 0 && IsDigit(s[0], radix) then [s[0]] + DigitRun(s[1..], radix) else []
  }

  /** The number that a run of digits denotes in the radix, most significant first. */
  function DigitsValue(ds: string, radix: nat): nat
    requires forall i :: 0 <= i < |ds| ==> IsDigit(ds[i], radix)
  {
    if |ds| == 0 then 0
    else
      var last := ds[|ds| - 1];
      assert IsDigit(last, radix);
      var front := DigitsValue(ds[..|ds| - 1], radix);
      ProductNat(front, radix);
      front * radix + DigitValue(last).value
  }

  /** A product of naturals is a natural. */
  lemma ProductNat(a: nat, b: nat)
    ensures a * b >= 0
  {
  }

  /** The text after the sign, and the sign (-1 or 1). */
  function SignOf(s: string): (string, int)
  {
    if |s| > 0 && (s[0] == '-' || s[0] == '+') then (s[1..], if s[0] == '-' then -1 else 1)
    else (s, 1)
  }

  /** The text after a hexadecimal prefix, and the radix it selects. */
  function RadixOf(s: string): (string, nat)
  {
    if |s| >= 2 && s[0] == '0' && (s[1] == 'x' || s[1] == 'X') then (s[2..], 16) else (s, 10)
  }

  /** `parseInt(s)`: `None` stands for NaN. */
  function ParseInt(s: string): (r: Option<int>)
  {
    var signed := SignOf(TrimStart(s));
    var prefixed := RadixOf(signed.0);
    var digits := DigitRun(prefixed.0, prefixed.1);
    if digits == [] then None else Some(signed.1 * DigitsValue(digits, prefixed.1))
  }

  /** JavaScript's `String(n)` for an integer below 10^21: an optional minus and the decimal digits. */
  function IntToString(n: int): string
  {
    if n < 0 then "-" + NatToString(-n) else NatToString(n)
  }

  /** The magnitude from which `String(n)` switches to exponent form. */
  const PlainLimit: int := 1_000_000_000_000_000_000_000

  /** `s` without its trailing zeros. */
  function StripTrailingZeros(s: string): (r: string)
    ensures |r| <= |s|
  {
    if s != [] && s[|s| - 1] == '0' then StripTrailingZeros(s[..|s| - 1]) else s
  }

  /**
   * JavaScript's `String(n)` for an integer: plain decimal digits below
   * 10^21, and from there the exponent form `d.ddde+k` (`1e+21`,
   * `-1.5e+22`), the fraction without trailing zeros.
   */
  function NumberToString(n: int): string
  {
    if -PlainLimit < n < PlainLimit then IntToString(n)
    else
      var digits := NatToString(if n < 0 then -n else n);
      (if n < 0 then "-" + [digits[0]] else [digits[0]]) + ExponentSuffix(digits)
  }

  /** What follows the leading digit in exponent form: the fraction, if any, and the exponent. */
  function ExponentSuffix(digits: string): (r: string)
    requires |digits| >= 1
    ensures r != [] && (r[0] == '.' || r[0] == 'e')
  {
    var fraction := StripTrailingZeros(digits[1..]);
    (if fraction == [] then "" else "." + fraction) + "e+" + NatToString(|digits| - 1)
  }

  /** The most significant decimal digit of `m`. */
  function LeadingDigit(m: nat): (d: int)
    ensures 0 <= d < 10 && (m > 0 ==> d > 0)
  {
    if m < 10 then m else LeadingDigit(m / 10)
  }

  /** The leading decimal digit of `n`, with the sign of `n`. */
  function SignedLeadingDigit(n: int): int
  {
    if n < 0 then -LeadingDigit(-n) else LeadingDigit(n)
  }

  /**
   * `parseInt(v)` on a property value: the value is first converted to a
   * string. `true`, `false` and `null` become words without digits, and an
   * object becomes `[object Object]`, so all of these are NaN.
   */
  function ParseIntValue(v: Value): Option<int>
  {
    match v
    case Str(s) => ParseInt(s)
    case Num(n) => ParseInt(NumberToString(n))
    case _ => None
  }

  /** The characters of a decimal rendering are decimal digits with their values. */
  lemma DecimalDigits(n: nat)
    ensures forall i :: 0 <= i < |NatToString(n)| ==> IsDigit(NatToString(n)[i], 10)
  {
  }

  /** The decimal rendering of `n` read back in radix 10 is `n`. */
  lemma {:induction false} DecimalValue(n: nat)
    ensures DigitsValue(NatToString(n), 10) == n
  {
    DecimalDigits(n);
    if n >= 10 {
      var s := NatToString(n);
      assert s[..|s| - 1] == NatToString(n / 10);
      assert DigitValue(s[|s| - 1]) == Some(n % 10);
      DecimalValue(n / 10);
    }
  }

  /** A digit run stops at the first character that is not a digit of the radix. */
  lemma {:induction false} DigitRunOfPrefix(ds: string, rest: string, radix: nat)
    requires forall i :: 0 <= i < |ds| ==> IsDigit(ds[i], radix)
    requires rest == [] || !IsDigit(rest[0], radix)
    ensures DigitRun(ds + rest, radix) == ds
    decreases |ds|
  {
    if |ds| > 0 {
      assert (ds + rest)[1..] == ds[1..] + rest;
      DigitRunOfPrefix(ds[1..], rest, radix);
    }
  }

  /**
   * `parseInt` reads back every integer written in decimal, whatever
   * non-digit text follows it (`"2019"`, `"-7"`, `"2019 AD"`), unless the
   * text after a lone `0` starts with `x` and makes it a hexadecimal prefix.
   */
  lemma ParseIntDecimal(n: int, rest: string)
    requires rest == [] || !IsDigit(rest[0], 10)
    requires n == 0 ==> rest == [] || (rest[0] != 'x' && rest[0] != 'X')
    ensures ParseInt(IntToString(n) + rest) == Some(n)
  {
    var m: nat := if n < 0 then -n else n;
    var digits := NatToString(m);
    SignedRendering(n, rest);
    NoHexPrefix(m, rest);
    DecimalRun(m, rest);
    DecimalValue(m);
    ParseIntOfParts(IntToString(n) + rest, digits + rest, if n < 0 then -1 else 1, digits);
  }

  /** After the sign of a rendered integer comes the rendering of its magnitude. */
  lemma SignedRendering(n: int, rest: string)
    ensures SignOf(TrimStart(IntToString(n) + rest)) ==
      (NatToString(if n < 0 then -n else n) + rest, if n < 0 then -1 else 1)
  {
    var u := NatToString(if n < 0 then -n else n) + rest;
    UnsignedPart(IntToString(n) + rest, u, n < 0);
  }

  /** The digit run of a decimal rendering followed by a non-digit is the rendering. */
  lemma DecimalRun(m: nat, rest: string)
    requires rest == [] || !IsDigit(rest[0], 10)
    ensures DigitRun(NatToString(m) + rest, 10) == NatToString(m)
  {
    DecimalDigits(m);
    DigitRunOfPrefix(NatToString(m), rest, 10);
  }

  /** `parseInt` assembled from its three stages. */
  lemma ParseIntOfParts(s: string, u: string, sign: int, digits: string)
    requires SignOf(TrimStart(s)) == (u, sign) && RadixOf(u) == (u, 10)
    requires DigitRun(u, 10) == digits && digits != []
    ensures ParseInt(s) == Some(sign * DigitsValue(digits, 10))
  {
  }

  /** The white space and sign handling of a rendered integer. */
  lemma UnsignedPart(s: string, u: string, negative: bool)
    requires s == (if negative then "-" else "") + u
    requires |u| > 0 && '0' <= u[0] <= '9'
    ensures TrimStart(s) == s && SignOf(s) == (u, if negative then -1 else 1)
  {
    if negative {
      assert s[0] == '-' && s[1..] == u;
    } else {
      assert s == u;
    }
    NotSpace(s[0]);
  }

  /** A sign or a decimal digit is not white space. */
  lemma NotSpace(c: char)
    requires c == '-' || '0' <= c <= '9'
    ensures !IsSpace(c)
  {
  }

  /** A decimal rendering followed by text that does not start with `x` has no hexadecimal prefix. */
  lemma NoHexPrefix(m: nat, rest: string)
    requires m == 0 ==> rest == [] || (rest[0] != 'x' && rest[0] != 'X')
    ensures RadixOf(NatToString(m) + rest) == (NatToString(m) + rest, 10)
  {
  }

  /** A number property below 10^21 in magnitude is read back as itself. */
  lemma ParseIntNumber(n: int)
    requires -PlainLimit < n < PlainLimit
    ensures ParseIntValue(Num(n)) == Some(n)
  {
    ParseIntDecimal(n, []);
    assert IntToString(n) + [] == IntToString(n);
  }

  /**
   * From 10^21 on, `String(n)` is in exponent form and `parseInt` stops at
   * its `.` or `e`: it reads only the leading digit, with the sign.
   */
  lemma ParseIntLargeNumber(n: int)
    requires n <= -PlainLimit || PlainLimit <= n
    ensures ParseIntValue(Num(n)) == Some(SignedLeadingDigit(n))
  {
    var tail := ExponentTail(n);
    ParseIntBeforeExponent(SignedLeadingDigit(n), tail);
  }

  /** `parseInt` stops at the `.` or `e` after a rendered non-zero integer. */
  lemma ParseIntBeforeExponent(k: int, tail: string)
    requires k != 0 && tail != [] && (tail[0] == '.' || tail[0] == 'e')
    ensures ParseInt(IntToString(k) + tail) == Some(k)
  {
    ParseIntDecimal(k, tail);
  }

  /** The exponent form is the signed leading digit followed by text that starts with `.` or `e`. */
  lemma ExponentTail(n: int) returns (tail: string)
    requires n <= -PlainLimit || PlainLimit <= n
    ensures NumberToString(n) == IntToString(SignedLeadingDigit(n)) + tail
    ensures tail != [] && (tail[0] == '.' || tail[0] == 'e')
  {
    var m: nat := if n < 0 then -n else n;
    var digits := NatToString(m);
    tail := ExponentSuffix(digits);
    LeadingCharacter(m);
    var d := LeadingDigit(m);
    assert NatToString(d) == [digits[0]];
    if n < 0 {
      assert IntToString(-d) == "-" + [digits[0]];
      assert NumberToString(n) == "-" + [digits[0]] + tail;
    } else {
      assert IntToString(d) == [digits[0]];
      assert NumberToString(n) == [digits[0]] + tail;
    }
  }

  /** The first character of a decimal rendering is the leading digit. */
  lemma {:induction false} LeadingCharacter(m: nat)
    ensures NatToString(m)[0] == DigitChar(LeadingDigit(m))
  {
    if m >= 10 {
      LeadingCharacter(m / 10);
    }
  }

  /** Leading white space does not change the result. */
  lemma {:induction false} ParseIntSkipsSpace(c: char, s: string)
    requires IsSpace(c)
    ensures ParseInt([c] + s) == ParseInt(s)
  {
    assert ([c] + s)[1..] == s;
  }
}
