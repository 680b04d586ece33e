/**
 * `parseInt(string)` as JavaScript evaluates it when no radix is given:
 * leading whitespace is skipped, one optional sign is read, a `0x`/`0X`
 * prefix switches to radix 16, and the longest run of digits of that radix
 * is converted; with no digit at all the result is `NaN` (here `None`).
 */
module JsNumber {
  import opened Wrappers
  import opened Text

  /** Value of a code point as a digit in any radix up to 36 (0-9, then a-z or A-Z); 36 when it is no digit. */
  function DigitValue(c: char): nat {
    if '0' <= c <= '9' then c as int - '0' as int
    else if 'a' <= c <= 'z' then c as int - 'a' as int + 10
    else if 'A' <= c <= 'Z' then c as int - 'A' as int + 10
    else 36
  }

  predicate IsRadixDigit(c: char, radix: nat) {
    DigitValue(c) < radix
  }

  predicate AllRadixDigits(z: string, radix: nat) {
    forall i | 0 <= i < |z| :: IsRadixDigit(z[i], radix)
  }

  /** The longest prefix of `s` made of digits of `radix`. */
  function DigitPrefix(s: string, radix: nat): (z: string)
    ensures |z| <= |s| && z == s[..|z|]
    ensures forall i | 0 <= i < |z| :: IsRadixDigit(z[i], radix)
    ensures |z| < |s| ==> !IsRadixDigit(s[|z|], radix)
  {
    if s != [] && IsRadixDigit(s[0], radix) then [s[0]] + DigitPrefix(s[1..], radix) else []
  }

  /** Value of a digit string, most significant digit first. */
  function DigitsValue(z: string, radix: nat): nat {
    if z == [] then 0 else DigitsValue(z[..|z| - 1], radix) * radix + DigitValue(z[|z| - 1])
  }

  /** Reads one optional sign: whether it was `-`, and the text after it. */
  function ReadSign(t: string): (bool, string) {
    if |t| > 0 && (t[0] == '+' || t[0] == '-') then (t[0] == '-', t[1..]) else (false, t)
  }

  /** True when `u` starts with the `0x`/`0X` prefix that selects radix 16. */
  predicate HasHexPrefix(u: string) {
    |u| >= 2 && u[0] == '0' && (u[1] == 'x' || u[1] == 'X')
  }

  /** The unsigned part of `parseInt`: the value of the longest digit run, `None` when it is empty. */
  function ReadMagnitude(u: string): Option<nat> {
    var radix := if HasHexPrefix(u) then 16 else 10;
    var z := DigitPrefix(if HasHexPrefix(u) then u[2..] else u, radix);
    if z == [] then None else Some(DigitsValue(z, radix))
  }

  /** `parseInt` once leading whitespace is gone. */
  function ParseSigned(t: string): Option<int> {
    var sign := ReadSign(t);
    var magnitude := ReadMagnitude(sign.1);
    if magnitude.None? then None
    else if sign.0 then Some(-(magnitude.value as int))
    else Some(magnitude.value)
  }

  /** `parseInt(s)`: `None` stands for `NaN`. */
  function ParseInt(s: string): Option<int> {
    ParseSigned(TrimStart(s))
  }

  lemma ParseIntSkipsWhitespace(ws: string, t: string)
    requires AllWhitespace(ws) && (t == [] || !IsWhitespace(t[0]))
    ensures ParseInt(ws + t) == ParseSigned(t)
  {
    TrimStartOfPadded(ws, t);
  }

  // ---------------------------------------------------------------------------
  // Reference: the decimal numeral of a natural number.
  // ---------------------------------------------------------------------------

  function DigitChar(d: nat): char
    requires d < 10
  {
    ('0' as int + d) as char
  }

  /** The shortest decimal numeral of `n` (no leading zeros). */
  function Decimal(n: nat): (z: string)
    ensures 1 <= |z|
    ensures AllDigits(z)
    ensures z[0] == '0' ==> n == 0 && |z| == 1
    ensures n > 0 ==> z[0] != '0'
  {
    if n < 10 then [DigitChar(n)] else Decimal(n / 10) + [DigitChar(n % 10)]
  }

  lemma {:induction false} DecimalValue(n: nat)
    ensures DigitsValue(Decimal(n), 10) == n
  {
    var z := Decimal(n);
    if n >= 10 {
      DecimalValue(n / 10);
      assert z[..|z| - 1] == Decimal(n / 10);
    }
  }

  /** A digit run followed by a non-digit (or by nothing) is exactly the run's prefix. */
  lemma {:induction false} DigitPrefixOfRun(z: string, tail: string, radix: nat)
    requires forall i | 0 <= i < |z| :: IsRadixDigit(z[i], radix)
    requires tail == [] || !IsRadixDigit(tail[0], radix)
    ensures DigitPrefix(z + tail, radix) == z
  {
    if z == [] {
      assert z + tail == tail;
    } else {
      assert (z + tail)[1..] == z[1..] + tail;
      DigitPrefixOfRun(z[1..], tail, radix);
      assert [z[0]] + z[1..] == z;
    }
  }

  /**
   * `parseInt` of any run of decimal digits, leading zeros included, after
   * leading whitespace and an optional sign and before text that does not
   * continue the run, gives its signed value, unless the run begins the
   * `0x` prefix.
   */
  lemma ParseIntOfDigits(ws: string, sign: string, z: string, tail: string)
    requires AllWhitespace(ws)
    requires sign == "" || sign == "+" || sign == "-"
    requires z != [] && AllDigits(z)
    requires tail == [] || !IsDigit(tail[0])
    requires !HasHexPrefix(z + tail)
    ensures ParseInt(ws + sign + z + tail) == Some(if sign == "-" then -(DigitsValue(z, 10) as int) else DigitsValue(z, 10))
  {
    Regroup(ws, sign, z, tail);
    DigitsStart(sign, z, tail);
    ParseIntSkipsWhitespace(ws, sign + (z + tail));
    ParseSignedOfDigits(sign, z, tail);
  }

  lemma DigitsStart(sign: string, z: string, tail: string)
    requires sign == "" || sign == "+" || sign == "-"
    requires z != [] && IsDigit(z[0])
    ensures sign + (z + tail) != [] && !IsWhitespace((sign + (z + tail))[0])
  {
    assert (z + tail)[0] == z[0];
    SignedStart(sign, z + tail);
  }

  lemma ParseSignedOfDigits(sign: string, z: string, tail: string)
    requires sign == "" || sign == "+" || sign == "-"
    requires z != [] && AllDigits(z)
    requires tail == [] || !IsDigit(tail[0])
    requires !HasHexPrefix(z + tail)
    ensures ParseSigned(sign + (z + tail)) == Some(if sign == "-" then -(DigitsValue(z, 10) as int) else DigitsValue(z, 10))
  {
    assert (z + tail)[0] == z[0];
    ReadSignOf(sign, z + tail);
    ReadMagnitudeOfDigits(z, tail);
  }

  /**
   * Round trip: `parseInt` of the decimal numeral of `n`, after any leading
   * whitespace and an optional sign, and before any text that does not
   * continue the number, gives back that number.
   */
  lemma ParseIntOfDecimal(ws: string, sign: string, n: nat, tail: string)
    requires AllWhitespace(ws)
    requires sign == "" || sign == "+" || sign == "-"
    requires tail == [] || (!IsDigit(tail[0]) && tail[0] != 'x' && tail[0] != 'X')
    ensures ParseInt(ws + sign + Decimal(n) + tail) == Some(if sign == "-" then -(n as int) else n)
  {
    DecimalNotHex(n, tail);
    ParseIntOfDigits(ws, sign, Decimal(n), tail);
    DecimalValue(n);
  }

  /** A numeral followed by anything but `x`/`X` does not begin the `0x` prefix. */
  lemma DecimalNotHex(n: nat, tail: string)
    requires tail == [] || (tail[0] != 'x' && tail[0] != 'X')
    ensures !HasHexPrefix(Decimal(n) + tail)
  {
    var z := Decimal(n);
    var u := z + tail;
    if |u| >= 2 && u[0] == '0' {
      assert z[0] == '0';
      assert |z| == 1 && u[1] == tail[0];
    }
  }

  /**
   * `parseInt` of a `0x`/`0X` prefix and a run of hexadecimal digits, after
   * leading whitespace and an optional sign and before text that does not
   * continue the run, gives the run's signed value; with no hexadecimal digit
   * after the prefix it is `NaN`.
   */
  lemma ParseIntOfHex(ws: string, sign: string, x: string, z: string, tail: string)
    requires AllWhitespace(ws)
    requires sign == "" || sign == "+" || sign == "-"
    requires |x| == 2 && HasHexPrefix(x)
    requires AllRadixDigits(z, 16)
    requires tail == [] || !IsRadixDigit(tail[0], 16)
    ensures ParseInt(ws + sign + x + z + tail)
         == if z == [] then None else Some(if sign == "-" then -(DigitsValue(z, 16) as int) else DigitsValue(z, 16))
  {
    var t := sign + (x + (z + tail));
    RegroupHex(ws, sign, x, z, tail);
    HexStart(sign, x, z + tail);
    ParseIntSkipsWhitespace(ws, t);
    ParseSignedOfHex(sign, x, z, tail);
  }

  lemma RegroupHex(ws: string, sign: string, x: string, z: string, tail: string)
    ensures ws + sign + x + z + tail == ws + (sign + (x + (z + tail)))
  {}

  lemma HexStart(sign: string, x: string, v: string)
    requires sign == "" || sign == "+" || sign == "-"
    requires |x| == 2 && HasHexPrefix(x)
    ensures sign + (x + v) != [] && !IsWhitespace((sign + (x + v))[0])
  {
    assert (x + v)[0] == x[0];
    SignedStart(sign, x + v);
  }

  lemma ParseSignedOfHex(sign: string, x: string, z: string, tail: string)
    requires sign == "" || sign == "+" || sign == "-"
    requires |x| == 2 && HasHexPrefix(x)
    requires AllRadixDigits(z, 16)
    requires tail == [] || !IsRadixDigit(tail[0], 16)
    ensures ParseSigned(sign + (x + (z + tail)))
         == if z == [] then None else Some(if sign == "-" then -(DigitsValue(z, 16) as int) else DigitsValue(z, 16))
  {
    var u := x + (z + tail);
    assert u[0] == x[0];
    ReadSignOf(sign, u);
    ReadMagnitudeOfHex(x, z, tail);
    SignedMagnitude(sign, u);
    if z == [] {
      assert ReadMagnitude(u) == None;
    } else {
      assert ReadMagnitude(u) == Some(DigitsValue(z, 16));
    }
  }

  /** `parseInt` after whitespace: the magnitude read after the sign, negated for `-`. */
  lemma SignedMagnitude(sign: string, u: string)
    requires ReadSign(sign + u) == (sign == "-", u)
    ensures ParseSigned(sign + u)
         == if ReadMagnitude(u).None? then None
            else Some(if sign == "-" then -(ReadMagnitude(u).value as int) else ReadMagnitude(u).value)
  {}

  lemma ReadMagnitudeOfHex(x: string, z: string, tail: string)
    requires |x| == 2 && HasHexPrefix(x)
    requires AllRadixDigits(z, 16)
    requires tail == [] || !IsRadixDigit(tail[0], 16)
    ensures ReadMagnitude(x + (z + tail)) == if z == [] then None else Some(DigitsValue(z, 16))
  {
    var u := x + (z + tail);
    assert u[0] == x[0] && u[1] == x[1];
    assert u[2..] == z + tail;
    DigitPrefixOfRun(z, tail, 16);
  }

  /** A `0` in front of a digit run does not change its value. */
  lemma {:induction false} LeadingZeroIgnored(z: string, radix: nat)
    ensures DigitsValue(['0'] + z, radix) == DigitsValue(z, radix)
  {
    if z != [] {
      var w := ['0'] + z;
      assert w[..|w| - 1] == ['0'] + z[..|z| - 1];
      LeadingZeroIgnored(z[..|z| - 1], radix);
    } else {
      assert DigitsValue(['0'], radix) == DigitsValue([], radix) * radix + DigitValue('0');
    }
  }

  lemma Regroup(ws: string, sign: string, z: string, tail: string)
    ensures ws + sign + z + tail == ws + (sign + (z + tail))
  {}

  /** A sign, or else a text starting with a digit, starts with no whitespace. */
  lemma SignedStart(sign: string, u: string)
    requires sign == "" || sign == "+" || sign == "-"
    requires u != [] && IsDigit(u[0])
    ensures sign + u != [] && !IsWhitespace((sign + u)[0])
  {
    assert (sign + u)[0] == if sign == "" then u[0] else sign[0];
  }

  lemma ReadSignOf(sign: string, u: string)
    requires sign == "" || sign == "+" || sign == "-"
    requires sign == "" ==> u == [] || (u[0] != '+' && u[0] != '-')
    ensures ReadSign(sign + u) == (sign == "-", u)
  {
    if sign == "" {
      assert sign + u == u;
    } else {
      assert |sign| == 1;
      assert (sign + u)[0] == sign[0];
      assert (sign + u)[1..] == u;
    }
  }

  lemma ReadMagnitudeOfDigits(z: string, tail: string)
    requires z != [] && AllDigits(z)
    requires tail == [] || !IsDigit(tail[0])
    requires !HasHexPrefix(z + tail)
    ensures ReadMagnitude(z + tail) == Some(DigitsValue(z, 10))
  {
    assert forall i | 0 <= i < |z| :: IsRadixDigit(z[i], 10) by {
      assert forall i | 0 <= i < |z| :: IsDigit(z[i]);
    }
    DigitPrefixOfRun(z, tail, 10);
  }

  /** With no decimal digit after the optional sign, `parseInt` is `NaN`. */
  lemma ParseIntNaN(ws: string, sign: string, rest: string)
    requires AllWhitespace(ws)
    requires sign == "" || sign == "+" || sign == "-"
    requires rest == [] || !IsDigit(rest[0])
    requires sign == "" ==> rest == [] || (!IsWhitespace(rest[0]) && rest[0] != '+' && rest[0] != '-')
    ensures ParseInt(ws + sign + rest) == None
  {
    var t := sign + rest;
    assert ws + sign + rest == ws + t;
    assert t == [] || t[0] == if sign == "" then rest[0] else sign[0];
    ParseIntSkipsWhitespace(ws, t);
    ReadSignOf(sign, rest);
    ReadMagnitudeWithoutDigit(rest);
  }

  lemma ReadMagnitudeWithoutDigit(u: string)
    requires u == [] || !IsDigit(u[0])
    ensures ReadMagnitude(u) == None
  {
    assert !HasHexPrefix(u);
    assert u != [] ==> !IsRadixDigit(u[0], 10);
  }
}
