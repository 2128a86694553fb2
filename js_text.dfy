/**
  The two JavaScript string primitives the menu form relies on:
  `String.prototype.trim` and the one-argument `parseInt`, both as
  ECMAScript defines them (sections 22.1.3.32 and 19.2.5 of ECMA-262),
  on exact integers (no loss of precision for long digit strings).
 */
module JsText {

  import opened Wrappers

  /** WhiteSpace or LineTerminator code points (sections 12.2 and 12.3 of ECMA-262). */
  predicate IsJsSpace(c: char) {
    || c == '\t' || c == '\n' || c == '\U{000B}' || c == '\U{000C}' || c == '\r'
    || c == ' ' || c == '\U{00A0}' || c == '\U{1680}'
    || ('\U{2000}' <= c <= '\U{200A}')
    || c == '\U{2028}' || c == '\U{2029}' || c == '\U{202F}' || c == '\U{205F}'
    || c == '\U{3000}' || c == '\U{FEFF}'
  }

  predicate AllSpace(s: string) {
    forall i :: 0 <= i < |s| ==> IsJsSpace(s[i])
  }

  /** Number of white-space characters at the front of `s`. */
  function LeadCount(s: string): (k: nat)
    ensures k <= |s|
    ensures forall i :: 0 <= i < k ==> IsJsSpace(s[i])
    ensures k < |s| ==> !IsJsSpace(s[k])
  {
    if s == [] || !IsJsSpace(s[0]) then 0 else 1 + LeadCount(s[1..])
  }

  /** Number of white-space characters at the end of `s`. */
  function TailCount(s: string): (k: nat)
    ensures k <= |s|
    ensures forall i :: |s| - k <= i < |s| ==> IsJsSpace(s[i])
    ensures k < |s| ==> !IsJsSpace(s[|s| - 1 - k])
  {
    if s == [] || !IsJsSpace(s[|s| - 1]) then 0 else 1 + TailCount(s[..|s| - 1])
  }

  /** `s.trim()`: the longest infix of `s` that neither starts nor ends with white space. */
  function Trim(s: string): (r: string)
    ensures LeadCount(s) + |r| <= |s|
    ensures r == s[LeadCount(s)..LeadCount(s) + |r|]
    ensures forall i :: 0 <= i < LeadCount(s) ==> IsJsSpace(s[i])
    ensures forall i :: LeadCount(s) + |r| <= i < |s| ==> IsJsSpace(s[i])
    ensures r != [] ==> !IsJsSpace(r[0]) && !IsJsSpace(r[|r| - 1])
    ensures r == [] <==> AllSpace(s)
  {
    var t := s[LeadCount(s)..];
    var r := t[..|t| - TailCount(t)];
    assert r != [] ==> r[0] == s[LeadCount(s)];
    r
  }

  // ----- parseInt -----

  predicate IsAsciiDigit(c: char) { '0' <= c <= '9' }

  predicate IsAsciiLetter(c: char) { 'a' <= c <= 'z' || 'A' <= c <= 'Z' }

  /** The value of an ASCII letter or digit read as a digit of radix 36. */
  function DigitValue(c: char): (d: nat)
    requires IsAsciiDigit(c) || IsAsciiLetter(c)
    ensures d < 36
    ensures IsAsciiDigit(c) <==> d < 10
  {
    if IsAsciiDigit(c) then (c - '0') as nat
    else if 'a' <= c <= 'z' then (c - 'a') as nat + 10
    else (c - 'A') as nat + 10
  }

  predicate IsRadixDigit(c: char, radix: nat) {
    (IsAsciiDigit(c) || IsAsciiLetter(c)) && DigitValue(c) < radix
  }

  /** Length of the longest prefix of `s` made of digits of `radix`. */
  function DigitRun(s: string, radix: nat): (k: nat)
    ensures k <= |s|
    ensures forall i :: 0 <= i < k ==> IsRadixDigit(s[i], radix)
    ensures k < |s| ==> !IsRadixDigit(s[k], radix)
  {
    if s == [] || !IsRadixDigit(s[0], radix) then 0 else 1 + DigitRun(s[1..], radix)
  }

  /** The number that a digit string denotes in `radix`, most significant digit first. */
  function DigitsValue(z: string, radix: nat): nat
    requires forall i :: 0 <= i < |z| ==> IsRadixDigit(z[i], radix)
  {
    if z == [] then 0
    else
      var last := z[|z| - 1];
      assert IsRadixDigit(last, radix);
      Shift(DigitsValue(z[..|z| - 1], radix), radix) + DigitValue(last)
  }

  /** One place to the left in `radix`. */
  function Shift(v: nat, radix: nat): nat {
    v * radix
  }

  /**
    `parseInt(s)` with no radix: skip leading white space, read an optional
    sign, then the magnitude; `None` stands for `NaN`. `-0` is 0.
   */
  function ParseInt(s: string): (r: Option<int>)
    ensures r.Some? ==> exists i :: LeadCount(s) <= i < |s| && IsAsciiDigit(s[i])
    ensures r.Some? && r.value < 0 ==> LeadCount(s) < |s| && s[LeadCount(s)] == '-'
  {
    var t := s[LeadCount(s)..];
    var r := ParseSigned(t);
    assert r.Some? ==> exists i :: 0 <= i < |t| && IsAsciiDigit(t[i]) && s[LeadCount(s) + i] == t[i];
    r
  }

  /** After the white space: an optional sign, then the magnitude. */
  function ParseSigned(t: string): (r: Option<int>)
    ensures r.Some? ==> exists i :: 0 <= i < |t| && IsAsciiDigit(t[i])
    ensures r.Some? && r.value < 0 ==> t != [] && t[0] == '-'
  {
    var negative := |t| > 0 && t[0] == '-';
    var signed := |t| > 0 && (t[0] == '-' || t[0] == '+');
    var u := if signed then t[1..] else t;
    var k := if signed then 1 else 0;
    assert ParseMagnitude(u).Some? ==> k < |t| && t[k] == u[0];
    match ParseMagnitude(u)
    case None => None
    case Some(m) => Some(if negative then -(m as int) else m as int)
  }

  /** After the sign: radix 16 behind a `0x`/`0X` prefix, radix 10 otherwise. */
  function ParseMagnitude(u: string): (r: Option<nat>)
    ensures r.Some? ==> u != [] && IsAsciiDigit(u[0])
  {
    if |u| >= 2 && u[0] == '0' && (u[1] == 'x' || u[1] == 'X') then DigitPrefix(u[2..], 16)
    else DigitPrefix(u, 10)
  }

  /** The value of the longest run of `radix` digits at the front of `v`; `None` when there is none. */
  function DigitPrefix(v: string, radix: nat): (r: Option<nat>)
    ensures r.Some? ==> v != [] && IsRadixDigit(v[0], radix)
  {
    var z := v[..DigitRun(v, radix)];
    if z == [] then None else Some(DigitsValue(z, radix))
  }

  /** The decimal rendering of a natural number, without leading zeros. */
  function DecimalString(n: nat): (s: string)
    ensures |s| >= 1
    ensures forall i :: 0 <= i < |s| ==> IsAsciiDigit(s[i])
    ensures n >= 1 ==> s[0] != '0'
  {
    if n < 10 then ['0' + n as char]
    else DecimalString(n / 10) + ['0' + (n % 10) as char]
  }

  lemma {:induction false} DecimalValue(n: nat)
    ensures forall i :: 0 <= i < |DecimalString(n)| ==> IsRadixDigit(DecimalString(n)[i], 10)
    ensures DigitsValue(DecimalString(n), 10) == n
  {
    var s := DecimalString(n);
    forall i | 0 <= i < |s| ensures IsRadixDigit(s[i], 10) {
      assert IsAsciiDigit(s[i]);
    }
    if n >= 10 {
      DecimalValue(n / 10);
      assert s[..|s| - 1] == DecimalString(n / 10);
    }
  }

  lemma {:induction false} DigitRunExact(z: string, rest: string, radix: nat)
    requires forall i :: 0 <= i < |z| ==> IsRadixDigit(z[i], radix)
    requires rest == [] || !IsRadixDigit(rest[0], radix)
    ensures DigitRun(z + rest, radix) == |z|
  {
    if z != [] {
      assert (z + rest)[1..] == z[1..] + rest;
      DigitRunExact(z[1..], rest, radix);
    } else {
      assert z + rest == rest;
    }
  }

  lemma DigitPrefixExact(z: string, rest: string, radix: nat)
    requires z != []
    requires forall i :: 0 <= i < |z| ==> IsRadixDigit(z[i], radix)
    requires rest == [] || !IsRadixDigit(rest[0], radix)
    ensures DigitPrefix(z + rest, radix) == Some(DigitsValue(z, radix))
  {
    DigitRunExact(z, rest, radix);
    assert (z + rest)[..|z|] == z;
  }

  /**
    `rest` ends the numeral `DecimalString(n)`: it does not start with a
    digit, and after a lone `0` it does not start with the `x`/`X` that
    would turn the `0` into a hexadecimal prefix.
   */
  predicate NumeralEnd(n: nat, rest: string) {
    rest == [] || (!IsAsciiDigit(rest[0]) && (n >= 1 || !(rest[0] == 'x' || rest[0] == 'X')))
  }

  /** The magnitude of a decimal rendering followed by text that ends it is the number rendered. */
  lemma MagnitudeOfDecimal(n: nat, rest: string)
    requires NumeralEnd(n, rest)
    ensures ParseMagnitude(DecimalString(n) + rest) == Some(n)
  {
    var d := DecimalString(n);
    var u := d + rest;
    assert u[0] == d[0];
    assert !(|u| >= 2 && u[0] == '0' && (u[1] == 'x' || u[1] == 'X')) by {
      if n >= 1 { assert u[0] != '0'; } else { assert |d| == 1 && u[1..] == rest; }
    }
    DecimalValue(n);
    DigitPrefixExact(d, rest, 10);
  }

  /** Text starting with a digit is read from its first character, as a non-negative number. */
  lemma ParseFromDigit(u: string)
    requires u != [] && IsAsciiDigit(u[0])
    ensures ParseInt(u) == if ParseMagnitude(u).Some? then Some(ParseMagnitude(u).value as int) else None
  {
    assert LeadCount(u) == 0;
    assert u[0..] == u;
  }

  /** Text starting with a minus sign is read as the negated magnitude of the rest. */
  lemma ParseFromMinus(u: string)
    ensures ParseInt("-" + u) == if ParseMagnitude(u).Some? then Some(-(ParseMagnitude(u).value as int)) else None
  {
    var s := "-" + u;
    assert LeadCount(s) == 0;
    assert s[0..] == s;
    assert s[1..] == u;
  }

  /** Reading the decimal rendering of `n` back yields `n`, whatever text ends the numeral (`"12abc"` reads 12). */
  lemma ParseDecimal(n: nat, rest: string)
    requires NumeralEnd(n, rest)
    ensures ParseInt(DecimalString(n) + rest) == Some(n)
  {
    var s := DecimalString(n) + rest;
    assert s[0] == DecimalString(n)[0];
    ParseFromDigit(s);
    MagnitudeOfDecimal(n, rest);
  }

  /** Same as `ParseDecimal` for a number written with a leading minus sign. */
  lemma ParseNegativeDecimal(n: nat, rest: string)
    requires NumeralEnd(n, rest)
    ensures ParseInt("-" + (DecimalString(n) + rest)) == Some(-(n as int))
  {
    ParseFromMinus(DecimalString(n) + rest);
    MagnitudeOfDecimal(n, rest);
  }

  /** Leading white space never changes what `parseInt` reads. */
  lemma {:induction false} ParseSkipsSpace(ws: string, s: string)
    requires AllSpace(ws)
    ensures ParseInt(ws + s) == ParseInt(s)
  {
    LeadCountAppend(ws, s);
    assert (ws + s)[LeadCount(ws + s)..] == s[LeadCount(s)..];
  }

  lemma {:induction false} LeadCountAppend(ws: string, s: string)
    requires AllSpace(ws)
    ensures LeadCount(ws + s) == |ws| + LeadCount(s)
  {
    if ws == [] {
      assert ws + s == s;
    } else {
      assert (ws + s)[1..] == ws[1..] + s;
      LeadCountAppend(ws[1..], s);
    }
  }

  /** An explicit plus sign is skipped: `parseInt("+5")` is 5. */
  lemma ParsePlusSign()
    ensures ParseInt("+5") == Some(5)
  {
    assert "+5"[0..] == "+5" && "+5"[1..] == "5";
    DigitPrefixExact("5", "", 10);
    assert "5" + "" == "5";
  }

  /** Leading zeros do not change the value: `parseInt("007")` is 7. */
  lemma ParseLeadingZeros()
    ensures ParseInt("007") == Some(7)
  {
    ParseFromDigit("007");
    assert "007"[..2] == "00" && "007"[..2][..1] == "0";
    assert DigitsValue("0", 10) == 0;
    assert DigitsValue("00", 10) == 0;
    assert DigitsValue("007", 10) == 7;
    DigitPrefixExact("007", "", 10);
    assert "007" + "" == "007";
  }

  /** The digits `1F` in radix 16. */
  lemma HexDigits()
    ensures DigitPrefix("1F", 16) == Some(31)
  {
    assert DigitValue('1') == 1 && DigitValue('F') == 15;
    assert "1F"[..1] == "1";
    assert DigitsValue("1", 16) == 1;
    assert DigitsValue("1F", 16) == Shift(1, 16) + 15;
    DigitPrefixExact("1F", "", 16);
    assert "1F" + "" == "1F";
  }

  /** A `0x` prefix switches to radix 16: `parseInt("0x1F")` is 31. */
  lemma ParseHex()
    ensures ParseInt("0x1F") == Some(31)
  {
    var u := "0x1F";
    ParseFromDigit(u);
    assert u[2..] == "1F";
    HexDigits();
    assert ParseMagnitude(u) == Some(31);
  }

  /** A string with no digit at all parses to `NaN`. */
  lemma NoDigitIsNaN(s: string)
    requires forall i :: 0 <= i < |s| ==> !IsAsciiDigit(s[i])
    ensures ParseInt(s) == None
  {
  }
}
