/** The JavaScript string operations the handlers rely on:
    `parseInt` (applied to the stored `timeSlot` string), `endsWith` and
    `toLowerCase` (applied to e-mail addresses), and the decimal rendering a
    number gets when the client sends it as a time slot. */
module JsText {
  import opened Base

  /** The white space `parseInt` skips: ECMAScript's WhiteSpace and LineTerminator code points. */
  predicate IsJsSpace(c: char)
  {
    var n := c as int;
    n == 0x09 || n == 0x0A || n == 0x0B || n == 0x0C || n == 0x0D || n == 0x20 ||
    n == 0xA0 || n == 0x1680 || (0x2000 <= n <= 0x200A) || n == 0x2028 || n == 0x2029 ||
    n == 0x202F || n == 0x205F || n == 0x3000 || n == 0xFEFF
  }

  /** Drops the leading white space. */
  function TrimStart(s: string): (r: string)
    ensures |r| <= |s| && r == s[|s| - |r|..]
    ensures r == [] || !IsJsSpace(r[0])
    ensures forall i :: 0 <= i < |s| - |r| ==> IsJsSpace(s[i])
  {
    if s != [] && IsJsSpace(s[0]) then TrimStart(s[1..]) else s
  }

  /** The value of `c` as a digit in base `radix` (10 or 16), if it is one. */
  function DigitOf(c: char, radix: nat): Option<nat>
  {
    if '0' <= c <= '9' then Some(c as nat - '0' as nat)
    else if radix == 16 && 'a' <= c <= 'f' then Some(c as nat - 'a' as nat + 10)
    else if radix == 16 && 'A' <= c <= 'F' then Some(c as nat - 'A' as nat + 10)
    else None
  }

  /** The longest prefix of `s` made of digits of base `radix`. */
  function DigitRun(s: string, radix: nat): (r: string)
    ensures |r| <= |s| && r == s[..|r|]
    ensures forall i :: 0 <= i < |r| ==> DigitOf(r[i], radix).Some?
    ensures |r| < |s| ==> DigitOf(s[|r|], radix).None?
  {
    if s != [] && DigitOf(s[0], radix).Some? then [s[0]] + DigitRun(s[1..], radix) else []
  }

  /** The number a digit string denotes, most significant digit first. */
  function ValueOf(ds: string, radix: nat): nat
  {
    if ds == [] then 0
    else
      var d := DigitOf(ds[|ds| - 1], radix);
      ValueOf(ds[..|ds| - 1], radix) * radix + (if d.Some? then d.value else 0)
  }

  /** `parseInt(s)` with no radix argument: skip leading white space, read
      an optional sign, then read the magnitude. No digit at all gives NaN,
      written `None`. Trailing text after the digits is ignored. */
  function ParseInt(s: string): Option<int>
  {
    ParseSigned(TrimStart(s))
  }

  /** The sign step of `parseInt`, after the white space is gone. */
  function ParseSigned(t: string): Option<int>
  {
    if t != [] && t[0] == '-' then Signed(ParseMagnitude(t[1..]), true)
    else if t != [] && t[0] == '+' then Signed(ParseMagnitude(t[1..]), false)
    else Signed(ParseMagnitude(t), false)
  }

  /** The magnitude with its sign applied; NaN stays NaN. */
  function Signed(m: Option<nat>, negative: bool): Option<int>
  {
    match m
    case None => None
    case Some(v) => Some(if negative then -(v as int) else v as int)
  }

  /** The unsigned part of `parseInt`: base 16 after a `0x`/`0X` prefix,
      base 10 otherwise, over the longest run of digits. */
  function ParseMagnitude(u: string): Option<nat>
  {
    if HexPrefix(u) then RunValue(DigitRun(u[2..], 16), 16)
    else RunValue(DigitRun(u, 10), 10)
  }

  predicate HexPrefix(u: string)
  {
    |u| >= 2 && u[0] == '0' && (u[1] == 'x' || u[1] == 'X')
  }

  /** An empty digit run is NaN. */
  function RunValue(z: string, radix: nat): Option<nat>
  {
    if z == [] then None else Some(ValueOf(z, radix))
  }

  /** How a non-negative number is written in base 10, as `String(n)` gives it. */
  function DecimalString(n: nat): (r: string)
    ensures r != []
    ensures forall i :: 0 <= i < |r| ==> '0' <= r[i] <= '9'
    ensures n != 0 ==> r[0] != '0'
  {
    var digit := ['0' + (n % 10) as char];
    if n < 10 then digit else DecimalString(n / 10) + digit
  }

  /** The value of a decimal rendering is the number it renders. */
  lemma {:induction false} DecimalValue(n: nat)
    ensures ValueOf(DecimalString(n), 10) == n
  {
    var r := DecimalString(n);
    assert r[..|r| - 1] == if n < 10 then [] else DecimalString(n / 10);
    if n >= 10 {
      DecimalValue(n / 10);
    }
  }

  /** A digit run stops only at the end of a string of digits. */
  lemma {:induction false} DigitRunOfDigits(s: string)
    requires forall i :: 0 <= i < |s| ==> '0' <= s[i] <= '9'
    ensures DigitRun(s, 10) == s
  {
    if s != [] {
      DigitRunOfDigits(s[1..]);
    }
  }

  /** The magnitude of a plain decimal numeral is its value. */
  lemma MagnitudeOfNumeral(s: string)
    requires s != [] && forall i :: 0 <= i < |s| ==> '0' <= s[i] <= '9'
    ensures ParseMagnitude(s) == Some(ValueOf(s, 10))
  {
    assert !HexPrefix(s) by {
      if |s| >= 2 { assert '0' <= s[1] <= '9'; }
    }
    DigitRunOfDigits(s);
  }

  /** `parseInt` reads a plain decimal numeral (no sign, no white space) as its value. */
  lemma ParseIntOfNumeral(s: string)
    requires s != [] && forall i :: 0 <= i < |s| ==> '0' <= s[i] <= '9'
    ensures ParseInt(s) == Some(ValueOf(s, 10) as int)
  {
    MagnitudeOfNumeral(s);
    ParseIntOfUnsigned(s, ValueOf(s, 10));
  }

  lemma ParseIntOfUnsigned(s: string, v: nat)
    requires ParseMagnitude(s) == Some(v)
    requires s != [] && '0' <= s[0] <= '9'
    ensures ParseInt(s) == Some(v as int)
  {
    assert !IsJsSpace(s[0]);
    assert TrimStart(s) == s;
    assert s[0] != '-' && s[0] != '+';
    assert ParseSigned(s) == Signed(ParseMagnitude(s), false);
  }

  /** `parseInt` reads a minus sign followed by a magnitude as the negated magnitude. */
  lemma ParseIntOfNegative(s: string, v: nat)
    requires ParseMagnitude(s) == Some(v)
    ensures ParseInt("-" + s) == Some(-(v as int))
  {
    var t := "-" + s;
    assert t[0] == '-' && t[1..] == s;
    assert TrimStart(t) == t;
  }

  /** Leading zeros do not change a numeral's value. */
  lemma {:induction false} LeadingZeroValue(s: string)
    ensures ValueOf("0" + s, 10) == ValueOf(s, 10)
  {
    if s != [] {
      var t := "0" + s;
      assert t[..|t| - 1] == "0" + s[..|s| - 1];
      assert t[|t| - 1] == s[|s| - 1];
      LeadingZeroValue(s[..|s| - 1]);
    }
  }

  /** Round trip: `parseInt(String(h))` gives back `h`, which is how the
      client's `getHours()` value comes back out of the stored `timeSlot`. */
  lemma ParseIntDecimal(n: nat)
    ensures ParseInt(DecimalString(n)) == Some(n)
  {
    ParseIntOfNumeral(DecimalString(n));
    DecimalValue(n);
  }

  /** A zero-padded rendering, such as `"09"`, still reads as the number. */
  lemma ParseIntPadded(n: nat)
    ensures ParseInt("0" + DecimalString(n)) == Some(n)
  {
    var d := DecimalString(n);
    var s := "0" + d;
    forall i | 0 <= i < |s| ensures '0' <= s[i] <= '9' {
      if i > 0 { assert s[i] == d[i - 1]; }
    }
    ParseIntOfNumeral(s);
    LeadingZeroValue(d);
    DecimalValue(n);
  }

  /** `s.endsWith(suffix)`. */
  predicate EndsWith(s: string, suffix: string)
  {
    |suffix| <= |s| && s[|s| - |suffix|..] == suffix
  }

  /** `toLowerCase` on one character, for the Latin capital letters. */
  function LowerChar(c: char): (r: char)
    ensures 'A' <= c <= 'Z' ==> 'a' <= r <= 'z'
    ensures !('A' <= c <= 'Z') ==> r == c
  {
    if 'A' <= c <= 'Z' then (c as int + 32) as char else c
  }

  /** `s.toLowerCase()`, character by character. */
  function ToLower(s: string): (r: string)
    ensures |r| == |s|
    ensures forall i :: 0 <= i < |s| ==> r[i] == LowerChar(s[i])
  {
    if s == [] then [] else [LowerChar(s[0])] + ToLower(s[1..])
  }
}
