/**
 * The pieces of the JavaScript runtime that the bridge and the browser client
 * rely on: the `\s` character class and `String.prototype.trim`,
 * `Number.prototype.toString(radix)`, `padStart`, `toUpperCase` on digit
 * strings, `parseInt(_, 16)` and the conversion of a number to a
 * `Uint8Array` element.
 */
module Js {

  import opened Wrappers

  /** An element of a `Uint8Array`. */
  type Byte = b: int | 0 <= b < 256

  /** The characters `.` in a regular expression refuses to match. */
  predicate IsLineTerminator(c: char) {
    c == '\n' || c == '\r' || c == '\U{2028}' || c == '\U{2029}'
  }

  /** The `\s` class of a regular expression; `trim` removes the same set. */
  predicate IsWhitespace(c: char) {
    || c == '\t' || c == '\n' || c == '\U{B}' || c == '\U{C}' || c == '\r' || c == ' '
    || c == '\U{A0}' || c == '\U{1680}' || ('\U{2000}' <= c <= '\U{200A}')
    || c == '\U{2028}' || c == '\U{2029}' || c == '\U{202F}' || c == '\U{205F}'
    || c == '\U{3000}' || c == '\U{FEFF}'
  }

  function TrimStart(s: string): (r: string)
    ensures |r| <= |s| && r == s[|s| - |r|..]
    ensures r == [] || !IsWhitespace(r[0])
    ensures forall i :: 0 <= i < |s| - |r| ==> IsWhitespace(s[i])
  {
    if s != [] && IsWhitespace(s[0]) then TrimStart(s[1..]) else s
  }

  function TrimEnd(s: string): (r: string)
    ensures |r| <= |s| && r == s[..|r|]
    ensures r == [] || !IsWhitespace(r[|r| - 1])
    ensures forall i :: |r| <= i < |s| ==> IsWhitespace(s[i])
  {
    if s != [] && IsWhitespace(s[|s| - 1]) then TrimEnd(s[..|s| - 1]) else s
  }

  /** `String.prototype.trim`: the longest infix with no whitespace at either end. */
  function Trim(s: string): (r: string)
    ensures |r| <= |s|
    ensures r == [] || (!IsWhitespace(r[0]) && !IsWhitespace(r[|r| - 1]))
    ensures (forall c :: c in s ==> IsWhitespace(c)) <==> r == []
    ensures exists i :: TrimmedAt(s, r, i)
  {
    TrimWitness(s);
    TrimEnd(TrimStart(s))
  }

  /** `r` is `s` from position `i` on, with only whitespace cut from either end. */
  predicate TrimmedAt(s: string, r: string, i: int) {
    && 0 <= i && i + |r| <= |s| && r == s[i..i + |r|]
    && (forall k :: 0 <= k < i ==> IsWhitespace(s[k]))
    && (forall k :: i + |r| <= k < |s| ==> IsWhitespace(s[k]))
  }

  lemma TrimWitness(s: string)
    ensures TrimmedAt(s, TrimEnd(TrimStart(s)), |s| - |TrimStart(s)|)
  {
    TrimmedFromParts(s, TrimStart(s), TrimEnd(TrimStart(s)));
  }

  /** Cutting whitespace from the start, then from the end of what is left. */
  lemma TrimmedFromParts(s: string, t: string, r: string)
    requires |t| <= |s| && t == s[|s| - |t|..] && forall k :: 0 <= k < |s| - |t| ==> IsWhitespace(s[k])
    requires |r| <= |t| && r == t[..|r|] && forall k :: |r| <= k < |t| ==> IsWhitespace(t[k])
    ensures TrimmedAt(s, r, |s| - |t|)
  {
    var i := |s| - |t|;
    assert r == s[i..i + |r|];
    forall k | i + |r| <= k < |s|
      ensures IsWhitespace(s[k])
    {
      assert s[k] == t[k - i];
    }
  }

  /** The lower-case digit that `toString(radix)` writes for `d`. */
  function DigitChar(d: nat): (c: char)
    requires d < 36
  {
    if d < 10 then ('0' as int + d) as char else ('a' as int + d - 10) as char
  }

  /** The value `parseInt` gives a digit character, either case; 36 for a non-digit. */
  function DigitValue(c: char): (v: nat)
    ensures v <= 36
  {
    if '0' <= c <= '9' then c as int - '0' as int
    else if 'a' <= c <= 'z' then c as int - 'a' as int + 10
    else if 'A' <= c <= 'Z' then c as int - 'A' as int + 10
    else 36
  }

  lemma DigitCharValue(d: nat)
    requires d < 36
    ensures DigitValue(DigitChar(d)) == d
  {
  }

  predicate IsDigitIn(c: char, radix: nat) {
    DigitValue(c) < radix
  }

  predicate AllDigitsIn(s: string, radix: nat) {
    forall i :: 0 <= i < |s| ==> IsDigitIn(s[i], radix)
  }

  /** The number a digit string denotes, read most significant digit first. */
  function DigitsValue(s: string, radix: nat): nat {
    if s == [] then 0 else DigitsValue(s[..|s| - 1], radix) * radix + DigitValue(s[|s| - 1])
  }

  /** `n.toString(radix)` for a non-negative integer: no leading zeros, lower-case letters. */
  function NatToString(n: nat, radix: nat): (r: string)
    requires 2 <= radix <= 36
    ensures 1 <= |r| && AllDigitsIn(r, radix)
    ensures |r| > 1 ==> r[0] != '0'
    ensures DigitsValue(r, radix) == n
    decreases n
  {
    if n < radix then DigitCharValue(n); [DigitChar(n)]
    else
      var q, d := n / radix, n % radix;
      DivModSplit(n, radix);
      DigitCharValue(d);
      var head := NatToString(q, radix);
      var r := head + [DigitChar(d)];
      assert r[..|r| - 1] == head;
      assert DigitsValue(r, radix) == DigitsValue(head, radix) * radix + d;
      r
  }

  lemma DivModSplit(n: nat, radix: nat)
    requires 2 <= radix <= n
    ensures 1 <= n / radix < n && n % radix < radix
    ensures n == (n / radix) * radix + n % radix
  {
  }

  /** `n.toString()` for any integer: a minus sign before the decimal digits of `|n|`. */
  function IntToString(n: int): (r: string)
    ensures n >= 0 ==> r == NatToString(n, 10)
  {
    if n >= 0 then NatToString(n, 10) else "-" + NatToString(-n, 10)
  }

  function Repeat(c: char, n: nat): (r: string)
    ensures |r| == n && forall i :: 0 <= i < n ==> r[i] == c
  {
    if n == 0 then [] else [c] + Repeat(c, n - 1)
  }

  /** `s.padStart(width, c)` with a one-character filler. */
  function PadStart(s: string, width: nat, c: char): (r: string)
    ensures |r| == if |s| >= width then |s| else width
    ensures r[|r| - |s|..] == s
    ensures forall i :: 0 <= i < |r| - |s| ==> r[i] == c
  {
    if |s| >= width then s else Repeat(c, width - |s|) + s
  }

  /** Leading zeros do not change the value of a digit string. */
  lemma {:induction false} LeadingZerosValue(z: nat, s: string, radix: nat)
    ensures DigitsValue(Repeat('0', z) + s, radix) == DigitsValue(s, radix)
    decreases |s|
  {
    var t := Repeat('0', z) + s;
    if s == [] {
      ZerosValue(z, radix);
      assert t == Repeat('0', z);
    } else {
      assert t[..|t| - 1] == Repeat('0', z) + s[..|s| - 1];
      LeadingZerosValue(z, s[..|s| - 1], radix);
    }
  }

  lemma {:induction false} ZerosValue(z: nat, radix: nat)
    ensures DigitsValue(Repeat('0', z), radix) == 0
  {
    if z > 0 {
      var t := Repeat('0', z);
      assert t[..|t| - 1] == Repeat('0', z - 1);
      ZerosValue(z - 1, radix);
    }
  }

  /** `padStart` with zeros keeps the value the digits denote. */
  lemma PadStartValue(s: string, width: nat, radix: nat)
    ensures DigitsValue(PadStart(s, width, '0'), radix) == DigitsValue(s, radix)
  {
    if |s| < width {
      LeadingZerosValue(width - |s|, s, radix);
    }
  }

  /** `toUpperCase` restricted to the letters `toString(radix)` can produce. */
  function UpperChar(c: char): (u: char)
    ensures DigitValue(u) == DigitValue(c)
    ensures !('a' <= u <= 'z')
  {
    if 'a' <= c <= 'z' then (c as int - 'a' as int + 'A' as int) as char else c
  }

  function ToUpper(s: string): (r: string)
    ensures |r| == |s| && forall i :: 0 <= i < |s| ==> r[i] == UpperChar(s[i])
  {
    if s == [] then [] else [UpperChar(s[0])] + ToUpper(s[1..])
  }

  /** A JavaScript number as far as `parseInt` can produce one. */
  datatype Number = NaN | Num(value: int)

  /** The longest prefix of `s` made of digits below `radix`. */
  function DigitPrefix(s: string, radix: nat): (r: string)
    ensures |r| <= |s| && r == s[..|r|] && AllDigitsIn(r, radix)
    ensures |r| < |s| ==> !IsDigitIn(s[|r|], radix)
  {
    if s != [] && IsDigitIn(s[0], radix) then [s[0]] + DigitPrefix(s[1..], radix) else []
  }

  /**
   * `parseInt(s, 16)`: leading whitespace is skipped, one sign is accepted and
   * the rest is read by `UnsignedHex`; no digit at all gives NaN. On a
   * non-empty string of hexadecimal digits it is the value of the digits; on
   * blank text it is NaN.
   */
  function ParseIntHex(s: string): (r: Number)
    ensures s != [] && AllDigitsIn(s, 16) ==> r == Num(DigitsValue(s, 16))
    ensures (forall i :: 0 <= i < |s| ==> IsWhitespace(s[i])) ==> r == NaN
  {
    var t := TrimStart(s);
    var negative := t != [] && t[0] == '-';
    var unsigned := if t != [] && (t[0] == '-' || t[0] == '+') then t[1..] else t;
    if s != [] && AllDigitsIn(s, 16) then
      assert !IsWhitespace(s[0]) && s[0] != '-' && s[0] != '+';
      assert unsigned == s;
      SignedHex(negative, UnsignedHex(unsigned))
    else SignedHex(negative, UnsignedHex(unsigned))
  }

  function SignedHex(negative: bool, magnitude: Option<nat>): (r: Number)
    ensures magnitude.None? <==> r == NaN
    ensures magnitude.Some? && !negative ==> r == Num(magnitude.value)
  {
    match magnitude
    case None => NaN
    case Some(m) => Num(if negative then -(m as int) else m)
  }

  /** After the sign: a `0x`/`0X` prefix is dropped and the longest run of hexadecimal digits read. */
  function UnsignedHex(u: string): (v: Option<nat>)
    ensures u == [] ==> v == None
    ensures u != [] && AllDigitsIn(u, 16) ==> v == Some(DigitsValue(u, 16))
  {
    var body := if |u| >= 2 && u[0] == '0' && (u[1] == 'x' || u[1] == 'X') then u[2..] else u;
    var digits := DigitPrefix(body, 16);
    if u != [] && AllDigitsIn(u, 16) then
      assert |u| >= 2 ==> u[1] != 'x' && u[1] != 'X';
      DigitPrefixOfDigits(u, 16);
      if digits == [] then None else Some(DigitsValue(digits, 16))
    else if digits == [] then None else Some(DigitsValue(digits, 16))
  }

  lemma {:induction false} DigitPrefixOfDigits(s: string, radix: nat)
    requires AllDigitsIn(s, radix)
    ensures DigitPrefix(s, radix) == s
  {
    if s != [] {
      DigitPrefixOfDigits(s[1..], radix);
    }
  }

  /** Storing a number into a `Uint8Array`: NaN becomes 0, anything else is taken modulo 256. */
  function ToUint8(n: Number): (b: Byte)
    ensures n.Num? && 0 <= n.value < 256 ==> b == n.value
    ensures n.NaN? ==> b == 0
    ensures n.Num? ==> b == n.value % 256
  {
    match n
    case NaN => 0
    case Num(v) => v % 256
  }
}
