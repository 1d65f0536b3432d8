/** Base-16 text: `Number.prototype.toString(16)` on the non-negative integers
    the encoder feeds it, and `parseInt(_, 16)` as the generated decoder
    uses it. */
module Hex {
  import opened JsText

  /** A digit `toString(16)` produces: `0`-`9` or lower-case `a`-`f`. */
  predicate IsHexDigit(u: CodeUnit) {
    ('0' as int <= u <= '9' as int) || ('a' as int <= u <= 'f' as int)
  }

  predicate AllHexDigits(s: JsString) {
    forall i | 0 <= i < |s| :: IsHexDigit(s[i])
  }

  /** A digit `parseInt` accepts in radix 16: either case. */
  predicate IsRadix16Digit(u: CodeUnit) {
    IsHexDigit(u) || ('A' as int <= u <= 'F' as int)
  }

  predicate AllRadix16Digits(s: JsString) {
    forall i | 0 <= i < |s| :: IsRadix16Digit(s[i])
  }

  function HexDigit(d: nat): (u: CodeUnit)
    requires d < 16
    ensures IsHexDigit(u) && DigitValue(u) == d
  {
    if d < 10 then '0' as int + d else 'a' as int + (d - 10)
  }

  function DigitValue(u: CodeUnit): (d: nat)
    requires IsRadix16Digit(u)
    ensures d < 16
  {
    if u <= '9' as int then u - '0' as int
    else if u <= 'F' as int then u - 'A' as int + 10
    else u - 'a' as int + 10
  }

  /** The number a string of radix-16 digits denotes (most significant first). */
  function HexValue(s: JsString): nat
    requires AllRadix16Digits(s)
  {
    if s == [] then 0 else HexValue(s[..|s| - 1]) * 16 + DigitValue(s[|s| - 1])
  }

  /** `n.toString(16)`: lower-case digits, no leading zero, and exactly as
      many digits as the magnitude of `n` needs. */
  function ToHex(n: nat): (r: JsString)
    ensures 1 <= |r| && AllHexDigits(r)
    ensures HexValue(r) == n
    ensures n > 0 ==> r[0] != '0' as int
    decreases n
  {
    if n < 16 then [HexDigit(n)]
    else
      var r := ToHex(n / 16) + [HexDigit(n % 16)];
      assert r[..|r| - 1] == ToHex(n / 16);
      r
  }

  /** `toString(16)` uses one digit below `0x10`, at most two below `0x100`
      and at most four below `0x1_0000`, and more above each bound. */
  lemma {:induction false} ToHexLength(n: nat)
    ensures |ToHex(n)| == 1 <==> n < 0x10
    ensures |ToHex(n)| <= 2 <==> n < 0x100
    ensures |ToHex(n)| <= 3 <==> n < 0x1000
    ensures |ToHex(n)| <= 4 <==> n < 0x1_0000
    decreases n
  {
    if n >= 16 {
      ToHexLength(n / 16);
      assert |ToHex(n)| == |ToHex(n / 16)| + 1;
    }
  }

  /** A leading `0` does not change the value of a digit string. */
  lemma {:induction false} LeadingZero(s: JsString)
    requires AllRadix16Digits(s)
    ensures AllRadix16Digits(['0' as int] + s)
    ensures HexValue(['0' as int] + s) == HexValue(s)
    decreases |s|
  {
    var z := ['0' as int] + s;
    if s != [] {
      assert z[..|z| - 1] == ['0' as int] + s[..|s| - 1];
      LeadingZero(s[..|s| - 1]);
    }
  }

  /** The longest prefix of `s` made of radix-16 digits. */
  function LeadingDigits(s: JsString): (r: JsString)
    ensures |r| <= |s| && r == s[..|r|] && AllRadix16Digits(r)
    ensures |r| == |s| || !IsRadix16Digit(s[|r|])
  {
    if s != [] && IsRadix16Digit(s[0]) then
      var t := LeadingDigits(s[1..]);
      assert s[1..][..|t|] == s[1..|t| + 1];
      [s[0]] + t
    else []
  }

  /** `parseInt(s, 16)`; `None` stands for `NaN`. Leading whitespace, one
      sign, and a `0x`/`0X` prefix are skipped; then the longest run of
      radix-16 digits is read, and anything after it is ignored. */
  function ParseInt16(s: JsString): Option<int> {
    var t := TrimStart(s);
    var sign := if |t| > 0 && t[0] == '-' as int then -1 else 1;
    var u := if |t| > 0 && (t[0] == '+' as int || t[0] == '-' as int) then t[1..] else t;
    var v := if |u| >= 2 && u[0] == '0' as int && (u[1] == 'x' as int || u[1] == 'X' as int)
             then u[2..] else u;
    var z := LeadingDigits(v);
    if z == [] then None else Some(sign * HexValue(z))
  }

  /** A non-empty string of `toString(16)` digits parses back to its value. */
  lemma {:induction false} ParseHexDigits(s: JsString)
    requires |s| >= 1 && AllHexDigits(s)
    ensures ParseInt16(s) == Some(HexValue(s))
  {
    assert !IsWhitespace(s[0]);
    assert TrimStart(s) == s;
    assert s[0] != '+' as int && s[0] != '-' as int;
    assert |s| >= 2 ==> s[1] != 'x' as int && s[1] != 'X' as int;
    LeadingDigitsAll(s);
  }

  lemma {:induction false} LeadingDigitsAll(s: JsString)
    requires AllRadix16Digits(s)
    ensures LeadingDigits(s) == s
    decreases |s|
  {
    if s != [] {
      LeadingDigitsAll(s[1..]);
    }
  }

  /** `parseInt(n.toString(16), 16) == n`. */
  lemma ParseToHex(n: nat)
    ensures ParseInt16(ToHex(n)) == Some(n)
  {
    ParseHexDigits(ToHex(n));
  }
}
