/**
  The slice of JavaScript value semantics the handlers rely on: the values a
  request body can carry, `String.prototype.trim`, `String.prototype.startsWith`
  and the global `parseInt` with no radix argument.

  Numbers are not floating point here. A JS number is an exact integer, a value
  with a fractional part (only its sign matters to the handlers), NaN or an
  infinity. Negative zero is folded into `Integral(0)`: every test the handlers
  apply (`< 0`, `% 1 !== 0`) treats -0 and +0 alike.
 */
module JsValues {

  datatype Option<+T> = None | Some(value: T)

  datatype JsNumber =
    | Integral(i: int)
    | Fractional(negative: bool)
    | NaN
    | Infinity(negative: bool)

  /** A value read from a parsed JSON request body (or `undefined` when the key is absent). */
  datatype JsValue =
    | Undefined
    | Null
    | Bool(b: bool)
    | Num(n: JsNumber)
    | Str(s: string)
    | Composite   // an array or an object

  // ---------------------------------------------------------------------------
  // Whitespace, trim and startsWith
  // ---------------------------------------------------------------------------

  /** ECMAScript LineTerminator code points: LF, CR, LS, PS. */
  predicate IsLineTerminator(c: char) {
    c == '\n' || c == '\r' || c == '\U{2028}' || c == '\U{2029}'
  }

  /** ECMAScript WhiteSpace or LineTerminator code points, the set `trim` strips. */
  predicate IsJsWhitespace(c: char) {
    || c == '\t' || c == '\U{000B}' || c == '\U{000C}' || c == ' '
    || c == '\U{00A0}' || c == '\U{1680}' || ('\U{2000}' <= c <= '\U{200A}')
    || c == '\U{202F}' || c == '\U{205F}' || c == '\U{3000}' || c == '\U{FEFF}'
    || IsLineTerminator(c)
  }

  predicate AllWhitespace(s: string) {
    forall i :: 0 <= i < |s| ==> IsJsWhitespace(s[i])
  }

  /** The string with its leading whitespace removed. */
  function TrimStart(s: string): (r: string)
    ensures |r| <= |s| && r == s[|s| - |r|..]
    ensures |r| > 0 ==> !IsJsWhitespace(r[0])
    ensures AllWhitespace(s[..|s| - |r|])
  {
    if |s| > 0 && IsJsWhitespace(s[0]) then
      var t := TrimStart(s[1..]);
      assert s[..|s| - |t|] == [s[0]] + s[1..][..|s[1..]| - |t|];
      t
    else s
  }

  /** The string with its trailing whitespace removed. */
  function TrimEnd(s: string): (r: string)
    ensures |r| <= |s| && r == s[..|r|]
    ensures |r| > 0 ==> !IsJsWhitespace(r[|r| - 1])
    ensures AllWhitespace(s[|r|..])
  {
    if |s| > 0 && IsJsWhitespace(s[|s| - 1]) then
      var t := TrimEnd(s[..|s| - 1]);
      assert s[|t|..] == s[..|s| - 1][|t|..] + [s[|s| - 1]];
      t
    else s
  }

  function Trim(s: string): string {
    TrimEnd(TrimStart(s))
  }

  /** `s.trim()` is empty exactly when every character of `s` is whitespace. */
  lemma TrimEmptyIffAllWhitespace(s: string)
    ensures |Trim(s)| == 0 <==> AllWhitespace(s)
  {
    var t := TrimStart(s);
    if |Trim(s)| == 0 {
      assert AllWhitespace(t) by { assert t[|Trim(s)|..] == t; }
      assert |t| == 0;
      assert s[..|s| - |t|] == s;
    } else {
      var r := Trim(s);
      assert r[0] == t[0];
      assert t[0] == s[|s| - |t|];
    }
  }

  /** `s.startsWith(prefix)` */
  predicate StartsWith(s: string, prefix: string) {
    |prefix| <= |s| && s[..|prefix|] == prefix
  }

  // ---------------------------------------------------------------------------
  // parseInt(string) with the radix left undefined
  // ---------------------------------------------------------------------------

  /**
    The smallest magnitude that rounds to an infinity when converted to an
    IEEE-754 double: the midpoint 2^1024 - 2^970 between Number.MAX_VALUE and
    2^1024 (a tie, which rounds to the even neighbour 2^1024).
   */
  const DoubleOverflow: int :=
    0xffff_ffff_ffff_fc00_0000_0000_0000_0000_0000_0000_0000_0000_0000_0000_0000_0000_0000_0000_0000_0000_0000_0000_0000_0000_0000_0000_0000_0000_0000_0000_0000_0000_0000_0000_0000_0000_0000_0000_0000_0000_0000_0000_0000_0000_0000_0000_0000_0000_0000_0000_0000_0000_0000_0000_0000_0000_0000_0000_0000_0000_0000_0000_0000_0000

  /** The value of a digit character in radix 36, or 36 for a non-digit. */
  function DigitValue(c: char): (d: nat)
    ensures d <= 36
  {
    if '0' <= c <= '9' then (c as int) - ('0' as int)
    else if 'a' <= c <= 'z' then (c as int) - ('a' as int) + 10
    else if 'A' <= c <= 'Z' then (c as int) - ('A' as int) + 10
    else 36
  }

  predicate IsRadixDigit(c: char, radix: nat) {
    DigitValue(c) < radix
  }

  /** The length of the longest prefix of `s` made of radix digits. */
  function DigitPrefixLength(s: string, radix: nat): (n: nat)
    ensures n <= |s|
    ensures forall i :: 0 <= i < n ==> IsRadixDigit(s[i], radix)
    ensures n < |s| ==> !IsRadixDigit(s[n], radix)
  {
    if |s| > 0 && IsRadixDigit(s[0], radix) then 1 + DigitPrefixLength(s[1..], radix) else 0
  }

  /** The value of a string of radix digits, most significant first. */
  function DigitsValue(ds: string, radix: nat): nat {
    if |ds| == 0 then 0
    else DigitsValue(ds[..|ds| - 1], radix) * radix + DigitValue(ds[|ds| - 1])
  }

  /**
    `parseInt(s)`: skip leading whitespace, read an optional sign and an
    optional `0x`/`0X` prefix that switches to radix 16, then take the longest
    run of digits. No digits gives NaN; a magnitude at or beyond the double
    range gives an infinity.
   */
  function ParseInt(s: string): (r: JsNumber)
    ensures r.Integral? || r.NaN? || r.Infinity?
  {
    var t := TrimStart(s);
    var negative := |t| > 0 && t[0] == '-';
    var unsigned := if |t| > 0 && (t[0] == '-' || t[0] == '+') then t[1..] else t;
    var hex := |unsigned| >= 2 && unsigned[0] == '0' && (unsigned[1] == 'x' || unsigned[1] == 'X');
    var radix := if hex then 16 else 10;
    var body := if hex then unsigned[2..] else unsigned;
    var n := DigitPrefixLength(body, radix);
    if n == 0 then NaN
    else
      var magnitude := DigitsValue(body[..n], radix);
      if magnitude >= DoubleOverflow then Infinity(negative)
      else Integral(if negative then -(magnitude as int) else magnitude)
  }

  /** A plain run of decimal digits parses to its own value. */
  lemma {:induction false} ParseIntDecimal(ds: string)
    requires |ds| > 0 && forall i :: 0 <= i < |ds| ==> '0' <= ds[i] <= '9'
    requires !(|ds| >= 2 && ds[0] == '0' && (ds[1] == 'x' || ds[1] == 'X'))
    requires DigitsValue(ds, 10) < DoubleOverflow
    ensures ParseInt(ds) == Integral(DigitsValue(ds, 10))
  {
    assert !IsJsWhitespace(ds[0]);
    assert TrimStart(ds) == ds;
    assert ds[0] != '-' && ds[0] != '+';
    DigitPrefixAll(ds, 10);
    assert ds[..|ds|] == ds;
  }

  lemma {:induction false} DigitPrefixAll(ds: string, radix: nat)
    requires forall i :: 0 <= i < |ds| ==> IsRadixDigit(ds[i], radix)
    ensures DigitPrefixLength(ds, radix) == |ds|
  {
    if |ds| > 0 {
      DigitPrefixAll(ds[1..], radix);
    }
  }

  /** `String(undefined)`, what `parseInt` sees when the query key is absent. */
  const UndefinedText: string := "undefined"

  /** Text that starts with something other than whitespace, a sign or a decimal digit parses to NaN. */
  lemma ParseNonNumericIsNaN(s: string)
    requires |s| > 0 && !IsJsWhitespace(s[0]) && s[0] != '-' && s[0] != '+'
    requires !IsRadixDigit(s[0], 10)
    ensures ParseInt(s) == NaN
  {
    assert TrimStart(s) == s;
  }

  /** A missing query parameter always parses to NaN. */
  lemma ParseMissingIsNaN()
    ensures ParseInt(UndefinedText) == NaN
  {
    var u := UndefinedText;
    assert u[0] == 'u';
    ParseNonNumericIsNaN(u);
  }
}
