/**
 * The number conversions of JavaScript the site uses: `parseInt(s, 10)`,
 * `Number(s)` on strings, the decimal text of a number in a template string,
 * `%` (a truncating remainder) and `Math.ceil` of a quotient.
 *
 * Numbers are integers here. NaN is `None`.
 */
module JsNumbers {
  import opened Wrappers
  import opened Text

  function DigitValue(c: char): nat
    requires IsDigit(c)
  {
    c as int - '0' as int
  }

  function DigitChar(d: nat): (c: char)
    requires d < 10
    ensures IsDigit(c) && DigitValue(c) == d
  {
    ('0' as int + d) as char
  }

  predicate AllDigits(s: string) {
    forall i :: 0 <= i < |s| ==> IsDigit(s[i])
  }

  /** The value of a string of decimal digits, most significant first. */
  function DecimalValue(s: string): nat
    requires AllDigits(s)
    decreases |s|
  {
    if |s| == 0 then 0 else 10 * DecimalValue(s[..|s| - 1]) + DigitValue(s[|s| - 1])
  }

  /** The longest prefix of `s` made of decimal digits. */
  function DigitPrefix(s: string): (r: string)
    ensures |r| <= |s| && r == s[..|r|]
    ensures AllDigits(r)
    ensures |r| < |s| ==> !IsDigit(s[|r|])
    decreases |s|
  {
    if |s| > 0 && IsDigit(s[0]) then [s[0]] + DigitPrefix(s[1..]) else ""
  }

  /** Removes one leading sign character and says whether it was `-`. */
  function SplitSign(t: string): (bool, string) {
    if |t| > 0 && (t[0] == '-' || t[0] == '+') then (t[0] == '-', t[1..]) else (false, t)
  }

  function Signed(negative: bool, n: nat): int {
    if negative then -(n as int) else n
  }

  /** `parseInt(s, 10)`: skip leading white space, read an optional sign,
      then the longest run of digits; NaN when that run is empty. Whatever
      follows the digits is ignored. */
  function ParseInt(s: string): Option<int> {
    var (negative, u) := SplitSign(TrimStart(s));
    var d := DigitPrefix(u);
    if d == "" then None else Some(Signed(negative, DecimalValue(d)))
  }

  /** `Number(s)` on a string: white space around the text is ignored, the
      empty text is 0, and an optionally signed run of decimal digits is
      its value; any other text is NaN. */
  function StringToNumber(s: string): Option<int> {
    var t := Trim(s);
    if t == "" then Some(0)
    else
      var (negative, u) := SplitSign(t);
      if u != "" && AllDigits(u) then Some(Signed(negative, DecimalValue(u))) else None
  }

  /** The decimal text of `n`, as a template string or `String(n)` writes
      it: digits only, no leading zero, and its value is `n`. */
  function NatToString(n: nat): (r: string)
    ensures 1 <= |r| && AllDigits(r)
    ensures |r| > 1 ==> r[0] != '0'
    ensures DecimalValue(r) == n
    decreases n
  {
    if n < 10 then [DigitChar(n)]
    else
      var r := NatToString(n / 10) + [DigitChar(n % 10)];
      assert r[..|r| - 1] == NatToString(n / 10);
      r
  }

  /** The decimal text of an integer, with a leading `-` when negative. */
  function IntToString(n: int): string {
    if n < 0 then "-" + NatToString(-n) else NatToString(n)
  }

  /** A string of digits is a prefix of itself followed by a non-digit. */
  lemma {:induction false} DigitPrefixOfDigits(d: string, rest: string)
    requires AllDigits(d)
    requires rest == "" || !IsDigit(rest[0])
    ensures DigitPrefix(d + rest) == d
    decreases |d|
  {
    var s := d + rest;
    if |d| == 0 {
      assert s == rest;
    } else {
      assert s[0] == d[0] && IsDigit(s[0]);
      assert s[1..] == d[1..] + rest;
      DigitPrefixOfDigits(d[1..], rest);
      assert DigitPrefix(s) == [d[0]] + DigitPrefix(s[1..]);
      assert d == [d[0]] + d[1..];
    }
  }

  /** `parseInt` reads back the decimal text of any integer, even when other
      text that does not start with a digit follows it. */
  lemma ParseIntOfString(n: int, rest: string)
    requires rest == "" || !IsDigit(rest[0])
    ensures ParseInt(IntToString(n) + rest) == Some(n)
  {
    var m := if n < 0 then -n else n;
    ParseIntOfSigned(n < 0, NatToString(m), rest);
  }

  /** An optional minus sign, digits, then text that does not start with a
      digit: `parseInt` reads the signed value of the digits. */
  lemma ParseIntOfSigned(negative: bool, d: string, rest: string)
    requires d != "" && AllDigits(d)
    requires rest == "" || !IsDigit(rest[0])
    ensures ParseInt((if negative then "-" + d else d) + rest) == Some(Signed(negative, DecimalValue(d)))
  {
    var u := d + rest;
    DigitPrefixOfDigits(d, rest);
    assert u[0] == d[0];
    SignedText(negative, d, rest);
    ParseIntOfSignedText(negative, u, d);
  }

  lemma SignedText(negative: bool, d: string, rest: string)
    ensures (if negative then "-" + d else d) + rest == (if negative then "-" + (d + rest) else d + rest)
  {
    if negative {
      assert ("-" + d) + rest == "-" + (d + rest);
    }
  }

  /** A sign, then text whose digit prefix is `d`. */
  lemma ParseIntOfSignedText(negative: bool, u: string, d: string)
    requires u != "" && IsDigit(u[0])
    requires d != "" && AllDigits(d) && DigitPrefix(u) == d
    ensures ParseInt(if negative then "-" + u else u) == Some(Signed(negative, DecimalValue(d)))
  {
    var s := if negative then "-" + u else u;
    assert s[0] == '-' || s[0] == u[0];
    UnpaddedStart(s);
    SignOf(negative, u);
  }

  /** Text that does not start with white space is its own `TrimStart`. */
  lemma UnpaddedStart(s: string)
    requires s != "" && !IsSpace(s[0])
    ensures TrimStart(s) == s
  {
    assert SkipSpaces(s, 0) == 0;
  }

  /** The sign `SplitSign` removes in front of a digit. */
  lemma SignOf(negative: bool, u: string)
    requires u != "" && IsDigit(u[0])
    ensures SplitSign(if negative then "-" + u else u) == (negative, u)
  {
    if negative {
      assert ("-" + u)[1..] == u;
    }
  }

  /** `Number` reads back the decimal text of any integer. */
  lemma StringToNumberOfString(n: int)
    ensures StringToNumber(IntToString(n)) == Some(n)
  {
    var m := if n < 0 then -n else n;
    NumberOfSignedDigits(n < 0, NatToString(m));
  }

  lemma NumberOfSignedDigits(negative: bool, d: string)
    requires d != "" && AllDigits(d)
    ensures StringToNumber(if negative then "-" + d else d) == Some(Signed(negative, DecimalValue(d)))
  {
    var s := if negative then "-" + d else d;
    assert IsDigit(d[0]) && IsDigit(d[|d| - 1]);
    assert s[|s| - 1] == d[|d| - 1];
    TrimUnpadded(s);
    NumberOfUnpadded(s, negative, d);
  }

  lemma NumberOfUnpadded(s: string, negative: bool, d: string)
    requires d != "" && AllDigits(d)
    requires s == (if negative then "-" + d else d)
    requires Trim(s) == s
    ensures StringToNumber(s) == Some(Signed(negative, DecimalValue(d)))
  {
    assert SplitSign(s) == (negative, d);
  }

  lemma TrimUnpadded(s: string)
    requires |s| > 0 && !IsSpace(s[0]) && !IsSpace(s[|s| - 1])
    ensures TrimStart(s) == s && Trim(s) == s
  {
    assert SkipSpaces(s, 0) == 0;
    assert BackSpaces(s, |s|, 0) == |s|;
  }

  /** The two conversions differ on trailing text: `parseInt` stops at the
      first non-digit, `Number` rejects the whole string. They also differ
      on the empty string: NaN for `parseInt`, 0 for `Number`. */
  lemma ParseIntVersusNumber()
    ensures ParseInt("3abc") == Some(3) && StringToNumber("3abc") == None
    ensures ParseInt("") == None && StringToNumber("") == Some(0)
  {
    ParseIntOfString(3, "abc");
    assert IntToString(3) == "3";
    assert IntToString(3) + "abc" == "3abc";
    TrimUnpadded("3abc");
    assert SplitSign("3abc") == (false, "3abc");
    assert !IsDigit("3abc"[1]);
  }

  function Abs(n: int): nat {
    if n < 0 then -n else n
  }

  /** The quotient JavaScript's `%` implies: truncated toward zero. */
  function JsQuot(a: int, b: int): int
    requires b > 0
  {
    if a >= 0 then a / b else -((-a) / b)
  }

  /** JavaScript's `a % b` for a positive divisor: `a` minus `b` times the
      truncated quotient. It is smaller than `b` in magnitude and has the
      sign of `a` (Dafny's own `%` is never negative). */
  function JsRem(a: int, b: int): (r: int)
    requires b > 0
    ensures a == b * JsQuot(a, b) + r
    ensures -b < r < b
    ensures a >= 0 ==> r >= 0
    ensures a <= 0 ==> r <= 0
  {
    if a >= 0 then a % b else -((-a) % b)
  }

  /** `Math.ceil(n / d)` for a natural `n` and a positive `d`: the least
      number of blocks of `d` that hold `n`. */
  function CeilDiv(n: nat, d: nat): (r: nat)
    requires d > 0
    ensures r * d >= n
    ensures r > 0 ==> (r - 1) * d < n
  {
    (n + d - 1) / d
  }
}
