/**
 * The few JavaScript built-ins the gallery's logic relies on, stated over
 * `string`: lower-casing, `trim`,
 * `Number.parseInt(_, 10)`, the `%` operator, `Array.prototype.join` and
 * `String.prototype.split` with a one-character separator. A Dafny
 * `string` is a sequence of Unicode scalar values, whereas a JavaScript
 * string is a sequence of UTF-16 code units: the two agree on text inside
 * the Basic Multilingual Plane, and lengths of text beyond it differ.
 */
module JsBuiltins {
  import opened Wrappers

  // ---------------------------------------------------------------- case

  predicate IsAsciiUpper(c: char) { 'A' <= c <= 'Z' }

  /** `toLowerCase` restricted to ASCII: other characters are left alone. */
  function LowerChar(c: char): (r: char)
    ensures IsAsciiUpper(c) ==> r as int == c as int + 32
    ensures !IsAsciiUpper(c) ==> r == c
  {
    if IsAsciiUpper(c) then (c as int + 32) as char else c
  }

  function Lower(s: string): (r: string)
    ensures |r| == |s|
    ensures forall i :: 0 <= i < |s| ==> r[i] == LowerChar(s[i])
  {
    seq(|s|, i requires 0 <= i < |s| => LowerChar(s[i]))
  }

  /** Lower-casing twice is lower-casing once. */
  lemma LowerIdempotent(s: string)
    ensures Lower(Lower(s)) == Lower(s)
  {
  }

  // ----------------------------------------------------------- whitespace

  /**
   * The ECMAScript WhiteSpace and LineTerminator code points, which `trim`
   * and `parseInt` skip.
   */
  predicate IsJsWhitespace(c: char) {
    || c == '\U{0009}' || c == '\U{000A}' || c == '\U{000B}' || c == '\U{000C}'
    || c == '\U{000D}' || c == '\U{0020}' || c == '\U{00A0}' || c == '\U{1680}'
    || ('\U{2000}' <= c <= '\U{200A}')
    || c == '\U{2028}' || c == '\U{2029}' || c == '\U{202F}' || c == '\U{205F}'
    || c == '\U{3000}' || c == '\U{FEFF}'
  }

  /** `trimStart`: drops the leading whitespace. */
  function TrimStart(s: string): (r: string)
    ensures |r| <= |s| && r == s[|s| - |r|..]
    ensures r == [] || !IsJsWhitespace(r[0])
    ensures forall i :: 0 <= i < |s| - |r| ==> IsJsWhitespace(s[i])
  {
    if s != [] && IsJsWhitespace(s[0]) then
      var r := TrimStart(s[1..]);
      assert s[1..][|s| - 1 - |r|..] == s[|s| - |r|..];
      assert forall i :: 0 <= i < |s| - |r| ==> IsJsWhitespace(s[i]) by {
        forall i | 0 < i < |s| - |r| ensures IsJsWhitespace(s[i]) {
          assert s[i] == s[1..][i - 1];
        }
      }
      r
    else s
  }

  /** `trimEnd`: drops the trailing whitespace. */
  function TrimEnd(s: string): (r: string)
    ensures |r| <= |s| && r == s[..|r|]
    ensures r == [] || !IsJsWhitespace(r[|r| - 1])
    ensures forall i :: |r| <= i < |s| ==> IsJsWhitespace(s[i])
  {
    if s != [] && IsJsWhitespace(s[|s| - 1]) then
      var r := TrimEnd(s[..|s| - 1]);
      assert s[..|s| - 1][..|r|] == s[..|r|];
      assert forall i :: |r| <= i < |s| ==> IsJsWhitespace(s[i]) by {
        forall i | |r| <= i < |s| - 1 ensures IsJsWhitespace(s[i]) {
          assert s[i] == s[..|s| - 1][i];
        }
      }
      r
    else s
  }

  /** `String.prototype.trim`. */
  function Trim(s: string): string {
    TrimEnd(TrimStart(s))
  }

  /** The result of `trim` neither starts nor ends with whitespace. */
  lemma TrimShape(s: string)
    ensures var r := Trim(s); r == [] || (!IsJsWhitespace(r[0]) && !IsJsWhitespace(r[|r| - 1]))
  {
  }

  /** `trim` leaves a string with no whitespace at either end unchanged. */
  lemma TrimKeepsTrimmed(s: string)
    requires s == [] || (!IsJsWhitespace(s[0]) && !IsJsWhitespace(s[|s| - 1]))
    ensures Trim(s) == s
  {
  }

  /** A string made only of whitespace trims to the empty string, and no other does. */
  lemma TrimEmptyIff(s: string)
    ensures Trim(s) == "" <==> forall i :: 0 <= i < |s| ==> IsJsWhitespace(s[i])
  {
  }

  // -------------------------------------------------------------- numbers

  predicate IsDigit(c: char) { '0' <= c <= '9' }

  function DigitValue(c: char): (r: nat)
    requires IsDigit(c)
    ensures r < 10
  {
    c as int - '0' as int
  }

  function DigitChar(d: nat): (r: char)
    requires d < 10
    ensures IsDigit(r) && DigitValue(r) == d
  {
    ('0' as int + d) as char
  }

  /** The value of a run of decimal digits, most significant first. */
  function DigitsValue(ds: string): nat
    requires forall i :: 0 <= i < |ds| ==> IsDigit(ds[i])
  {
    if ds == [] then 0 else DigitsValue(ds[..|ds| - 1]) * 10 + DigitValue(ds[|ds| - 1])
  }

  /** The longest prefix of `s` made of decimal digits. */
  function DigitPrefix(s: string): (r: string)
    ensures |r| <= |s| && r == s[..|r|]
    ensures forall i :: 0 <= i < |r| ==> IsDigit(r[i])
    ensures |r| < |s| ==> !IsDigit(s[|r|])
  {
    if s != [] && IsDigit(s[0]) then [s[0]] + DigitPrefix(s[1..]) else []
  }

  /**
   * `Number.parseInt(s, 10)`: skip leading whitespace, take one optional
   * sign, then the longest run of decimal digits; `None` stands for `NaN`.
   */
  function ParseInt(s: string): (r: Option<int>)
    ensures r.None? <==> DigitPrefix(SkipSign(TrimStart(s))) == []
  {
    var t := TrimStart(s);
    var negative := t != [] && t[0] == '-';
    var digits := DigitPrefix(SkipSign(t));
    if digits == [] then None
    else
      var magnitude: int := DigitsValue(digits);
      Some(if negative then -magnitude else magnitude)
  }

  function SkipSign(t: string): (r: string)
    ensures |r| <= |t|
  {
    if t != [] && (t[0] == '+' || t[0] == '-') then t[1..] else t
  }

  /** `Number.prototype.toString()` of a natural number, the partner of `ParseInt`. */
  function DecimalString(n: nat): (r: string)
    ensures r != []
    ensures forall i :: 0 <= i < |r| ==> IsDigit(r[i])
  {
    if n < 10 then [DigitChar(n)] else DecimalString(n / 10) + [DigitChar(n % 10)]
  }

  lemma {:induction false} DecimalStringValue(n: nat)
    ensures DigitsValue(DecimalString(n)) == n
  {
    if n >= 10 {
      var s := DecimalString(n);
      DecimalStringValue(n / 10);
      assert s[..|s| - 1] == DecimalString(n / 10);
    }
  }

  lemma {:induction false} DigitPrefixOfDigits(ds: string, rest: string)
    requires forall i :: 0 <= i < |ds| ==> IsDigit(ds[i])
    requires rest == [] || !IsDigit(rest[0])
    ensures DigitPrefix(ds + rest) == ds
  {
    if ds != [] {
      assert (ds + rest)[1..] == ds[1..] + rest;
      DigitPrefixOfDigits(ds[1..], rest);
    }
  }

  /**
   * `parseInt` reads back what `toString` wrote, and stops at the first
   * character that is not a digit: `parseInt("12abc", 10) == 12`.
   */
  lemma ParseIntDecimalPrefix(n: nat, rest: string)
    requires rest == [] || !IsDigit(rest[0])
    ensures ParseInt(DecimalString(n) + rest) == Some(n)
  {
    var d := DecimalString(n);
    ParseIntOfDigitStart(d + rest);
    DigitPrefixOfDigits(d, rest);
    DecimalStringValue(n);
  }

  /** A string that starts with a digit parses to the value of its leading digits. */
  lemma ParseIntOfDigitStart(s: string)
    requires s != [] && IsDigit(s[0])
    ensures ParseInt(s) == Some(DigitsValue(DigitPrefix(s)))
  {
    assert !IsJsWhitespace(s[0]);
    assert TrimStart(s) == s;
    assert SkipSign(s) == s;
  }

  /** A string whose first non-blank character is a letter is `NaN`: `parseInt("abc", 10)`. */
  lemma ParseIntNoDigits(s: string)
    requires var t := TrimStart(s); t != [] && t[0] != '+' && t[0] != '-' && !IsDigit(t[0])
    ensures ParseInt(s) == None
  {
  }

  /** A parse with a leading minus sign is never positive. */
  lemma ParseIntNegative(s: string)
    requires var t := TrimStart(s); t != [] && t[0] == '-'
    ensures ParseInt(s).Some? ==> ParseInt(s).value <= 0
  {
  }

  /**
   * JavaScript's `%` on integers: the remainder of truncating division,
   * whose sign follows the dividend (Dafny's `%` is Euclidean).
   */
  function JsRem(a: int, b: int): (r: int)
    requires b != 0
    ensures a >= 0 ==> 0 <= r < (if b < 0 then -b else b)
    ensures a < 0 ==> -(if b < 0 then -b else b) < r <= 0
  {
    var m := (if a < 0 then -a else a) % (if b < 0 then -b else b);
    if a < 0 then -m else m
  }

  /** On a non-negative dividend and positive divisor the two remainders agree. */
  lemma JsRemNonNegative(a: int, b: int)
    requires a >= 0 && b > 0
    ensures JsRem(a, b) == a % b
  {
  }

  /** For a negative dividend they differ: `-1 % 3` is `-1` in JavaScript. */
  lemma JsRemNegativeExample()
    ensures JsRem(-1, 3) == -1 && -1 % 3 == 2
  {
  }

  // ------------------------------------------------------ join and split

  /** `Array.prototype.join(sep)`. */
  function Join(parts: seq<string>, sep: char): (r: string)
    ensures parts == [] ==> r == ""
  {
    if parts == [] then ""
    else if |parts| == 1 then parts[0]
    else parts[0] + [sep] + Join(parts[1..], sep)
  }

  /** `String.prototype.split(sep)`: never empty; `"".split(sep)` is `[""]`. */
  function Split(s: string, sep: char): (r: seq<string>)
    ensures |r| >= 1
  {
    if s == [] then [""]
    else if s[0] == sep then [""] + Split(s[1..], sep)
    else var t := Split(s[1..], sep); [[s[0]] + t[0]] + t[1..]
  }

  lemma {:induction false} SplitSegment(a: string, sep: char, tail: string)
    requires sep !in a
    ensures var rest := Split(tail, sep); Split(a + tail, sep) == [a + rest[0]] + rest[1..]
    decreases |a|
  {
    if a == [] {
      var rest := Split(tail, sep);
      assert a + tail == tail;
      assert a + rest[0] == rest[0];
      assert [rest[0]] + rest[1..] == rest;
    } else {
      var rest := Split(tail, sep);
      assert (a + tail)[0] == a[0] != sep;
      assert (a + tail)[1..] == a[1..] + tail;
      SplitSegment(a[1..], sep, tail);
      var t := Split(a[1..] + tail, sep);
      assert t == [a[1..] + rest[0]] + rest[1..];
      assert Split(a + tail, sep) == [[a[0]] + t[0]] + t[1..];
      assert [a[0]] + (a[1..] + rest[0]) == a + rest[0];
    }
  }

  /**
   * `split` undoes `join` when no part contains the separator: the parts are
   * recovered exactly.
   */
  lemma {:induction false} SplitJoin(parts: seq<string>, sep: char)
    requires |parts| >= 1
    requires forall i :: 0 <= i < |parts| ==> sep !in parts[i]
    ensures Split(Join(parts, sep), sep) == parts
    decreases |parts|
  {
    if |parts| == 1 {
      SplitSegment(parts[0], sep, "");
      assert parts[0] + "" == parts[0];
    } else {
      var tail := [sep] + Join(parts[1..], sep);
      SplitJoin(parts[1..], sep);
      SplitSegment(parts[0], sep, tail);
      assert tail[0] == sep && tail[1..] == Join(parts[1..], sep);
      var rest := Split(tail, sep);
      assert rest == [""] + parts[1..];
      assert parts[0] + rest[0] == parts[0];
      assert parts[0] + [sep] + Join(parts[1..], sep) == parts[0] + tail;
      assert [parts[0]] + parts[1..] == parts;
    }
  }

  /** Hence `join` is injective on separator-free parts. */
  lemma JoinInjective(p: seq<string>, q: seq<string>, sep: char)
    requires |p| >= 1 && |q| >= 1
    requires forall i :: 0 <= i < |p| ==> sep !in p[i]
    requires forall i :: 0 <= i < |q| ==> sep !in q[i]
    requires Join(p, sep) == Join(q, sep)
    ensures p == q
  {
    SplitJoin(p, sep);
    SplitJoin(q, sep);
  }
}
