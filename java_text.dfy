/** Primitive semantics the modelled Java and JavaScript code relies on:
    32-bit `int` arithmetic, ASCII case folding, the whitespace notions of
    `String.trim`, `Character.isWhitespace` and JavaScript's `trim`, and
    decimal digit strings. */
module JavaText {

  // ---------------------------------------------------------------- 32-bit int

  const INT_MIN: int := -0x8000_0000
  const INT_MAX: int := 0x7fff_ffff
  const TWO_32: int := 0x1_0000_0000

  predicate IsInt32(x: int) { INT_MIN <= x <= INT_MAX }

  /** The value a Java `int` (or unboxed `Integer`) computation yields for the
      mathematical result `x`: two's-complement wrap-around. */
  function Wrap32(x: int): (r: int)
    ensures IsInt32(r)
    ensures IsInt32(x) ==> r == x
    ensures (r - x) % TWO_32 == 0
  {
    (x - INT_MIN) % TWO_32 + INT_MIN
  }

  function Min(a: int, b: int): int { if a <= b then a else b }

  function Max(a: int, b: int): int { if a >= b then a else b }

  // ---------------------------------------------------------- substrings

  /** `sub` occurs in `s` at index `k`. */
  predicate OccursAt(s: string, sub: string, k: int)
  {
    0 <= k <= |s| - |sub| && s[k..k + |sub|] == sub
  }

  /** `s.contains(sub)` in Java, `s.includes(sub)` in JavaScript. */
  ghost predicate Includes(s: string, sub: string)
  {
    exists k :: OccursAt(s, sub, k)
  }

  // ---------------------------------------------------------- case folding

  /** `toLowerCase` restricted to ASCII letters (other characters are kept). */
  function LowerChar(c: char): (r: char)
    ensures 'A' <= c <= 'Z' ==> 'a' <= r <= 'z'
    ensures !('A' <= c <= 'Z') ==> r == c
  {
    if 'A' <= c <= 'Z' then (c as int + 32) as char else c
  }

  function Lower(s: string): (r: string)
    ensures |r| == |s|
    ensures forall i :: 0 <= i < |s| ==> r[i] == LowerChar(s[i])
  {
    seq(|s|, i requires 0 <= i < |s| => LowerChar(s[i]))
  }

  // ---------------------------------------------------------- whitespace

  /** The characters `String.trim` removes: every code point up to U+0020. */
  predicate IsTrimmedByJava(c: char) { c <= ' ' }

  /** `Character.isWhitespace`, as used by Spring's `StringUtils.hasText`. */
  predicate IsJavaWhitespace(c: char)
  {
    || c == ' ' || '\t' <= c <= '\r' || '\U{1C}' <= c <= '\U{1F}'
    || c == '\U{1680}' || ('\U{2000}' <= c <= '\U{200A}' && c != '\U{2007}')
    || c == '\U{2028}' || c == '\U{2029}' || c == '\U{205F}' || c == '\U{3000}'
  }

  /** The characters JavaScript's `String.prototype.trim` removes. */
  predicate IsJsWhitespace(c: char)
  {
    || '\t' <= c <= '\r' || c == ' ' || c == '\U{A0}' || c == '\U{1680}'
    || '\U{2000}' <= c <= '\U{200A}' || c == '\U{2028}' || c == '\U{2029}'
    || c == '\U{202F}' || c == '\U{205F}' || c == '\U{3000}' || c == '\U{FEFF}'
  }

  /** `s` without its leading characters satisfying `ws`. */
  function DropLeading(s: string, ws: char -> bool): (r: string)
    ensures |r| <= |s|
  {
    if s != [] && ws(s[0]) then DropLeading(s[1..], ws) else s
  }

  /** `s` without its trailing characters satisfying `ws`. */
  function DropTrailing(s: string, ws: char -> bool): (r: string)
    ensures |r| <= |s|
  {
    if s != [] && ws(s[|s| - 1]) then DropTrailing(s[..|s| - 1], ws) else s
  }

  /** What `DropLeading` removes is a prefix of characters satisfying `ws`,
      and what it keeps does not start with one. */
  lemma {:induction false} DropLeadingSpec(s: string, ws: char -> bool)
    ensures var r := DropLeading(s, ws);
      && r == s[|s| - |r|..]
      && (r != [] ==> !ws(r[0]))
      && forall i :: 0 <= i < |s| - |r| ==> ws(s[i])
    decreases |s|
  {
    if s != [] && ws(s[0]) {
      DropLeadingSpec(s[1..], ws);
    }
  }

  /** What `DropTrailing` removes is a suffix of characters satisfying `ws`,
      and what it keeps does not end with one. */
  lemma {:induction false} DropTrailingSpec(s: string, ws: char -> bool)
    ensures var r := DropTrailing(s, ws);
      && r == s[..|r|]
      && (r != [] ==> !ws(r[|r| - 1]))
      && forall i :: |r| <= i < |s| ==> ws(s[i])
    decreases |s|
  {
    if s != [] && ws(s[|s| - 1]) {
      DropTrailingSpec(s[..|s| - 1], ws);
    }
  }

  /** Removes the leading and the trailing characters satisfying `ws`. */
  function Strip(s: string, ws: char -> bool): string
  {
    DropTrailing(DropLeading(s, ws), ws)
  }

  /** `String.trim()` in Java. */
  function JavaTrim(s: string): string { Strip(s, IsTrimmedByJava) }

  /** `String.prototype.trim()` in JavaScript. */
  function JsTrim(s: string): string { Strip(s, IsJsWhitespace) }

  /** Neither end of `s` holds a character that `ws` strips. */
  predicate HasNoPadding(s: string, ws: char -> bool)
  {
    s == [] || (!ws(s[0]) && !ws(s[|s| - 1]))
  }

  /** A string with nothing to strip is its own stripped form. */
  lemma StripUnpadded(s: string, ws: char -> bool)
    requires HasNoPadding(s, ws)
    ensures Strip(s, ws) == s
  {
    if s != [] {
      assert DropLeading(s, ws) == s;
      assert DropTrailing(s, ws) == s;
    }
  }

  /** Stripping keeps the length exactly when there is nothing to strip. */
  lemma StripKeepsLength(s: string, ws: char -> bool)
    ensures |Strip(s, ws)| == |s| <==> HasNoPadding(s, ws)
  {
    if HasNoPadding(s, ws) {
      StripUnpadded(s, ws);
    } else {
      var d := DropLeading(s, ws);
      DropLeadingSpec(s, ws);
      if |d| == |s| {
        assert d == s;
        var r := DropTrailing(d, ws);
        DropTrailingSpec(d, ws);
        assert |r| < |d| by {
          if |r| == |d| {
            assert false;
          }
        }
      }
    }
  }

  /** The result of stripping has nothing left to strip. */
  lemma StripHasNoPadding(s: string, ws: char -> bool)
    ensures HasNoPadding(Strip(s, ws), ws)
  {
    var d := DropLeading(s, ws);
    var r := DropTrailing(d, ws);
    DropLeadingSpec(s, ws);
    DropTrailingSpec(d, ws);
    if r != [] {
      assert r[0] == d[0];
    }
  }

  /** Spring's `StringUtils.hasText`: some character is not whitespace. */
  predicate HasText(s: string)
  {
    exists i :: 0 <= i < |s| && !IsJavaWhitespace(s[i])
  }

  // ---------------------------------------------------------- digit strings

  predicate IsDigit(c: char) { '0' <= c <= '9' }

  /** The regular expression `\d+` (Java) or `^[0-9]+$` (JavaScript). */
  predicate IsDigits(s: string)
  {
    |s| > 0 && forall i :: 0 <= i < |s| ==> IsDigit(s[i])
  }

  function DigitOf(c: char): (d: nat)
    requires IsDigit(c)
    ensures d < 10
  {
    c as int - '0' as int
  }

  /** The number a decimal digit string denotes (`new BigInteger(s)`,
      JavaScript's `Number(s)`); leading zeros are allowed. */
  function DigitsValue(s: string): nat
    requires forall i :: 0 <= i < |s| ==> IsDigit(s[i])
  {
    if s == [] then 0
    else 10 * DigitsValue(s[..|s| - 1]) + DigitOf(s[|s| - 1])
  }

  function DigitChar(d: nat): (c: char)
    requires d < 10
    ensures IsDigit(c) && DigitOf(c) == d
  {
    ('0' as int + d) as char
  }

  /** `String.format("%d", n)` for a non-negative `n`. */
  function NatToString(n: nat): (s: string)
    ensures |s| > 0
  {
    if n < 10 then [DigitChar(n)] else NatToString(n / 10) + [DigitChar(n % 10)]
  }

  /** `String.format("%d", i)`, also for negative values. */
  function IntToString(i: int): string
  {
    if i < 0 then "-" + NatToString(-i) else NatToString(i)
  }

  /** Printing a number and reading it back gives the number. */
  lemma {:induction false} NatToStringRoundTrip(n: nat)
    ensures IsDigits(NatToString(n))
    ensures DigitsValue(NatToString(n)) == n
  {
    var s := NatToString(n);
    if n >= 10 {
      NatToStringRoundTrip(n / 10);
      assert s[..|s| - 1] == NatToString(n / 10);
    }
  }

  /** A printed negative number is never a digit string. */
  lemma NegativeIsNotDigits(i: int)
    requires i < 0
    ensures !IsDigits(IntToString(i))
  {
    assert IntToString(i)[0] == '-';
  }
}
