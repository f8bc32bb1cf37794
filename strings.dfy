/**
 * The string primitives the application relies on: JavaScript's `trim`,
 * `toLowerCase` (on ASCII letters), `endsWith`, and the decimal rendering of a
 * counter by `Number.prototype.toString`.
 */
module Strings {

  /** ECMAScript WhiteSpace and LineTerminator code points: what `String.prototype.trim` removes. */
  predicate IsWhitespace(c: char) {
    || c == '\t' || c == '\n' || c == '\U{000B}' || c == '\U{000C}' || c == '\r'
    || c == ' ' || c == '\U{00A0}' || c == '\U{1680}'
    || ('\U{2000}' <= c <= '\U{200A}')
    || c == '\U{2028}' || c == '\U{2029}' || c == '\U{202F}' || c == '\U{205F}'
    || c == '\U{3000}' || c == '\U{FEFF}'
  }

  /** True when `s` neither starts nor ends with whitespace. */
  predicate IsTrimmed(s: string) {
    s == [] || (!IsWhitespace(s[0]) && !IsWhitespace(s[|s| - 1]))
  }

  /** True when every character of `s` is whitespace (the empty string included). */
  predicate IsBlank(s: string) {
    forall i :: 0 <= i < |s| ==> IsWhitespace(s[i])
  }

  /** `s` without its leading whitespace. */
  function TrimStart(s: string): (r: string)
    ensures |r| <= |s|
    ensures r == [] || !IsWhitespace(r[0])
  {
    if s != [] && IsWhitespace(s[0]) then TrimStart(s[1..]) else s
  }

  /** TrimStart keeps a suffix of its input. */
  lemma {:induction false} TrimStartIsSuffix(s: string)
    ensures TrimStart(s) == s[|s| - |TrimStart(s)|..]
  {
    if s != [] && IsWhitespace(s[0]) {
      TrimStartIsSuffix(s[1..]);
    }
  }

  /** What TrimStart drops is whitespace. */
  lemma {:induction false} TrimStartDropsBlank(s: string)
    ensures IsBlank(s[..|s| - |TrimStart(s)|])
  {
    if s != [] && IsWhitespace(s[0]) {
      TrimStartDropsBlank(s[1..]);
      var k := |s| - |TrimStart(s)|;
      forall i | 0 <= i < k ensures IsWhitespace(s[i]) {
        if i > 0 { assert s[i] == s[1..][..k - 1][i - 1]; }
      }
    }
  }

  /** `s` without its trailing whitespace. */
  function TrimEnd(s: string): (r: string)
    ensures |r| <= |s|
    ensures r == [] || !IsWhitespace(r[|r| - 1])
  {
    if s != [] && IsWhitespace(s[|s| - 1]) then TrimEnd(s[..|s| - 1]) else s
  }

  /** TrimEnd keeps a prefix of its input. */
  lemma {:induction false} TrimEndIsPrefix(s: string)
    ensures TrimEnd(s) == s[..|TrimEnd(s)|]
  {
    if s != [] && IsWhitespace(s[|s| - 1]) {
      TrimEndIsPrefix(s[..|s| - 1]);
    }
  }

  /** What TrimEnd drops is whitespace. */
  lemma {:induction false} TrimEndDropsBlank(s: string)
    ensures IsBlank(s[|TrimEnd(s)|..])
  {
    if s != [] && IsWhitespace(s[|s| - 1]) {
      var front := s[..|s| - 1];
      TrimEndDropsBlank(front);
      var k := |TrimEnd(s)|;
      forall i | k <= i < |s| ensures IsWhitespace(s[i]) {
        if i < |s| - 1 { assert s[i] == front[k..][i - k]; }
      }
    }
  }

  /** JavaScript's `s.trim()`. */
  function Trim(s: string): string {
    TrimEnd(TrimStart(s))
  }

  /** Trim removes whitespace from both ends and nothing else: the result is a trimmed slice of `s` with only whitespace around it. */
  lemma TrimIsTrimmedSlice(s: string) returns (start: nat, end: nat)
    ensures start <= end <= |s| && Trim(s) == s[start..end]
    ensures IsTrimmed(Trim(s))
    ensures IsBlank(s[..start]) && IsBlank(s[end..])
  {
    var a := TrimStart(s);
    var b := TrimEnd(a);
    TrimStartIsSuffix(s);
    TrimEndIsPrefix(a);
    TrimStartDropsBlank(s);
    TrimEndDropsBlank(a);
    start := |s| - |a|;
    end := start + |b|;
    assert b == s[start..end];
    assert s[end..] == a[|b|..];
    if b != [] {
      assert b[0] == a[0];
    }
  }

  /** Trim's result has no surrounding whitespace. */
  lemma TrimResultIsTrimmed(s: string)
    ensures IsTrimmed(Trim(s))
  {
    var _, _ := TrimIsTrimmedSlice(s);
  }

  /** A string that already has no surrounding whitespace is left alone by Trim. */
  lemma {:induction false} TrimOfTrimmed(s: string)
    requires IsTrimmed(s)
    ensures Trim(s) == s
  {
    assert TrimStart(s) == s;
    assert TrimEnd(s) == s;
  }

  /** Trimming twice is trimming once. */
  lemma TrimIdempotent(s: string)
    ensures Trim(Trim(s)) == Trim(s)
  {
    TrimResultIsTrimmed(s);
    TrimOfTrimmed(Trim(s));
  }

  /** Trim yields the empty string exactly when the input is blank. */
  lemma TrimEmptyIffBlank(s: string)
    ensures Trim(s) == [] <==> IsBlank(s)
  {
    var start, end := TrimIsTrimmedSlice(s);
    if Trim(s) == [] {
      assert s == s[..start] + s[end..];
      forall i | 0 <= i < |s| ensures IsWhitespace(s[i]) {
        if i < start { assert s[i] == s[..start][i]; } else { assert s[i] == s[end..][i - end]; }
      }
    } else {
      assert s[start] == Trim(s)[0];
    }
  }

  /** ASCII lower-casing of one character. */
  function LowerChar(c: char): char {
    if 'A' <= c <= 'Z' then (c as int + 32) as char else c
  }

  /** JavaScript's `s.toLowerCase()`, restricted to the ASCII letters. */
  function Lower(s: string): (r: string)
    ensures |r| == |s|
  {
    seq(|s|, i requires 0 <= i < |s| => LowerChar(s[i]))
  }

  /** True when lower-casing leaves `s` unchanged. */
  predicate IsLower(s: string) {
    Lower(s) == s
  }

  /** A string without upper-case ASCII letters is lower case. */
  lemma NoUpperIsLower(s: string)
    requires forall i :: 0 <= i < |s| ==> !('A' <= s[i] <= 'Z')
    ensures IsLower(s)
  {
  }

  /** Lower-casing twice is lower-casing once: a lower-cased string is lower case. */
  lemma LowerIdempotent(s: string)
    ensures IsLower(Lower(s))
  {
    assert forall i :: 0 <= i < |s| ==> LowerChar(LowerChar(s[i])) == LowerChar(s[i]);
  }

  /** Lower-casing commutes with taking a suffix. */
  lemma LowerSuffix(s: string, k: nat)
    requires k <= |s|
    ensures Lower(s)[k..] == Lower(s[k..])
  {
  }

  /** JavaScript's `s.endsWith(suffix)`. */
  predicate EndsWith(s: string, suffix: string) {
    |suffix| <= |s| && s[|s| - |suffix|..] == suffix
  }

  /** `EndsWith` agrees with the reference definition: `s` is some prefix followed by `suffix`. */
  lemma EndsWithIffConcat(s: string, suffix: string)
    ensures EndsWith(s, suffix) <==> exists p :: s == p + suffix
  {
    if EndsWith(s, suffix) {
      assert s == s[..|s| - |suffix|] + suffix;
    }
    if exists p :: s == p + suffix {
      var p :| s == p + suffix;
      assert s[|s| - |suffix|..] == suffix;
    }
  }

  /** Lower-casing keeps a lower-case suffix in place. */
  lemma LowerKeepsLowerSuffix(s: string, suffix: string)
    requires EndsWith(s, suffix) && IsLower(suffix)
    ensures EndsWith(Lower(s), suffix)
  {
    LowerSuffix(s, |s| - |suffix|);
  }

  /** The decimal digit for `d`. */
  function Digit(d: nat): (c: char)
    requires d < 10
    ensures '0' <= c <= '9'
  {
    (d + '0' as int) as char
  }

  /** `n.toString()` for a non-negative integer: its decimal digits, most significant first. */
  function DecimalString(n: nat): (r: string)
    ensures |r| >= 1 && (|r| == 1 <==> n < 10)
    ensures forall i :: 0 <= i < |r| ==> '0' <= r[i] <= '9'
    ensures r[|r| - 1] == Digit(n % 10)
  {
    if n < 10 then [Digit(n)] else DecimalString(n / 10) + [Digit(n % 10)]
  }

  /** Different numbers print differently, so counters rendered as strings are distinct identifiers. */
  lemma {:induction false} DecimalStringInjective(a: nat, b: nat)
    requires DecimalString(a) == DecimalString(b)
    ensures a == b
  {
    var s := DecimalString(a);
    assert Digit(a % 10) == Digit(b % 10);
    if a >= 10 {
      assert DecimalString(a / 10) == s[..|s| - 1] == DecimalString(b / 10);
      DecimalStringInjective(a / 10, b / 10);
    }
  }
}
