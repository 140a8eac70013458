/**
  Lexical primitives shared by the marker scanner and the constructor-expression
  detector: character classes, case-insensitive comparison, maximal runs of a
  character class, and decimal numerals.
 */
module Lexical {

  predicate IsWhitespace(c: char) {
    c == ' ' || c == '\t' || c == '\n' || c == '\r'
  }

  predicate IsDigit(c: char) {
    '0' <= c <= '9'
  }

  /**
    A character that may appear in a parameter name: an ASCII letter, digit or
    underscore, or a non-ASCII letter. Non-ASCII letters are approximated by
    every code point from U+00C0 on except the two arithmetic signs U+00D7 and
    U+00F7 (no Unicode tables are modelled).
   */
  predicate IsWordChar(c: char) {
    ('a' <= c <= 'z') || ('A' <= c <= 'Z') || IsDigit(c) || c == '_'
    || ('\U{C0}' <= c && c != '\U{D7}' && c != '\U{F7}')
  }

  predicate AllDigits(s: string) {
    forall i :: 0 <= i < |s| ==> IsDigit(s[i])
  }

  predicate AllWordChars(s: string) {
    forall i :: 0 <= i < |s| ==> IsWordChar(s[i])
  }

  predicate AllWhitespace(s: string) {
    forall i :: 0 <= i < |s| ==> IsWhitespace(s[i])
  }

  /** `sub` occurs in `s` starting at index `k`. */
  predicate OccursAt(s: string, sub: string, k: nat) {
    k + |sub| <= |s| && s[k..k + |sub|] == sub
  }

  /** ASCII lower-casing, as used for the case-insensitive keywords of JPQL. */
  function ToLower(c: char): (l: char)
    ensures 'A' <= c <= 'Z' ==> 'a' <= l <= 'z' && l as int == c as int + 32
    ensures !('A' <= c <= 'Z') ==> l == c
  {
    if 'A' <= c <= 'Z' then (c as int + 32) as char else c
  }

  predicate EqualsIgnoreCase(a: string, b: string) {
    |a| == |b| && forall i :: 0 <= i < |a| ==> ToLower(a[i]) == ToLower(b[i])
  }

  /** Length of the longest prefix of `s` whose characters all satisfy `p`. */
  function SpanLength(s: string, p: char -> bool): (n: nat)
    ensures n <= |s|
    ensures forall i :: 0 <= i < n ==> p(s[i])
    ensures n == |s| || !p(s[n])
  {
    if s == [] || !p(s[0]) then 0 else 1 + SpanLength(s[1..], p)
  }

  /** The span of a run followed by a character outside the class is the run. */
  lemma {:induction false} SpanOfRun(run: string, rest: string, p: char -> bool)
    requires forall i :: 0 <= i < |run| ==> p(run[i])
    requires rest == [] || !p(rest[0])
    ensures SpanLength(run + rest, p) == |run|
  {
    if run != [] {
      assert (run + rest)[1..] == run[1..] + rest;
      SpanOfRun(run[1..], rest, p);
    } else {
      assert run + rest == rest;
    }
  }

  /** Every character of `s` from index `lo` up to (not including) `hi` satisfies `p`. */
  predicate RunOf(s: string, lo: nat, hi: nat, p: char -> bool) {
    lo <= hi <= |s| && forall j :: lo <= j < hi ==> p(s[j])
  }

  /** Length of the longest run of characters satisfying `p` that starts at index `k` of `s`. */
  function SpanFrom(s: string, k: nat, p: char -> bool): (n: nat)
    requires k <= |s|
    ensures k + n <= |s|
    ensures forall j :: k <= j < k + n ==> p(s[j])
    ensures k + n == |s| || !p(s[k + n])
    decreases |s| - k
  {
    if k == |s| || !p(s[k]) then 0 else 1 + SpanFrom(s, k + 1, p)
  }

  /** A run of `n` characters of the class, ended by the text or by a character outside it, is the span. */
  lemma {:induction false} SpanFromRun(s: string, k: nat, n: nat, p: char -> bool)
    requires k + n <= |s| && (forall j :: k <= j < k + n ==> p(s[j]))
    requires k + n == |s| || !p(s[k + n])
    ensures SpanFrom(s, k, p) == n
    decreases n
  {
    if n > 0 {
      SpanFromRun(s, k + 1, n - 1, p);
    }
  }

  /** Whether `c` occurs in `s` at index `k` or later. */
  function ContainsFrom(s: string, k: nat, c: char): bool
    decreases |s| - k
  {
    k < |s| && (s[k] == c || ContainsFrom(s, k + 1, c))
  }

  lemma {:induction false} ContainsFromIff(s: string, k: nat, c: char)
    requires k <= |s|
    ensures ContainsFrom(s, k, c) <==> c in s[k..]
    decreases |s| - k
  {
    if k < |s| {
      ContainsFromIff(s, k + 1, c);
      assert s[k..] == [s[k]] + s[k + 1..];
    }
  }

  function DigitValue(c: char): nat {
    if IsDigit(c) then c as int - '0' as int else 0
  }

  function DigitChar(d: nat): (c: char)
    requires d < 10
    ensures IsDigit(c) && DigitValue(c) == d
  {
    ('0' as int + d) as char
  }

  /** The value of a decimal numeral (leading zeros allowed, as in `?01`). */
  function DigitsValue(s: string): nat {
    if s == [] then 0 else DigitsValue(s[..|s| - 1]) * 10 + DigitValue(s[|s| - 1])
  }

  /** The shortest decimal numeral of `n`. */
  function NatToString(n: nat): (s: string)
    ensures |s| > 0 && AllDigits(s)
  {
    if n < 10 then [DigitChar(n)] else NatToString(n / 10) + [DigitChar(n % 10)]
  }

  /** Printing a number and reading it back gives the number. */
  lemma {:induction false} NatToStringRoundTrip(n: nat)
    ensures DigitsValue(NatToString(n)) == n
  {
    var s := NatToString(n);
    if n >= 10 {
      NatToStringRoundTrip(n / 10);
      assert s[..|s| - 1] == NatToString(n / 10);
    }
  }

  /** Distinct numbers print as distinct numerals. */
  lemma NatToStringInjective(m: nat, n: nat)
    requires NatToString(m) == NatToString(n)
    ensures m == n
  {
    NatToStringRoundTrip(m);
    NatToStringRoundTrip(n);
  }
}
