/**
 * The few C library string routines the embedding layer relies on, stated
 * over the content of a C string (the characters before its terminating NUL).
 */
module CStrings {

  /** `p` is a prefix of `s`. */
  predicate IsPrefix(p: string, s: string) {
    |p| <= |s| && s[..|p|] == p
  }

  /** The part of `s` that `strncmp` may look at: at most `n` characters, up to the end. */
  function Truncate(s: string, n: nat): (r: string)
    ensures |r| <= n && IsPrefix(r, s)
    ensures |r| < n ==> r == s
  {
    if |s| <= n then s else s[..n]
  }

  /**
   * `strncmp(a, b, n) == 0`: the strings agree on their first `n`
   * characters, where a string that ends early differs from one that goes
   * on, and two that end together are equal.
   */
  predicate StrNEq(a: string, b: string, n: nat) {
    Truncate(a, n) == Truncate(b, n)
  }

  /** `strncmp(s, lit, strlen(lit)) == 0` holds exactly when `lit` is a prefix of `s`. */
  lemma StrNEqIsPrefix(s: string, lit: string)
    ensures StrNEq(s, lit, |lit|) <==> IsPrefix(lit, s)
  {
  }

  /** `strncmp` tests agreement, so the order of its two strings does not matter. */
  lemma StrNEqSymmetric(a: string, b: string, n: nat)
    ensures StrNEq(a, b, n) == StrNEq(b, a, n)
  {
  }

  /** One decimal digit as a character. */
  function DigitChar(d: nat): (c: char)
    requires d < 10
    ensures '0' <= c <= '9'
  {
    (('0' as int) + d) as char
  }

  predicate AllDigits(s: string) {
    forall i :: 0 <= i < |s| ==> '0' <= s[i] <= '9'
  }

  /** The decimal numeral of `n`, most significant digit first. */
  function NatToString(n: nat): (s: string)
    ensures |s| >= 1 && AllDigits(s)
    decreases n
  {
    if n < 10 then [DigitChar(n)] else NatToString(n / 10) + [DigitChar(n % 10)]
  }

  /** `sprintf(buf, "%d", n)`: an optional minus sign, then the digits. */
  function FormatInt(n: int): (s: string)
    ensures |s| >= 1
    ensures s[0] == '-' <==> n < 0
    ensures AllDigits(if n < 0 then s[1..] else s)
  {
    if n < 0 then "-" + NatToString(-n) else NatToString(n)
  }

  /** The value of a string of decimal digits (the reading back of `FormatInt`). */
  function DigitsValue(s: string): nat
    requires AllDigits(s)
    decreases |s|
  {
    if s == [] then 0
    else 10 * DigitsValue(s[..|s| - 1]) + ((s[|s| - 1] as int) - ('0' as int))
  }

  function ParseInt(s: string): int
    requires |s| >= 1
    requires AllDigits(if s[0] == '-' then s[1..] else s)
  {
    if s[0] == '-' then 0 - DigitsValue(s[1..]) else DigitsValue(s) as int
  }

  lemma {:induction false} NatToStringRoundTrip(n: nat)
    ensures DigitsValue(NatToString(n)) == n
    decreases n
  {
    if n >= 10 {
      NatToStringRoundTrip(n / 10);
      var s := NatToString(n);
      assert s[..|s| - 1] == NatToString(n / 10);
    }
  }

  /** `%d` loses nothing: the numeral it prints reads back as the same integer. */
  lemma FormatIntRoundTrip(n: int)
    ensures ParseInt(FormatInt(n)) == n
  {
    if n < 0 {
      NatToStringRoundTrip(-n);
      assert FormatInt(n)[1..] == NatToString(-n);
    } else {
      NatToStringRoundTrip(n);
    }
  }

  /** Different integers print differently. */
  lemma FormatIntInjective(m: int, n: int)
    ensures FormatInt(m) == FormatInt(n) ==> m == n
  {
    FormatIntRoundTrip(m);
    FormatIntRoundTrip(n);
  }
}
