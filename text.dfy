/**
 * The few pieces of Python's string handling the two scripts rely on, restricted to ASCII:
 * the decimal digits that `\d` and `int()` accept, `str()` of a non-negative integer,
 * and the substring test `sub in s`.
 */
module Text {

  predicate IsDigit(c: char) {
    '0' <= c <= '9'
  }

  predicate AllDigits(s: string) {
    forall i | 0 <= i < |s| :: IsDigit(s[i])
  }

  function DigitValue(c: char): (d: nat)
    requires IsDigit(c)
    ensures d < 10
  {
    c as int - '0' as int
  }

  function DigitChar(d: nat): (c: char)
    requires d < 10
    ensures IsDigit(c) && DigitValue(c) == d
  {
    ('0' as int + d) as char
  }

  /** `int(s)` for a string of decimal digits, most significant digit first. */
  function DecimalValue(s: string): (v: nat)
    requires AllDigits(s)
    ensures v == 0 <==> forall k | 0 <= k < |s| :: s[k] == '0'
  {
    if s == [] then 0
    else
      var front := s[..|s| - 1];
      assert forall k | 0 <= k < |front| :: front[k] == s[k];
      DecimalValue(front) * 10 + DigitValue(s[|s| - 1])
  }

  /** `str(n)` for a non-negative integer: its decimal digits without leading zeros. */
  function NatToString(n: nat): (s: string)
    ensures |s| > 0 && AllDigits(s)
    ensures s[0] == '0' ==> n == 0 && s == "0"
    ensures n == 0 ==> s == "0"
  {
    if n < 10 then [DigitChar(n)] else NatToString(n / 10) + [DigitChar(n % 10)]
  }

  /** Reading back what `str` wrote gives the number again. */
  lemma {:induction false} DecimalRoundTrip(n: nat)
    ensures DecimalValue(NatToString(n)) == n
  {
    if n >= 10 {
      var s := NatToString(n);
      assert s[..|s| - 1] == NatToString(n / 10);
      DecimalRoundTrip(n / 10);
    }
  }

  /** `sub` occurs in `s` starting at position `i`. */
  predicate OccursAt(s: string, sub: string, i: int) {
    0 <= i <= |s| - |sub| && s[i..i + |sub|] == sub
  }

  /** Python's `sub in s` on strings. */
  predicate Contains(s: string, sub: string) {
    exists i | 0 <= i <= |s| - |sub| :: OccursAt(s, sub, i)
  }

  /** Whatever surrounds it, a string contains each of its pieces, right after the prefix. */
  lemma ContainsPiece(a: string, sub: string, b: string)
    ensures OccursAt(a + sub + b, sub, |a|)
    ensures Contains(a + sub + b, sub)
  {
    var s := a + sub + b;
    assert s[|a|..|a| + |sub|] == sub;
    assert OccursAt(s, sub, |a|);
  }

  /** Part of an occurrence is an occurrence of that part. */
  lemma SliceOfOccurrence(s: string, sub: string, at: int, i: int, j: int)
    requires OccursAt(s, sub, at) && 0 <= i <= j <= |sub|
    ensures s[at + i..at + j] == sub[i..j]
  {
    forall k | 0 <= k < j - i ensures s[at + i..at + j][k] == sub[i..j][k] {
      assert s[at + i + k] == s[at..at + |sub|][i + k];
    }
  }

  /** Regrouping a chain of concatenations around its middle pieces. */
  lemma Regroup(h: string, a: string, b: string, c: string, d: string, t: string)
    ensures h + a + b + c + d + t == h + (a + b + c + d) + t
  {
  }

  predicate EndsWith(s: string, suffix: string) {
    |suffix| <= |s| && s[|s| - |suffix|..] == suffix
  }

  lemma EndsWithAppended(s: string, suffix: string)
    ensures EndsWith(s + suffix, suffix)
  {
    assert (s + suffix)[|s|..] == suffix;
  }
}
