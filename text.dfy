/**
 * The few pieces of Python string formatting the calendar uses: `str(n)`
 * of a day number, the two-digit zero padding of `{n:02}`, `%I` and `%M`,
 * and `str.replace`.
 */
module Text {

  predicate IsDigit(c: char) {
    '0' <= c <= '9'
  }

  predicate AllDigits(s: string) {
    forall i :: 0 <= i < |s| ==> IsDigit(s[i])
  }

  function Digit(d: int): (c: char)
    requires 0 <= d < 10
    ensures IsDigit(c) && DigitValue(c) == d
  {
    ('0' as int + d) as char
  }

  function DigitValue(c: char): (d: int)
    requires IsDigit(c)
    ensures 0 <= d < 10
  {
    c as int - '0' as int
  }

  /** The number a string of decimal digits denotes (most significant first). */
  function ValueOf(s: string): nat
    requires AllDigits(s)
  {
    if s == [] then 0 else ValueOf(s[..|s| - 1]) * 10 + DigitValue(s[|s| - 1])
  }

  /** `str(n)`: the decimal digits of n, without leading zeros. */
  function Decimal(n: nat): (s: string)
    ensures 1 <= |s| && AllDigits(s)
    ensures |s| > 1 ==> s[0] != '0'
    ensures ValueOf(s) == n
  {
    if n < 10 then [Digit(n)] else Decimal(n / 10) + [Digit(n % 10)]
  }

  /** `{n:02}` of a number below 100: exactly two digits, zero-padded. */
  function Pad2(n: int): (s: string)
    requires 0 <= n < 100
    ensures |s| == 2 && AllDigits(s)
    ensures ValueOf(s) == n
  {
    var s := [Digit(n / 10), Digit(n % 10)];
    assert s[..1] == [Digit(n / 10)] && s[..1][..0] == [];
    assert ValueOf(s[..1]) == n / 10;
    s
  }

  /**
   * `s.replace(pat, rep)`: every non-overlapping occurrence of `pat`,
   * scanning from the left, replaced by `rep`.
   */
  function Replace(s: string, pat: string, rep: string): string
    requires |pat| > 0
    decreases |s|
  {
    if |s| < |pat| then s
    else if s[..|pat|] == pat then rep + Replace(s[|pat|..], pat, rep)
    else [s[0]] + Replace(s[1..], pat, rep)
  }

  /**
   * When the pattern's first character does not occur in `p`, the only
   * occurrence in `p + pat` is the final one, and only it is replaced.
   */
  lemma {:induction false} ReplaceAtEnd(p: string, pat: string, rep: string)
    requires |pat| > 0 && pat[0] !in p
    ensures Replace(p + pat, pat, rep) == p + rep
    decreases |p|
  {
    var s := p + pat;
    if p == [] {
      assert s == pat;
      assert s[|pat|..] == [];
    } else {
      var n := |pat|;
      assert p == [p[0]] + p[1..];
      assert s[..n] != pat by {
        assert s[..n][0] == p[0];
      }
      assert s[1..] == p[1..] + pat;
      ReplaceAtEnd(p[1..], pat, rep);
      assert Replace(s, pat, rep) == [p[0]] + (p[1..] + rep);
    }
  }
}
