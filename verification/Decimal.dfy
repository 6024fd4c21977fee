/** Decimal numerals, as std::to_string and Int32.Parse write and read them. */
module Decimal {
  predicate IsDigit(c: char) {
    '0' <= c <= '9'
  }

  predicate IsNumeral(s: string) {
    forall c :: c in s ==> IsDigit(c)
  }

  function DigitOf(d: nat): (c: char)
    requires d < 10
    ensures IsDigit(c)
  {
    '0' + d as char
  }

  function Print(n: nat): (s: string)
    ensures s != [] && IsNumeral(s)
  {
    if n < 10 then [DigitOf(n)] else Print(n / 10) + [DigitOf(n % 10)]
  }

  function Parse(s: string): nat
    requires IsNumeral(s)
  {
    if s == [] then 0
    else
      assert s[|s| - 1] in s;
      10 * Parse(s[..|s| - 1]) + (s[|s| - 1] - '0') as nat
  }

  lemma {:induction false} ParsePrint(n: nat)
    ensures Parse(Print(n)) == n
  {
    if n >= 10 {
      ParsePrint(n / 10);
      assert Print(n)[..|Print(n)| - 1] == Print(n / 10);
    }
  }

  /** Two texts that agree after a numeral, where neither goes on with a digit, hold one number. */
  lemma NumeralSuffix(a: string, b: string, m: nat, n: nat)
    requires a + Print(m) == b + Print(n)
    requires a == [] || !IsDigit(a[|a| - 1])
    requires b == [] || !IsDigit(b[|b| - 1])
    ensures a == b && m == n
  {
    if |Print(m)| < |Print(n)| {
      LongerNumeral(b, Print(n), a, Print(m));
    } else if |Print(n)| < |Print(m)| {
      LongerNumeral(a, Print(m), b, Print(n));
    }
    assert a == (a + Print(m))[..|a|] && b == (b + Print(n))[..|b|];
    assert Print(m) == (a + Print(m))[|a|..] && Print(n) == (b + Print(n))[|b|..];
    ParsePrint(m);
    ParsePrint(n);
  }

  lemma LongerNumeral(a: string, s: string, b: string, t: string)
    requires a + s == b + t && |t| < |s| && IsNumeral(s)
    ensures b != [] && IsDigit(b[|b| - 1])
  {
    var last := |b| - 1;
    assert (a + s)[last] == s[last - |a|] && (b + t)[last] == b[last];
  }
}
