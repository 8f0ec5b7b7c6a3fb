/** Integers in decimal notation, as `bigint.toString()` writes and `BigInt(...)` reads them. */
module Decimal {
  import opened Wrappers

  function DigitOf(d: int): char
    requires 0 <= d < 10
  {
    ('0' as int + d) as char
  }

  predicate IsDigit(c: char) { '0' <= c <= '9' }

  function ValueOf(c: char): (d: nat)
    requires IsDigit(c)
    ensures d < 10 && DigitOf(d) == c
  {
    c as int - '0' as int
  }

  function PrintNat(n: nat): (s: string)
    ensures |s| > 0 && forall i :: 0 <= i < |s| ==> IsDigit(s[i])
  {
    if n < 10 then [DigitOf(n)] else PrintNat(n / 10) + [DigitOf(n % 10)]
  }

  function Print(n: int): string {
    if n < 0 then "-" + PrintNat(-n) else PrintNat(n)
  }

  predicate AllDigits(s: string) { |s| > 0 && forall i :: 0 <= i < |s| ==> IsDigit(s[i]) }

  function ParseNat(s: string): nat
    requires forall i :: 0 <= i < |s| ==> IsDigit(s[i])
  {
    if s == "" then 0 else ParseNat(s[..|s| - 1]) * 10 + ValueOf(s[|s| - 1])
  }

  /** `None` for a text that is not a decimal integer. */
  function Parse(s: string): Option<int> {
    if AllDigits(s) then Some(ParseNat(s))
    else if |s| > 0 && s[0] == '-' && AllDigits(s[1..]) then Some(0 - ParseNat(s[1..]))
    else None
  }

  lemma {:induction false} ParsePrintNat(n: nat)
    ensures ParseNat(PrintNat(n)) == n
  {
    if n >= 10 {
      ParsePrintNat(n / 10);
      assert PrintNat(n)[..|PrintNat(n)| - 1] == PrintNat(n / 10);
    } else {
      assert PrintNat(n)[..0] == "";
    }
  }

  lemma ParsePrint(n: int)
    ensures Parse(Print(n)) == Some(n)
  {
    if n < 0 {
      ParsePrintNat(-n);
      assert Print(n)[1..] == PrintNat(-n);
      assert !IsDigit(Print(n)[0]);
    } else {
      ParsePrintNat(n);
    }
  }

  /** Decimal notation: a digit for itself, one more digit for ten times the number, a sign for negative ones. */
  lemma Notation(n: nat, d: nat)
    requires d < 10
    ensures Print(d) == ["0123456789"[d]]
    ensures n > 0 ==> Print(10 * n + d) == Print(n) + Print(d)
    ensures n > 0 ==> Print(0 - n as int) == "-" + Print(n)
  {
    assert (10 * n + d) / 10 == n && (10 * n + d) % 10 == d;
    assert d == 0 || d == 1 || d == 2 || d == 3 || d == 4 || d == 5 || d == 6 || d == 7 || d == 8 || d == 9;
  }
}
