/** Decimal text of natural numbers, as string interpolation prints them. */
module Decimal {

  function Digit(d: nat): char
    requires d < 10
  {
    "0123456789"[d]
  }

  function Show(n: nat): (s: string)
    ensures s != ""
    ensures forall c :: c in s ==> '0' <= c <= '9'
  {
    if n < 10 then [Digit(n)] else Show(n / 10) + [Digit(n % 10)]
  }

  lemma DigitInjective(a: nat, b: nat)
    requires a < 10 && b < 10 && Digit(a) == Digit(b)
    ensures a == b
  {
    var digits := "0123456789";
    assert forall i, j :: 0 <= i < j < 10 ==> digits[i] != digits[j];
  }

  /** Two numbers with the same text are the same number. */
  lemma {:induction false} ShowInjective(a: nat, b: nat)
    requires Show(a) == Show(b)
    ensures a == b
  {
    var s, t := Show(a), Show(b);
    assert s[|s| - 1] == Digit(a % 10) && t[|t| - 1] == Digit(b % 10);
    DigitInjective(a % 10, b % 10);
    if a >= 10 && b >= 10 {
      assert Show(a / 10) == s[..|s| - 1] && Show(b / 10) == t[..|t| - 1];
      ShowInjective(a / 10, b / 10);
    }
  }

  function DigitValue(c: char): nat
    requires '0' <= c <= '9'
  {
    c as nat - '0' as nat
  }

  // The number that a decimal text stands for, its last digit counting ones.
  function ValueOf(s: string): nat
    requires forall i :: 0 <= i < |s| ==> '0' <= s[i] <= '9'
  {
    if s == "" then 0 else 10 * ValueOf(s[..|s| - 1]) + DigitValue(s[|s| - 1])
  }

  lemma DigitReads(d: nat)
    requires d < 10
    ensures '0' <= Digit(d) <= '9' && DigitValue(Digit(d)) == d
  {
    var digits := "0123456789";
    assert forall i :: 0 <= i < 10 ==> digits[i] == ('0' as nat + i) as char;
  }

  /** The text of a number stands for it, without leading zeros. */
  lemma {:induction false} ShowReads(n: nat)
    ensures forall i :: 0 <= i < |Show(n)| ==> '0' <= Show(n)[i] <= '9'
    ensures ValueOf(Show(n)) == n
    ensures n > 0 ==> Show(n)[0] != '0'
  {
    var s := Show(n);
    assert forall i :: 0 <= i < |s| ==> s[i] in s;
    DigitReads(n % 10);
    if n < 10 {
      assert s[..0] == "";
      assert n > 0 ==> DigitValue(s[0]) != 0;
    } else {
      ShowReads(n / 10);
      assert s[..|s| - 1] == Show(n / 10);
      assert n == 10 * (n / 10) + n % 10;
    }
  }
}
