/** Decimal text of a number, as integer formatting produces it. */
module Decimal {

  function DigitChar(d: nat): (c: char)
    requires d < 10
    ensures '0' <= c <= '9'
  {
    '0' + d as char
  }

  function Text(n: nat): (t: string)
    ensures t != [] && forall i :: 0 <= i < |t| ==> '0' <= t[i] <= '9'
  {
    if n < 10 then [DigitChar(n)] else Text(n / 10) + [DigitChar(n % 10)]
  }

  function Pow10(k: nat): (p: nat)
    ensures p > 0
  {
    if k == 0 then 1 else 10 * Pow10(k - 1)
  }

  lemma {:induction false} TextLength(n: nat, k: nat)
    requires k > 0 && n < Pow10(k)
    ensures |Text(n)| <= k
  {
    if n >= 10 {
      assert k > 1;
      TextLength(n / 10, k - 1);
    }
  }

  lemma {:induction false} TextLengthAtLeast(n: nat, k: nat)
    requires k > 0 && n >= Pow10(k - 1)
    ensures |Text(n)| >= k
  {
    if k > 1 {
      assert n >= 10 * Pow10(k - 2);
      TextLengthAtLeast(n / 10, k - 1);
    }
  }

  /** Different numbers have different texts. */
  lemma {:induction false} TextIsInjective(m: nat, n: nat)
    requires Text(m) == Text(n)
    ensures m == n
  {
    var t, u := Text(m), Text(n);
    assert t[|t| - 1] == DigitChar(m % 10) && u[|u| - 1] == DigitChar(n % 10);
    if m >= 10 && n >= 10 {
      assert t[..|t| - 1] == Text(m / 10) && u[..|u| - 1] == Text(n / 10);
      TextIsInjective(m / 10, n / 10);
    }
  }

  /** What a string of decimal digits stands for. */
  function NumberOf(s: string): nat
    requires forall i :: 0 <= i < |s| ==> 48 <= s[i] as int <= 57
  {
    if s == [] then 0 else 10 * NumberOf(s[..|s| - 1]) + (s[|s| - 1] as int - 48)
  }

  /** The text of a number consists of the digits `0` to `9`, stands for the number, and has no
      leading zero. */
  lemma {:induction false} TextReadsBack(n: nat)
    ensures forall i :: 0 <= i < |Text(n)| ==> 48 <= Text(n)[i] as int <= 57
    ensures NumberOf(Text(n)) == n
    ensures n > 0 ==> Text(n)[0] as int != 48
    decreases n
  {
    var d := n % 10;
    assert DigitChar(d) as int == 48 + d;
    if n >= 10 {
      TextReadsBack(n / 10);
      var front := Text(n / 10);
      assert Text(n)[..|Text(n)| - 1] == front && Text(n)[0] == front[0];
    } else {
      assert Text(n)[..0] == [];
    }
  }
}
