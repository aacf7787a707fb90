/** Numbers in decimal, as "%d" and check_cast<std::string> print them. */
module Decimals {

  function Digit(d: nat): char
    requires d < 10
  {
    '0' + d as char
  }

  function Decimal(n: nat): string {
    if n < 10 then [Digit(n)] else Decimal(n / 10) + [Digit(n % 10)]
  }

  function Signed(n: int): string {
    if n < 0 then "-" + Decimal(-n) else Decimal(n)
  }

  predicate IsDigits(s: string) {
    forall i :: 0 <= i < |s| ==> '0' <= s[i] <= '9'
  }

  lemma {:induction false} DecimalIsDigits(n: nat)
    ensures IsDigits(Decimal(n)) && Decimal(n) != ""
  {
    if n >= 10 {
      DecimalIsDigits(n / 10);
    }
  }

  lemma {:induction false} DecimalInjective(m: nat, n: nat)
    requires Decimal(m) == Decimal(n)
    ensures m == n
  {
    DecimalIsDigits(m / 10);
    DecimalIsDigits(n / 10);
    assert Decimal(m)[|Decimal(m)| - 1] == Digit(m % 10);
    assert Decimal(n)[|Decimal(n)| - 1] == Digit(n % 10);
    if m >= 10 && n >= 10 {
      assert Decimal(m)[..|Decimal(m)| - 1] == Decimal(m / 10);
      assert Decimal(n)[..|Decimal(n)| - 1] == Decimal(n / 10);
      DecimalInjective(m / 10, n / 10);
    }
  }

  lemma SignedInjective(m: int, n: int)
    requires Signed(m) == Signed(n)
    ensures m == n
  {
    hide Decimal;
    DecimalIsDigits(if m < 0 then -m else m);
    DecimalIsDigits(if n < 0 then -n else n);
    assert Signed(m)[0] == '-' <==> m < 0;
    assert Signed(n)[0] == '-' <==> n < 0;
    if m < 0 && n < 0 {
      assert Decimal(-m) == Signed(m)[1..] && Decimal(-n) == Signed(n)[1..];
      DecimalInjective(-m, -n);
    } else if m >= 0 && n >= 0 {
      DecimalInjective(m, n);
    }
  }

  /** The character before a number's digits is found again from the right. */
  lemma SplitBeforeDigits(a: string, b: string, c: char, m: nat, n: nat)
    requires !('0' <= c <= '9')
    requires a + [c] + Decimal(m) == b + [c] + Decimal(n)
    ensures a == b && m == n
  {
    hide Decimal;
    var s, d, e := a + [c] + Decimal(m), Decimal(m), Decimal(n);
    DecimalIsDigits(m);
    DecimalIsDigits(n);
    assert s[|a|] == c && s[|b|] == c;
    assert forall i :: |a| < i < |s| ==> s[i] == d[i - |a| - 1];
    assert forall i :: |b| < i < |s| ==> s[i] == e[i - |b| - 1];
    assert |a| == |b|;
    assert a == s[..|a|] == s[..|b|] == b;
    assert d == s[|a| + 1..] == s[|b| + 1..] == e;
    DecimalInjective(m, n);
  }

  /** A character after a signed number's text is found again from the left. */
  lemma SplitAfterSigned(m: int, n: int, c: char, a: string, b: string)
    requires !('0' <= c <= '9') && c != '-'
    requires Signed(m) + [c] + a == Signed(n) + [c] + b
    ensures m == n && a == b
  {
    hide Decimal;
    var s, d, e := Signed(m) + [c] + a, Signed(m), Signed(n);
    SignedAvoids(m, c);
    SignedAvoids(n, c);
    assert s[|d|] == c && s[|e|] == c;
    assert forall i :: 0 <= i < |d| ==> s[i] == d[i];
    assert forall i :: 0 <= i < |e| ==> s[i] == e[i];
    assert |d| == |e|;
    assert d == s[..|d|] == s[..|e|] == e;
    assert a == s[|d| + 1..] == s[|e| + 1..] == b;
    SignedInjective(m, n);
  }

  lemma SignedAvoids(n: int, c: char)
    requires !('0' <= c <= '9') && c != '-'
    ensures c !in Signed(n)
  {
    DecimalIsDigits(if n < 0 then -n else n);
  }

  /** The number that a text of digits spells, highest digit first. */
  function Spelled(s: string): int {
    if s == "" then 0 else 10 * Spelled(s[..|s| - 1]) + (s[|s| - 1] as int - '0' as int)
  }

  /** A decimal spells its number in digits, without a leading zero. */
  lemma {:induction false} DecimalSpells(n: nat)
    ensures IsDigits(Decimal(n)) && Spelled(Decimal(n)) == n
    ensures Decimal(n) != "" && (|Decimal(n)| > 1 ==> Decimal(n)[0] != '0')
  {
    DecimalIsDigits(n);
    if n < 10 {
      assert [Digit(n)][..0] == "";
    } else {
      DecimalSpells(n / 10);
      assert Decimal(n)[..|Decimal(n)| - 1] == Decimal(n / 10);
      if |Decimal(n / 10)| == 1 {
        SpellsOne(Decimal(n / 10));
      }
    }
  }

  lemma SpellsOne(s: string)
    requires |s| == 1
    ensures Spelled(s) == s[0] as int - '0' as int
  {
    assert s[..0] == "";
  }

  /** A minus sign, for negative numbers only, before the digits of the amount. */
  lemma SignedSpells(n: int)
    ensures n < 0 ==> Signed(n)[0] == '-' && Spelled(Signed(n)[1..]) == -n
    ensures n >= 0 ==> IsDigits(Signed(n)) && Spelled(Signed(n)) == n
  {
    DecimalSpells(if n < 0 then -n else n);
    hide Spelled, Decimal;
  }
}
