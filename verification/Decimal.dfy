/** Decimal notation, as printf writes it and kstrtol reads it. */
module Decimal {

  predicate IsDigit(c: char) {
    '0' <= c <= '9'
  }

  predicate AllDigits(s: string) {
    forall i :: 0 <= i < |s| ==> IsDigit(s[i])
  }

  function DigitChar(d: nat): (c: char)
    requires d < 10
    ensures IsDigit(c) && DigitValue(c) == d
  {
    '0' + d as char
  }

  function DigitValue(c: char): (d: nat)
    requires IsDigit(c)
    ensures d < 10
  {
    (c - '0') as int
  }

  /** `%d` of a number that is not negative. */
  function Digits(n: nat): (s: string)
    ensures |s| > 0 && AllDigits(s)
  {
    if n < 10 then [DigitChar(n)] else Digits(n / 10) + [DigitChar(n % 10)]
  }

  /** The number a string of digits stands for; 0 for no digits. */
  function Number(s: string): nat
    requires AllDigits(s)
    decreases |s|
  {
    if s == [] then 0 else 10 * Number(s[..|s|-1]) + DigitValue(s[|s|-1])
  }

  /** Printing and reading back. */
  lemma {:induction false} NumberOfDigits(n: nat)
    ensures Number(Digits(n)) == n
  {
    if n >= 10 {
      NumberOfDigits(n / 10);
      assert Digits(n)[..|Digits(n)|-1] == Digits(n / 10);
    } else {
      assert Digits(n)[..|Digits(n)|-1] == [];
      assert Number([]) == 0;
    }
  }

  /** No digits of a positive number can be left off the end without making it smaller. */
  lemma {:induction false} ShorterIsSmaller(n: nat, k: nat)
    requires n > 0 && k < |Digits(n)|
    ensures AllDigits(Digits(n)[..k]) && Number(Digits(n)[..k]) < n
  {
    if n >= 10 {
      var front := Digits(n / 10);
      if k < |front| {
        ShorterIsSmaller(n / 10, k);
        assert Digits(n)[..k] == front[..k];
      } else {
        assert Digits(n)[..k] == front;
        NumberOfDigits(n / 10);
      }
    } else {
      assert Digits(n)[..k] == [];
    }
  }

  /** A number below 10^k has at most k digits. */
  lemma {:induction false} DigitsLength(n: nat, k: nat)
    requires k > 0 && n < Power(k)
    ensures |Digits(n)| <= k
  {
    if n >= 10 { DigitsLength(n / 10, k - 1); }
  }

  function Power(k: nat): (p: nat)
    ensures p > 0
  {
    if k == 0 then 1 else 10 * Power(k - 1)
  }

  lemma PowersOfTen()
    ensures Power(10) == 10_000_000_000 && Power(19) == 10_000_000_000_000_000_000
  {
    assert Power(5) == 10 * 10 * 10 * 10 * 10 * Power(0);
    assert Power(10) == 10 * 10 * 10 * 10 * 10 * Power(5);
    assert Power(15) == 10 * 10 * 10 * 10 * 10 * Power(10);
    assert Power(19) == 10 * 10 * 10 * 10 * Power(15);
  }

  /** What Digits prints, position by position: k places from the right stands n / 10^k modulo 10. */
  lemma {:induction false} DigitAt(n: nat, k: nat)
    requires k < |Digits(n)|
    ensures Digits(n)[|Digits(n)|-1-k] as int == '0' as int + n / Power(k) % 10
    decreases n
  {
    var d := Digits(n);
    if n < 10 {
      assert Power(0) == 1 && n / 1 % 10 == n;
    } else if k == 0 {
      assert Power(0) == 1 && n / 1 == n;
    } else {
      DigitAt(n / 10, k - 1);
      assert d[|d|-1-k] == Digits(n / 10)[|d|-1-k];
      DivideTwice(n, Power(k - 1));
    }
  }

  lemma DivideTwice(n: nat, p: nat)
    requires p > 0
    ensures n / (10 * p) == n / 10 / p
  {
    var q, r := n / (10 * p), n % (10 * p);
    assert n == 10 * p * q + r;
    assert n / 10 == p * q + r / 10 && r / 10 < p;
    QuotientIs(n / 10, p, q, r / 10);
  }

  lemma QuotientIs(a: nat, p: nat, q: nat, r: nat)
    requires a == p * q + r && r < p
    ensures a / p == q
  {
    var d := a / p;
    assert a == p * d + a % p;
    if d > q { TimesGrows(p, q + 1, d); }
    if d < q { TimesGrows(p, d + 1, q); }
  }

  lemma TimesGrows(p: nat, x: nat, y: nat)
    requires x <= y
    ensures p * x <= p * y
  {
  }

  /** No leading zero, and no empty text. */
  lemma {:induction false} FirstDigit(n: nat)
    ensures Digits(n)[0] == '0' <==> n == 0
  {
    if n >= 10 { FirstDigit(n / 10); }
  }
}
