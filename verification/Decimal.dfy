/** The canonical decimal text of an integer, and its reading. */
module Decimal {
  import opened Arith

  function Digit(d: nat): char
    requires d < 10
  {
    '0' + d as char
  }

  /** Decimal digits without leading zeros. */
  function Digits(n: nat): (r: string)
    ensures |r| > 0
  {
    if n < 10 then [Digit(n)] else Digits(n / 10) + [Digit(n % 10)]
  }

  function Text(x: int): string {
    if x < 0 then "-" + Digits(-x) else Digits(x)
  }

  predicate IsDigit(c: char) { '0' <= c <= '9' }

  function DigitOf(c: char): nat
    requires IsDigit(c)
  {
    c as nat - '0' as nat
  }

  /** The number that a run of digits spells in base ten. */
  function Reading(s: string): nat
    requires forall i :: 0 <= i < |s| ==> IsDigit(s[i])
  {
    if s == "" then 0 else Reading(s[..|s| - 1]) * 10 + DigitOf(s[|s| - 1])
  }

  /** `Digits` is canonical: digits only, no leading zero except for 0 itself, and it reads back. */
  lemma {:induction false} DigitsCanonical(n: nat)
    ensures forall i :: 0 <= i < |Digits(n)| ==> IsDigit(Digits(n)[i])
    ensures Reading(Digits(n)) == n
    ensures Digits(n)[0] == '0' <==> n == 0
    ensures n < 10 <==> |Digits(n)| == 1
  {
    if n < 10 {
      assert Digits(n)[..0] == "";
    } else {
      DigitsCanonical(n / 10);
      var s := Digits(n);
      assert s[..|s| - 1] == Digits(n / 10);
    }
  }

  // --- blocks of digits ------------------------------------------------------------------------

  function Pow10(k: nat): (r: nat)
    ensures r > 0
  {
    if k == 0 then 1 else 10 * Pow10(k - 1)
  }

  /** Exactly k digits, with leading zeros. */
  function Pad(n: nat, k: nat): (r: string)
    ensures |r| == k
  {
    if k == 0 then "" else Pad(n / 10, k - 1) + [Digit(n % 10)]
  }

  /** What remains of n without its last k digits. */
  function Upper(n: nat, k: nat): nat {
    DivNonNeg(n, Pow10(k));
    n / Pow10(k)
  }

  lemma SmallPowersOf10()
    ensures Pow10(1) == 10 && Pow10(2) == 100 && Pow10(4) == 10000 && Pow10(6) == 1000000
    ensures Pow10(8) == 100000000
  {
    assert Pow10(2) == 100;
    assert Pow10(4) == 100 * Pow10(2);
    assert Pow10(6) == 100 * Pow10(4);
    assert Pow10(8) == 100 * Pow10(6);
  }

  /** A number of more than k digits: its high part, then its last k digits. */
  lemma {:induction false} DigitsSplit(n: nat, k: nat)
    requires n >= Pow10(k)
    ensures Upper(n, k) > 0
    ensures Digits(n) == Digits(Upper(n, k)) + Pad(n % Pow10(k), k)
  {
    if k == 0 {
      assert Digits(n) + "" == Digits(n);
    } else {
      hide Digits, Pad, Upper, Pow10;
      TenthsOf(n, k);
      DigitsSplit(n / 10, k - 1);
      DigitsStep(n);
      PadStep(n % Pow10(k), k);
    }
  }

  lemma DigitsStep(n: nat)
    requires n >= 10
    ensures Digits(n) == Digits(n / 10) + [Digit(n % 10)]
  {
  }

  lemma PadStep(n: nat, k: nat)
    requires k > 0
    ensures Pad(n, k) == Pad(n / 10, k - 1) + [Digit(n % 10)]
  {
  }

  lemma TenthsOf(n: nat, k: nat)
    requires k > 0
    ensures Upper(n, k) == Upper(n / 10, k - 1)
    ensures n % Pow10(k) / 10 == n / 10 % Pow10(k - 1) && n % Pow10(k) % 10 == n % 10
    ensures n >= Pow10(k) ==> n / 10 >= Pow10(k - 1) && n >= 10
  {
    DivDiv(n, 10, Pow10(k - 1));
    DivNonNeg(n / 10, Pow10(k - 1));
    var m := n / 10 % Pow10(k - 1);
    DivModUnique(n % Pow10(k), 10, m, n % 10);
  }

  /** The first j of k digits, then the others. */
  lemma {:induction false} PadSplit(n: nat, j: nat, k: nat)
    ensures Pad(n, j + k) == Pad(Upper(n, k), j) + Pad(n % Pow10(k), k)
  {
    if k == 0 {
      assert Pad(n, j) + "" == Pad(n, j);
    } else {
      hide Pad, Upper, Pow10;
      TenthsOf(n, k);
      PadSplit(n / 10, j, k - 1);
      PadStep(n, j + k);
      PadStep(n % Pow10(k), k);
    }
  }

  function TwoDigits(d: nat): (r: string)
    requires d < 100
    ensures |r| == 2
  {
    [Digit(d / 10), Digit(d % 10)]
  }

  lemma PadTwo(d: nat)
    requires d < 100
    ensures Pad(d, 2) == TwoDigits(d)
    ensures d >= 10 ==> Digits(d) == TwoDigits(d)
    ensures d < 10 ==> Digits(d) == [Digit(d)]
  {
    hide Pad, Digits, Digit, Pow10;
    PadStep(d, 2);
    PadOne(d / 10);
    assert [Digit(d / 10)] + [Digit(d % 10)] == [Digit(d / 10), Digit(d % 10)];
    if d >= 10 {
      DigitsStep(d);
      DigitsOne(d / 10);
    } else {
      DigitsOne(d);
    }
  }

  lemma PadOne(d: nat)
    requires d < 10
    ensures Pad(d, 1) == [Digit(d)]
  {
    assert Pad(d / 10, 0) == "";
  }

  lemma DigitsOne(d: nat)
    requires d < 10
    ensures Digits(d) == [Digit(d)]
  {
  }
}
