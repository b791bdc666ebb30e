/** Powers of two, Euclidean division and congruences: the facts every word model in this
    project is built on.  A machine word of k bits is a natural number below `Pow2(k)`. */
module Arith {

  function Pow2(n: nat): (r: nat)
    ensures r > 0
  {
    if n == 0 then 1 else 2 * Pow2(n - 1)
  }

  lemma SmallPowers()
    ensures Pow2(0) == 1 && Pow2(1) == 2 && Pow2(2) == 4
  {
  }

  function Min(a: nat, b: nat): nat { if a < b then a else b }

  function Max(a: nat, b: nat): nat { if a < b then b else a }

  function SignOf(d: int): int {
    if d < 0 then -1 else if d == 0 then 0 else 1
  }

  lemma TimesZero(x: int, y: int)
    requires y == 0
    ensures x * y == 0
  {
  }

  lemma TwiceFirst(x: int, y: int)
    ensures 2 * x * y == 2 * (x * y)
  {
  }

  lemma {:induction false} Pow2Add(a: nat, b: nat)
    ensures Pow2(a + b) == Pow2(a) * Pow2(b)
  {
    if a != 0 {
      Pow2Add(a - 1, b);
      TwiceFirst(Pow2(a - 1), Pow2(b));
    }
  }

  lemma {:induction false} Pow2Monotonic(a: nat, b: nat)
    requires a <= b
    ensures Pow2(a) <= Pow2(b)
  {
    if a < b {
      Pow2Monotonic(a, b - 1);
    }
  }

  lemma Pow2Strict(a: nat, b: nat)
    requires a < b
    ensures Pow2(a) < Pow2(b)
  {
    Pow2Monotonic(a, b - 1);
  }

  lemma MulMonotonic(x: int, y: int, z: int)
    requires 0 <= z && x <= y
    ensures x * z <= y * z
  {
  }

  /** Quotient and remainder are determined by the division equation. */
  lemma ProductBound(x: nat, y: nat, b: nat)
    requires x < b && y < b
    ensures 0 <= x * y <= (b - 1) * (b - 1)
  {
    MulMonotonic(0, x, y);
    MulMonotonic(x, b - 1, y);
    MulMonotonic(y, b - 1, b - 1);
  }

  /** The product of two numbers of two digits each. */
  lemma DigitProducts(a0: int, a1: int, b0: int, b1: int, w: int)
    ensures (a0 + a1 * w) * (b0 + b1 * w) == a0 * b0 + (a1 * b0 + a0 * b1) * w + a1 * b1 * (w * w)
  {
    assert (a0 + a1 * w) * (b0 + b1 * w) == a0 * b0 + a0 * (b1 * w) + a1 * w * b0 + a1 * w * (b1 * w);
    assert a1 * w * (b1 * w) == a1 * b1 * (w * w);
  }

  lemma DivModUnique(x: int, d: int, q: int, r: int)
    requires 0 < d && 0 <= r < d
    requires x == q * d + r
    ensures x / d == q && x % d == r
  {
    var q', r' := x / d, x % d;
    assert x == q' * d + r';
    assert (q' - q) * d == r - r' && (q - q') * d == r' - r;
    if q' > q {
      MulMonotonic(1, q' - q, d);
    } else if q' < q {
      MulMonotonic(1, q - q', d);
    }
  }

  lemma DivNonNeg(x: int, d: int)
    requires 0 <= x && 0 < d
    ensures 0 <= x / d <= x
  {
    var q := x / d;
    assert x == q * d + x % d;
    if q < 0 {
      MulMonotonic(q, -1, d);
    } else {
      MulMonotonic(1, d, q);
    }
  }

  /** x shifted right by s bits. */
  function Shr(x: nat, s: nat): (r: nat)
    ensures r <= x
  {
    DivNonNeg(x, Pow2(s));
    x / Pow2(s)
  }

  lemma DivBounds(x: int, d: int)
    requires 0 < d
    ensures x / d * d <= x < x / d * d + d
  {
  }

  lemma SmallMod(x: int, d: int)
    requires 0 <= x < d
    ensures x % d == x && x / d == 0
  {
    DivModUnique(x, d, 0, x);
  }

  /** Dividing twice is dividing by the product. */
  lemma DivDiv(x: int, a: int, b: int)
    requires 0 < a && 0 < b
    ensures 0 < a * b
    ensures x / a / b == x / (a * b)
    ensures x % (a * b) == x / a % b * a + x % a
  {
    MulMonotonic(1, b, a);
    var q, r := x / a, x % a;
    var q2, r2 := q / b, q % b;
    assert x == q * a + r;
    assert q == q2 * b + r2;
    assert q * a == q2 * b * a + r2 * a;
    assert q2 * b * a == q2 * (a * b);
    MulMonotonic(r2, b - 1, a);
    assert (b - 1) * a == a * b - a;
    DivModUnique(x, a * b, q2, r2 * a + r);
  }

  // --- congruence -------------------------------------------------------------------------

  predicate Cong(x: int, y: int, m: int)
    requires 0 < m
  {
    x % m == y % m
  }

  lemma CongTrans(x: int, y: int, z: int, m: int)
    requires 0 < m && Cong(x, y, m) && Cong(y, z, m)
    ensures Cong(x, z, m)
  {
  }

  lemma CongRefl(x: int, m: int)
    requires 0 < m
    ensures Cong(x, x, m)
  {
  }

  lemma CongSym(x: int, y: int, m: int)
    requires 0 < m && Cong(x, y, m)
    ensures Cong(y, x, m)
  {
  }

  lemma CongIntro(x: int, y: int, m: int, q: int)
    requires 0 < m
    requires x == y + q * m
    ensures Cong(x, y, m)
  {
    assert y == y / m * m + y % m;
    assert (y / m + q) * m == y / m * m + q * m;
    DivModUnique(x, m, y / m + q, y % m);
  }

  lemma CongElim(x: int, y: int, m: int) returns (q: int)
    requires 0 < m
    requires Cong(x, y, m)
    ensures x == y + q * m
  {
    q := x / m - y / m;
    assert q * m == x / m * m - y / m * m;
  }

  lemma CongAdd(x: int, x': int, y: int, y': int, m: int)
    requires 0 < m
    requires Cong(x, x', m) && Cong(y, y', m)
    ensures Cong(x + y, x' + y', m)
  {
    var p := CongElim(x, x', m);
    var q := CongElim(y, y', m);
    assert (p + q) * m == p * m + q * m;
    CongIntro(x + y, x' + y', m, p + q);
  }

  lemma CongSub(x: int, x': int, y: int, y': int, m: int)
    requires 0 < m
    requires Cong(x, x', m) && Cong(y, y', m)
    ensures Cong(x - y, x' - y', m)
  {
    var p := CongElim(x, x', m);
    var q := CongElim(y, y', m);
    assert (p - q) * m == p * m - q * m;
    CongIntro(x - y, x' - y', m, p - q);
  }

  lemma ScaleEquation(x: int, x': int, p: int, m: int, y: int)
    requires x == x' + p * m
    ensures x * y == x' * y + p * y * m
  {
    assert (x' + p * m) * y == x' * y + p * m * y;
    assert p * m * y == p * y * m;
  }

  lemma CongScale(x: int, x': int, y: int, m: int)
    requires 0 < m && Cong(x, x', m)
    ensures Cong(x * y, x' * y, m)
  {
    hide Cong;
    var p := CongElim(x, x', m);
    ScaleEquation(x, x', p, m, y);
    CongIntro(x * y, x' * y, m, p * y);
  }

  lemma CongMul(x: int, x': int, y: int, y': int, m: int)
    requires 0 < m
    requires Cong(x, x', m) && Cong(y, y', m)
    ensures Cong(x * y, x' * y', m)
  {
    hide Cong;
    CongScale(x, x', y, m);
    CongScale(y, y', x', m);
    assert y * x' == x' * y && y' * x' == x' * y';
    CongTrans(x * y, x' * y, x' * y', m);
  }

  lemma CongMod(x: int, m: int)
    requires 0 < m
    ensures Cong(x % m, x, m)
  {
    SmallMod(x % m, m);
  }

  /** A congruence holds for every divisor of its modulus. */
  lemma CongDivisor(x: int, y: int, m: int, d: int)
    requires 0 < d && 0 < m && m % d == 0
    requires Cong(x, y, m)
    ensures Cong(x, y, d)
  {
    var q := CongElim(x, y, m);
    assert m == m / d * d;
    assert q * m == q * (m / d) * d;
    CongIntro(x, y, d, q * (m / d));
  }

  lemma Pow2Divides(a: nat, b: nat)
    requires a <= b
    ensures Pow2(b) % Pow2(a) == 0 && Pow2(b) / Pow2(a) == Pow2(b - a)
  {
    Pow2Add(b - a, a);
    DivModUnique(Pow2(b), Pow2(a), Pow2(b - a), 0);
  }

  lemma CongPow2(x: int, y: int, a: nat, b: nat)
    requires a <= b
    requires Cong(x, y, Pow2(b))
    ensures Cong(x, y, Pow2(a))
  {
    Pow2Divides(a, b);
    CongDivisor(x, y, Pow2(b), Pow2(a));
  }

  /** Two reduced words that agree modulo the word size are equal. */
  lemma CongSmall(x: int, y: int, m: int)
    requires 0 <= x < m && 0 <= y < m
    requires Cong(x, y, m)
    ensures x == y
  {
    SmallMod(x, m);
    SmallMod(y, m);
  }
}
