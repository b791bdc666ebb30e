/** Bitwise operations on natural numbers, for words of every width.  Each operation is given by
    its digits in base two; `BitOfBitwise` and `Extensional` turn equations between words into
    equations between their bits. */
module Bits {
  import opened Arith

  datatype BitOp = AndOp | OrOp | XorOp

  function Apply(op: BitOp, b: bool, c: bool): bool
  {
    match op
    case AndOp => b && c
    case OrOp => b || c
    case XorOp => b != c
  }

  predicate Bit(x: nat, i: nat) {
    Shr(x, i) % 2 == 1
  }

  function Bitwise(op: BitOp, x: nat, y: nat): nat
    decreases x + y
  {
    if x == 0 && y == 0 then 0
    else (if Apply(op, x % 2 == 1, y % 2 == 1) then 1 else 0) + 2 * Bitwise(op, x / 2, y / 2)
  }

  function And(x: nat, y: nat): nat { Bitwise(AndOp, x, y) }

  function Or(x: nat, y: nat): nat { Bitwise(OrOp, x, y) }

  function Xor(x: nat, y: nat): nat { Bitwise(XorOp, x, y) }

  /** The complement of a word of width k. */
  function Not(k: nat, x: nat): nat
    requires x < Pow2(k)
  {
    Pow2(k) - 1 - x
  }

  lemma BitHalf(x: nat, i: nat)
    requires 0 < i
    ensures Bit(x, i) == Bit(x / 2, i - 1)
  {
    DivDiv(x, 2, Pow2(i - 1));
  }

  lemma BitZero(i: nat)
    ensures !Bit(0, i)
  {
    SmallMod(0, Pow2(i));
  }

  lemma BitwiseStep(op: BitOp, x: nat, y: nat)
    ensures Bitwise(op, x, y) / 2 == Bitwise(op, x / 2, y / 2)
    ensures (Bitwise(op, x, y) % 2 == 1) == Apply(op, x % 2 == 1, y % 2 == 1)
  {
  }

  /** Every bit of a bitwise operation is the operation on the two bits. */
  lemma {:induction false} BitOfBitwise(op: BitOp, x: nat, y: nat, i: nat)
    ensures Bit(Bitwise(op, x, y), i) == Apply(op, Bit(x, i), Bit(y, i))
    decreases i
  {
    BitwiseStep(op, x, y);
    if i != 0 {
      BitHalf(x, i);
      BitHalf(y, i);
      BitHalf(Bitwise(op, x, y), i);
      BitOfBitwise(op, x / 2, y / 2, i - 1);
    }
  }

  lemma {:induction false} BitwiseBound(op: BitOp, x: nat, y: nat, n: nat)
    requires x < Pow2(n) && y < Pow2(n)
    ensures Bitwise(op, x, y) < Pow2(n)
  {
    if n != 0 && (x != 0 || y != 0) {
      BitwiseBound(op, x / 2, y / 2, n - 1);
    }
  }

  lemma BitShr(x: nat, s: nat, i: nat)
    ensures Shr(Shr(x, s), i) == Shr(x, i + s)
    ensures Bit(Shr(x, s), i) == Bit(x, i + s)
  {
    DivDiv(x, Pow2(s), Pow2(i));
    Pow2Add(s, i);
  }

  lemma ShrBound(x: nat, s: nat, n: nat)
    requires x < Pow2(n)
    ensures Shr(x, s) < Pow2(if s <= n then n - s else 0)
  {
    var q := Shr(x, s);
    DivBounds(x, Pow2(s));
    if s <= n {
      Pow2Add(n - s, s);
      if q >= Pow2(n - s) {
        MulMonotonic(Pow2(n - s), q, Pow2(s));
      }
    } else {
      Pow2Monotonic(n, s);
      SmallMod(x, Pow2(s));
    }
  }

  lemma {:induction false} BitMod(x: nat, n: nat, i: nat)
    ensures Bit(x % Pow2(n), i) == (i < n && Bit(x, i))
  {
    hide Pow2, Bit;
    if n == 0 {
      SmallPowers();
      BitZero(i);
    } else {
      HalfOfMod(x, n);
      if i == 0 {
        BitZeroth(x);
        BitZeroth(x % Pow2(n));
      } else {
        BitHalf(x, i);
        BitHalf(x % Pow2(n), i);
        BitMod(x / 2, n - 1, i - 1);
      }
    }
  }

  lemma HalfOfMod(x: nat, n: nat)
    requires n > 0
    ensures x % Pow2(n) / 2 == x / 2 % Pow2(n - 1) && x % Pow2(n) % 2 == x % 2
  {
    var p := Pow2(n - 1);
    assert Pow2(n) == 2 * p;
    hide Pow2;
    DivDiv(x, 2, p);
  }

  lemma BitSmall(x: nat, n: nat, i: nat)
    requires x < Pow2(n) && n <= i
    ensures !Bit(x, i)
  {
    Pow2Monotonic(n, i);
    SmallMod(x, Pow2(i));
  }

  /** Words of width n that agree on their n bits are equal. */
  lemma {:induction false} Extensional(x: nat, y: nat, n: nat)
    requires x < Pow2(n) && y < Pow2(n)
    requires forall i: nat :: i < n ==> Bit(x, i) == Bit(y, i)
    ensures x == y
  {
    if n != 0 {
      assert Bit(x, 0) == Bit(y, 0);
      forall i: nat | i < n - 1 ensures Bit(x / 2, i) == Bit(y / 2, i) {
        BitHalf(x, i + 1);
        BitHalf(y, i + 1);
      }
      Extensional(x / 2, y / 2, n - 1);
    }
  }

  lemma {:induction false} BitMask(n: nat, i: nat)
    ensures Bit(Pow2(n) - 1, i) == (i < n)
  {
    hide Pow2, Bit;
    if n == 0 {
      SmallPowers();
      BitZero(i);
    } else {
      HalfMask(n);
      if i == 0 {
        BitZeroth(Pow2(n) - 1);
      } else {
        BitHalf(Pow2(n) - 1, i);
        BitMask(n - 1, i - 1);
      }
    }
  }

  lemma BitZeroth(x: nat)
    ensures Bit(x, 0) == (x % 2 == 1)
  {
    SmallPowers();
  }

  lemma HalfMask(n: nat)
    requires n > 0
    ensures (Pow2(n) - 1) / 2 == Pow2(n - 1) - 1 && (Pow2(n) - 1) % 2 == 1
  {
  }

  lemma {:induction false} BitNot(k: nat, x: nat, i: nat)
    requires x < Pow2(k)
    ensures Bit(Not(k, x), i) == (i < k && !Bit(x, i))
  {
    hide Bit, Pow2;
    if k <= i {
      BitSmall(Not(k, x), k, i);
    } else {
      HalfOfNot(k, x);
      if i == 0 {
        BitZeroth(x);
        BitZeroth(Not(k, x));
      } else {
        BitHalf(Not(k, x), i);
        BitHalf(x, i);
        BitNot(k - 1, x / 2, i - 1);
      }
    }
  }

  lemma HalfOfNot(k: nat, x: nat)
    requires 0 < k && x < Pow2(k)
    ensures x / 2 < Pow2(k - 1) && Not(k, x) / 2 == Not(k - 1, x / 2) && Not(k, x) % 2 == 1 - x % 2
  {
    assert Pow2(k) == 2 * Pow2(k - 1);
  }

  /** Masking with 2^n - 1 is reduction modulo 2^n. */
  lemma AndMask(x: nat, n: nat)
    ensures And(x, Pow2(n) - 1) == x % Pow2(n)
  {
    hide Bitwise, Bit;
    var k := n + x;
    PowAbove(x);
    Pow2Monotonic(x, k);
    Pow2Monotonic(n, k);
    BitwiseBound(AndOp, x, Pow2(n) - 1, k);
    forall i: nat | i < k ensures Bit(And(x, Pow2(n) - 1), i) == Bit(x % Pow2(n), i) {
      BitOfBitwise(AndOp, x, Pow2(n) - 1, i);
      BitMask(n, i);
      BitMod(x, n, i);
    }
    Extensional(And(x, Pow2(n) - 1), x % Pow2(n), k);
  }

  lemma {:induction false} PowAbove(x: nat)
    ensures x < Pow2(x)
  {
    if x != 0 {
      PowAbove(x - 1);
    }
  }

  lemma BitShl(x: nat, s: nat, i: nat)
    ensures Bit(x * Pow2(s), i) == (s <= i && Bit(x, i - s))
  {
    if s <= i {
      DivModUnique(x * Pow2(s), Pow2(s), x, 0);
      BitShr(x * Pow2(s), s, i - s);
    } else {
      DivModUnique(x * Pow2(s), Pow2(s), x, 0);
      BitMod(x * Pow2(s), s, i);
      BitZero(i);
    }
  }

  /** A disjunction of two words with no common position is their sum. */
  lemma OrDisjoint(lo: nat, hi: nat, n: nat)
    requires lo < Pow2(n)
    ensures Or(lo, hi * Pow2(n)) == lo + hi * Pow2(n)
  {
    hide Bitwise, Bit;
    var sum := lo + hi * Pow2(n);
    var k := n + sum;
    PowAbove(sum);
    Pow2Monotonic(sum, k);
    Pow2Monotonic(n, k);
    BitwiseBound(OrOp, lo, hi * Pow2(n), k);
    DivModUnique(sum, Pow2(n), hi, lo);
    forall i: nat | i < k ensures Bit(Or(lo, hi * Pow2(n)), i) == Bit(sum, i) {
      BitOfBitwise(OrOp, lo, hi * Pow2(n), i);
      BitShl(hi, n, i);
      if i < n {
        BitMod(sum, n, i);
      } else {
        BitSmall(lo, n, i);
        BitShr(sum, n, i - n);
      }
    }
    Extensional(Or(lo, hi * Pow2(n)), sum, k);
  }

  lemma {:induction false} OrCommutes(x: nat, y: nat)
    ensures Or(x, y) == Or(y, x)
    decreases x + y
  {
    if x != 0 || y != 0 {
      OrCommutes(x / 2, y / 2);
    }
  }

  /** A bitwise disjunction splits at every position. */
  lemma {:induction false} OrConcat(x: nat, y: nat, lo: nat, hi: nat, lo': nat, hi': nat, n: nat)
    requires lo < Pow2(n) && lo' < Pow2(n) && x == lo + hi * Pow2(n) && y == lo' + hi' * Pow2(n)
    ensures Or(x, y) == Or(lo, lo') + Or(hi, hi') * Pow2(n)
  {
    if n == 0 {
      SmallPowers();
      assert Or(0, 0) == 0;
    } else {
      hide Bitwise, Pow2;
      HalfOfConcat(x, lo, hi, n);
      HalfOfConcat(y, lo', hi', n);
      OrConcat(x / 2, y / 2, lo / 2, hi, lo' / 2, hi', n - 1);
      BitwiseStep(OrOp, x, y);
      BitwiseStep(OrOp, lo, lo');
      Recombine(Or(x, y), Or(lo, lo'), Or(hi, hi'), Pow2(n - 1), Pow2(n));
    }
  }

  lemma HalfOfConcat(x: nat, lo: nat, hi: nat, n: nat)
    requires 0 < n && lo < Pow2(n) && x == lo + hi * Pow2(n)
    ensures Pow2(n) == 2 * Pow2(n - 1)
    ensures x / 2 == lo / 2 + hi * Pow2(n - 1)
    ensures x % 2 == lo % 2
    ensures lo / 2 < Pow2(n - 1)
  {
    var t := hi * Pow2(n - 1);
    assert hi * Pow2(n) == 2 * t;
  }

  lemma Recombine(r: nat, low: nat, high: nat, h: nat, p: nat)
    requires p == 2 * h && r / 2 == low / 2 + high * h && (r % 2 == 1) == (low % 2 == 1)
    ensures r == low + high * p
  {
    var t := high * h;
    assert high * p == 2 * t;
  }

  // --- shifts within a word ---------------------------------------------------------------------

  lemma {:induction false} AndZero(x: nat)
    ensures And(x, 0) == 0 && And(0, x) == 0
  {
    if x != 0 {
      AndZero(x / 2);
    }
  }

  /** x << m in a word of k bits. */
  function Shl(k: nat, x: nat, m: nat): (r: nat)
    ensures r < Pow2(k)
  {
    x * Pow2(m) % Pow2(k)
  }

  lemma ShlOfZero(k: nat, m: nat)
    ensures Shl(k, 0, m) == 0
  {
    hide Pow2;
    SmallMod(0, Pow2(k));
  }

  lemma ShlByZero(k: nat, x: nat)
    requires x < Pow2(k)
    ensures Shl(k, x, 0) == x
  {
    SmallPowers();
    hide Pow2;
    SmallMod(x, Pow2(k));
  }

  /** Where a shift by m cuts a word of k bits. */
  lemma ShiftCuts(k: nat, x: nat, m: nat)
    requires x < Pow2(k) && m <= k
    ensures Pow2(m) * Pow2(k - m) == Pow2(k)
    ensures Shl(k, x, m) == x % Pow2(k - m) * Pow2(m)
    ensures x * Pow2(m) == Shl(k, x, m) + Pow2(k) * Shr(x, k - m)
    ensures Shr(x, k - m) < Pow2(m)
  {
    hide Pow2;
    Pow2Add(m, k - m);
    CutAtoms(x, Pow2(m), Pow2(k - m), Pow2(k));
  }

  lemma CutAtoms(x: nat, p: nat, q: nat, w: nat)
    requires 0 < p && 0 < q && p * q == w && x < w
    ensures x * p % w == x % q * p && x * p == x * p % w + w * (x / q) && x / q < p
  {
    var hi, lo := x / q, x % q;
    CutProduct(x, p, q, w, hi, lo);
    MulMonotonic(lo, q - 1, p);
    assert (q - 1) * p == w - p;
    DivModUnique(x * p, w, hi, lo * p);
    if hi >= p {
      MulMonotonic(p, hi, q);
    }
  }

  lemma CutProduct(x: nat, p: nat, q: nat, w: nat, hi: nat, lo: nat)
    requires x == hi * q + lo && p * q == w
    ensures x * p == hi * w + lo * p
  {
    assert (hi * q + lo) * p == hi * q * p + lo * p;
    assert hi * q * p == hi * (p * q);
  }

  /** Joining the two parts of a word with | is adding them. */
  lemma JoinParts(k: nat, x: nat, y: nat, m: nat)
    requires x < Pow2(k) && y < Pow2(k) && m <= k
    ensures Or(Shl(k, x, m), Shr(y, k - m)) == Shl(k, x, m) + Shr(y, k - m) < Pow2(k)
    ensures Or(Shr(y, k - m), Shl(k, x, m)) == Shl(k, x, m) + Shr(y, k - m)
  {
    hide Pow2, Bitwise, Shr, Shl;
    ShiftCuts(k, x, m);
    ShiftCuts(k, y, m);
    OrDisjoint(Shr(y, k - m), x % Pow2(k - m), m);
    OrCommutes(Shr(y, k - m), Shl(k, x, m));
    JoinBound(x % Pow2(k - m), Pow2(k - m), Pow2(m), Shr(y, k - m), Pow2(k));
  }

  lemma JoinBound(lo: nat, q: nat, p: nat, c: nat, w: nat)
    requires lo < q && c < p && p * q == w
    ensures lo * p + c < w
  {
    MulMonotonic(lo, q - 1, p);
    assert (q - 1) * p == w - p;
  }
}
