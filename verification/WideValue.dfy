/** The number that the 64-bit items of a wide integer stand for, little end first, and the carry
    chains that relate the items of operands and results. */
module WideValue {
  import opened Arith

  const BASE: nat := 0x1_0000_0000_0000_0000

  /** Items of a wide integer: any number of words of 64 bits. */
  predicate Items(s: seq<nat>) {
    forall i :: 0 <= i < |s| ==> s[i] < BASE
  }

  /** 2^(64 n) */
  function Size(n: nat): (r: nat)
    ensures r > 0
  {
    if n == 0 then 1 else BASE * Size(n - 1)
  }

  function Value(s: seq<nat>): nat {
    if s == [] then 0 else s[0] + BASE * Value(s[1..])
  }

  lemma {:induction false} ValueBound(s: seq<nat>)
    requires Items(s)
    ensures Value(s) < Size(|s|)
  {
    if s != [] {
      ValueBound(s[1..]);
    }
  }

  /** Reads two's complement: the value minus 2^bits if the sign bit is set. */
  function SignedValue(s: seq<nat>): int
  {
    if Negative(s) then Value(s) - Size(|s|) else Value(s)
  }

  /** The sign bit of the most significant item. */
  predicate Negative(s: seq<nat>) {
    s != [] && s[|s| - 1] >= BASE / 2
  }

  /** The number denoted by a signed or an unsigned wide integer. */
  function Number(signed: bool, s: seq<nat>): int {
    if signed then SignedValue(s) else Value(s)
  }

  /** Whether a number is representable in n items. */
  predicate InRange(signed: bool, n: nat, x: int)
  {
    if signed then 0 - Size(n) <= 2 * x < Size(n) else 0 <= x < Size(n)
  }

  lemma {:induction false} ValueConcat(a: seq<nat>, b: seq<nat>)
    ensures Value(a + b) == Value(a) + Size(|a|) * Value(b)
  {
    if a == [] {
      assert a + b == b;
    } else {
      ValueConcat(a[1..], b);
      assert (a + b)[1..] == a[1..] + b;
      ConcatStep(Size(|a| - 1), Value(b));
    }
  }

  lemma ConcatStep(s: nat, v: nat)
    ensures BASE * s * v == BASE * (s * v)
  {
  }

  lemma {:induction false} SizeAdd(m: nat, n: nat)
    ensures Size(m + n) == Size(m) * Size(n)
  {
    if m != 0 {
      SizeAdd(m - 1, n);
      ConcatStep(Size(m - 1), Size(n));
    }
  }

  function Repeat(x: nat, n: nat): (r: seq<nat>)
    ensures |r| == n && forall i :: 0 <= i < n ==> r[i] == x
  {
    seq(n, i => x)
  }

  lemma {:induction false} ValueRepeat(n: nat)
    ensures Value(Repeat(0, n)) == 0
    ensures Value(Repeat(BASE - 1, n)) == Size(n) - 1
  {
    if n != 0 {
      ValueRepeat(n - 1);
      assert Repeat(0, n)[1..] == Repeat(0, n - 1);
      assert Repeat(BASE - 1, n)[1..] == Repeat(BASE - 1, n - 1);
    }
  }

  /** Equal-length items with the same value are the same. */
  lemma {:induction false} ValueInjective(a: seq<nat>, b: seq<nat>)
    requires Items(a) && Items(b) && |a| == |b|
    requires Value(a) == Value(b)
    ensures a == b
  {
    if a != [] {
      assert a[0] + BASE * Value(a[1..]) == b[0] + BASE * Value(b[1..]);
      assert a[0] == b[0] && Value(a[1..]) == Value(b[1..]);
      ValueInjective(a[1..], b[1..]);
      assert a == [a[0]] + a[1..] && b == [b[0]] + b[1..];
    }
  }

  /** The sign bit tells which half of the range the value is in. */
  lemma {:induction false} NegativeIff(s: seq<nat>)
    requires Items(s) && s != []
    ensures Negative(s) <==> 2 * Value(s) >= Size(|s|)
  {
    if |s| == 1 {
      assert Value(s[1..]) == 0;
      assert Size(1) == BASE * Size(0);
    } else {
      NegativeIff(s[1..]);
      SizeEven(|s| - 1);
      assert Value(s) == s[0] + BASE * Value(s[1..]) && Size(|s|) == BASE * Size(|s| - 1);
      hide Value, Size;
      HalfAbove(s[0], Value(s[1..]), Size(|s| - 1));
    }
  }

  lemma SizeEven(n: nat)
    requires n > 0
    ensures Size(n) % 2 == 0
  {
    assert Size(n) == 2 * (BASE / 2 * Size(n - 1));
  }

  /** Lower digits do not matter for being in the upper half. */
  lemma HalfAbove(low: nat, high: nat, size: nat)
    requires low < BASE && size % 2 == 0
    ensures 2 * (low + BASE * high) >= BASE * size <==> 2 * high >= size
  {
    var h := size / 2;
    assert size == 2 * h;
  }

  lemma SignedRange(s: seq<nat>)
    requires Items(s) && s != []
    ensures InRange(true, |s|, SignedValue(s))
    ensures Cong(SignedValue(s), Value(s), Size(|s|))
  {
    ValueBound(s);
    NegativeIff(s);
    if Negative(s) {
      CongIntro(SignedValue(s), Value(s), Size(|s|), -1);
    }
  }

  lemma NumberRange(signed: bool, s: seq<nat>)
    requires Items(s) && s != []
    ensures InRange(signed, |s|, Number(signed, s))
    ensures Cong(Number(signed, s), Value(s), Size(|s|))
  {
    ValueBound(s);
    SignedRange(s);
  }

  /** Two representable numbers that agree modulo 2^bits are equal. */
  lemma RangeUnique(signed: bool, n: nat, x: int, y: int)
    requires InRange(signed, n, x) && InRange(signed, n, y) && Cong(x, y, Size(n))
    ensures x == y
  {
    var q := CongElim(x, y, Size(n));
    if q > 0 {
      MulMonotonic(1, q, Size(n));
    } else if q < 0 {
      MulMonotonic(q, -1, Size(n));
    }
  }

  /** The number denoted by a result is fixed by its residue, if that residue fits. */
  lemma NumberByResidue(signed: bool, s: seq<nat>, x: int)
    requires Items(s) && s != [] && Cong(Value(s), x, Size(|s|))
    ensures Cong(Number(signed, s), x, Size(|s|))
    ensures InRange(signed, |s|, x) ==> Number(signed, s) == x
  {
    hide Value, Size, SignedValue, InRange, Cong;
    NumberRange(signed, s);
    CongTrans(Number(signed, s), Value(s), x, Size(|s|));
    if InRange(signed, |s|, x) {
      RangeUnique(signed, |s|, Number(signed, s), x);
    }
  }

  // --- carry chains ----------------------------------------------------------------------------

  /** Item by item, a + b + carry in = r + 2^64 * carry out. */
  ghost predicate AddChain(a: seq<nat>, b: seq<nat>, r: seq<nat>, carry: seq<nat>) {
    && |a| == |b| == |r| && |carry| == |a| + 1
    && forall i :: 0 <= i < |a| ==> a[i] + b[i] + carry[i] == r[i] + BASE * carry[i + 1]
  }

  lemma {:induction false} AddChainValue(a: seq<nat>, b: seq<nat>, r: seq<nat>, carry: seq<nat>)
    requires AddChain(a, b, r, carry)
    ensures Value(a) + Value(b) + carry[0] == Value(r) + Size(|a|) * carry[|a|]
    decreases |a|
  {
    if a != [] {
      AddChainValue(a[1..], b[1..], r[1..], carry[1..]);
      ConcatStep(Size(|a| - 1), carry[|a|]);
    }
  }

  /** Item by item, a * p + carry in = r + 2^64 * carry out. */
  ghost predicate ScaleChain(a: seq<nat>, p: nat, r: seq<nat>, carry: seq<nat>) {
    && |a| == |r| && |carry| == |a| + 1
    && forall i :: 0 <= i < |a| ==> a[i] * p + carry[i] == r[i] + BASE * carry[i + 1]
  }

  lemma {:induction false} ScaleChainValue(a: seq<nat>, p: nat, r: seq<nat>, carry: seq<nat>)
    requires ScaleChain(a, p, r, carry)
    ensures Value(a) * p + carry[0] == Value(r) + Size(|a|) * carry[|a|]
    decreases |a|
  {
    if a != [] {
      ScaleChainValue(a[1..], p, r[1..], carry[1..]);
      ConcatStep(Size(|a| - 1), carry[|a|]);
      ScaleStep(a[0], Value(a[1..]), p);
    } else {
      ScaleEnd(Value(a), p, Size(0), carry[0]);
    }
  }

  lemma ScaleStep(x: nat, v: nat, p: nat)
    ensures (x + BASE * v) * p == x * p + BASE * (v * p)
  {
  }

  lemma ScaleEnd(v: nat, p: nat, s: nat, c: nat)
    requires v == 0 && s == 1
    ensures v * p + c == s * c
  {
  }
}
