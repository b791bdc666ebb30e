/** Division of wide integers by shifting and subtracting, and the signed operators built on it. */
module WideDivide {
  import opened Arith
  import opened Bits
  import opened WideValue
  import opened WideArithmetic
  import opened WideShift
  import opened WideMultiply

  /** A result, or the division-by-zero error. */
  datatype Outcome<T> = Done(value: T) | DivisionByZero

  // --- bitwise operators ---------------------------------------------------------------------------

  /** `operator_pipe` */
  method OperatorPipe(lhs: seq<nat>, rhs: seq<nat>) returns (res: seq<nat>)
    requires Items(lhs) && Items(rhs) && |rhs| == |lhs|
    ensures |res| == |lhs| && Items(res)
    ensures Value(res) == Or(Value(lhs), Value(rhs))
  {
    hide Bitwise, Value;
    res := Repeat(0, |lhs|);
    var i := 0;
    while i < |lhs|
      invariant 0 <= i <= |lhs| == |res| && Items(res)
      invariant forall j :: 0 <= j < i ==> res[j] == Or(lhs[j], rhs[j])
    {
      OrItem(lhs[i], rhs[i]);
      res := res[i := Or(lhs[i], rhs[i])];
      i := i + 1;
    }
    PipeValue(lhs, rhs, res);
  }

  lemma OrItem(x: nat, y: nat)
    requires x < BASE && y < BASE
    ensures Or(x, y) < BASE
  {
    hide Bitwise;
    BaseIsPow2();
    BitwiseBound(OrOp, x, y, 64);
  }

  lemma {:induction false} PipeValue(a: seq<nat>, b: seq<nat>, r: seq<nat>)
    requires Items(a) && Items(b) && |a| == |b| == |r|
    requires forall j :: 0 <= j < |a| ==> r[j] == Or(a[j], b[j])
    ensures Value(r) == Or(Value(a), Value(b))
  {
    if a == [] {
      assert Or(0, 0) == 0;
    } else {
      hide Bitwise, Pow2;
      PipeValue(a[1..], b[1..], r[1..]);
      BaseIsPow2();
      OrConcat(Value(a), Value(b), a[0], Value(a[1..]), b[0], Value(b[1..]), 64);
    }
  }

  /** `is_zero(operator_amp(shift_right(x, Bits - 1), 1))`: whether the top bit is clear. */
  method TopBitClear(x: seq<nat>) returns (r: bool)
    requires Items(x) && x != []
    ensures r <==> 2 * Value(x) < Size(|x|)
  {
    hide Value, Size, Pow2, Bitwise;
    var t := ShiftRight(false, x, 64 * |x| - 1);
    var masked := Repeat(0, |x|);
    var i := 0;
    while i < |x|
      invariant 0 <= i <= |x| == |masked|
      invariant forall j :: 0 <= j < |x| ==> masked[j] == if j < i && j == 0 then And(t[0], 1) else 0
    {
      AndZero(t[i]);
      masked := masked[i := And(t[i], if i == 0 then 1 else 0)];
      i := i + 1;
    }
    TopBit(x, t);
    LowBit(t[0]);
    r := IsZero(masked);
    MaskedZero(masked);
  }

  lemma LowBit(x: nat)
    ensures And(x, 1) == x % 2
  {
    SmallPowers();
    AndMask(x, 1);
  }

  lemma MaskedZero(s: seq<nat>)
    requires s != [] && forall j :: 1 <= j < |s| ==> s[j] == 0
    ensures Value(s) == s[0]
  {
    assert s[1..] == Repeat(0, |s| - 1);
    ValueRepeat(|s| - 1);
  }

  /** The whole size is two times the weight of the top bit. */
  lemma SizeIsPow2(n: nat)
    requires 0 < n
    ensures Size(n) == Pow2(64 * n) == 2 * Pow2(64 * n - 1)
  {
    hide Pow2;
    PowerOfShift(n, 0);
    SmallPowers();
    Doubles(64 * n);
  }

  lemma TopBit(x: seq<nat>, t: seq<nat>)
    requires Items(x) && Items(t) && x != [] && |t| == |x|
    requires Value(t) == Value(x) / Pow2(64 * |x| - 1)
    ensures t[0] % 2 == 0 <==> 2 * Value(x) < Size(|x|)
  {
    hide Size, Pow2;
    SizeIsPow2(|x|);
    ValueBound(x);
    var p, v := Pow2(64 * |x| - 1), Value(x);
    DivModUnique(v, p, if v < p then 0 else 1, if v < p then v else v - p);
    assert Value(t) == t[0] + BASE * Value(t[1..]);
  }

  // --- unsigned division ---------------------------------------------------------------------------

  /** Doubling the divisor: x is 2^j and the divisor 2^j times its original value. */
  ghost predicate Doubled(x: seq<nat>, d: seq<nat>, d0: nat, n: nat, j: nat) {
    && |x| == |d| == n && Items(x) && Items(d)
    && Value(x) == Pow2(j) && Value(d) == d0 * Pow2(j)
  }

  /** No bit is lost while the top bit of the divisor is clear. */
  lemma DoubleFits(d0: nat, j: nat, n: nat)
    requires 0 < d0 && 0 < n && 2 * (d0 * Pow2(j)) < Size(n)
    ensures j + 1 < 64 * n
    ensures Pow2(j) * Pow2(1) % Size(n) == Pow2(j + 1)
    ensures d0 * Pow2(j) * Pow2(1) % Size(n) == d0 * Pow2(j + 1) < Size(n)
  {
    hide Pow2, Size;
    SmallPowers();
    Doubles(j + 1);
    var p := Pow2(j);
    MulMonotonic(1, d0, p);
    assert d0 * (2 * p) == 2 * (d0 * p);
    SmallMod(2 * p, Size(n));
    SmallMod(2 * (d0 * p), Size(n));
    SizeIsPow2(n);
    if j + 1 >= 64 * n {
      Pow2Monotonic(64 * n, j + 1);
    }
  }

  /** The subtraction loop, before trying bit k of the quotient. */
  ghost predicate Dividing(n0: nat, d0: nat, num: nat, q: nat, x: nat, d: nat, k: int) {
    && -1 <= k
    && n0 == q * d0 + num && num < d0 * Pow2(k + 1) && q % Pow2(k + 1) == 0
    && (if k >= 0 then x == Pow2(k) && d == d0 * Pow2(k) else x == 0)
  }

  /** One bit of the quotient. */
  lemma DivideStep(n0: nat, d0: nat, num: nat, q: nat, x: nat, d: nat, k: int, num': int, q': nat)
    requires 0 < d0 && 0 <= k && Dividing(n0, d0, num, q, x, d, k)
    requires if d <= num then num' == num - d && q' == Or(q, x) else num' == num && q' == q
    ensures 0 <= num' && Dividing(n0, d0, num', q', x / 2, d / 2, k - 1)
  {
    hide Pow2, Bitwise;
    Doubles(k + 1);
    var p := Pow2(k);
    TwiceDivisor(d0, p, d);
    EvenMultiple(q, p);
    if d <= num {
      OrDisjoint(p, q / (2 * p), k + 1);
      OrCommutes(p, q);
      TakeBit(q, p, d0, d);
    }
    HalveDivisor(d0, k, x, d);
  }

  lemma TwiceDivisor(d0: nat, p: nat, d: nat)
    requires d == d0 * p
    ensures d0 * (2 * p) == d + d
  {
  }

  lemma TakeBit(q: nat, p: nat, d0: nat, d: nat)
    requires d == d0 * p
    ensures (q + p) * d0 == q * d0 + d
  {
  }

  lemma EvenMultiple(q: nat, p: nat)
    requires 0 < p && q % (2 * p) == 0
    ensures q == q / (2 * p) * (2 * p) && 0 <= q / (2 * p)
    ensures q % p == 0 && (q + p) % p == 0
  {
    DivNonNeg(q, 2 * p);
    var h := q / (2 * p);
    assert h * (2 * p) == 2 * h * p;
    DivModUnique(q, p, 2 * h, 0);
    DivModUnique(q + p, p, 2 * h + 1, 0);
  }

  lemma HalveDivisor(d0: nat, k: nat, x: nat, d: nat)
    requires x == Pow2(k) && d == d0 * Pow2(k)
    ensures if k >= 1 then x / 2 == Pow2(k - 1) && d / 2 == d0 * Pow2(k - 1) else x / 2 == 0
  {
    if k >= 1 {
      var t := d0 * Pow2(k - 1);
      assert d == 2 * t;
    } else {
      SmallPowers();
    }
  }

  /** `divide`: the quotient, and the remainder that is left in the numerator. */
  method Divide(numerator: seq<nat>, denominator: seq<nat>) returns (r: Outcome<(seq<nat>, seq<nat>)>)
    requires Items(numerator) && Items(denominator) && |denominator| == |numerator| > 0
    ensures r.DivisionByZero? <==> Value(denominator) == 0
    ensures r.Done? ==>
              var (quotient, remainder) := r.value;
              && |quotient| == |remainder| == |numerator| && Items(quotient) && Items(remainder)
              && Value(numerator) == Value(quotient) * Value(denominator) + Value(remainder)
              && Value(remainder) < Value(denominator)
  {
    hide Value, Size, Pow2, Bitwise;
    var zero := IsZero(denominator);
    if zero {
      return DivisionByZero;
    }
    if |numerator| == 2 {
      var q, rem := DivideNative(numerator, denominator);
      return Done((q, rem));
    }
    var x, d, j := DoubleDivisor(numerator, denominator);
    var q, rem := SubtractShifted(numerator, x, d, j, Value(denominator));
    return Done((q, rem));
  }

  /** The second loop of `divide`. */
  method SubtractShifted(numerator: seq<nat>, x0: seq<nat>, d: seq<nat>, ghost j: nat, ghost d0: nat)
    returns (quotient: seq<nat>, num: seq<nat>)
    requires Items(numerator) && numerator != [] && 0 < d0
    requires Doubled(x0, d, d0, |numerator|, j) && Value(numerator) < 2 * Value(d)
    ensures |quotient| == |num| == |numerator| && Items(quotient) && Items(num)
    ensures Value(numerator) == Value(quotient) * d0 + Value(num) && Value(num) < d0
  {
    hide Value, Size, Pow2, Bitwise;
    var x, denominator := x0, d;
    num, quotient := numerator, Repeat(0, |numerator|);
    ghost var k: int := j;
    ghost var n0 := Value(numerator);
    ValueRepeat(|numerator|);
    StartDividing(n0, d0, k);
    hide Dividing;
    var done := IsZero(x);
    while !done
      invariant |num| == |quotient| == |x| == |denominator| == |numerator|
      invariant Items(num) && Items(quotient) && Items(x) && Items(denominator)
      invariant Dividing(n0, d0, Value(num), Value(quotient), Value(x), Value(denominator), k)
      invariant done <==> Value(x) == 0
      invariant -1 <= k && (k == -1 ==> done)
      decreases k
    {
      ghost var before, q := Value(num), Value(quotient);
      var greater := OperatorGreater(false, denominator, num);
      if !greater {
        ValueBound(num);
        SmallMod(Value(num) - Value(denominator), Size(|numerator|));
        num := Minus(num, denominator);
        quotient := OperatorPipe(quotient, x);
      }
      DivideStep(n0, d0, before, q, Value(x), Value(denominator), k, Value(num), Value(quotient));
      SmallPowers();
      x := ShiftRight(false, x, 1);
      denominator := ShiftRight(false, denominator, 1);
      done := IsZero(x);
      k := k - 1;
      BitLeft(n0, d0, Value(num), Value(quotient), Value(x), Value(denominator), k);
    }
    EndDividing(n0, d0, Value(num), Value(quotient), Value(x), Value(denominator), k);
  }

  lemma BitLeft(n0: nat, d0: nat, num: nat, q: nat, x: nat, d: nat, k: int)
    requires Dividing(n0, d0, num, q, x, d, k)
    ensures k == -1 ==> x == 0
  {
  }

  lemma StartDividing(n0: nat, d0: nat, k: nat)
    requires n0 < 2 * (d0 * Pow2(k))
    ensures Dividing(n0, d0, n0, 0, Pow2(k), d0 * Pow2(k), k)
  {
    hide Pow2;
    Doubles(k + 1);
    assert d0 * (2 * Pow2(k)) == 2 * (d0 * Pow2(k));
    SmallMod(0, Pow2(k + 1));
  }

  lemma EndDividing(n0: nat, d0: nat, num: nat, q: nat, x: nat, d: nat, k: int)
    requires Dividing(n0, d0, num, q, x, d, k) && x == 0
    ensures n0 == q * d0 + num && num < d0
  {
    SmallPowers();
    if k < 0 {
      assert k == -1;
    }
  }

  /** The first loop of `divide`. */
  method DoubleDivisor(numerator: seq<nat>, denominator: seq<nat>) returns (x: seq<nat>, d: seq<nat>, ghost j: nat)
    requires Items(numerator) && Items(denominator) && |denominator| == |numerator| > 0
    requires Value(denominator) > 0
    ensures Doubled(x, d, Value(denominator), |numerator|, j)
    ensures Value(numerator) < 2 * Value(d)
  {
    hide Value, Size, Pow2;
    ghost var d0 := Value(denominator);
    x, d, j := [1] + Repeat(0, |numerator| - 1), denominator, 0;
    MaskedZero(x);
    SmallPowers();
    var greater := OperatorGreater(false, d, numerator);
    var clear := TopBitClear(d);
    while !greater && clear
      invariant Doubled(x, d, d0, |numerator|, j)
      invariant greater <==> Value(d) > Value(numerator)
      invariant clear <==> 2 * Value(d) < Size(|numerator|)
      invariant j < 64 * |numerator|
      decreases 64 * |numerator| - j
    {
      DoubleFits(d0, j, |numerator|);
      x := ShiftLeft(x, 1);
      d := ShiftLeft(d, 1);
      j := j + 1;
      greater := OperatorGreater(false, d, numerator);
      clear := TopBitClear(d);
    }
    ValueBound(numerator);
  }

  /** The 128-bit case, by the compiler's division. */
  method DivideNative(numerator: seq<nat>, denominator: seq<nat>) returns (quotient: seq<nat>, remainder: seq<nat>)
    requires Items(numerator) && Items(denominator) && |denominator| == |numerator| == 2
    requires Value(denominator) > 0
    ensures |quotient| == |remainder| == 2 && Items(quotient) && Items(remainder)
    ensures Value(numerator) == Value(quotient) * Value(denominator) + Value(remainder)
    ensures Value(remainder) < Value(denominator)
  {
    hide Value, Size;
    ValueOf2(numerator);
    ValueOf2(denominator);
    var a, b := numerator[1] * BASE + numerator[0], denominator[1] * BASE + denominator[0];
    var c := a / b;
    DivNonNeg(a, b);
    quotient := [c % BASE, c / BASE];
    ValueOf2(quotient);
    var rem := a - b * c;
    DivBounds(a, b);
    remainder := [rem % BASE, rem / BASE];
    ValueOf2(remainder);
  }

  // --- signed division -----------------------------------------------------------------------------

  /** Division that truncates toward zero. */
  function Quotient(x: int, y: int): int
    requires y != 0
  {
    if (x < 0) != (y < 0) then 0 - Abs(x) / Abs(y) else Abs(x) / Abs(y)
  }

  /** The remainder of that division. */
  function Remainder(x: int, y: int): int
    requires y != 0
  {
    if x < 0 then 0 - Abs(x) % Abs(y) else Abs(x) % Abs(y)
  }

  /** Truncating division: the remainder is smaller than the divisor and has the sign of the dividend. */
  lemma TruncatingDivision(x: int, y: int)
    requires y != 0
    ensures x == Quotient(x, y) * y + Remainder(x, y)
    ensures Abs(Remainder(x, y)) < Abs(y)
    ensures Remainder(x, y) != 0 ==> (Remainder(x, y) < 0 <==> x < 0)
  {
    var a, b := Abs(x), Abs(y);
    WithSigns(x, y, a, b, a / b, a % b);
  }

  lemma WithSigns(x: int, y: int, a: int, b: int, q: int, m: int)
    requires y != 0 && a == Abs(x) && b == Abs(y) && a == q * b + m
    ensures x == (if (x < 0) != (y < 0) then 0 - q else q) * y + (if x < 0 then 0 - m else m)
  {
    Signs(q, b);
  }

  lemma Signs(q: int, b: int)
    ensures (0 - q) * b == 0 - q * b
    ensures q * (0 - b) == 0 - q * b
    ensures (0 - q) * (0 - b) == q * b
  {
  }

  /** `operator_slash` for operands of one type. */
  method OperatorSlash(signed: bool, lhs: seq<nat>, rhs: seq<nat>) returns (r: Outcome<seq<nat>>)
    requires Items(lhs) && Items(rhs) && |rhs| == |lhs| > 0
    ensures r.DivisionByZero? <==> Number(signed, rhs) == 0
    ensures r.Done? ==>
              var x, y := Number(signed, lhs), Number(signed, rhs);
              && |r.value| == |lhs| && Items(r.value)
              && Cong(Number(signed, r.value), Quotient(x, y), Size(|lhs|))
              && (if signed && 2 * x == 0 - Size(|lhs|) && y == -1
                  then Number(signed, r.value) == x
                  else Number(signed, r.value) == Quotient(x, y))
  {
    hide Value, Size, Cong, InRange, Number, Negative, Quotient, Abs;
    var numerator := MakePositive(signed, lhs);
    var denominator := MakePositive(signed, rhs);
    Magnitude(signed, lhs);
    Magnitude(signed, rhs);
    AbsZero(Number(signed, rhs));
    var d := Divide(numerator, denominator);
    if d.DivisionByZero? {
      return DivisionByZero;
    }
    var (quotient, remainder) := d.value;
    ghost var q := Value(quotient);
    if signed && Negative(rhs) != Negative(lhs) {
      quotient := UnaryMinus(quotient);
    }
    QuotientValue(Number(signed, lhs), Number(signed, rhs), q, Value(remainder));
    NegatedResidue((Number(signed, lhs) < 0) != (Number(signed, rhs) < 0), q, Value(quotient), Size(|lhs|));
    SlashResult(signed, lhs, rhs, quotient);
    return Done(quotient);
  }

  lemma AbsZero(x: int)
    ensures Abs(x) == 0 <==> x == 0
  {
  }

  lemma SlashResult(signed: bool, lhs: seq<nat>, rhs: seq<nat>, r: seq<nat>)
    requires Items(lhs) && Items(rhs) && Items(r) && |rhs| == |lhs| == |r| > 0
    requires Number(signed, rhs) != 0
    requires Cong(Value(r), Quotient(Number(signed, lhs), Number(signed, rhs)), Size(|lhs|))
    ensures var x, y := Number(signed, lhs), Number(signed, rhs);
            && Cong(Number(signed, r), Quotient(x, y), Size(|lhs|))
            && (if signed && 2 * x == 0 - Size(|lhs|) && y == -1
                then Number(signed, r) == x
                else Number(signed, r) == Quotient(x, y))
  {
    hide Value, Size, Cong, InRange, Number, Quotient;
    var x, y, s: int := Number(signed, lhs), Number(signed, rhs), Size(|lhs|);
    NumberByResidue(signed, r, Quotient(x, y));
    NumberRange(signed, lhs);
    NumberRange(signed, rhs);
    if signed && 2 * x == 0 - s && y == -1 {
      MinimumByMinusOne(|lhs|, x);
      CongTrans(Value(r), Quotient(x, y), x, s);
      NumberByResidue(signed, r, x);
    } else {
      QuotientRange(signed, |lhs|, x, y);
    }
  }

  lemma QuotientValue(x: int, y: int, q: nat, rem: nat)
    requires y != 0 && Abs(x) == q * Abs(y) + rem && rem < Abs(y)
    ensures Quotient(x, y) == if (x < 0) != (y < 0) then 0 - q else q
  {
    DivModUnique(Abs(x), Abs(y), q, rem);
  }

  lemma NegatedResidue(negate: bool, q: nat, r: nat, m: int)
    requires 0 < m && r == if negate then (0 - q) % m else q
    ensures Cong(r, if negate then 0 - q else q, m)
  {
    CongMod(0 - q, m);
  }

  lemma MinimumByMinusOne(n: nat, x: int)
    requires 2 * x == 0 - Size(n)
    ensures Cong(Quotient(x, -1), x, Size(n))
  {
    assert Quotient(x, -1) == 0 - x;
    CongIntro(0 - x, x, Size(n), 1);
  }

  lemma QuotientRange(signed: bool, n: nat, x: int, y: int)
    requires InRange(signed, n, x) && InRange(signed, n, y) && y != 0
    requires !(signed && 2 * x == 0 - Size(n) && y == -1)
    ensures InRange(signed, n, Quotient(x, y))
  {
    hide Size;
    var a, b := Abs(x), Abs(y);
    DivNonNeg(a, b);
    var q := a / b;
    DivBounds(a, b);
    if b >= 2 && a > 0 {
      MulMonotonic(2, b, q);
    }
    if b == 1 {
      assert q == a;
    }
  }

  /** `operator_percent` for operands of one type. */
  method OperatorPercent(signed: bool, lhs: seq<nat>, rhs: seq<nat>) returns (r: Outcome<seq<nat>>)
    requires Items(lhs) && Items(rhs) && |rhs| == |lhs| > 0
    ensures r.DivisionByZero? <==> Number(signed, rhs) == 0
    ensures r.Done? ==>
              && |r.value| == |lhs| && Items(r.value)
              && Number(signed, r.value) == Remainder(Number(signed, lhs), Number(signed, rhs))
  {
    hide Value, Size, Cong, InRange, Number, Negative, Remainder, Abs;
    var numerator := MakePositive(signed, lhs);
    var denominator := MakePositive(signed, rhs);
    Magnitude(signed, lhs);
    Magnitude(signed, rhs);
    AbsZero(Number(signed, rhs));
    var d := Divide(numerator, denominator);
    if d.DivisionByZero? {
      return DivisionByZero;
    }
    var (quotient, remainder) := d.value;
    ghost var rem := Value(remainder);
    if signed && Negative(lhs) {
      remainder := UnaryMinus(remainder);
    }
    PercentResult(signed, lhs, rhs, Value(quotient), rem, remainder);
    return Done(remainder);
  }

  lemma PercentResult(signed: bool, lhs: seq<nat>, rhs: seq<nat>, q: nat, rem: nat, r: seq<nat>)
    requires Items(lhs) && Items(rhs) && Items(r) && |rhs| == |lhs| == |r| > 0
    requires Number(signed, rhs) != 0
    requires Abs(Number(signed, lhs)) == q * Abs(Number(signed, rhs)) + rem && rem < Abs(Number(signed, rhs))
    requires Value(r) == if Number(signed, lhs) < 0 then (0 - rem) % Size(|lhs|) else rem
    ensures Number(signed, r) == Remainder(Number(signed, lhs), Number(signed, rhs))
  {
    hide Value, Size, Cong, InRange, Number;
    var x, y := Number(signed, lhs), Number(signed, rhs);
    DivModUnique(Abs(x), Abs(y), q, rem);
    NegatedResidue(x < 0, rem, Value(r), Size(|lhs|));
    NumberByResidue(signed, r, Remainder(x, y));
    NumberRange(signed, lhs);
    RemainderRange(signed, |lhs|, x, q, Abs(y), rem);
  }

  lemma RemainderRange(signed: bool, n: nat, x: int, q: nat, b: nat, rem: nat)
    requires InRange(signed, n, x) && Abs(x) == q * b + rem
    ensures InRange(signed, n, if x < 0 then 0 - rem else rem)
  {
    MulMonotonic(0, q, b);
  }
}
