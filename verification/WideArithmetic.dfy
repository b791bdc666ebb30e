/** Addition, subtraction, negation and comparison of wide integers, item by item. */
module WideArithmetic {
  import opened Arith
  import opened WideValue

  function Carry(b: bool): nat { if b then 1 else 0 }

  /** carry[0] == 0 and carry[i + 1] tells whether item i overflows. */
  ghost function Carries(flags: seq<bool>): (c: seq<nat>)
    ensures |c| == |flags| + 1
    ensures c[0] == 0 && forall i :: 0 <= i < |flags| ==> c[i + 1] == Carry(flags[i])
  {
    [0] + seq(|flags|, i requires 0 <= i < |flags| => Carry(flags[i]))
  }

  /** rhs, extended with zeros to n items. */
  ghost function Padded(rhs: seq<nat>, n: nat): (r: seq<nat>)
    requires |rhs| <= n
    ensures |r| == n && forall i :: 0 <= i < n ==> r[i] == if i < |rhs| then rhs[i] else 0
    ensures Items(rhs) ==> Items(r)
  {
    rhs + Repeat(0, n - |rhs|)
  }

  lemma PaddedValue(rhs: seq<nat>, n: nat)
    requires |rhs| <= n
    ensures Value(Padded(rhs, n)) == Value(rhs)
  {
    hide Value, Size, Repeat;
    var z := Repeat(0, n - |rhs|);
    ValueConcat(rhs, z);
    ValueRepeat(n - |rhs|);
    TimesZero(Size(|rhs|), Value(z));
  }

  /** A finished carry chain determines the result modulo 2^bits. */
  lemma ChainSum(a: seq<nat>, b: seq<nat>, r: seq<nat>, carry: seq<nat>)
    requires AddChain(a, b, r, carry) && carry[0] == 0 && Items(r)
    ensures Value(r) == (Value(a) + Value(b)) % Size(|a|)
  {
    hide Value, Size, AddChain;
    ChainLengths(a, b, r, carry);
    AddChainValue(a, b, r, carry);
    ValueBound(r);
    Reduced(Value(a) + Value(b), Size(|a|), carry[|a|], Value(r));
  }

  lemma ChainLengths(a: seq<nat>, b: seq<nat>, r: seq<nat>, carry: seq<nat>)
    requires AddChain(a, b, r, carry)
    ensures |a| == |b| == |r| && |carry| == |a| + 1
  {
  }

  lemma Reduced(x: int, s: int, c: int, v: int)
    requires 0 <= v < s && x == v + s * c
    ensures v == x % s
  {
    assert c * s == s * c;
    DivModUnique(x, s, c, v);
  }

  /** What item i takes from the item below it. */
  function CarryIn(flags: seq<bool>, i: nat): nat
    requires i <= |flags|
  {
    if i == 0 then 0 else Carry(flags[i - 1])
  }

  /** After the first pass of `plus`, each item is right up to its own overflow. */
  predicate Summed(x: nat, y: nat, r: nat, overflow: bool) {
    x + y == r + BASE * Carry(overflow)
  }

  /** After the second pass, each item has taken the overflow of the item below it. */
  predicate Carried(x: nat, y: nat, carryIn: nat, r: nat, overflow: bool) {
    x + y + carryIn == r + BASE * Carry(overflow)
  }

  lemma CarriedChain(a: seq<nat>, b: seq<nat>, r: seq<nat>, flags: seq<bool>)
    requires |a| == |b| == |r| == |flags|
    requires forall i: nat :: i < |a| ==> Carried(a[i], b[i], CarryIn(flags, i), r[i], flags[i])
    ensures AddChain(a, b, r, Carries(flags))
  {
    var c := Carries(flags);
    forall i: nat | i < |a| ensures a[i] + b[i] + c[i] == r[i] + BASE * c[i + 1] {
      assert Carried(a[i], b[i], CarryIn(flags, i), r[i], flags[i]);
      if i != 0 {
        assert c[(i - 1) + 1] == Carry(flags[i - 1]);
      }
    }
  }

  /** Incrementing an item overflows only if the item itself did not. */
  lemma Incremented(x: nat, y: nat, r: nat, overflow: bool)
    requires x < BASE && y < BASE && r < BASE && Summed(x, y, r, overflow)
    ensures Carried(x, y, 0, r, overflow)
    ensures var r' := (r + 1) % BASE; r' < BASE && Carried(x, y, 1, r', if r' == 0 then true else overflow)
  {
  }

  /** Decrementing an item underflows only if the item itself did not. */
  lemma Decremented(x: nat, y: nat, r: nat, underflow: bool)
    requires x < BASE && y < BASE && r < BASE && Summed(r, y, x, underflow)
    ensures Carried(r, y, 0, x, underflow)
    ensures Carried((r - 1) % BASE, y, 1, x, underflow || r == 0)
  {
  }

  /** The first pass of `plus`. */
  method AddItems(lhs: seq<nat>, rhs: seq<nat>) returns (res: seq<nat>, overflows: seq<bool>)
    requires Items(lhs) && Items(rhs) && |rhs| <= |lhs|
    ensures |res| == |overflows| == |lhs| && Items(res)
    ensures forall i: nat :: i < |lhs| ==> Summed(lhs[i], Padded(rhs, |lhs|)[i], res[i], overflows[i])
  {
    res := lhs;
    overflows := seq(|lhs|, i => false);
    ghost var b := Padded(rhs, |lhs|);
    var i := 0;
    while i < |rhs|
      invariant 0 <= i <= |rhs| && |res| == |overflows| == |lhs| && Items(res)
      invariant forall j: nat :: j < i ==> Summed(lhs[j], b[j], res[j], overflows[j])
      invariant forall j: nat :: i <= j < |lhs| ==> res[j] == lhs[j] && !overflows[j]
    {
      var rhsItem := rhs[i];
      res := res[i := (res[i] + rhsItem) % BASE];
      overflows := overflows[i := res[i] < rhsItem];
      i := i + 1;
    }
  }

  /** `plus`: a first pass adds the items, a second pass moves the carries. */
  method Plus(lhs: seq<nat>, rhs: seq<nat>) returns (res: seq<nat>)
    requires Items(lhs) && Items(rhs) && |rhs| <= |lhs|
    ensures |res| == |lhs| && Items(res)
    ensures Value(res) == (Value(lhs) + Value(rhs)) % Size(|lhs|)
  {
    hide Value, Size, Padded, AddChain, Summed, Carried, CarryIn, Passing;
    var overflows;
    res, overflows := AddItems(lhs, rhs);
    ghost var b := Padded(rhs, |lhs|);
    PassingStart(lhs, b, res, overflows);
    var i := 1;
    while i < |lhs|
      invariant 1 <= i && (i <= |lhs| || |lhs| == 0)
      invariant |res| == |overflows| == |lhs| && Items(res)
      invariant Passing(lhs, b, res, overflows, i)
    {
      ghost var before, flags := res, overflows;
      if overflows[i - 1] {
        var item := (res[i] + 1) % BASE;
        res := res[i := item];
        if item == 0 {
          overflows := overflows[i := true];
        }
      }
      PassingStep(lhs, b, before, flags, i, res, overflows);
      i := i + 1;
    }
    PassingEnd(lhs, b, res, overflows, i);
    CarriedChain(lhs, b, res, overflows);
    PlusResult(lhs, rhs, res, Carries(overflows));
  }

  /** The second pass: items below i have their carries, the others are sums of two items. */
  ghost predicate Passing(a: seq<nat>, b: seq<nat>, r: seq<nat>, flags: seq<bool>, i: nat)
    requires |a| == |b| == |r| == |flags|
  {
    && (forall j: nat :: j < |a| && j < i ==> Carried(a[j], b[j], CarryIn(flags, j), r[j], flags[j]))
    && (forall j: nat :: i <= j < |a| ==> Summed(a[j], b[j], r[j], flags[j]))
  }

  lemma PassingStart(a: seq<nat>, b: seq<nat>, r: seq<nat>, flags: seq<bool>)
    requires |a| == |b| == |r| == |flags| && Items(a) && Items(b) && Items(r)
    requires forall j: nat :: j < |a| ==> Summed(a[j], b[j], r[j], flags[j])
    ensures Passing(a, b, r, flags, 1)
  {
    hide Summed, Carried;
    if |a| != 0 {
      Incremented(a[0], b[0], r[0], flags[0]);
    }
  }

  lemma PassingStep(a: seq<nat>, b: seq<nat>, r: seq<nat>, flags: seq<bool>, i: nat, r': seq<nat>, flags': seq<bool>)
    requires |a| == |b| == |r| == |flags| && Items(a) && Items(b) && Items(r)
    requires 1 <= i < |a| && Passing(a, b, r, flags, i)
    requires r' == if flags[i - 1] then r[i := (r[i] + 1) % BASE] else r
    requires flags' == if flags[i - 1] && r'[i] == 0 then flags[i := true] else flags
    ensures Passing(a, b, r', flags', i + 1)
  {
    hide Summed, Carried;
    Incremented(a[i], b[i], r[i], flags[i]);
    assert Carried(a[i], b[i], CarryIn(flags', i), r'[i], flags'[i]);
  }

  lemma PassingEnd(a: seq<nat>, b: seq<nat>, r: seq<nat>, flags: seq<bool>, i: nat)
    requires |a| == |b| == |r| == |flags| && |a| <= i && Passing(a, b, r, flags, i)
    ensures forall j: nat :: j < |a| ==> Carried(a[j], b[j], CarryIn(flags, j), r[j], flags[j])
  {
    hide Carried;
  }

  lemma PlusResult(lhs: seq<nat>, rhs: seq<nat>, res: seq<nat>, carry: seq<nat>)
    requires Items(lhs) && Items(rhs) && |rhs| <= |lhs| && Items(res)
    requires AddChain(lhs, Padded(rhs, |lhs|), res, carry) && carry[0] == 0
    ensures Value(res) == (Value(lhs) + Value(rhs)) % Size(|lhs|)
  {
    hide Value, Size, Padded, AddChain;
    ChainSum(lhs, Padded(rhs, |lhs|), res, carry);
    PaddedValue(rhs, |lhs|);
  }

  /** The first pass of `minus`. */
  method SubtractItems(lhs: seq<nat>, rhs: seq<nat>) returns (res: seq<nat>, underflows: seq<bool>)
    requires Items(lhs) && Items(rhs) && |rhs| <= |lhs|
    ensures |res| == |underflows| == |lhs| && Items(res)
    ensures forall i: nat :: i < |lhs| ==> Summed(res[i], Padded(rhs, |lhs|)[i], lhs[i], underflows[i])
  {
    res := lhs;
    underflows := seq(|lhs|, i => false);
    ghost var b := Padded(rhs, |lhs|);
    var i := 0;
    while i < |rhs|
      invariant 0 <= i <= |rhs| && |res| == |underflows| == |lhs| && Items(res)
      invariant forall j: nat :: j < i ==> Summed(res[j], b[j], lhs[j], underflows[j])
      invariant forall j: nat :: i <= j < |lhs| ==> res[j] == lhs[j] && !underflows[j]
    {
      var rhsItem := rhs[i];
      underflows := underflows[i := res[i] < rhsItem];
      res := res[i := (res[i] - rhsItem) % BASE];
      i := i + 1;
    }
  }

  /** `minus`: the same two passes with borrows. */
  method Minus(lhs: seq<nat>, rhs: seq<nat>) returns (res: seq<nat>)
    requires Items(lhs) && Items(rhs) && |rhs| <= |lhs|
    ensures |res| == |lhs| && Items(res)
    ensures Value(res) == (Value(lhs) - Value(rhs)) % Size(|lhs|)
  {
    hide Value, Size, Padded, AddChain, Summed, Carried, CarryIn, Passing;
    var underflows;
    res, underflows := SubtractItems(lhs, rhs);
    ghost var b := Padded(rhs, |lhs|);
    BorrowingStart(lhs, b, res, underflows);
    var i := 1;
    while i < |lhs|
      invariant 1 <= i && (i <= |lhs| || |lhs| == 0)
      invariant |res| == |underflows| == |lhs| && Items(res)
      invariant Passing(res, b, lhs, underflows, i)
    {
      ghost var before, flags := res, underflows;
      if underflows[i - 1] {
        if res[i] == 0 {
          underflows := underflows[i := true];
        }
        res := res[i := (res[i] - 1) % BASE];
      }
      BorrowingStep(lhs, b, before, flags, i, res, underflows);
      i := i + 1;
    }
    PassingEnd(res, b, lhs, underflows, i);
    CarriedChain(res, b, lhs, underflows);
    ChainDifference(lhs, b, res, Carries(underflows));
    PaddedValue(rhs, |lhs|);
  }

  lemma BorrowingStart(a: seq<nat>, b: seq<nat>, r: seq<nat>, flags: seq<bool>)
    requires |a| == |b| == |r| == |flags| && Items(a) && Items(b) && Items(r)
    requires forall j: nat :: j < |a| ==> Summed(r[j], b[j], a[j], flags[j])
    ensures Passing(r, b, a, flags, 1)
  {
    hide Summed, Carried;
    if |a| != 0 {
      Decremented(a[0], b[0], r[0], flags[0]);
    }
  }

  lemma BorrowingStep(a: seq<nat>, b: seq<nat>, r: seq<nat>, flags: seq<bool>, i: nat, r': seq<nat>, flags': seq<bool>)
    requires |a| == |b| == |r| == |flags| && Items(a) && Items(b) && Items(r)
    requires 1 <= i < |a| && Passing(r, b, a, flags, i)
    requires r' == if flags[i - 1] then r[i := (r[i] - 1) % BASE] else r
    requires flags' == if flags[i - 1] && r[i] == 0 then flags[i := true] else flags
    ensures Passing(r', b, a, flags', i + 1)
  {
    hide Summed, Carried;
    Decremented(a[i], b[i], r[i], flags[i]);
    assert Carried(r'[i], b[i], CarryIn(flags', i), a[i], flags'[i]);
  }

  lemma ChainDifference(a: seq<nat>, b: seq<nat>, r: seq<nat>, carry: seq<nat>)
    requires AddChain(r, b, a, carry) && carry[0] == 0 && Items(r)
    ensures Value(r) == (Value(a) - Value(b)) % Size(|a|)
  {
    hide Value, Size, AddChain;
    ChainLengths(r, b, a, carry);
    AddChainValue(r, b, a, carry);
    ValueBound(r);
    var c: int := carry[|a|];
    assert Size(|a|) * (0 - c) == 0 - Size(|a|) * c;
    Reduced(Value(a) - Value(b), Size(|a|), 0 - c, Value(r));
  }

  /** `operator_unary_tilda` */
  method Complement(lhs: seq<nat>) returns (res: seq<nat>)
    requires Items(lhs)
    ensures |res| == |lhs| && Items(res)
    ensures Value(res) == Size(|lhs|) - 1 - Value(lhs)
  {
    res := seq(|lhs|, i => 0);
    var i := 0;
    while i < |lhs|
      invariant 0 <= i <= |lhs| == |res|
      invariant forall j :: 0 <= j < i ==> res[j] == BASE - 1 - lhs[j]
    {
      res := res[i := BASE - 1 - lhs[i]];
      i := i + 1;
    }
    ComplementValue(lhs, res);
    ValueBound(lhs);
  }

  lemma {:induction false} ComplementValue(a: seq<nat>, r: seq<nat>)
    requires |a| == |r| && forall j :: 0 <= j < |a| ==> r[j] + a[j] == BASE - 1
    ensures Value(r) + Value(a) == Size(|a|) - 1
  {
    if a != [] {
      ComplementValue(a[1..], r[1..]);
    }
  }

  /** `operator_unary_minus`: the complement plus one. */
  method UnaryMinus(lhs: seq<nat>) returns (res: seq<nat>)
    requires Items(lhs) && lhs != []
    ensures |res| == |lhs| && Items(res)
    ensures Value(res) == (0 - Value(lhs)) % Size(|lhs|)
  {
    var t := Complement(lhs);
    res := Plus(t, [1]);
    assert Value([1]) == 1 + BASE * Value([1][1..]);
    assert Value([1][1..]) == 0;
    CongIntro(Size(|lhs|) - 1 - Value(lhs) + 1, 0 - Value(lhs), Size(|lhs|), 1);
  }

  /** `operator_plus` for operands of one type: a negative right operand is negated and subtracted. */
  method OperatorPlus(signed: bool, lhs: seq<nat>, rhs: seq<nat>) returns (res: seq<nat>)
    requires Items(lhs) && Items(rhs) && |rhs| == |lhs| > 0
    ensures |res| == |lhs| && Items(res)
    ensures Cong(Number(signed, res), Number(signed, lhs) + Number(signed, rhs), Size(|lhs|))
    ensures InRange(signed, |lhs|, Number(signed, lhs) + Number(signed, rhs)) ==>
              Number(signed, res) == Number(signed, lhs) + Number(signed, rhs)
  {
    hide Value, Size, SignedValue, InRange, Cong;
    if signed && Negative(rhs) {
      var t := UnaryMinus(rhs);
      res := Minus(lhs, t);
      SubtractNegated(Value(lhs), Value(rhs), Value(t), Size(|lhs|));
    } else {
      res := Plus(lhs, rhs);
      CongMod(Value(lhs) + Value(rhs), Size(|lhs|));
    }
    NumberRange(signed, lhs);
    NumberRange(signed, rhs);
    SumResidue(Number(signed, lhs), Value(lhs), Number(signed, rhs), Value(rhs), Value(res), Size(|lhs|));
    NumberByResidue(signed, res, Number(signed, lhs) + Number(signed, rhs));
  }

  lemma SubtractNegated(x: int, y: int, t: int, m: int)
    requires 0 < m && t == (0 - y) % m
    ensures Cong((x - t) % m, x + y, m)
  {
    CongMod(0 - y, m);
    CongSub(x, x, t, 0 - y, m);
    CongMod(x - t, m);
  }

  lemma AddNegated(x: int, y: int, t: int, m: int)
    requires 0 < m && t == (0 - y) % m
    ensures Cong((x + t) % m, x - y, m)
  {
    CongMod(0 - y, m);
    CongAdd(x, x, t, 0 - y, m);
    CongMod(x + t, m);
  }

  lemma SumResidue(x: int, x': int, y: int, y': int, r: int, m: int)
    requires 0 < m && Cong(x, x', m) && Cong(y, y', m) && Cong(r, x' + y', m)
    ensures Cong(r, x + y, m)
  {
    CongAdd(x, x', y, y', m);
  }

  lemma DifferenceResidue(x: int, x': int, y: int, y': int, r: int, m: int)
    requires 0 < m && Cong(x, x', m) && Cong(y, y', m) && Cong(r, x' - y', m)
    ensures Cong(r, x - y, m)
  {
    CongSub(x, x', y, y', m);
  }

  /** `operator_minus` for operands of one type. */
  method OperatorMinus(signed: bool, lhs: seq<nat>, rhs: seq<nat>) returns (res: seq<nat>)
    requires Items(lhs) && Items(rhs) && |rhs| == |lhs| > 0
    ensures |res| == |lhs| && Items(res)
    ensures Cong(Number(signed, res), Number(signed, lhs) - Number(signed, rhs), Size(|lhs|))
    ensures InRange(signed, |lhs|, Number(signed, lhs) - Number(signed, rhs)) ==>
              Number(signed, res) == Number(signed, lhs) - Number(signed, rhs)
  {
    hide Value, Size, SignedValue, InRange, Cong;
    if signed && Negative(rhs) {
      var t := UnaryMinus(rhs);
      res := Plus(lhs, t);
      AddNegated(Value(lhs), Value(rhs), Value(t), Size(|lhs|));
    } else {
      res := Minus(lhs, rhs);
      CongMod(Value(lhs) - Value(rhs), Size(|lhs|));
    }
    NumberRange(signed, lhs);
    NumberRange(signed, rhs);
    DifferenceResidue(Number(signed, lhs), Value(lhs), Number(signed, rhs), Value(rhs), Value(res), Size(|lhs|));
    NumberByResidue(signed, res, Number(signed, lhs) - Number(signed, rhs));
  }

  // --- comparison --------------------------------------------------------------------------------

  /** The highest differing item decides. */
  lemma HighestDecides(a: seq<nat>, b: seq<nat>, k: nat)
    requires Items(a) && Items(b) && |a| == |b| && k < |a|
    requires a[k] < b[k] && a[k + 1..] == b[k + 1..]
    ensures Value(a) < Value(b)
  {
    hide Value, Size;
    FirstDecides(a[k..], b[k..]);
    SplitValue(a, k);
    SplitValue(b, k);
    ValueBound(a[..k]);
    HigherBlock(Value(a[..k]), Value(a[k..]), Value(b[..k]), Value(b[k..]), Size(k));
  }

  /** The lowest items of two numbers that agree above. */
  lemma FirstDecides(a: seq<nat>, b: seq<nat>)
    requires a != [] && b != [] && a[0] < b[0] && a[1..] == b[1..]
    ensures Value(a) < Value(b)
  {
  }

  lemma SplitValue(a: seq<nat>, k: nat)
    requires k <= |a|
    ensures Value(a) == Value(a[..k]) + Size(k) * Value(a[k..])
  {
    hide Value, Size;
    assert a == a[..k] + a[k..];
    ValueConcat(a[..k], a[k..]);
  }

  lemma HigherBlock(lo: nat, hi: nat, lo': nat, hi': nat, s: nat)
    requires lo < s && hi < hi'
    ensures lo + s * hi < lo' + s * hi'
  {
    MulMonotonic(hi + 1, hi', s);
  }

  lemma SignsDecide(lhs: seq<nat>, rhs: seq<nat>)
    requires Items(lhs) && Items(rhs) && |rhs| == |lhs| > 0 && Negative(lhs) && !Negative(rhs)
    ensures SignedValue(lhs) < SignedValue(rhs)
  {
    ValueBound(lhs);
  }

  /** `operator_less`: the signs decide, then the items from the most significant one down. */
  method OperatorLess(signed: bool, lhs: seq<nat>, rhs: seq<nat>) returns (r: bool)
    requires Items(lhs) && Items(rhs) && |rhs| == |lhs| > 0
    ensures r <==> Number(signed, lhs) < Number(signed, rhs)
  {
    hide Value, Size;
    if signed && Negative(lhs) != Negative(rhs) {
      if Negative(lhs) {
        SignsDecide(lhs, rhs);
      } else {
        SignsDecide(rhs, lhs);
      }
      return Negative(lhs);
    }
    var i := 0;
    while i < |lhs|
      invariant 0 <= i <= |lhs| && lhs[|lhs| - i..] == rhs[|lhs| - i..]
    {
      var big := |lhs| - 1 - i;
      if lhs[big] != rhs[big] {
        if lhs[big] < rhs[big] {
          HighestDecides(lhs, rhs, big);
        } else {
          HighestDecides(rhs, lhs, big);
        }
        return lhs[big] < rhs[big];
      }
      assert lhs[big..] == [lhs[big]] + lhs[big + 1..] && rhs[big..] == [rhs[big]] + rhs[big + 1..];
      i := i + 1;
    }
    assert lhs == lhs[0..] && rhs == rhs[0..];
    return false;
  }

  /** `operator_greater` */
  method OperatorGreater(signed: bool, lhs: seq<nat>, rhs: seq<nat>) returns (r: bool)
    requires Items(lhs) && Items(rhs) && |rhs| == |lhs| > 0
    ensures r <==> Number(signed, lhs) > Number(signed, rhs)
  {
    hide Value, Size;
    if signed && Negative(lhs) != Negative(rhs) {
      if Negative(lhs) {
        SignsDecide(lhs, rhs);
      } else {
        SignsDecide(rhs, lhs);
      }
      return Negative(rhs);
    }
    var i := 0;
    while i < |lhs|
      invariant 0 <= i <= |lhs| && lhs[|lhs| - i..] == rhs[|lhs| - i..]
    {
      var big := |lhs| - 1 - i;
      if lhs[big] != rhs[big] {
        if lhs[big] < rhs[big] {
          HighestDecides(lhs, rhs, big);
        } else {
          HighestDecides(rhs, lhs, big);
        }
        return lhs[big] > rhs[big];
      }
      assert lhs[big..] == [lhs[big]] + lhs[big + 1..] && rhs[big..] == [rhs[big]] + rhs[big + 1..];
      i := i + 1;
    }
    assert lhs == lhs[0..] && rhs == rhs[0..];
    return false;
  }

  /** `is_zero` */
  method IsZero(x: seq<nat>) returns (r: bool)
    requires Items(x)
    ensures r <==> Value(x) == 0
  {
    var i := 0;
    while i < |x|
      invariant 0 <= i <= |x|
      invariant forall j :: 0 <= j < i ==> x[j] == 0
    {
      if x[i] != 0 {
        NonZeroValue(x, i);
        return false;
      }
      i := i + 1;
    }
    assert x == Repeat(0, |x|);
    ValueRepeat(|x|);
    return true;
  }

  lemma {:induction false} NonZeroValue(x: seq<nat>, i: nat)
    requires i < |x| && x[i] != 0
    ensures Value(x) != 0
  {
    if i != 0 {
      NonZeroValue(x[1..], i - 1);
    }
  }
}
