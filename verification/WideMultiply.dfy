/** Multiplication of wide integers: by shifting and adding, and by half words for 256 bits. */
module WideMultiply {
  import opened Arith
  import opened WideValue
  import opened WideArithmetic
  import opened WideShift

  // --- shift and add -----------------------------------------------------------------------------

  /** `res` is the product of l with the part of the right operand that has been consumed. */
  ghost predicate Accumulated(res: int, l: int, done: int, m: int)
    requires 0 < m
  {
    Cong(res, l * done, m)
  }

  /** `lw` is w times l. */
  ghost predicate Multiple(lw: int, l: int, w: int, m: int)
    requires 0 < m
  {
    Cong(lw, l * w, m)
  }

  /** Adding a shifted multiple consumes the bits it stands for. */
  lemma AddShifted(res: nat, l: nat, done: nat, lw: nat, w: nat, p: nat, t: nat, m: nat)
    requires 0 < m && Accumulated(res, l, done, m) && Multiple(lw, l, w, m) && t == lw * p % m
    ensures Accumulated((res + t) % m, l, done + w * p, m)
  {
    hide Cong;
    CongRefl(p, m);
    CongMul(lw, l * w, p, p, m);
    CongMod(lw * p, m);
    CongTrans(t, lw * p, l * w * p, m);
    CongAdd(res, l * done, t, l * w * p, m);
    CongMod(res + t, m);
    CongTrans((res + t) % m, res + t, l * done + l * w * p, m);
    DistributeShift(l, done, w, p);
  }

  lemma DistributeShift(l: nat, done: nat, w: nat, p: nat)
    ensures l * done + l * w * p == l * (done + w * p)
  {
    assert l * w * p == l * (w * p);
  }

  /** What is left of an item after k bits, all ones, are consumed at position pos. */
  lemma ConsumeOnes(total: nat, done: nat, item: nat, pos: nat, k: nat, limit: nat)
    requires total == done + item * Pow2(pos)
    requires pos <= limit && item < Pow2(limit - pos)
    requires 1 <= k && item % Pow2(k) == Pow2(k) - 1
    ensures total == done + (Pow2(k) - 1) * Pow2(pos) + Shr(item, k) * Pow2(pos + k)
    ensures pos + k <= limit && Shr(item, k) < Pow2(limit - (pos + k)) && Shr(item, k) < item
  {
    hide Pow2, Shr;
    var q := Shr(item, k);
    ShrEquation(item, k);
    if limit < pos + k {
      Pow2Monotonic(limit - pos, k - 1);
      Doubles(k);
    }
    Pow2Add(limit - (pos + k), k);
    Pow2Add(k, pos);
    ConsumeAlgebra(item, q, Pow2(k), Pow2(pos));
    QuotientBelow(item, q, Pow2(k), Pow2(limit - (pos + k)));
  }

  lemma ShrEquation(x: nat, k: nat)
    requires 1 <= k
    ensures x == Shr(x, k) * Pow2(k) + x % Pow2(k) && 2 <= Pow2(k)
  {
    Pow2Monotonic(1, k);
    SmallPowers();
  }

  lemma QuotientBelow(x: nat, q: nat, p: nat, m: nat)
    requires q * p <= x < m * p && 2 <= p && x == q * p + (p - 1)
    ensures q < m && q < x
  {
    MulMonotonic(1, p, q);
    if q >= m {
      MulMonotonic(m, q, p);
    }
  }

  lemma Doubles(k: nat)
    requires 1 <= k
    ensures Pow2(k) == 2 * Pow2(k - 1)
  {
  }

  lemma ConsumeAlgebra(item: nat, q: nat, pk: nat, pp: nat)
    requires item == q * pk + (pk - 1) && 1 <= pk
    ensures item * pp == (pk - 1) * pp + q * (pk * pp)
  {
    assert (q * pk + (pk - 1)) * pp == q * pk * pp + (pk - 1) * pp;
    assert q * pk * pp == q * (pk * pp);
  }

  lemma ConsumeZero(total: nat, done: nat, item: nat, pos: nat, limit: nat)
    requires total == done + item * Pow2(pos)
    requires pos <= limit && item < Pow2(limit - pos) && 0 < item
    requires item % 2 == 0
    ensures total == done + item / 2 * Pow2(pos + 1)
    ensures pos + 1 <= limit && item / 2 < Pow2(limit - (pos + 1)) && item / 2 < item
  {
    hide Pow2;
    SmallPowers();
    if limit == pos {
    } else {
      Doubles(limit - pos);
      Doubles(pos + 1);
      assert item == 2 * (item / 2);
      assert 2 * (item / 2) * Pow2(pos) == item / 2 * (2 * Pow2(pos));
    }
  }

  /** The state of the loop over the bits of one item. */
  ghost predicate Consuming(res: seq<nat>, lhs: seq<nat>, total: nat, done: nat, item: nat, pos: nat, limit: nat) {
    && |res| == |lhs| && Items(res)
    && total == done + item * Pow2(pos) && pos <= limit && item < Pow2(limit - pos)
    && Accumulated(Value(res), Value(lhs), done, Size(|lhs|))
  }

  /** Adds lw << pos, where lw is (2^k - 1) * lhs. */
  method AddAt(res: seq<nat>, lhs: seq<nat>, lw: seq<nat>, item: nat, pos: nat, k: nat,
               ghost total: nat, ghost done: nat, ghost limit: nat) returns (r: seq<nat>, ghost done': nat)
    requires Items(lhs) && Items(lw) && |lw| == |lhs| && limit <= 64 * |lhs|
    requires Consuming(res, lhs, total, done, item, pos, limit)
    requires 1 <= k && item % Pow2(k) == Pow2(k) - 1
    requires Multiple(Value(lw), Value(lhs), Pow2(k) - 1, Size(|lhs|))
    ensures Consuming(r, lhs, total, done', Shr(item, k), pos + k, limit) && Shr(item, k) < item
  {
    hide Value, Size, Pow2, Accumulated, Multiple;
    ConsumeOnes(total, done, item, pos, k, limit);
    var shifted := ShiftLeft(lw, pos);
    r := Plus(res, shifted);
    AddShifted(Value(res), Value(lhs), done, Value(lw), Pow2(k) - 1, Pow2(pos), Value(shifted), Size(|lhs|));
    done' := done + (Pow2(k) - 1) * Pow2(pos);
  }

  /** w * l for w = 1, 3 and 7. */
  lemma FirstMultiples(l: nat, t1: nat, l2: nat, t2: nat, l3: nat, m: nat)
    requires 0 < m && t1 == l * 2 % m && l2 == (l + t1) % m && t2 == l * 4 % m && l3 == (l2 + t2) % m
    ensures Multiple(l, l, 1, m) && Multiple(l2, l, 3, m) && Multiple(l3, l, 7, m)
  {
    hide Cong;
    CongRefl(l, m);
    AddReduced(l, l, l * 2, t1, m);
    AddReduced(l2, l * 3, l * 4, t2, m);
  }

  lemma AddReduced(x: int, x': int, y: int, t: int, m: int)
    requires 0 < m && Cong(x, x', m) && t == y % m
    ensures Cong((x + t) % m, x' + y, m)
  {
    CongMod(y, m);
    CongAdd(x, x', t, y, m);
    CongMod(x + t, m);
  }

  /** The general form of `multiply`: one, two or three bits of the right operand at a time. */
  method MultiplyByShifts(lhs: seq<nat>, rhs: seq<nat>) returns (res: seq<nat>)
    requires Items(lhs) && Items(rhs) && |rhs| == |lhs| > 0
    ensures |res| == |lhs| && Items(res)
    ensures Value(res) == Value(lhs) * Value(rhs) % Size(|lhs|)
  {
    hide Value, Size, Pow2, Accumulated, Multiple, Cong;
    var t1 := ShiftLeft(lhs, 1);
    var lhs2 := Plus(lhs, t1);
    var t2 := ShiftLeft(lhs, 2);
    var lhs3 := Plus(lhs2, t2);
    SmallPowers();
    EightIsPow2();
    FirstMultiples(Value(lhs), Value(t1), Value(lhs2), Value(t2), Value(lhs3), Size(|lhs|));
    res := Repeat(0, |lhs|);
    ghost var done := 0;
    StartProduct(lhs);
    var i := 0;
    while i < |lhs|
      invariant 0 <= i <= |lhs| && |res| == |lhs| && Items(res)
      invariant done == Value(rhs[..i]) && Accumulated(Value(res), Value(lhs), done, Size(|lhs|))
    {
      var rhsItem := rhs[i];
      var pos := i * 64;
      ghost var total, limit := Value(rhs[..i + 1]), i * 64 + 64;
      StartItem(rhs, i);
      while rhsItem != 0
        invariant 0 <= rhsItem && 0 <= pos
        invariant Consuming(res, lhs, total, done, rhsItem, pos, limit)
      {
        if rhsItem % 8 == 7 {
          res, done := AddAt(res, lhs, lhs3, rhsItem, pos, 3, total, done, limit);
          rhsItem, pos := rhsItem / 8, pos + 3;
        } else if rhsItem % 4 == 3 {
          res, done := AddAt(res, lhs, lhs2, rhsItem, pos, 2, total, done, limit);
          rhsItem, pos := rhsItem / 4, pos + 2;
        } else {
          if rhsItem % 2 == 1 {
            res, done := AddAt(res, lhs, lhs, rhsItem, pos, 1, total, done, limit);
          } else {
            ConsumeZero(total, done, rhsItem, pos, limit);
          }
          rhsItem, pos := rhsItem / 2, pos + 1;
        }
      }
      NothingLeft(total, done, rhsItem, pos);
      i := i + 1;
    }
    assert rhs[..|lhs|] == rhs;
    FinishProduct(res, lhs, rhs);
  }

  lemma EightIsPow2()
    ensures Pow2(3) == 8
  {
  }

  lemma NothingLeft(total: nat, done: nat, item: nat, pos: nat)
    requires item == 0 && total == done + item * Pow2(pos)
    ensures total == done
  {
    assert 0 * Pow2(pos) == 0;
  }

  lemma StartProduct(lhs: seq<nat>)
    requires Items(lhs) && lhs != []
    ensures Value([]) == 0
    ensures Accumulated(Value(Repeat(0, |lhs|)), Value(lhs), 0, Size(|lhs|))
  {
    ValueRepeat(|lhs|);
  }

  lemma StartItem(rhs: seq<nat>, i: nat)
    requires Items(rhs) && i < |rhs|
    ensures Value(rhs[..i + 1]) == Value(rhs[..i]) + rhs[i] * Pow2(i * 64)
    ensures rhs[i] < Pow2(i * 64 + 64 - i * 64)
  {
    hide Value, Size, Pow2;
    BaseIsPow2();
    assert rhs[..i + 1] == rhs[..i] + [rhs[i]];
    ValueConcat(rhs[..i], [rhs[i]]);
    SingleValue(rhs[i]);
    PowerOfShift(i, 0);
    SmallPowers();
  }

  lemma SingleValue(x: nat)
    ensures Value([x]) == x
  {
    assert Value([x][1..]) == 0;
  }

  lemma FinishProduct(res: seq<nat>, lhs: seq<nat>, rhs: seq<nat>)
    requires Items(res) && |res| == |lhs| && Accumulated(Value(res), Value(lhs), Value(rhs), Size(|lhs|))
    ensures Value(res) == Value(lhs) * Value(rhs) % Size(|lhs|)
  {
    ValueBound(res);
    SmallMod(Value(res), Size(|lhs|));
  }

  // --- 256 bits by half words --------------------------------------------------------------------

  const HALF: nat := 0x1_0000_0000_0000_0000_0000_0000_0000_0000

  const FULL: nat := 0x1_0000_0000_0000_0000_0000_0000_0000_0000_0000_0000_0000_0000_0000_0000_0000_0000

  lemma ValueOf4(s: seq<nat>)
    requires |s| == 4
    ensures Value(s) == s[0] + BASE * s[1] + HALF * (s[2] + BASE * s[3])
  {
    SingleValue(s[3]);
    assert s[3..] == [s[3]] && s[2..][1..] == s[3..] && s[1..][1..] == s[2..];
    assert Value(s[2..]) == s[2] + BASE * Value(s[3..]);
    assert Value(s[1..]) == s[1] + BASE * Value(s[2..]);
  }

  lemma SizeOf4()
    ensures Size(4) == FULL
  {
    assert Size(2) == HALF;
    SizeAdd(2, 2);
  }

  /** A 128-bit sum whose carry goes to the top item: it wrapped if it is smaller than an operand. */
  method AddCarrying(x: nat, y: nat, item3: nat) returns (sum: nat, item: nat, ghost carry: nat, ghost wraps: nat)
    requires x < HALF && y < HALF && item3 < BASE
    ensures sum < HALF && sum == x + y - carry * HALF
    ensures item < BASE && item3 + carry == item + wraps * BASE
  {
    sum := (x + y) % HALF;
    AddHalf(x, y);
    item, carry, wraps := item3, 0, 0;
    if sum < y {
      carry, wraps := 1, if item3 + 1 == BASE then 1 else 0;
      item := (item3 + 1) % BASE;
    }
  }

  /** The items of the 256-bit product, from the products of the 64-bit items: r23 collects the high
      half, p10 + p01 goes to the middle with at most two carries. */
  method JoinHalves(p00: nat, p10: nat, p01: nat, wide: bool, r23: nat) returns (res: seq<nat>)
    requires p00 < HALF && p10 < HALF && p01 < HALF && r23 < HALF && (wide || p01 == 0)
    ensures |res| == 4 && Items(res)
    ensures Cong(res[0] + BASE * res[1] + HALF * (res[2] + BASE * res[3]),
                 p00 + BASE * (p10 + p01) + HALF * r23, FULL)
  {
    hide Cong;
    var h00, item0 := Split(p00);
    var h23, l23 := Split(r23);
    var middle := (h00 + r23 * BASE % HALF) % HALF;
    MiddleStart(h00, r23, h23, l23);
    var r12x, item := p10, h23;
    ghost var c1, w1 := 0, 0;
    if wide {
      r12x, item, c1, w1 := AddCarrying(p10, p01, item);
    }
    var r12, item3;
    ghost var c2, w2;
    r12, item3, c2, w2 := AddCarrying(middle, r12x, item);
    var hi, lo := Split(r12);
    HalvesSum(p00, p10, p01, r23, h00, item0, h23, l23, middle, r12x, r12, hi, lo, c1, c2, item, item3, w1, w2);
    MultipleOfFull(p00 + BASE * (p10 + p01) + HALF * r23, item0 + BASE * lo + HALF * (hi + BASE * item3), w1 + w2);
    res := [item0, lo, hi, item3];
  }

  /** The high and the low word of a 128-bit number. */
  method Split(x: nat) returns (hi: nat, lo: nat)
    requires x < HALF
    ensures x == hi * BASE + lo && hi < BASE && lo < BASE
  {
    hi, lo := x / BASE, x % BASE;
  }

  lemma MultipleOfFull(x: int, y: int, w: int)
    requires x == y + w * FULL
    ensures Cong(y, x, FULL)
  {
    CongIntro(x, y, FULL, w);
  }

  lemma MiddleStart(h00: nat, r23: nat, h23: nat, l23: nat)
    requires h00 < BASE && l23 < BASE && h23 < BASE && r23 == h23 * BASE + l23
    ensures (h00 + r23 * BASE % HALF) % HALF == h00 + l23 * BASE < HALF
  {
    DivModUnique(r23 * BASE, HALF, h23, l23 * BASE);
    SmallMod(h00 + l23 * BASE, HALF);
  }

  /** Whether a 128-bit sum wrapped shows in its being smaller than an operand. */
  lemma AddHalf(x: nat, y: nat)
    requires x < HALF && y < HALF
    ensures (x + y) % HALF == x + y - (if (x + y) % HALF < y then HALF else 0)
  {
    DivModUnique(x + y, HALF, if x + y < HALF then 0 else 1, if x + y < HALF then x + y else x + y - HALF);
  }

  lemma HalvesSum(p00: nat, p10: nat, p01: nat, r23: nat, q00: nat, m00: nat, q23: nat, m23: nat, middle: nat,
                  r12x: nat, r12: nat, hi: nat, lo: nat, c1: nat, c2: nat, item: nat, item3: nat, w1: nat, w2: nat)
    requires p00 == q00 * BASE + m00 && r23 == q23 * BASE + m23 && middle == q00 + m23 * BASE
    requires r12x == p10 + p01 - c1 * HALF && r12 == middle + r12x - c2 * HALF && r12 == hi * BASE + lo
    requires q23 + c1 == item + w1 * BASE && item + c2 == item3 + w2 * BASE
    ensures p00 + BASE * (p10 + p01) + HALF * r23
            == m00 + BASE * lo + HALF * (hi + BASE * item3) + (w1 + w2) * FULL
  {
  }

  /** The 256-bit form of `multiply`, on 128-bit halves; a right operand of one item is a built-in
      word. */
  method MultiplyByHalves(lhs: seq<nat>, rhs: seq<nat>) returns (res: seq<nat>)
    requires Items(lhs) && Items(rhs) && |lhs| == 4 && (|rhs| == 1 || |rhs| == 4)
    ensures |res| == 4 && Items(res)
    ensures Value(res) == Value(lhs) * Value(rhs) % Size(4)
  {
    hide Value, Size, Cong;
    var a01 := lhs[1] * BASE + lhs[0];
    var a23 := lhs[3] * BASE + lhs[2];
    var a0, a1 := lhs[0], lhs[1];
    var b0, b1, b23 := rhs[0], 0, 0;
    if |rhs| > 1 {
      b1, b23 := rhs[1], rhs[3] * BASE + rhs[2];
    }
    var b01 := b1 * BASE + b0;
    var r23 := (a23 * b01 + a01 * b23 + a1 * b1) % HALF;
    ProductBound(a0, b0, BASE);
    ProductBound(a1, b0, BASE);
    ProductBound(a0, b1, BASE);
    res := JoinHalves(a0 * b0, a1 * b0, a0 * b1, |rhs| > 1, r23);
    ProductResidue(lhs, rhs, res, a01, a23, b01, b23, r23);
  }

  lemma ProductResidue(lhs: seq<nat>, rhs: seq<nat>, res: seq<nat>, a01: nat, a23: nat, b01: nat, b23: nat, r23: nat)
    requires Items(lhs) && Items(rhs) && Items(res) && |lhs| == |res| == 4 && (|rhs| == 1 || |rhs| == 4)
    requires a01 == lhs[1] * BASE + lhs[0] && a23 == lhs[3] * BASE + lhs[2]
    requires b01 == (if |rhs| > 1 then rhs[1] else 0) * BASE + rhs[0]
    requires b23 == if |rhs| > 1 then rhs[3] * BASE + rhs[2] else 0
    requires var b1 := if |rhs| > 1 then rhs[1] else 0;
             && r23 == (a23 * b01 + a01 * b23 + lhs[1] * b1) % HALF
             && Cong(res[0] + BASE * res[1] + HALF * (res[2] + BASE * res[3]),
                     lhs[0] * rhs[0] + BASE * (lhs[1] * rhs[0] + lhs[0] * b1) + HALF * r23, FULL)
    ensures Value(res) == Value(lhs) * Value(rhs) % Size(4)
  {
    hide Value, Size, Cong;
    ValueOf4(lhs);
    ValueOf4(res);
    var b1 := if |rhs| > 1 then rhs[1] else 0;
    RightHalves(rhs, b01, b23);
    SizeOf4();
    ValueBound(res);
    ResidueOfProduct(Value(lhs), Value(rhs), Value(res), lhs[0], lhs[1], rhs[0], b1, a01, a23, b01, b23, r23);
  }

  lemma RightHalves(rhs: seq<nat>, b01: nat, b23: nat)
    requires |rhs| == 1 || |rhs| == 4
    requires b01 == (if |rhs| > 1 then rhs[1] else 0) * BASE + rhs[0]
    requires b23 == if |rhs| > 1 then rhs[3] * BASE + rhs[2] else 0
    ensures Value(rhs) == b01 + HALF * b23
  {
    if |rhs| > 1 {
      ValueOf4(rhs);
    } else {
      assert rhs == [rhs[0]];
      SingleValue(rhs[0]);
    }
  }

  lemma ResidueOfProduct(vl: nat, vr: nat, v: nat, a0: nat, a1: nat, b0: nat, b1: nat, a01: nat, a23: nat, b01: nat,
                         b23: nat, r23: nat)
    requires vl == a01 + HALF * a23 && vr == b01 + HALF * b23 && v < FULL
    requires a01 == a1 * BASE + a0 && b01 == b1 * BASE + b0
    requires r23 == (a23 * b01 + a01 * b23 + a1 * b1) % HALF
    requires Cong(v, a0 * b0 + BASE * (a1 * b0 + a0 * b1) + HALF * r23, FULL)
    ensures v == vl * vr % FULL
  {
    hide Cong;
    var p11, u, w := a1 * b1, a23 * b01, a01 * b23;
    var low := a0 * b0 + BASE * (a1 * b0 + a0 * b1);
    DigitProducts(a0, a1, b0, b1, BASE);
    assert a01 * b01 == low + HALF * p11;
    HighResidue(v, low, r23, u + w + p11);
    FullProduct(vl, vr, a01, a23, b01, b23, low, p11, u, w);
    CongTrans(v, low + HALF * (u + w + p11), vl * vr, FULL);
    CongReduce(v, vl * vr, FULL);
  }

  /** Dropping the bits of r23 above 128 changes the sum by a multiple of 2^256. */
  lemma HighResidue(r: nat, low: nat, r23: nat, high: nat)
    requires r23 == high % HALF && Cong(r, low + HALF * r23, FULL)
    ensures Cong(r, low + HALF * high, FULL)
  {
    var k := high / HALF;
    CongIntro(low + HALF * high, low + HALF * r23, FULL, k);
  }

  lemma FullProduct(vl: nat, vr: nat, a01: nat, a23: nat, b01: nat, b23: nat, low: nat, p11: nat, u: nat, v: nat)
    requires vl == a01 + HALF * a23 && vr == b01 + HALF * b23
    requires a01 * b01 == low + HALF * p11 && u == a23 * b01 && v == a01 * b23
    ensures Cong(low + HALF * (u + v + p11), vl * vr, FULL)
  {
    var w := a23 * b23;
    assert vl * vr == a01 * b01 + HALF * v + HALF * u + FULL * w;
    CongIntro(vl * vr, low + HALF * (u + v + p11), FULL, w);
  }

  lemma CongReduce(r: nat, x: int, m: int)
    requires 0 < m && r < m && Cong(r, x, m)
    ensures r == x % m
  {
    SmallMod(r, m);
  }

  // --- the operator ------------------------------------------------------------------------------

  /** `multiply` for operands of one type: half words for 256 bits, the compiler's 128-bit product for
      128 bits, shifts otherwise. */
  method Multiply(lhs: seq<nat>, rhs: seq<nat>) returns (res: seq<nat>)
    requires Items(lhs) && Items(rhs) && |rhs| == |lhs| > 0
    ensures |res| == |lhs| && Items(res)
    ensures Value(res) == Value(lhs) * Value(rhs) % Size(|lhs|)
  {
    if |lhs| == 4 {
      res := MultiplyByHalves(lhs, rhs);
    } else if |lhs| == 2 {
      var a, b := lhs[1] * BASE + lhs[0], rhs[1] * BASE + rhs[0];
      hide Value, Size;
      ValueOf2(lhs);
      ValueOf2(rhs);
      var c := a * b % HALF;
      res := [c % BASE, c / BASE];
      ValueOf2(res);
    } else {
      res := MultiplyByShifts(lhs, rhs);
    }
  }

  lemma ValueOf2(s: seq<nat>)
    requires |s| == 2
    ensures Value(s) == s[1] * BASE + s[0] && Size(2) == HALF
  {
    SingleValue(s[1]);
    assert s[1..] == [s[1]];
  }

  /** `make_positive` */
  method MakePositive(signed: bool, n: seq<nat>) returns (r: seq<nat>)
    requires Items(n) && n != []
    ensures |r| == |n| && Items(r)
    ensures Value(r) == Abs(Number(signed, n))
  {
    hide Value, Size;
    Magnitude(signed, n);
    if signed && Negative(n) {
      r := UnaryMinus(n);
    } else {
      r := n;
    }
  }

  function Abs(x: int): nat { if x < 0 then -x else x }

  lemma Magnitude(signed: bool, n: seq<nat>)
    requires Items(n) && n != []
    ensures Number(signed, n) < 0 <==> signed && Negative(n)
    ensures signed && Negative(n) ==> Abs(Number(signed, n)) == (0 - Value(n)) % Size(|n|)
    ensures !(signed && Negative(n)) ==> Abs(Number(signed, n)) == Value(n)
  {
    hide Value, Size;
    ValueBound(n);
    NegativeIff(n);
    if signed && Negative(n) {
      DivModUnique(0 - Value(n), Size(|n|), -1, Size(|n|) - Value(n));
    }
  }

  /** `operator_star`: the product of the magnitudes, with the sign of the product. */
  method OperatorStar(signed: bool, lhs: seq<nat>, rhs: seq<nat>) returns (res: seq<nat>)
    requires Items(lhs) && Items(rhs) && |rhs| == |lhs| > 0
    ensures |res| == |lhs| && Items(res)
    ensures Cong(Number(signed, res), Number(signed, lhs) * Number(signed, rhs), Size(|lhs|))
    ensures InRange(signed, |lhs|, Number(signed, lhs) * Number(signed, rhs)) ==>
              Number(signed, res) == Number(signed, lhs) * Number(signed, rhs)
  {
    hide Value, Size, Cong, InRange, Number, Negative, Abs;
    var l := MakePositive(signed, lhs);
    var r := MakePositive(signed, rhs);
    res := Multiply(l, r);
    Magnitude(signed, lhs);
    Magnitude(signed, rhs);
    ghost var product := Value(res);
    if signed && Negative(lhs) != Negative(rhs) {
      res := UnaryMinus(res);
    }
    SignedProduct(Number(signed, lhs), Number(signed, rhs), product, Value(res), Size(|lhs|));
    NumberByResidue(signed, res, Number(signed, lhs) * Number(signed, rhs));
  }

  lemma SignedProduct(x: int, y: int, product: int, r: int, m: int)
    requires 0 < m && product == Abs(x) * Abs(y) % m
    requires r == if (x < 0) != (y < 0) then (0 - product) % m else product
    ensures Cong(r, x * y, m)
  {
    hide Cong;
    var p := Abs(x) * Abs(y);
    CongMod(p, m);
    if (x < 0) != (y < 0) {
      assert p == 0 - x * y;
      CongMod(0 - product, m);
      CongRefl(0, m);
      CongSub(0, 0, product, p, m);
      CongTrans(r, 0 - product, 0 - p, m);
    } else {
      assert p == x * y;
    }
  }
}
