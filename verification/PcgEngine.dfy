/** The PCG engine: jumping ahead in O(log n) steps, measuring the distance between two states, and
    the generator object that carries a state and a stream. */
module PcgEngine {
  import opened Arith
  import opened Bits
  import opened PcgSequence

  /** (mult, plus) computes n steps of g modulo 2^bits. */
  ghost predicate Computes(g: Lcg, mult: nat, plus: nat, n: nat) {
    Cong(mult, Mult(g, n), g.Modulus()) && Cong(plus, Plus(g, n), g.Modulus())
  }

  /** x * m + p, m * m and (m + 1) * p in words of the state width. */
  function MulAdd(g: Lcg, x: nat, m: nat, p: nat): nat { (x * m + p) % g.Modulus() }

  function Squared(g: Lcg, m: nat): nat { m * m % g.Modulus() }

  function Doubled(g: Lcg, m: nat, p: nat): nat { (m + 1) % g.Modulus() * p % g.Modulus() }

  lemma ComputesCompose(g: Lcg, m1: nat, p1: nat, n1: nat, m2: nat, p2: nat, n2: nat)
    requires Computes(g, m1, p1, n1) && Computes(g, m2, p2, n2)
    ensures Computes(g, MulAdd(g, m1, m2, 0), MulAdd(g, p1, m2, p2), n1 + n2)
  {
    hide Cong, Mult, Plus;
    Compose(g, n1, n2);
    CongMul(m1, Mult(g, n1), m2, Mult(g, n2), g.Modulus());
    CongModLeft(m1 * m2 + 0, Mult(g, n1) * Mult(g, n2), g.Modulus());
    CongProduct(p1, Plus(g, n1), m2, Mult(g, n2), p2, Plus(g, n2), g.Modulus());
  }

  lemma CongModLeft(x: int, y: int, m: int)
    requires 0 < m && Cong(x, y, m)
    ensures Cong(x % m, y, m)
  {
    CongMod(x, m);
  }

  lemma CongProduct(x: int, x': int, y: int, y': int, z: int, z': int, m: int)
    requires 0 < m && Cong(x, x', m) && Cong(y, y', m) && Cong(z, z', m)
    ensures Cong((x * y + z) % m, x' * y' + z', m)
  {
    CongMul(x, x', y, y', m);
    CongAdd(x * y, x' * y', z, z', m);
    CongMod(x * y + z, m);
  }

  lemma ComputesDouble(g: Lcg, m: nat, p: nat, i: nat)
    requires Computes(g, m, p, Pow2(i))
    ensures Computes(g, Squared(g, m), Doubled(g, m, p), Pow2(i + 1))
  {
    var M := g.Modulus();
    var A, P := Mult(g, Pow2(i)), Plus(g, Pow2(i));
    DoubleSteps(g, i);
    CongMul(m, A, m, A, M);
    CongMod(m * m, M);
    CongMod(m + 1, M);
    CongAdd(m, A, 1, 1, M);
    CongMul((m + 1) % M, A + 1, p, P, M);
    CongMod((m + 1) % M * p, M);
  }

  lemma ComputesApply(g: Lcg, m: nat, p: nat, n: nat, x: nat)
    requires Computes(g, m, p, n) && x < g.Modulus()
    ensures MulAdd(g, x, m, p) == Iterate(g, x, n)
  {
    hide Mult, Plus, Iterate, Cong;
    var M, y := g.Modulus(), Iterate(g, x, n);
    IterateAffine(g, x, n);
    Commute(x, Mult(g, n));
    CongRefl(x, M);
    CongProduct(x, x, m, Mult(g, n), p, Plus(g, n), M);
    CongSym(y, x * Mult(g, n) + Plus(g, n), M);
    CongTrans(MulAdd(g, x, m, p), x * Mult(g, n) + Plus(g, n), y, M);
    CongSmall(MulAdd(g, x, m, p), y, M);
  }

  lemma ComputesNone(g: Lcg)
    ensures Computes(g, 1, 0, 0)
  {
  }

  lemma ComputesOne(g: Lcg)
    ensures Computes(g, g.mult, g.inc, Pow2(0))
  {
    OneStep(g);
  }

  lemma ConsumeBit(delta: nat, done: nat, d: nat, p: nat)
    requires delta == done + d * p
    ensures delta == (if d % 2 == 1 then done + p else done) + d / 2 * (2 * p)
  {
    assert d == d / 2 * 2 + d % 2;
    assert (d / 2 * 2 + d % 2) * p == d / 2 * (2 * p) + d % 2 * p;
  }

  /** `engine::advance`: `delta` steps from `state`. */
  method AdvanceState(g: Lcg, state: nat, delta: nat) returns (r: nat)
    requires state < g.Modulus()
    ensures r == Iterate(g, state, delta)
  {
    hide Computes, Iterate, MulAdd, Squared, Doubled;
    var curMult, curPlus := g.mult, g.inc;
    var accMult, accPlus := 1, 0;
    var d: nat := delta;
    ghost var i: nat, done: nat := 0, 0;
    ComputesOne(g);
    ComputesNone(g);
    while d > 0
      invariant delta == done + d * Pow2(i)
      invariant Computes(g, curMult, curPlus, Pow2(i))
      invariant Computes(g, accMult, accPlus, done)
    {
      ConsumeBit(delta, done, d, Pow2(i));
      if d % 2 == 1 {
        ComputesCompose(g, accMult, accPlus, done, curMult, curPlus, Pow2(i));
        accMult, accPlus := MulAdd(g, accMult, curMult, 0), MulAdd(g, accPlus, curMult, curPlus);
        done := done + Pow2(i);
      }
      ComputesDouble(g, curMult, curPlus, i);
      curPlus := Doubled(g, curMult, curPlus);
      curMult := Squared(g, curMult);
      d := d / 2;
      i := i + 1;
    }
    ComputesApply(g, accMult, accPlus, done, state);
    r := MulAdd(g, state, accMult, accPlus);
  }

  // --- distance -------------------------------------------------------------------------------

  /** Words that agree below bit i agree up to bit i exactly when their bits i are equal. */
  lemma NextBit(x: nat, t: nat, i: nat)
    requires Cong(x, t, Pow2(i))
    ensures Cong(x, t, Pow2(i + 1)) <==> Bit(x, i) == Bit(t, i)
  {
    DivDiv(x, Pow2(i), 2);
    DivDiv(t, Pow2(i), 2);
  }

  /** A word with the single bit `bit` set selects that bit. */
  lemma {:induction false} AndSingle(x: nat, bit: nat)
    ensures And(x, Pow2(bit)) == if Bit(x, bit) then Pow2(bit) else 0
  {
    BitwiseStep(AndOp, x, Pow2(bit));
    if bit == 0 {
      AndZero(x / 2);
      assert And(x, 1) == 2 * And(x / 2, 0) + And(x, 1) % 2;
    } else {
      AndSingle(x / 2, bit - 1);
      BitHalf(x, bit);
      var r := And(x, Pow2(bit));
      assert r == 2 * (r / 2) + r % 2;
    }
  }

  lemma BitTest(x: nat, t: nat, bit: nat)
    ensures And(x, Pow2(bit)) == And(t, Pow2(bit)) <==> Bit(x, bit) == Bit(t, bit)
  {
    AndSingle(x, bit);
    AndSingle(t, bit);
  }

  /** Words that agree modulo 2^bits look the same under every mask of that width. */
  lemma MaskedEqual(x: nat, t: nat, bits: nat, mask: nat)
    requires x < Pow2(bits) && t < Pow2(bits)
    requires And(x, mask) != And(t, mask)
    ensures !Cong(x, t, Pow2(bits))
  {
    if Cong(x, t, Pow2(bits)) {
      CongSmall(x, t, Pow2(bits));
    }
  }

  /** The rounds of `distance` so far: n steps lead from s to x, which agrees with t below bit i + z,
      and (m, p) computes 2^i steps. */
  ghost predicate Progress(g: Lcg, mcg: bool, s: nat, t: nat, x: nat, m: nat, p: nat, i: nat, n: nat)
    requires s < g.Modulus()
  {
    && n < Pow2(i)
    && x == Iterate(g, s, n) && OnStream(g, mcg, x)
    && Cong(x, t, Pow2(i + FixedBits(mcg)))
    && Computes(g, m, p, Pow2(i))
  }

  lemma ProgressStart(g: Lcg, mcg: bool, s: nat, t: nat)
    requires Maximal(g, mcg) && OnStream(g, mcg, s) && OnStream(g, mcg, t)
    ensures Progress(g, mcg, s, t, s, g.mult, g.inc, 0, 0)
  {
    ComputesOne(g);
    assert Pow2(2) == 4 && Pow2(0) == 1;
  }

  /** A round that finds different bits takes 2^i steps; they flip bit i + z and keep those below. */
  lemma RoundFlips(g: Lcg, mcg: bool, s: nat, t: nat, x: nat, m: nat, p: nat, i: nat, n: nat)
    requires Maximal(g, mcg) && OnStream(g, mcg, s)
    requires Progress(g, mcg, s, t, x, m, p, i, n)
    requires i + FixedBits(mcg) < g.bits
    requires Bit(x, i + FixedBits(mcg)) != Bit(t, i + FixedBits(mcg))
    ensures MulAdd(g, x, m, p) == Iterate(g, s, n + Pow2(i))
    ensures OnStream(g, mcg, Iterate(g, s, n + Pow2(i)))
    ensures Cong(Iterate(g, s, n + Pow2(i)), t, Pow2(i + FixedBits(mcg) + 1))
  {
    hide Iterate, Maximal, Computes, MulAdd, Bit, Cong, Pow2;
    var b := i + FixedBits(mcg);
    ComputesApply(g, m, p, Pow2(i), x);
    IterateAdd(g, s, n, Pow2(i));
    StaysOnStream(g, mcg, x, Pow2(i));
    PowerIterateFlip(g, mcg, x, i);
    NextBit(x, t, b);
    FlipFixes(x, t, b);
    CongTrans(Iterate(g, x, Pow2(i)), x + Pow2(b), t, Pow2(b + 1));
  }

  /** Every round that finds different bits leaves them equal, and the next round starts one bit up. */
  lemma RoundKeeps(g: Lcg, mcg: bool, s: nat, t: nat, x: nat, m: nat, p: nat, i: nat, n: nat)
    requires Maximal(g, mcg) && OnStream(g, mcg, s)
    requires Progress(g, mcg, s, t, x, m, p, i, n)
    requires i + FixedBits(mcg) < g.bits
    ensures var b := i + FixedBits(mcg);
            var (x', n') := if Bit(x, b) != Bit(t, b) then (MulAdd(g, x, m, p), n + Pow2(i)) else (x, n);
            Bit(x', b) == Bit(t, b) && Progress(g, mcg, s, t, x', Squared(g, m), Doubled(g, m, p), i + 1, n')
  {
    hide Iterate, Maximal, Computes, MulAdd, Squared, Doubled, Bit, Cong, Pow2;
    var b := i + FixedBits(mcg);
    Doubling(i + 1);
    ComputesDouble(g, m, p, i);
    NextBit(x, t, b);
    if Bit(x, b) != Bit(t, b) {
      RoundFlips(g, mcg, s, t, x, m, p, i, n);
      var y := Iterate(g, s, n + Pow2(i));
      CongPow2(y, t, b, b + 1);
      NextBit(y, t, b);
    }
  }

  /** `distance |= the_bit` and the final shift: the rounds so far spell the distance in binary. */
  lemma AppendBit(n: nat, z: nat, i: nat)
    requires n < Pow2(i)
    ensures Or(Scaled(n, z), Pow2(i + z)) == Scaled(n + Pow2(i), z)
  {
    hide Pow2, Bitwise;
    Pow2Add(i, z);
    AppendAtoms(n, Pow2(i), Pow2(z));
    OrDisjoint(n * Pow2(z), 1, i + z);
  }

  lemma AppendAtoms(n: nat, p: nat, q: nat)
    requires n < p && 0 < q
    ensures n * q < p * q && (n + p) * q == n * q + p * q
  {
    MulMonotonic(n, p - 1, q);
    assert (p - 1) * q == p * q - q;
  }

  /** n shifted left by z bits. */
  ghost function Scaled(n: nat, z: nat): nat { n * Pow2(z) }

  lemma Unscale(n: nat, z: nat)
    ensures Scaled(0, z) == 0
    ensures z == 0 ==> Scaled(n, z) == n
    ensures z == 2 ==> Scaled(n, z) / 4 == n
  {
    SmallPowers();
  }

  /** The variables of the loop of `distance`. */
  datatype Loop = Loop(state: nat, theBit: nat, distance: nat, mult: nat, plus: nat)

  function OneRound(g: Lcg, t: nat, l: Loop): Loop {
    var differ := And(l.state, l.theBit) != And(t, l.theBit);
    Loop(if differ then MulAdd(g, l.state, l.mult, l.plus) else l.state,
         l.theBit * 2 % g.Modulus(),
         if differ then Or(l.distance, l.theBit) else l.distance,
         Squared(g, l.mult),
         Doubled(g, l.mult, l.plus))
  }

  /** The loop after r rounds, if it gets that far. */
  function Rounds(g: Lcg, mcg: bool, s: nat, t: nat, r: nat): Loop {
    if r == 0 then Loop(s, (if mcg then 4 else 1) % g.Modulus(), 0, g.mult, g.inc)
    else OneRound(g, t, Rounds(g, mcg, s, t, r - 1))
  }

  predicate EndsAfter(g: Lcg, mcg: bool, s: nat, t: nat, mask: nat, r: nat) {
    And(Rounds(g, mcg, s, t, r).state, mask) == And(t, mask)
  }

  /** The loop of `distance` ends. */
  ghost predicate Ends(g: Lcg, mcg: bool, s: nat, t: nat, mask: nat) {
    exists r: nat :: EndsAfter(g, mcg, s, t, mask, r)
  }

  /** `engine::distance`: the number of steps from state s to state t, looking only at the bits
      selected by the mask. */
  method Distance(g: Lcg, mcg: bool, s: nat, t: nat, mask: nat) returns (d: nat)
    requires Maximal(g, mcg) && OnStream(g, mcg, s) && OnStream(g, mcg, t)
    ensures FixedBits(mcg) <= g.bits && d < Pow2(g.bits - FixedBits(mcg))
    ensures And(Iterate(g, s, d), mask) == And(t, mask) && Ends(g, mcg, s, t, mask)
    // with the default mask, d is the one and only step count of a period that leads from s to t
    ensures mask == Pow2(g.bits) - 1 ==>
              forall n: nat :: n < Pow2(g.bits - FixedBits(mcg)) ==> (Iterate(g, s, n) == t <==> n == d)
    // with a mask of j low bits, d is the one and only such count in the sequence reduced to those bits
    ensures forall j: nat :: FixedBits(mcg) <= j <= g.bits && mask == Pow2(j) - 1 ==> Only(g, mcg, s, t, j, d)
  {
    hide Only, Cong, Iterate, Bitwise, Computes, Pow2, Bit, Maximal, MulAdd, Squared, Doubled, Scaled, Rounds, OneRound;
    RoundsStart(g, mcg, s, t);
    var M := g.Modulus();
    ghost var z := FixedBits(mcg);
    var curState, curMult, curPlus := s, g.mult, g.inc;
    var theBit: nat := if mcg then 4 % M else 1 % M;
    var distance: nat := 0;
    ghost var i: nat, n: nat := 0, 0;
    ProgressStart(g, mcg, s, t);
    SmallPowers();
    Unscale(0, z);
    while And(curState, mask) != And(t, mask)
      invariant i + z <= g.bits
      invariant theBit == Pow2(i + z) % M
      invariant Rounds(g, mcg, s, t, i) == Loop(curState, theBit, distance, curMult, curPlus)
      invariant distance == Scaled(n, z)
      invariant Progress(g, mcg, s, t, curState, curMult, curPlus, i, n)
      invariant forall j: nat :: z <= j <= g.bits && mask == Pow2(j) - 1 ==> i + z <= j
      decreases g.bits - i
    {
      RoundsStep(g, mcg, s, t, i);
      RoundBound(g, curState, t, mask, i + z);
      RoundKeeps(g, mcg, s, t, curState, curMult, curPlus, i, n);
      TheBit(g, i + z);
      BitTest(curState, t, i + z);
      if And(curState, theBit) != And(t, theBit) {
        AppendBit(n, z, i);
        curState := MulAdd(g, curState, curMult, curPlus);
        distance := Or(distance, theBit);
        n := n + Pow2(i);
      }
      BitTest(curState, t, i + z);
      assert And(curState, theBit) == And(t, theBit);
      theBit := theBit * 2 % M;
      curPlus := Doubled(g, curMult, curPlus);
      curMult := Squared(g, curMult);
      i := i + 1;
    }
    Unscale(n, z);
    d := if mcg then distance / 4 else distance;
    DistanceResult(g, mcg, s, t, mask, i, d);
    assert EndsAfter(g, mcg, s, t, mask, i);
  }

  lemma RoundsStart(g: Lcg, mcg: bool, s: nat, t: nat)
    ensures Rounds(g, mcg, s, t, 0) == Loop(s, if mcg then 4 % g.Modulus() else 1 % g.Modulus(), 0, g.mult, g.inc)
  {
  }

  lemma RoundsStep(g: Lcg, mcg: bool, s: nat, t: nat, r: nat)
    ensures var l := Rounds(g, mcg, s, t, r);
            var differ := And(l.state, l.theBit) != And(t, l.theBit);
            Rounds(g, mcg, s, t, r + 1)
            == Loop(if differ then MulAdd(g, l.state, l.mult, l.plus) else l.state,
                    l.theBit * 2 % g.Modulus(),
                    if differ then Or(l.distance, l.theBit) else l.distance,
                    Squared(g, l.mult),
                    Doubled(g, l.mult, l.plus))
  {
  }

  lemma TheBit(g: Lcg, b: nat)
    requires b < g.bits
    ensures Pow2(b) % g.Modulus() == Pow2(b)
    ensures Pow2(b) * 2 == Pow2(b + 1)
  {
    Pow2Strict(b, g.bits);
    SmallMod(Pow2(b), g.Modulus());
  }

  /** While the masked states differ, there is a bit left to fix below every covered bit. */
  lemma RoundBound(g: Lcg, x: nat, t: nat, mask: nat, b: nat)
    requires x < g.Modulus() && t < g.Modulus() && b <= g.bits
    requires And(x, mask) != And(t, mask)
    requires Cong(x, t, Pow2(b))
    ensures b < g.bits
    ensures forall j: nat :: j <= g.bits && mask == Pow2(j) - 1 ==> b < j
  {
    MaskedEqual(x, t, g.bits, mask);
    forall j: nat | j <= g.bits && mask == Pow2(j) - 1 ensures b < j {
      AndMask(x, j);
      AndMask(t, j);
      if j <= b {
        CongPow2(x, t, j, b);
      }
    }
  }

  lemma DistanceResult(g: Lcg, mcg: bool, s: nat, t: nat, mask: nat, i: nat, d: nat)
    requires Maximal(g, mcg) && OnStream(g, mcg, s) && OnStream(g, mcg, t)
    requires i + FixedBits(mcg) <= g.bits && d < Pow2(i)
    requires And(Iterate(g, s, d), mask) == And(t, mask)
    requires forall j: nat :: FixedBits(mcg) <= j <= g.bits && mask == Pow2(j) - 1 ==> i + FixedBits(mcg) <= j
    ensures d < Pow2(g.bits - FixedBits(mcg))
    ensures mask == Pow2(g.bits) - 1 ==>
              forall n: nat :: n < Pow2(g.bits - FixedBits(mcg)) ==> (Iterate(g, s, n) == t <==> n == d)
    ensures forall j: nat :: FixedBits(mcg) <= j <= g.bits && mask == Pow2(j) - 1 ==> Only(g, mcg, s, t, j, d)
  {
    hide Iterate, And, Pow2, Only, Maximal, Cong;
    var z := FixedBits(mcg);
    Pow2Monotonic(i, g.bits - z);
    forall j: nat | z <= j <= g.bits && mask == Pow2(j) - 1 ensures Only(g, mcg, s, t, j, d) {
      Pow2Monotonic(i, j - z);
      MaskCong(Iterate(g, s, d), t, j);
      OnlyOne(g, mcg, s, t, j, d);
    }
    if mask == Pow2(g.bits) - 1 {
      OnlyState(g, mcg, s, t, d);
    }
  }

  /** Words with the same j low bits agree modulo 2^j. */
  lemma MaskCong(x: nat, t: nat, j: nat)
    requires And(x, Pow2(j) - 1) == And(t, Pow2(j) - 1)
    ensures Cong(x, t, Pow2(j))
  {
    hide Pow2, Bitwise;
    AndMask(x, j);
    AndMask(t, j);
  }

  /** d is the only count below 2^(j - z) after which the low j bits are those of t. */
  ghost predicate Only(g: Lcg, mcg: bool, s: nat, t: nat, j: nat, d: nat)
    requires s < g.Modulus() && FixedBits(mcg) <= j
  {
    d < Pow2(j - FixedBits(mcg))
    && forall n: nat :: n < Pow2(j - FixedBits(mcg)) ==> (Cong(Iterate(g, s, n), t, Pow2(j)) <==> n == d)
  }

  lemma OnlyOne(g: Lcg, mcg: bool, s: nat, t: nat, j: nat, d: nat)
    requires Maximal(g, mcg) && OnStream(g, mcg, s) && FixedBits(mcg) <= j <= g.bits
    requires d < Pow2(j - FixedBits(mcg)) && Cong(Iterate(g, s, d), t, Pow2(j))
    ensures Only(g, mcg, s, t, j, d)
  {
    hide Iterate, Pow2, Cong, Maximal;
    forall n: nat | n < Pow2(j - FixedBits(mcg)) && Cong(Iterate(g, s, n), t, Pow2(j)) ensures n == d {
      CongSym(Iterate(g, s, d), t, Pow2(j));
      CongTrans(Iterate(g, s, n), t, Iterate(g, s, d), Pow2(j));
      StepsInjective(g, mcg, s, n, d, j - FixedBits(mcg));
    }
  }

  /** With all bits, agreeing is being equal. */
  lemma OnlyState(g: Lcg, mcg: bool, s: nat, t: nat, d: nat)
    requires s < g.Modulus() && t < g.Modulus() && FixedBits(mcg) <= g.bits && Only(g, mcg, s, t, g.bits, d)
    ensures forall n: nat :: n < Pow2(g.bits - FixedBits(mcg)) ==> (Iterate(g, s, n) == t <==> n == d)
  {
    hide Iterate, Pow2, Cong;
    forall n: nat | n < Pow2(g.bits - FixedBits(mcg)) ensures Iterate(g, s, n) == t <==> n == d {
      if Iterate(g, s, n) == t {
        CongRefl(t, Pow2(g.bits));
      } else if n == d {
        CongSmall(Iterate(g, s, n), t, Pow2(g.bits));
      }
    }
  }

  // --- when the loop of distance ends -----------------------------------------------------------

  /** After r rounds, whatever the parameters: the state is n steps ahead of s, and n is what the distance spells. */
  ghost predicate Walked(g: Lcg, mcg: bool, s: nat, l: Loop, r: nat, n: nat)
    requires s < g.Modulus()
  {
    && n < Pow2(r) && (n == 0 || Scaled(n, FixedBits(mcg)) < g.Modulus())
    && l.state == Iterate(g, s, n) && l.distance == Scaled(n, FixedBits(mcg))
    && l.theBit == Pow2(r + FixedBits(mcg)) % g.Modulus()
    && Computes(g, l.mult, l.plus, Pow2(r))
  }

  /** The bit is shifted out of the word when the rounds reach its width. */
  lemma ShiftedBit(g: Lcg, b: nat)
    ensures Pow2(b) % g.Modulus() == if b < g.bits then Pow2(b) else 0
    ensures Pow2(b) % g.Modulus() * 2 % g.Modulus() == Pow2(b + 1) % g.Modulus()
  {
    if b < g.bits {
      TheBit(g, b);
    } else {
      Pow2Divides(g.bits, b);
      Pow2Divides(g.bits, b + 1);
      SmallMod(0, g.Modulus());
    }
  }

  /** A round with a bit left goes 2^r steps further, or not. */
  lemma WalkOn(g: Lcg, mcg: bool, s: nat, t: nat, l: Loop, r: nat, n: nat)
    requires s < g.Modulus() && Walked(g, mcg, s, l, r, n) && r + FixedBits(mcg) < g.bits
    requires And(l.state, l.theBit) != And(t, l.theBit)
    ensures var z := FixedBits(mcg);
            && n + Pow2(r) < Pow2(r + 1) && Scaled(n + Pow2(r), z) < g.Modulus()
            && MulAdd(g, l.state, l.mult, l.plus) == Iterate(g, s, n + Pow2(r))
            && Or(l.distance, l.theBit) == Scaled(n + Pow2(r), z)
  {
    hide Iterate, MulAdd, Bitwise, Pow2, Computes;
    var z := FixedBits(mcg);
    Doubling(r + 1);
    ShiftedBit(g, r + z);
    AppendBit(n, z, r);
    ComputesApply(g, l.mult, l.plus, Pow2(r), l.state);
    IterateAdd(g, s, n, Pow2(r));
    Pow2Add(r + 1, z);
    AppendAtoms(n + Pow2(r), Pow2(r + 1), Pow2(z));
    Pow2Monotonic(r + 1 + z, g.bits);
  }

  lemma {:induction false} Walk(g: Lcg, mcg: bool, s: nat, t: nat, r: nat) returns (n: nat)
    requires s < g.Modulus()
    ensures Walked(g, mcg, s, Rounds(g, mcg, s, t, r), r, n)
  {
    hide Iterate, MulAdd, Squared, Doubled, Bitwise, Pow2, Computes, Rounds, OneRound, Scaled;
    var z := FixedBits(mcg);
    SmallPowers();
    Unscale(0, z);
    if r == 0 {
      n := 0;
      RoundsStart(g, mcg, s, t);
      ComputesOne(g);
      IterateNone(g, s);
    } else {
      n := Walk(g, mcg, s, t, r - 1);
      var l := Rounds(g, mcg, s, t, r - 1);
      RoundsStep(g, mcg, s, t, r - 1);
      ShiftedBit(g, r - 1 + z);
      ComputesDouble(g, l.mult, l.plus, r - 1);
      Pow2Monotonic(r - 1, r);
      AndZero(l.state);
      AndZero(t);
      if And(l.state, l.theBit) != And(t, l.theBit) {
        WalkOn(g, mcg, s, t, l, r - 1, n);
        n := n + Pow2(r - 1);
      }
    }
  }

  /** What `distance` returns when its loop ends after r rounds. */
  function Result(g: Lcg, mcg: bool, s: nat, t: nat, r: nat): nat {
    var distance := Rounds(g, mcg, s, t, r).distance;
    if mcg then distance / 4 else distance
  }

  /** Whatever the parameters and the mask, a loop that ends returns a right number of steps. */
  lemma DistanceSound(g: Lcg, mcg: bool, s: nat, t: nat, mask: nat, r: nat)
    requires s < g.Modulus() && EndsAfter(g, mcg, s, t, mask, r)
    ensures var d := Result(g, mcg, s, t, r); d < g.Modulus() && And(Iterate(g, s, d), mask) == And(t, mask)
  {
    hide Iterate, Rounds, Bitwise, Pow2, Computes;
    var n := Walk(g, mcg, s, t, r);
    hide Scaled;
    Unscale(n, FixedBits(mcg));
  }

  /** With all bits, agreeing under the mask is being equal. */
  lemma FullMask(g: Lcg, x: nat, t: nat)
    requires x < g.Modulus() && t < g.Modulus() && And(x, g.Modulus() - 1) == And(t, g.Modulus() - 1)
    ensures x == t
  {
    hide Bitwise, Pow2, Cong;
    MaskCong(x, t, g.bits);
    CongSmall(x, t, g.Modulus());
  }

  /** The loop of a maximal generator ends, under every mask. */
  lemma MaximalEnds(g: Lcg, mcg: bool, s: nat, t: nat, mask: nat)
    requires Maximal(g, mcg) && OnStream(g, mcg, s) && OnStream(g, mcg, t)
    ensures Ends(g, mcg, s, t, mask)
  {
    hide Maximal, OnStream, Iterate, Cong, Pow2, Computes, Rounds, Bitwise, Bit;
    assert FixedBits(mcg) <= g.bits by { MaximalPeriod(g, mcg, s, t); }
    var r := g.bits - FixedBits(mcg);
    var n := RoundsProgress(g, mcg, s, t, r);
    InRange(g, mcg, t);
    CongSmall(Rounds(g, mcg, s, t, r).state, t, g.Modulus());
    assert EndsAfter(g, mcg, s, t, mask, r);
  }

  lemma InRange(g: Lcg, mcg: bool, t: nat)
    requires OnStream(g, mcg, t)
    ensures t < g.Modulus()
  {
  }

  lemma {:induction false} RoundsProgress(g: Lcg, mcg: bool, s: nat, t: nat, r: nat) returns (n: nat)
    requires Maximal(g, mcg) && OnStream(g, mcg, s) && OnStream(g, mcg, t) && r + FixedBits(mcg) <= g.bits
    ensures var l := Rounds(g, mcg, s, t, r);
            l.theBit == Pow2(r + FixedBits(mcg)) % g.Modulus()
            && Progress(g, mcg, s, t, l.state, l.mult, l.plus, r, n)
  {
    hide Maximal, Progress, MulAdd, Squared, Doubled, Pow2, Rounds, OneRound, Bitwise, Bit;
    var z := FixedBits(mcg);
    if r == 0 {
      n := 0;
      RoundsStart(g, mcg, s, t);
      SmallPowers();
      ProgressStart(g, mcg, s, t);
    } else {
      n := RoundsProgress(g, mcg, s, t, r - 1);
      var l := Rounds(g, mcg, s, t, r - 1);
      RoundsStep(g, mcg, s, t, r - 1);
      RoundKeeps(g, mcg, s, t, l.state, l.mult, l.plus, r - 1, n);
      TheBit(g, r - 1 + z);
      BitTest(l.state, t, r - 1 + z);
      if And(l.state, l.theBit) != And(t, l.theBit) {
        n := n + Pow2(r - 1);
      }
    }
  }

  /** `distance` ends for every two states of the stream. */
  ghost predicate AlwaysEnds(g: Lcg, mcg: bool) {
    forall s: nat, t: nat :: OnStream(g, mcg, s) && OnStream(g, mcg, t) ==> Ends(g, mcg, s, t, g.Modulus() - 1)
  }

  /** A loop that ends has walked from s to t. */
  lemma EndsReaches(g: Lcg, mcg: bool, s: nat, t: nat)
    requires s < g.Modulus() && t < g.Modulus() && Ends(g, mcg, s, t, g.Modulus() - 1)
    ensures Reaches(g, s, t)
  {
    hide Iterate, Rounds, Bitwise, Pow2;
    var r: nat :| EndsAfter(g, mcg, s, t, g.Modulus() - 1, r);
    DistanceSound(g, mcg, s, t, g.Modulus() - 1, r);
    FullMask(g, Iterate(g, s, Result(g, mcg, s, t, r)), t);
  }

  /** On an additive stream `distance` ends for all states if and only if the period is full. */
  lemma DistanceEndsIff(g: Lcg)
    requires 2 <= g.bits
    ensures AlwaysEnds(g, false) <==> g.mult % 4 == 1 && g.inc % 2 == 1
  {
    hide Ends, Reaches, Pow2;
    FullPeriodIff(g);
    if g.mult % 4 == 1 && g.inc % 2 == 1 {
      forall s: nat, t: nat | OnStream(g, false, s) && OnStream(g, false, t)
        ensures Ends(g, false, s, t, g.Modulus() - 1)
      {
        MaximalEnds(g, false, s, t, g.Modulus() - 1);
      }
    } else if AlwaysEnds(g, false) {
      forall s: nat, t: nat | s < g.Modulus() && t < g.Modulus() ensures Reaches(g, s, t) {
        assert OnStream(g, false, s) && OnStream(g, false, t);
        EndsReaches(g, false, s, t);
      }
    }
  }

  /** The products of 3 that keep clear of 7 modulo 8. */
  predicate ClearOfSeven(mult: nat, x: nat) {
    match mult % 8
    case 1 => x % 8 == 3
    case 3 => x % 8 == 3 || x % 8 == 1
    case 7 => x % 8 == 3 || x % 8 == 5
    case _ => x % 8 == 3 || x % 2 == 0
  }

  lemma ClearStep(g: Lcg, x: nat)
    requires 3 <= g.bits && g.inc == 0 && g.mult % 8 != 5 && ClearOfSeven(g.mult, x)
    ensures ClearOfSeven(g.mult, Bump(g, x))
  {
    EightDivides(g);
    hide Bump;
    BumpClass(g, x, x % 8, g.mult % 8, 0, 3);
    ClearProduct(x % 8, g.mult % 8, Bump(g, x));
    LowBit(x);
  }

  lemma EightDivides(g: Lcg)
    requires 3 <= g.bits
    ensures Pow2(3) == 8 <= g.Modulus()
  {
    SmallPowers();
    Pow2Monotonic(3, g.bits);
  }

  lemma LowBit(x: nat)
    ensures x % 2 == x % 8 % 2
  {
    DivModUnique(x, 2, x / 8 * 4 + x % 8 / 2, x % 8 % 2);
  }

  lemma ClearProduct(x: nat, m: nat, y: nat)
    requires x < 8 && m < 8 && m != 5 && ClearOfSeven(m, x) && y % 8 == x * m % 8
    ensures ClearOfSeven(m, y)
  {
    LowBit(y);
  }

  lemma {:induction false} SevenTrap(g: Lcg, n: nat)
    requires 3 <= g.bits && g.inc == 0 && g.mult % 8 != 5
    ensures 3 < g.Modulus() && ClearOfSeven(g.mult, Iterate(g, 3, n))
  {
    hide Pow2, Bump;
    EightDivides(g);
    if n > 0 {
      SevenTrap(g, n - 1);
      ClearStep(g, Iterate(g, 3, n - 1));
    }
  }

  lemma SevenUnreached(g: Lcg)
    requires 3 <= g.bits && g.inc == 0 && g.mult % 8 != 5
    ensures 3 < g.Modulus() && !Reaches(g, 3, 7)
  {
    hide Iterate, Pow2;
    EightDivides(g);
    forall n: nat ensures Iterate(g, 3, n) != 7 { SevenTrap(g, n); }
  }

  /** On a multiplicative stream `distance` ends for all states if and only if the multiplier is 5 modulo 8. */
  lemma McgDistanceEndsIff(g: Lcg)
    requires 3 <= g.bits && g.inc == 0
    ensures AlwaysEnds(g, true) <==> g.mult % 8 == 5
  {
    hide Ends, Reaches, Pow2;
    EightDivides(g);
    if g.mult % 8 == 5 {
      forall s: nat, t: nat | OnStream(g, true, s) && OnStream(g, true, t)
        ensures Ends(g, true, s, t, g.Modulus() - 1)
      {
        MaximalEnds(g, true, s, t, g.Modulus() - 1);
      }
    } else if AlwaysEnds(g, true) {
      assert OnStream(g, true, 3) && OnStream(g, true, 7);
      EndsReaches(g, true, 3, 7);
      SevenUnreached(g);
    }
  }

  /** With multiplier 3 and increment 1 the loop from state 0 never finds state 2. */
  lemma DistanceNeverEnds()
    ensures !Ends(Lcg(8, 3, 1), false, 0, 2, 255)
  {
    var g := Lcg(8, 3, 1);
    assert g.Modulus() == 256;
    hide Ends, Iterate;
    if Ends(g, false, 0, 2, 255) {
      EndsReaches(g, false, 0, 2);
      forall n: nat ensures Iterate(g, 0, n) != 2 { QuarterTrap(g, n); }
    }
  }

  // --- the generator object ---------------------------------------------------------------------

  /** `default_multiplier` and `default_increment`, for the state widths that have them. */
  function DefaultMultiplier(bits: nat): nat {
    if bits == 8 then 141
    else if bits == 16 then 12829
    else if bits == 32 then 747796405
    else if bits == 64 then 6364136223846793005
    else 2549297995355413924 * 0x1_0000_0000_0000_0000 + 4865540595714422341
  }

  function DefaultIncrement(bits: nat): nat {
    if bits == 8 then 77
    else if bits == 16 then 47989
    else if bits == 32 then 2891336453
    else if bits == 64 then 1442695040888963407
    else 6364136223846793005 * 0x1_0000_0000_0000_0000 + 1442695040888963407
  }

  lemma DefaultParameters(bits: nat)
    requires bits in {8, 16, 32, 64, 128}
    ensures DefaultMultiplier(bits) % 4 == 1 && DefaultMultiplier(bits) % 8 == 5 && DefaultIncrement(bits) % 2 == 1
  {
  }

  /** A maximal multiplicative generator runs through the 2^(bits - 2) states of its stream once. */
  ghost predicate LongestCycle(g: Lcg)
    requires 2 <= g.bits
  {
    forall s: nat, t: nat :: OnStream(g, true, s) && OnStream(g, true, t) ==>
      ReachesOnce(g, true, s, t) && Iterate(g, s, Pow2(g.bits - 2)) == s
  }

  lemma MaximalCycle(g: Lcg)
    requires Maximal(g, true)
    ensures LongestCycle(g)
  {
    assert 2 <= g.bits;
    hide Iterate, ReachesOnce, Maximal;
    forall s: nat, t: nat | OnStream(g, true, s) && OnStream(g, true, t)
      ensures ReachesOnce(g, true, s, t) && Iterate(g, s, Pow2(g.bits - 2)) == s
    {
      MaximalPeriod(g, true, s, t);
    }
  }

  /** The predefined parameters of all widths, as numbers. */
  lemma PredefinedParameters()
    ensures FullPeriod(Lcg(8, 141, 77)) && FullPeriod(Lcg(16, 12829, 47989))
    ensures FullPeriod(Lcg(32, 747796405, 2891336453))
    ensures FullPeriod(Lcg(64, 6364136223846793005, 1442695040888963407))
    ensures FullPeriod(Lcg(128, 0x2360_ed05_1fc6_5da4_4385_df64_9fcc_f645, 0x5851_f42d_4c95_7f2d_1405_7b7e_f767_814f))
  {
    hide FullPeriod;
    DefaultsAreMaximal(8);
    DefaultsAreMaximal(16);
    DefaultsAreMaximal(32);
    DefaultsAreMaximal(64);
    DefaultsAreMaximal(128);
  }

  /** Every predefined generator has the longest period of its kind: the additive ones 2^bits, the
      multiplicative ones 2^(bits - 2). */
  lemma DefaultsAreMaximal(bits: nat)
    requires bits in {8, 16, 32, 64, 128}
    ensures Maximal(Lcg(bits, DefaultMultiplier(bits), DefaultIncrement(bits)), false)
    ensures FullPeriod(Lcg(bits, DefaultMultiplier(bits), DefaultIncrement(bits)))
    ensures Maximal(Lcg(bits, DefaultMultiplier(bits), 0), true)
    ensures LongestCycle(Lcg(bits, DefaultMultiplier(bits), 0))
  {
    hide DefaultMultiplier, DefaultIncrement, FullPeriod, LongestCycle;
    DefaultParameters(bits);
    FullPeriodIff(Lcg(bits, DefaultMultiplier(bits), DefaultIncrement(bits)));
    MaximalCycle(Lcg(bits, DefaultMultiplier(bits), 0));
  }

  /** (stream << 1) | 1 in a word of the given width. */
  function StreamIncrement(bits: nat, stream: nat): nat {
    Or(stream * 2 % Pow2(bits), 1)
  }

  /** Every choice of stream gives an odd increment, and different streams of bits - 1 bits give
      different increments. */
  lemma StreamIncrementOdd(bits: nat, stream: nat)
    requires 1 <= bits
    ensures StreamIncrement(bits, stream) == stream % Pow2(bits - 1) * 2 + 1
    ensures StreamIncrement(bits, stream) < Pow2(bits)
    ensures StreamIncrement(bits, stream) / 2 == stream % Pow2(bits - 1)
  {
    var h := Pow2(bits - 1);
    assert Pow2(bits) == 2 * h;
    hide Pow2, Bitwise;
    var r := stream % h;
    DoubleMod(stream, h);
    OrOne(r);
  }

  lemma OrOne(r: nat)
    ensures Or(r * 2, 1) == r * 2 + 1
  {
    BitwiseStep(OrOp, r * 2, 1);
    OrZero(r);
    hide Bitwise;
    var o := Or(r * 2, 1);
    assert o == 2 * (o / 2) + o % 2;
  }

  lemma DoubleMod(x: nat, h: nat)
    requires 0 < h
    ensures x * 2 % (2 * h) == x % h * 2
  {
    assert x == x / h * h + x % h;
    assert x * 2 == x / h * (2 * h) + x % h * 2;
    DivModUnique(x * 2, 2 * h, x / h, x % h * 2);
  }

  lemma {:induction false} OrZero(x: nat)
    ensures Or(x, 0) == x
  {
    if x != 0 {
      OrZero(x / 2);
    }
  }

  /** An engine with a selectable stream. */
  class Engine {
    const bits: nat
    const mult: nat
    var inc: nat
    var state: nat

    function Params(): Lcg
      reads this
    {
      Lcg(bits, mult, inc)
    }

    predicate Valid()
      reads this
    {
      bits >= 1 && mult < Pow2(bits) && inc < Pow2(bits) && inc % 2 == 1 && state < Pow2(bits)
    }

    constructor (bits: nat, mult: nat, seed: nat, streamSeed: nat)
      requires 1 <= bits && mult < Pow2(bits) && seed < Pow2(bits) && streamSeed < Pow2(bits)
      ensures Valid() && this.bits == bits && this.mult == mult
      ensures inc == streamSeed % Pow2(bits - 1) * 2 + 1
      ensures state == Bump(Params(), (seed + inc) % Pow2(bits))
    {
      StreamIncrementOdd(bits, streamSeed);
      this.bits, this.mult := bits, mult;
      var i := StreamIncrement(bits, streamSeed);
      this.inc := i;
      this.state := Bump(Lcg(bits, mult, i), (seed + i) % Pow2(bits));
    }

    /** Selects a stream; with a multiplier that is 1 modulo 4, each of them has the full period. */
    method SetStream(stream: nat)
      requires Valid() && stream < Pow2(bits)
      modifies this`inc
      ensures Valid()
      ensures inc == stream % Pow2(bits - 1) * 2 + 1
      ensures bits >= 2 && mult % 4 == 1 ==> FullPeriod(Params())
    {
      StreamIncrementOdd(bits, stream);
      inc := StreamIncrement(bits, stream);
      if bits >= 2 {
        FullPeriodIff(Params());
      }
    }

    /** The state to feed to the output function: before the step or after it. */
    method BaseGenerate(previous: bool) returns (r: nat)
      requires Valid()
      modifies this`state
      ensures Valid() && state == Bump(Params(), old(state))
      ensures r == if previous then old(state) else state
    {
      var before := state;
      state := Bump(Params(), state);
      r := if previous then before else state;
    }

    method Advance(delta: nat)
      requires Valid() && delta < Pow2(bits)
      modifies this`state
      ensures Valid() && state == Iterate(Params(), old(state), delta)
    {
      state := AdvanceState(Params(), state, delta);
    }

    /** Goes back: the state from which `delta` steps lead to the old one, if the multiplier is odd. */
    method Backstep(delta: nat)
      requires Valid() && delta < Pow2(bits)
      modifies this`state
      ensures Valid() && state == Iterate(Params(), old(state), Negate(Params(), delta))
      ensures mult % 2 == 1 ==> Iterate(Params(), state, delta) == old(state)
    {
      Advance(Negate(Params(), delta));
      if mult % 2 == 1 {
        BackstepUndoes(Params(), old(state), Negate(Params(), delta));
        NegateValue(Params(), delta);
        NegateValue(Params(), Negate(Params(), delta));
      }
    }

    /** `operator-`: how far `lhs` is ahead of this engine, on this engine's stream. */
    method StepsTo(lhs: Engine) returns (d: nat)
      requires Valid() && lhs.Valid() && lhs.bits == bits && lhs.mult == mult
      requires mult % 4 == 1
      ensures d < Pow2(bits) && Iterate(Params(), state, d) == lhs.state
      ensures forall n: nat :: n < Pow2(bits) && Iterate(Params(), state, n) == lhs.state ==> n == d
    {
      d := Distance(Params(), false, state, lhs.state, Pow2(bits) - 1);
    }
  }
}
