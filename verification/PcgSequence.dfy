/** The linear congruential sequence behind every PCG generator: x -> mult * x + inc modulo 2^bits,
    its iterates, and the number theory that makes jumping ahead and measuring distances work. */
module PcgSequence {
  import opened Arith

  /** The parameters of one sequence: state width, multiplier and increment. */
  datatype Lcg = Lcg(bits: nat, mult: nat, inc: nat) {
    function Modulus(): nat { Pow2(bits) }
  }

  function Bump(g: Lcg, x: nat): (r: nat)
    ensures r < g.Modulus()
  {
    (x * g.mult + g.inc) % g.Modulus()
  }

  /** The state reached from x after n single steps. */
  function Iterate(g: Lcg, x: nat, n: nat): (r: nat)
    requires x < g.Modulus()
    ensures r < g.Modulus()
  {
    if n == 0 then x else Bump(g, Iterate(g, x, n - 1))
  }

  lemma {:induction false} IterateAdd(g: Lcg, x: nat, m: nat, n: nat)
    requires x < g.Modulus()
    ensures Iterate(g, x, m + n) == Iterate(g, Iterate(g, x, m), n)
  {
    if n != 0 {
      IterateAdd(g, x, m, n - 1);
    }
  }

  // --- n steps as one affine map ------------------------------------------------------------

  function Mult(g: Lcg, n: nat): nat {
    if n == 0 then 1 else g.mult * Mult(g, n - 1)
  }

  function Plus(g: Lcg, n: nat): nat {
    if n == 0 then 0 else g.mult * Plus(g, n - 1) + g.inc
  }

  /** m steps followed by n steps, as affine maps. */
  lemma {:induction false} Compose(g: Lcg, m: nat, n: nat)
    ensures Mult(g, m + n) == Mult(g, m) * Mult(g, n)
    ensures Plus(g, m + n) == Plus(g, m) * Mult(g, n) + Plus(g, n)
  {
    if n != 0 {
      Compose(g, m, n - 1);
      var k := m + (n - 1);
      assert Mult(g, k + 1) == g.mult * Mult(g, k) && Plus(g, k + 1) == g.mult * Plus(g, k) + g.inc;
      ComposeStep(g.mult, Mult(g, m), Mult(g, n - 1), Plus(g, m), Plus(g, n - 1));
    }
  }

  lemma Commute(x: int, y: int)
    ensures x * y == y * x
  {
  }

  lemma ComposeStep(a: nat, am: nat, an: nat, pm: nat, pn: nat)
    ensures a * (am * an) == am * (a * an)
    ensures a * (pm * an + pn) == pm * (a * an) + a * pn
  {
  }

  lemma {:induction false} IterateAffine(g: Lcg, x: nat, n: nat)
    requires x < g.Modulus()
    ensures Cong(Iterate(g, x, n), Mult(g, n) * x + Plus(g, n), g.Modulus())
  {
    if n != 0 {
      IterateAffine(g, x, n - 1);
      AffineStep(Iterate(g, x, n - 1), Mult(g, n - 1) * x + Plus(g, n - 1), g.mult, g.inc, g.Modulus());
      ComposeStep(g.mult, 0, Mult(g, n - 1), x, Plus(g, n - 1));
      Commute(x, Mult(g, n - 1));
      Commute(x, g.mult * Mult(g, n - 1));
    }
  }

  lemma AffineStep(y: int, y': int, a: int, c: int, m: int)
    requires 0 < m && Cong(y, y', m)
    ensures Cong((y * a + c) % m, a * y' + c, m)
  {
    CongMul(y, y', a, a, m);
    CongAdd(y * a, y' * a, c, c, m);
    CongMod(y * a + c, m);
  }

  // --- 2^i steps ----------------------------------------------------------------------------

  lemma DoubleSteps(g: Lcg, i: nat)
    ensures Mult(g, Pow2(i + 1)) == Mult(g, Pow2(i)) * Mult(g, Pow2(i))
    ensures Plus(g, Pow2(i + 1)) == (Mult(g, Pow2(i)) + 1) * Plus(g, Pow2(i))
  {
    Compose(g, Pow2(i), Pow2(i));
    assert Pow2(i + 1) == Pow2(i) + Pow2(i);
    DoublePlus(Plus(g, Pow2(i)), Mult(g, Pow2(i)));
  }

  lemma DoublePlus(p: int, m: int)
    ensures p * m + p == (m + 1) * p
  {
  }

  lemma OneStep(g: Lcg)
    ensures Mult(g, Pow2(0)) == g.mult && Plus(g, Pow2(0)) == g.inc
  {
    assert Mult(g, 1) == g.mult * Mult(g, 0);
    assert Plus(g, 1) == g.mult * Plus(g, 0) + g.inc;
  }

  /** For every odd multiplier, 2^i steps are the identity modulo 2^i. */
  lemma {:induction false} PowerSteps(g: Lcg, i: nat) returns (u: nat, v: nat)
    requires g.mult % 2 == 1
    ensures Mult(g, Pow2(i)) == 1 + Pow2(i + 1) * u
    ensures Plus(g, Pow2(i)) == Pow2(i) * v
  {
    hide Mult, Plus, Pow2;
    if i == 0 {
      SmallPowers();
      OneStep(g);
      u, v := g.mult / 2, g.inc;
    } else {
      var u', v' := PowerSteps(g, i - 1);
      DoubleSteps(g, i - 1);
      Doubling(i);
      var a, p := Mult(g, Pow2(i - 1)), Plus(g, Pow2(i - 1));
      u := SquareOfOnePlus(a, Pow2(i), Pow2(i + 1), u');
      v := EvenTimes(a, p, Pow2(i - 1), Pow2(i), u', v');
    }
  }

  /** (1 + p * u)^2 = 1 + 2p * (u + p/2 * u^2), where the second factor has the parity of u if 4 divides p. */
  lemma SquareOfOnePlus(a: nat, p: nat, q: nat, u: nat) returns (w: nat)
    requires p % 2 == 0 && q == 2 * p && a == 1 + p * u
    ensures a * a == 1 + q * w
    ensures p % 4 == 0 ==> w % 2 == u % 2
  {
    var h, s := p / 2, u * u;
    var e := h * s;
    w := u + e;
    HalfSquare(a, p, q, h, u, s, e);
    if p % 4 == 0 {
      EvenProduct(h, s);
    }
  }

  lemma HalfSquare(a: nat, p: nat, q: nat, h: nat, u: nat, s: nat, e: nat)
    requires p == 2 * h && q == 2 * p && a == 1 + p * u && s == u * u && e == h * s
    ensures a * a == 1 + q * (u + e)
  {
    var t := p * u;
    SquareOfSum(a, t);
    SquareProduct(p, u, t, s);
    TwiceProduct(p, h, s, e);
    TwiceProduct(q, p, u + e, p * (u + e));
    Distribute(p, u, e);
  }

  lemma SquareOfSum(a: nat, t: nat)
    requires a == 1 + t
    ensures a * a == 1 + 2 * t + t * t
  {
  }

  lemma SquareProduct(p: nat, u: nat, t: nat, s: nat)
    requires t == p * u && s == u * u
    ensures t * t == p * (p * s)
  {
    assert t * t == p * u * (p * u);
  }

  /** With p = 2h and e = h * s: p * s = 2e, and p * (p * s) = 2 * (p * e). */
  lemma TwiceProduct(p: nat, h: nat, s: nat, e: nat)
    requires p == 2 * h && e == h * s
    ensures p * s == 2 * e && p * (p * s) == 2 * (p * e)
  {
    assert 2 * h * s == 2 * (h * s);
    assert p * (2 * e) == 2 * (p * e);
  }

  lemma Distribute(x: int, y: int, z: int)
    ensures x * (y + z) == x * y + x * z
  {
  }

  lemma EvenProduct(e: nat, x: nat)
    requires e % 2 == 0
    ensures e * x % 2 == 0
  {
    assert e == 2 * (e / 2);
    assert 2 * (e / 2) * x == 2 * (e / 2 * x);
  }

  /** (2 + 2h * u) * (h * v) = 2h * (v + u * h * v), where the second factor has the parity of v if
      u is even. */
  lemma EvenTimes(a: nat, p: nat, h: nat, q: nat, u: nat, v: nat) returns (w: nat)
    requires q == 2 * h && a == 1 + q * u && p == h * v
    ensures (a + 1) * p == q * w
    ensures u % 2 == 0 ==> w % 2 == v % 2
  {
    var e := u * p;
    w := v + e;
    ExpandOnePlus(a, q, u, p, e);
    TwiceProduct(q, h, v, p);
    Distribute(q, v, e);
    DoublePlus(p, a);
    if u % 2 == 0 {
      EvenProduct(u, p);
    }
  }

  /** For a multiplier that is 1 modulo 4 and an odd increment, the 2^i-step increment is an odd
      multiple of 2^i. */
  lemma {:induction false} OddPowerSteps(g: Lcg, i: nat) returns (u: nat, v: nat)
    requires g.mult % 4 == 1 && g.inc % 2 == 1
    ensures Mult(g, Pow2(i)) == 1 + Pow2(i + 2) * u
    ensures Plus(g, Pow2(i)) == Pow2(i) * v && v % 2 == 1
  {
    hide Mult, Plus, Pow2;
    if i == 0 {
      u, v := OddBase(g);
    } else {
      var u', v' := OddPowerSteps(g, i - 1);
      DoubleSteps(g, i - 1);
      FourDivides(i + 1);
      Doubling(i);
      var a, p := Mult(g, Pow2(i - 1)), Plus(g, Pow2(i - 1));
      u, v := OddDouble(a, p, Pow2(i - 1), Pow2(i), Pow2(i + 1), Pow2(i + 2), u', v');
    }
  }

  lemma OddBase(g: Lcg) returns (u: nat, v: nat)
    requires g.mult % 4 == 1 && g.inc % 2 == 1
    ensures Mult(g, Pow2(0)) == 1 + Pow2(2) * u && Plus(g, Pow2(0)) == Pow2(0) * v && v % 2 == 1
  {
    SmallPowers();
    hide Pow2;
    OneStep(g);
    u, v := g.mult / 4, g.inc;
  }

  /** The step from 2^(i-1) to 2^i, with the powers h, q, r and s as plain numbers. */
  lemma OddDouble(a: nat, p: nat, h: nat, q: nat, r: nat, s: nat, u: nat, v: nat) returns (u': nat, v': nat)
    requires q == 2 * h && r == 2 * q && s == 2 * r && r % 4 == 0 && a == 1 + r * u && p == h * v && v % 2 == 1
    ensures a * a == 1 + s * u' && (a + 1) * p == q * v' && v' % 2 == 1
  {
    u' := SquareOfOnePlus(a, r, s, u);
    Regroup(r, q, u);
    v' := EvenTimes(a, p, h, q, 2 * u, v);
  }

  lemma Regroup(q: nat, h: nat, u: nat)
    requires q == 2 * h
    ensures q * u == h * (2 * u)
  {
    assert 2 * h * u == h * (2 * u);
  }

  lemma Doubling(i: nat)
    requires i >= 1
    ensures Pow2(i) == 2 * Pow2(i - 1) && Pow2(i + 1) == 2 * Pow2(i) && Pow2(i) % 2 == 0
  {
  }

  /** For a multiplier that is 5 modulo 8, the 2^i-step multiplier is 1 plus an odd multiple of
      2^(i+2); with no increment, 2^i steps add nothing else. */
  lemma {:induction false} McgPowerSteps(g: Lcg, i: nat) returns (u: nat)
    requires g.mult % 8 == 5 && g.inc == 0
    ensures Mult(g, Pow2(i)) == 1 + Pow2(i + 2) * u && u % 2 == 1
    ensures Plus(g, Pow2(i)) == 0
  {
    hide Mult, Plus, Pow2;
    if i == 0 {
      u := McgBase(g);
    } else {
      var u' := McgPowerSteps(g, i - 1);
      DoubleSteps(g, i - 1);
      FourDivides(i + 1);
      var a := Mult(g, Pow2(i - 1));
      u := McgDouble(a, Plus(g, Pow2(i - 1)), Pow2(i + 1), Pow2(i + 2), u');
    }
  }

  lemma McgBase(g: Lcg) returns (u: nat)
    requires g.mult % 8 == 5 && g.inc == 0
    ensures Mult(g, Pow2(0)) == 1 + Pow2(2) * u && u % 2 == 1 && Plus(g, Pow2(0)) == 0
  {
    SmallPowers();
    hide Pow2;
    OneStep(g);
    u := g.mult / 4;
  }

  lemma McgDouble(a: nat, p: nat, r: nat, s: nat, u: nat) returns (u': nat)
    requires s == 2 * r && r % 4 == 0 && a == 1 + r * u && p == 0 && u % 2 == 1
    ensures a * a == 1 + s * u' && u' % 2 == 1 && (a + 1) * p == 0
  {
    u' := SquareOfOnePlus(a, r, s, u);
    TimesZero(a + 1, p);
  }

  lemma FourDivides(i: nat)
    requires i >= 2
    ensures Pow2(i) % 4 == 0 && Pow2(i) % 2 == 0 && Pow2(i + 1) == 2 * Pow2(i)
  {
    assert Pow2(i) == 4 * Pow2(i - 2);
  }

  // --- the two kinds of stream ---------------------------------------------------------------

  /** Bits of the state that a stream never changes: two for a multiplicative generator (no_stream),
      none otherwise. */
  function FixedBits(mcg: bool): nat { if mcg then 2 else 0 }

  /** Parameters with the longest possible period: the classes `oneseq_stream`, `unique_stream` and
      `specific_stream` have an odd increment, `no_stream` has none. */
  predicate Maximal(g: Lcg, mcg: bool) {
    if mcg then g.bits >= 2 && g.mult % 8 == 5 && g.inc == 0
    else g.mult % 4 == 1 && g.inc % 2 == 1
  }

  /** States a stream of the given kind lives on; a multiplicative generator keeps its low bits at 3. */
  predicate OnStream(g: Lcg, mcg: bool, x: nat) {
    x < g.Modulus() && (mcg ==> x % 4 == 3)
  }

  lemma BumpOnStream(g: Lcg, mcg: bool, x: nat)
    requires Maximal(g, mcg) && OnStream(g, mcg, x)
    ensures OnStream(g, mcg, Bump(g, x))
  {
    if mcg {
      hide Bump;
      SmallPowers();
      BumpClass(g, x, 3, 1, 0, 2);
    }
  }

  lemma {:induction false} StaysOnStream(g: Lcg, mcg: bool, x: nat, n: nat)
    requires Maximal(g, mcg) && OnStream(g, mcg, x)
    ensures OnStream(g, mcg, Iterate(g, x, n))
  {
    if n == 0 {
      IterateNone(g, x);
    } else {
      StaysOnStream(g, mcg, x, n - 1);
      BumpOnStream(g, mcg, Iterate(g, x, n - 1));
    }
  }

  /** 2^i steps add exactly 2^(i+z) modulo 2^(i+z+1), where z counts the fixed bits: they keep the
      lower bits of the state and flip bit i + z. */
  lemma PowerStepsFlip(g: Lcg, mcg: bool, x: nat, i: nat)
    requires Maximal(g, mcg) && OnStream(g, mcg, x)
    ensures Cong(Mult(g, Pow2(i)) * x + Plus(g, Pow2(i)), x + Pow2(i + FixedBits(mcg)),
                 Pow2(i + FixedBits(mcg) + 1))
  {
    hide Mult, Plus, Cong, Pow2;
    var a, p := Mult(g, Pow2(i)), Plus(g, Pow2(i));
    if mcg {
      var u := McgPowerSteps(g, i);
      FourDivides(i + 2);
      OddResidue(x);
      McgFlip(a, Pow2(i + 2), Pow2(i + 3), u, x);
    } else {
      var u, v := OddPowerSteps(g, i);
      Doubling(i + 1);
      OddFlip(a, p, Pow2(i), Pow2(i + 1), Pow2(i + 2), u, v, x);
    }
  }

  lemma OddResidue(x: nat)
    requires x % 4 == 3
    ensures x % 2 == 1
  {
  }

  lemma McgFlip(a: nat, q: nat, r: nat, u: nat, x: nat)
    requires 0 < q && r == 2 * q && u % 2 == 1 && x % 2 == 1 && a == 1 + q * u
    ensures Cong(a * x, x + q, r)
  {
    var t := u * x;
    var o := OddProduct(u, x);
    ExpandOnePlus(a, q, u, x, t);
    OddMultiple(q, r, t, o);
    CongIntro(a * x, x + q, r, o);
  }

  lemma ExpandOnePlus(a: nat, q: nat, u: nat, x: nat, t: nat)
    requires a == 1 + q * u && t == u * x
    ensures a * x == x + q * t
  {
    assert q * u * x == q * (u * x);
  }

  lemma OddMultiple(q: nat, r: nat, t: nat, o: nat)
    requires t == 2 * o + 1 && r == 2 * q
    ensures q * t == q + o * r
  {
    assert o * (2 * q) == 2 * (o * q);
  }

  lemma OddProduct(u: nat, x: nat) returns (o: nat)
    requires u % 2 == 1 && x % 2 == 1
    ensures u * x == 2 * o + 1
  {
    var w := u / 2;
    o := w * x + x / 2;
    assert u == 2 * w + 1;
    assert (2 * w + 1) * x == 2 * (w * x) + x;
  }

  lemma OddFlip(a: nat, b: nat, p: nat, r: nat, q: nat, u: nat, v: nat, x: nat)
    requires 0 < p && r == 2 * p && q == 2 * r && v % 2 == 1 && a == 1 + q * u && b == p * v
    ensures Cong(a * x + b, x + p, r)
  {
    var t, w := u * x, v / 2;
    ExpandOnePlus(a, q, u, x, t);
    OddMultiple(p, r, v, w);
    Regroup(q, r, t);
    Distribute(r, 2 * t, w);
    CongIntro(a * x + b, x + p, r, 2 * t + w);
  }

  lemma PowerIterateFlip(g: Lcg, mcg: bool, x: nat, i: nat)
    requires Maximal(g, mcg) && OnStream(g, mcg, x)
    requires i + FixedBits(mcg) < g.bits
    ensures Cong(Iterate(g, x, Pow2(i)), x + Pow2(i + FixedBits(mcg)), Pow2(i + FixedBits(mcg) + 1))
  {
    hide Mult, Plus, Cong, Bump, Iterate, Pow2;
    var b := i + FixedBits(mcg);
    var y, a := Iterate(g, x, Pow2(i)), Mult(g, Pow2(i)) * x + Plus(g, Pow2(i));
    IterateAffine(g, x, Pow2(i));
    CongPow2(y, a, b + 1, g.bits);
    PowerStepsFlip(g, mcg, x, i);
    CongTrans(y, a, x + Pow2(b), Pow2(b + 1));
  }

  /** m blocks of 2^i steps add m * 2^(i+z) modulo 2^(i+z+1). */
  lemma {:induction false} Blocks(g: Lcg, mcg: bool, x: nat, i: nat, m: nat)
    requires Maximal(g, mcg) && OnStream(g, mcg, x)
    requires i + FixedBits(mcg) < g.bits
    ensures Cong(Iterate(g, x, m * Pow2(i)), x + m * Pow2(i + FixedBits(mcg)),
                 Pow2(i + FixedBits(mcg) + 1))
  {
    hide Cong, Bump, Iterate, Pow2, Maximal;
    if m == 0 {
      NoBlocks(g, mcg, x, i);
    } else {
      Blocks(g, mcg, x, i, m - 1);
      BlockStep(g, mcg, x, i, (m - 1) * Pow2(i), (m - 1) * Pow2(i + FixedBits(mcg)));
      OneMoreBlock(m, Pow2(i));
      OneMoreBlock(m, Pow2(i + FixedBits(mcg)));
    }
  }

  lemma NoBlocks(g: Lcg, mcg: bool, x: nat, i: nat)
    requires x < g.Modulus()
    ensures Cong(Iterate(g, x, 0 * Pow2(i)), x + 0 * Pow2(i + FixedBits(mcg)), Pow2(i + FixedBits(mcg) + 1))
  {
  }

  lemma OneMoreBlock(m: nat, p: nat)
    requires m >= 1
    ensures (m - 1) * p + p == m * p
  {
  }

  lemma BlockStep(g: Lcg, mcg: bool, x: nat, i: nat, n: nat, k: nat)
    requires Maximal(g, mcg) && OnStream(g, mcg, x)
    requires i + FixedBits(mcg) < g.bits
    requires Cong(Iterate(g, x, n), x + k, Pow2(i + FixedBits(mcg) + 1))
    ensures Cong(Iterate(g, x, n + Pow2(i)), x + (k + Pow2(i + FixedBits(mcg))), Pow2(i + FixedBits(mcg) + 1))
  {
    hide Cong, Bump, Iterate, Pow2;
    var q, r := Pow2(i + FixedBits(mcg)), Pow2(i + FixedBits(mcg) + 1);
    var y := Iterate(g, x, n);
    StaysOnStream(g, mcg, x, n);
    IterateAdd(g, x, n, Pow2(i));
    PowerIterateFlip(g, mcg, y, i);
    CongAddRight(y, x + k, q, r);
    CongTrans(Iterate(g, x, n + Pow2(i)), y + q, x + k + q, r);
  }

  lemma CongAddRight(x: int, y: int, z: int, m: int)
    requires 0 < m && Cong(x, y, m)
    ensures Cong(x + z, y + z, m)
  {
    CongAdd(x, y, z, z, m);
  }

  /** The sequence returns to its state modulo 2^(j+z) exactly after multiples of 2^j steps. */
  lemma {:induction false} ReturnTime(g: Lcg, mcg: bool, x: nat, n: nat, j: nat)
    requires Maximal(g, mcg) && OnStream(g, mcg, x)
    requires j + FixedBits(mcg) <= g.bits
    requires Cong(Iterate(g, x, n), x, Pow2(j + FixedBits(mcg)))
    ensures n % Pow2(j) == 0
  {
    hide Mult, Plus, Cong, Bump;
    if j != 0 {
      var z := FixedBits(mcg);
      CongPow2(Iterate(g, x, n), x, j - 1 + z, j + z);
      ReturnTime(g, mcg, x, n, j - 1);
      var m := n / Pow2(j - 1);
      ExactDivision(n, Pow2(j - 1));
      EvenReturn(g, mcg, x, j - 1, m);
      EvenMultiple(m, Pow2(j - 1));
    }
  }

  lemma ExactDivision(n: nat, d: nat)
    requires 0 < d && n % d == 0
    ensures n == n / d * d
  {
  }

  lemma EvenReturn(g: Lcg, mcg: bool, x: nat, i: nat, m: nat)
    requires Maximal(g, mcg) && OnStream(g, mcg, x)
    requires i + FixedBits(mcg) < g.bits
    requires Cong(Iterate(g, x, m * Pow2(i)), x, Pow2(i + FixedBits(mcg) + 1))
    ensures m % 2 == 0
  {
    hide Mult, Plus, Cong, Bump;
    Blocks(g, mcg, x, i, m);
    var y, r := Iterate(g, x, m * Pow2(i)), Pow2(i + FixedBits(mcg) + 1);
    CongSym(y, x, r);
    CongTrans(x, y, x + m * Pow2(i + FixedBits(mcg)), r);
    EvenBlocks(x, m, Pow2(i + FixedBits(mcg)));
  }

  lemma EvenMultiple(m: nat, q: nat)
    requires 0 < q && m % 2 == 0
    ensures m * q % (2 * q) == 0
  {
    assert m == m / 2 * 2;
    assert m / 2 * 2 * q == m / 2 * (2 * q);
    DivModUnique(m * q, 2 * q, m / 2, 0);
  }

  lemma EvenBlocks(x: nat, m: nat, q: nat)
    requires 0 < q && Cong(x, x + m * q, 2 * q)
    ensures m % 2 == 0
  {
    var e := CongElim(x, x + m * q, 2 * q);
    assert -e * (2 * q) == -2 * e * q;
    CancelFactor(m, -2 * e, q);
  }

  lemma CancelFactor(x: int, y: int, q: int)
    requires 0 < q && x * q == y * q
    ensures x == y
  {
    assert (x - y) * q == 0;
    if x > y {
      MulMonotonic(1, x - y, q);
    } else if x < y {
      MulMonotonic(x - y, -1, q);
    }
  }

  /** Two different step counts below 2^j never agree in the low bits. */
  lemma StepsInjective(g: Lcg, mcg: bool, x: nat, m: nat, n: nat, j: nat)
    requires Maximal(g, mcg) && OnStream(g, mcg, x)
    requires j + FixedBits(mcg) <= g.bits && m < Pow2(j) && n < Pow2(j)
    requires Cong(Iterate(g, x, m), Iterate(g, x, n), Pow2(j + FixedBits(mcg)))
    ensures m == n
  {
    hide Iterate, Bump, Cong, Maximal, Pow2;
    var lo, hi := if m <= n then m else n, if m <= n then n else m;
    var y := Iterate(g, x, lo);
    StaysOnStream(g, mcg, x, lo);
    IterateAdd(g, x, lo, hi - lo);
    if m <= n {
      CongSym(Iterate(g, x, m), Iterate(g, x, n), Pow2(j + FixedBits(mcg)));
    }
    ReturnTime(g, mcg, y, hi - lo, j);
    SmallMod(hi - lo, Pow2(j));
  }

  /** Every state of the stream is reached within one period. */
  lemma {:induction false} Reachable(g: Lcg, mcg: bool, s: nat, t: nat, j: nat) returns (n: nat)
    requires Maximal(g, mcg) && OnStream(g, mcg, s) && OnStream(g, mcg, t)
    requires j + FixedBits(mcg) <= g.bits
    ensures n < Pow2(j)
    ensures Cong(Iterate(g, s, n), t, Pow2(j + FixedBits(mcg)))
  {
    hide Cong, Bump, Iterate, Pow2, Maximal;
    var z := FixedBits(mcg);
    if j == 0 {
      n := 0;
      NothingToReach(g, mcg, s, t);
    } else {
      n := Reachable(g, mcg, s, t, j - 1);
      Doubling(j);
      if !Cong(Iterate(g, s, n), t, Pow2(j + z)) {
        ReachNext(g, mcg, s, t, j - 1, n);
        n := n + Pow2(j - 1);
      }
    }
  }

  lemma NothingToReach(g: Lcg, mcg: bool, s: nat, t: nat)
    requires OnStream(g, mcg, s) && OnStream(g, mcg, t)
    ensures 0 < Pow2(0) && Cong(Iterate(g, s, 0), t, Pow2(FixedBits(mcg)))
  {
    SmallPowers();
  }

  lemma ReachNext(g: Lcg, mcg: bool, s: nat, t: nat, i: nat, n: nat)
    requires Maximal(g, mcg) && OnStream(g, mcg, s)
    requires i + FixedBits(mcg) < g.bits
    requires Cong(Iterate(g, s, n), t, Pow2(i + FixedBits(mcg)))
    requires !Cong(Iterate(g, s, n), t, Pow2(i + FixedBits(mcg) + 1))
    ensures Cong(Iterate(g, s, n + Pow2(i)), t, Pow2(i + FixedBits(mcg) + 1))
  {
    hide Cong, Bump, Iterate, Pow2;
    var b := i + FixedBits(mcg);
    var y := Iterate(g, s, n);
    StaysOnStream(g, mcg, s, n);
    PowerIterateFlip(g, mcg, y, i);
    FlipFixes(y, t, b);
    IterateAdd(g, s, n, Pow2(i));
    CongTrans(Iterate(g, y, Pow2(i)), y + Pow2(b), t, Pow2(b + 1));
  }

  /** If x and t agree below bit i but not on bit i, adding 2^i makes them agree up to bit i. */
  lemma FlipFixes(x: nat, t: nat, i: nat)
    requires Cong(x, t, Pow2(i)) && !Cong(x, t, Pow2(i + 1))
    ensures Cong(x + Pow2(i), t, Pow2(i + 1))
  {
    hide Pow2, Cong;
    var p := Pow2(i);
    Doubling(i + 1);
    var q := CongElim(x, t, p);
    if q % 2 == 0 {
      HalveFactor(q, q / 2, p);
      CongIntro(x, t, 2 * p, q / 2);
    } else {
      HalveFactor(q + 1, (q + 1) / 2, p);
      Distribute(p, q, 1);
      CongIntro(x + p, t, 2 * p, (q + 1) / 2);
    }
  }

  lemma HalveFactor(q: int, h: int, p: int)
    requires q == 2 * h
    ensures q * p == h * (2 * p)
  {
    assert 2 * h * p == h * (2 * p);
  }

  // --- the full period -------------------------------------------------------------------------

  /** The length of the cycle that a maximal generator runs through. */
  function Period(g: Lcg, mcg: bool): nat
    requires FixedBits(mcg) <= g.bits
  {
    Pow2(g.bits - FixedBits(mcg))
  }

  /** n is the one and only number of steps below the period from s to t. */
  ghost predicate OnlySteps(g: Lcg, mcg: bool, s: nat, t: nat, n: nat)
    requires s < g.Modulus() && FixedBits(mcg) <= g.bits
  {
    n < Period(g, mcg) && forall m: nat :: m < Period(g, mcg) ==> (Iterate(g, s, m) == t <==> m == n)
  }

  ghost predicate ReachesOnce(g: Lcg, mcg: bool, s: nat, t: nat)
    requires s < g.Modulus() && FixedBits(mcg) <= g.bits
  {
    exists n: nat :: OnlySteps(g, mcg, s, t, n)
  }

  /** A maximal generator, additive or multiplicative, runs through all states of its stream once and then
      starts over: its period is 2^bits or 2^(bits - 2), from every state. */
  lemma MaximalPeriod(g: Lcg, mcg: bool, s: nat, t: nat)
    requires Maximal(g, mcg) && OnStream(g, mcg, s) && OnStream(g, mcg, t)
    ensures FixedBits(mcg) <= g.bits
    ensures ReachesOnce(g, mcg, s, t) && Iterate(g, s, Period(g, mcg)) == s
  {
    hide OnlySteps, Iterate;
    var n := StepsBetween(g, mcg, s, t);
    PeriodReturns(g, mcg, s);
  }

  lemma StepsBetween(g: Lcg, mcg: bool, s: nat, t: nat) returns (n: nat)
    requires Maximal(g, mcg) && OnStream(g, mcg, s) && OnStream(g, mcg, t)
    ensures FixedBits(mcg) <= g.bits && OnlySteps(g, mcg, s, t, n)
  {
    var j := g.bits - FixedBits(mcg);
    hide Iterate, Bump, Cong, Pow2;
    n := Reachable(g, mcg, s, t, j);
    CongSmall(Iterate(g, s, n), t, g.Modulus());
    forall m: nat | m < Pow2(j) && Iterate(g, s, m) == t ensures m == n {
      CongRefl(t, Pow2(g.bits));
      StepsInjective(g, mcg, s, m, n, j);
    }
  }

  lemma PeriodReturns(g: Lcg, mcg: bool, s: nat)
    requires Maximal(g, mcg) && OnStream(g, mcg, s)
    ensures FixedBits(mcg) <= g.bits && Iterate(g, s, Period(g, mcg)) == s
  {
    var j := g.bits - FixedBits(mcg);
    var p := Pow2(j);
    hide Iterate, Bump, Cong, Pow2;
    var t := Iterate(g, s, p);
    StaysOnStream(g, mcg, s, p);
    var n := StepsBetween(g, mcg, s, t);
    var y := Iterate(g, s, n);
    IterateAdd(g, s, n, p - n);
    CongRefl(y, Pow2(g.bits));
    StaysOnStream(g, mcg, s, n);
    ReturnTime(g, mcg, y, p - n, j);
    if n > 0 {
      SmallMod(p - n, p);
    }
    IterateNone(g, s);
  }

  lemma IterateNone(g: Lcg, s: nat)
    requires s < g.Modulus()
    ensures Iterate(g, s, 0) == s
  {
  }

  /** Every state is reachable from every state. */
  ghost predicate FullPeriod(g: Lcg) {
    forall s: nat, t: nat :: s < g.Modulus() && t < g.Modulus() ==> Reaches(g, s, t)
  }

  ghost predicate Reaches(g: Lcg, s: nat, t: nat)
    requires s < g.Modulus()
  {
    exists n: nat :: n < g.Modulus() && Iterate(g, s, n) == t
  }

  lemma MaximalHasFullPeriod(g: Lcg)
    requires g.mult % 4 == 1 && g.inc % 2 == 1
    ensures FullPeriod(g)
  {
    forall s: nat, t: nat | s < g.Modulus() && t < g.Modulus() ensures Reaches(g, s, t) {
      var n := Reachable(g, false, s, t, g.bits);
      CongSmall(Iterate(g, s, n), t, g.Modulus());
    }
  }

  /** Hull and Dobell's theorem for a power-of-two modulus: the period is full exactly when the
      increment is odd and the multiplier is 1 modulo 4. */
  lemma FullPeriodIff(g: Lcg)
    requires g.bits >= 2
    ensures FullPeriod(g) <==> g.mult % 4 == 1 && g.inc % 2 == 1
  {
    hide Iterate, FullPeriod, Pow2, Bump;
    AtLeastFour(g);
    Residues(g.mult);
    if g.mult % 4 == 1 && g.inc % 2 == 1 {
      MaximalHasFullPeriod(g);
    } else if g.inc % 2 == 0 {
      EvenNotFull(g);
    } else if g.mult % 2 == 0 {
      OddNotFull(g);
    } else {
      QuarterNotFull(g);
    }
  }

  lemma AtLeastFour(g: Lcg)
    requires g.bits >= 2
    ensures 4 <= g.Modulus()
  {
    Pow2Monotonic(2, g.bits);
    SmallPowers();
  }

  lemma Residues(m: nat)
    ensures m % 2 == 1 ==> m % 4 == 1 || m % 4 == 3
    ensures m % 4 == 1 ==> m % 2 == 1
  {
    var r := m % 4;
    DivModUnique(m, 2, 2 * (m / 4) + r / 2, r % 2);
  }

  lemma EvenNotFull(g: Lcg)
    requires 4 <= g.Modulus() && g.bits >= 2 && g.inc % 2 == 0
    ensures !FullPeriod(g)
  {
    hide Iterate, FullPeriod, Pow2, Bump;
    forall n: nat ensures Iterate(g, 0, n) != 1 { EvenTrap(g, n); }
    NeverReached(g, 0, 1);
  }

  lemma OddNotFull(g: Lcg)
    requires 4 <= g.Modulus() && g.bits >= 2 && g.inc % 2 == 1 && g.mult % 2 == 0
    ensures !FullPeriod(g)
  {
    hide Iterate, FullPeriod, Pow2, Bump;
    forall n: nat ensures Iterate(g, 1, n) != 0 { OddTrap(g, n); }
    NeverReached(g, 1, 0);
  }

  lemma QuarterNotFull(g: Lcg)
    requires 4 <= g.Modulus() && g.bits >= 2 && g.inc % 2 == 1 && g.mult % 4 == 3
    ensures !FullPeriod(g)
  {
    hide Iterate, FullPeriod, Pow2, Bump;
    forall n: nat ensures Iterate(g, 0, n) != 2 { QuarterTrap(g, n); }
    NeverReached(g, 0, 2);
  }

  lemma NeverReached(g: Lcg, s: nat, t: nat)
    requires s < g.Modulus() && t < g.Modulus() && forall n: nat :: Iterate(g, s, n) != t
    ensures !FullPeriod(g)
  {
    hide Iterate;
    assert !Reaches(g, s, t);
  }

  /** A step, reduced modulo 2^j, from the residues of the state, multiplier and increment. */
  lemma BumpClass(g: Lcg, x: nat, rx: nat, ra: nat, rc: nat, j: nat)
    requires j <= g.bits
    requires x % Pow2(j) == rx && g.mult % Pow2(j) == ra && g.inc % Pow2(j) == rc
    ensures Bump(g, x) % Pow2(j) == (rx * ra + rc) % Pow2(j)
  {
    var y := x * g.mult + g.inc;
    CongMod(y, g.Modulus());
    CongPow2(Bump(g, x), y, j, g.bits);
    CongMod(x, Pow2(j));
    CongMod(g.mult, Pow2(j));
    CongMod(g.inc, Pow2(j));
    CongMul(rx, x, ra, g.mult, Pow2(j));
    CongAdd(rx * ra, x * g.mult, rc, g.inc, Pow2(j));
  }

  lemma {:induction false} EvenTrap(g: Lcg, n: nat)
    requires g.bits >= 2 && g.inc % 2 == 0
    ensures Iterate(g, 0, n) % 2 == 0
  {
    hide Bump;
    SmallPowers();
    if n != 0 {
      EvenTrap(g, n - 1);
      BumpClass(g, Iterate(g, 0, n - 1), 0, g.mult % 2, 0, 1);
    }
  }

  lemma {:induction false} OddTrap(g: Lcg, n: nat)
    requires g.bits >= 2 && g.inc % 2 == 1 && g.mult % 2 == 0
    ensures 1 < g.Modulus()
    ensures Iterate(g, 1, n) % 2 == 1
  {
    hide Bump;
    SmallPowers();
    Pow2Monotonic(2, g.bits);
    if n != 0 {
      OddTrap(g, n - 1);
      BumpClass(g, Iterate(g, 1, n - 1), 1, 0, 1, 1);
    }
  }

  lemma {:induction false} QuarterTrap(g: Lcg, n: nat)
    requires g.bits >= 2 && g.inc % 2 == 1 && g.mult % 4 == 3
    ensures Iterate(g, 0, n) % 4 == 0 || Iterate(g, 0, n) % 4 == g.inc % 4
  {
    hide Bump;
    if n != 0 {
      var x := Iterate(g, 0, n - 1);
      QuarterTrap(g, n - 1);
      QuarterStep(g, x);
      assert Iterate(g, 0, n) == Bump(g, x);
    }
  }

  lemma QuarterStep(g: Lcg, x: nat)
    requires g.bits >= 2 && g.inc % 2 == 1 && g.mult % 4 == 3
    ensures x % 4 == 0 ==> Bump(g, x) % 4 == g.inc % 4
    ensures x % 4 == g.inc % 4 ==> Bump(g, x) % 4 == 0
  {
    assert Pow2(2) == 4;
    var c := g.inc % 4;
    if x % 4 == 0 {
      BumpClass(g, x, 0, 3, c, 2);
    } else if x % 4 == c {
      BumpClass(g, x, c, 3, c, 2);
    }
  }

  // --- going backwards -------------------------------------------------------------------------

  /** For every odd multiplier and every increment, 2^bits steps are the identity. */
  lemma WholePeriod(g: Lcg, x: nat)
    requires g.mult % 2 == 1 && x < g.Modulus()
    ensures Iterate(g, x, g.Modulus()) == x
  {
    hide Mult, Plus, Iterate, Cong;
    var p := g.Modulus();
    var u, v := PowerSteps(g, g.bits);
    IterateAffine(g, x, p);
    var a, b := Mult(g, p), Plus(g, p);
    WholeMultiple(a, b, p, u, v, x);
    CongTrans(Iterate(g, x, p), a * x + b, x, p);
    CongSmall(Iterate(g, x, p), x, p);
  }

  lemma WholeMultiple(a: nat, b: nat, p: nat, u: nat, v: nat, x: nat)
    requires 0 < p && a == 1 + 2 * p * u && b == p * v
    ensures Cong(a * x + b, x, p)
  {
    var t := u * x;
    assert (1 + 2 * p * u) * x == x + 2 * t * p;
    assert (2 * t + v) * p == 2 * t * p + p * v;
    CongIntro(a * x + b, x, p, 2 * t + v);
  }

  /** The word -delta. */
  function Negate(g: Lcg, delta: nat): (r: nat)
    ensures r < g.Modulus()
  {
    (0 - delta) % g.Modulus()
  }

  lemma NegateValue(g: Lcg, delta: nat)
    requires delta < g.Modulus()
    ensures Negate(g, delta) == if delta == 0 then 0 else g.Modulus() - delta
  {
    DivModUnique(0 - delta, g.Modulus(), if delta == 0 then 0 else -1, if delta == 0 then 0 else g.Modulus() - delta);
  }

  /** Stepping back by d undoes stepping forward by d, and the other way round. */
  predicate Undone(g: Lcg, x: nat, d: nat)
    requires x < g.Modulus()
  {
    Iterate(g, Iterate(g, x, d), Negate(g, d)) == x && Iterate(g, Iterate(g, x, Negate(g, d)), d) == x
  }

  lemma BackstepUndoes(g: Lcg, x: nat, d: nat)
    requires g.mult % 2 == 1 && x < g.Modulus() && d < g.Modulus()
    ensures Undone(g, x, d)
  {
    hide Iterate;
    NegateValue(g, d);
    IterateAdd(g, x, d, Negate(g, d));
    IterateAdd(g, x, Negate(g, d), d);
    WholePeriod(g, x);
    IterateNone(g, x);
  }

  /** With an even multiplier, 0 and 2^(bits-1) have the same successor. */
  lemma EvenMultiplierCollides(g: Lcg)
    requires g.bits >= 1 && g.mult % 2 == 0
    ensures Pow2(g.bits - 1) < g.Modulus()
    ensures Iterate(g, Pow2(g.bits - 1), 1) == Iterate(g, 0, 1)
  {
    var h := Pow2(g.bits - 1);
    assert h * g.mult == g.mult / 2 * g.Modulus() by {
      assert g.mult == g.mult / 2 * 2;
      assert h * (g.mult / 2 * 2) == g.mult / 2 * (2 * h);
    }
    CongIntro(h * g.mult + g.inc, 0 * g.mult + g.inc, g.Modulus(), g.mult / 2);
    assert Iterate(g, h, 1) == Bump(g, Iterate(g, h, 0));
    assert Iterate(g, 0, 1) == Bump(g, Iterate(g, 0, 0));
  }

  /** Stepping back by any amount undoes stepping forward by it, for every state, exactly when the
      multiplier is odd. */
  lemma BackstepIff(g: Lcg)
    requires g.bits >= 1
    ensures (forall x: nat, d: nat :: x < g.Modulus() && d < g.Modulus() ==> Undone(g, x, d))
            <==> g.mult % 2 == 1
  {
    if g.mult % 2 == 1 {
      forall x: nat, d: nat | x < g.Modulus() && d < g.Modulus() ensures Undone(g, x, d) {
        BackstepUndoes(g, x, d);
      }
    } else {
      EvenMultiplierCollides(g);
      Pow2Monotonic(1, g.bits);
      assert !Undone(g, 0, 1) || !Undone(g, Pow2(g.bits - 1), 1);
    }
  }
}
