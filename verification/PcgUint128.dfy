/** The hand-written 128-bit integer of base/pcg-random/pcg_uint128.hpp: four words of 32 bits, little end
    first, with its own carries, shifts, product and division. */
module PcgUint128 {
  import opened Arith
  import opened Bits

  const W: nat := 0x1_0000_0000
  const W2: nat := 0x1_0000_0000_0000_0000
  const W3: nat := 0x1_0000_0000_0000_0000_0000_0000
  const LIMIT: nat := 0x1_0000_0000_0000_0000_0000_0000_0000_0000

  predicate Words(v: seq<nat>) {
    |v| == 4 && v[0] < W && v[1] < W && v[2] < W && v[3] < W
  }

  function Value(v: seq<nat>): (r: nat)
    requires Words(v)
    ensures r < LIMIT
  {
    v[0] + v[1] * W + v[2] * W2 + v[3] * W3
  }

  /** The halves d.v01 and d.v23 of the union. */
  function Low(v: seq<nat>): nat
    requires Words(v)
  { v[0] + v[1] * W }

  function High(v: seq<nat>): nat
    requires Words(v)
  { v[2] + v[3] * W }

  function Bool(b: bool): nat { if b then 1 else 0 }

  // --- sums, differences, order -----------------------------------------------------------------------------

  /** addwithcarry: the carry is seen by comparing wrapped sums. */
  method AddWithCarry(x: nat, y: nat, carryIn: bool) returns (result: nat, carryOut: bool)
    requires x < W && y < W
    ensures result < W && result + W * Bool(carryOut) == x + y + Bool(carryIn)
  {
    var half := (y + Bool(carryIn)) % W;
    result := (x + half) % W;
    carryOut := half < y || result < x;
  }

  method SubWithCarry(x: nat, y: nat, carryIn: bool) returns (result: nat, carryOut: bool)
    requires x < W && y < W
    ensures result < W && result + y + Bool(carryIn) == x + W * Bool(carryOut)
  {
    var half: int := (y + Bool(carryIn)) % W;
    var difference: int := x;
    result := (difference - half) % W;
    carryOut := half < y || result > x;
  }

  method Plus(a: seq<nat>, b: seq<nat>) returns (r: seq<nat>)
    requires Words(a) && Words(b)
    ensures Words(r) && Value(r) == (Value(a) + Value(b)) % LIMIT
  {
    var r0, c0 := AddWithCarry(a[0], b[0], false);
    var r1, c1 := AddWithCarry(a[1], b[1], c0);
    var r2, c2 := AddWithCarry(a[2], b[2], c1);
    var r3, c3 := AddWithCarry(a[3], b[3], c2);
    r := [r0, r1, r2, r3];
    assert Value(r) + LIMIT * Bool(c3) == Value(a) + Value(b);
  }

  method Minus(a: seq<nat>, b: seq<nat>) returns (r: seq<nat>)
    requires Words(a) && Words(b)
    ensures Words(r) && Value(r) == (Value(a) as int - Value(b)) % LIMIT
  {
    var r0, c0 := SubWithCarry(a[0], b[0], false);
    var r1, c1 := SubWithCarry(a[1], b[1], c0);
    var r2, c2 := SubWithCarry(a[2], b[2], c1);
    var r3, c3 := SubWithCarry(a[3], b[3], c2);
    r := [r0, r1, r2, r3];
    assert Value(r) + Value(b) == Value(a) + LIMIT * Bool(c3);
  }

  /** operator<, on halves. */
  function Less(a: seq<nat>, b: seq<nat>): (r: bool)
    requires Words(a) && Words(b)
    ensures r <==> Value(a) < Value(b)
  {
    assert Value(a) == Low(a) + W2 * High(a) && Value(b) == Low(b) + W2 * High(b);
    High(a) < High(b) || (High(a) == High(b) && Low(a) < Low(b))
  }

  // --- product ----------------------------------------------------------------------------------------------

  /** The product of the low halves, exactly, by four products of words. */
  method MultiplyLow(a: seq<nat>, b: seq<nat>) returns (r: seq<nat>)
    requires Words(a) && Words(b)
    ensures Words(r) && Value(r) == Low(a) * Low(b)
  {
    DigitProducts(a[0], a[1], b[0], b[1], W);
    ProductBound(a[0], b[0], W);
    ProductBound(a[1], b[0], W);
    ProductBound(a[0], b[1], W);
    ProductBound(a[1], b[1], W);
    hide Value;
    r := AddProducts(a[0] * b[0], a[1] * b[0], a[0] * b[1], a[1] * b[1]);
  }

  method AddProducts(a0b0: nat, a1b0: nat, a0b1: nat, a1b1: nat) returns (r: seq<nat>)
    requires a0b0 <= (W - 1) * (W - 1) && a1b0 <= (W - 1) * (W - 1)
    requires a0b1 <= (W - 1) * (W - 1) && a1b1 <= (W - 1) * (W - 1)
    ensures Words(r) && Value(r) == a0b0 + (a1b0 + a0b1) * W + a1b1 * W2
  {
    var carry;
    var r0, r1 := a0b0 % W, a0b0 / W;
    var r2, r3 := a1b0 / W, 0;
    r1, carry := AddWithCarry(r1, a1b0 % W, false);
    r2, carry := AddWithCarry(r2, 0, carry);
    r3, carry := AddWithCarry(r3, 0, carry);
    assert r0 + r1 * W + r2 * W2 + r3 * W3 == a0b0 + a1b0 * W;

    r2, carry := AddWithCarry(r2, a0b1 / W, false);
    r3, carry := AddWithCarry(r3, 0, carry);
    r1, carry := AddWithCarry(r1, a0b1 % W, false);
    r2, carry := AddWithCarry(r2, 0, carry);
    r3, carry := AddWithCarry(r3, 0, carry);
    assert r0 + r1 * W + r2 * W2 + r3 * W3 == a0b0 + (a1b0 + a0b1) * W;

    r2, carry := AddWithCarry(r2, a1b1 % W, false);
    r3, carry := AddWithCarry(r3, a1b1 / W, carry);
    r := [r0, r1, r2, r3];
  }

  lemma HighProduct(al: nat, ah: nat, bl: nat, bh: nat)
    ensures (al + W2 * ah) * (bl + W2 * bh) == al * bl + W2 * (al * bh + ah * bl) + LIMIT * (ah * bh)
  {
    assert (al + W2 * ah) * (bl + W2 * bh) == al * bl + al * (W2 * bh) + W2 * ah * bl + W2 * ah * (W2 * bh);
    assert W2 * ah * (W2 * bh) == LIMIT * (ah * bh);
  }

  lemma HalfSum(top: nat, lh: nat, hl: nat) returns (q: nat)
    ensures top + lh + hl == (top + (lh % W2 + hl % W2) % W2) % W2 + W2 * q
  {
    var s := lh % W2 + hl % W2;
    q := lh / W2 + hl / W2 + s / W2 + (top + s % W2) / W2;
  }

  lemma TimesModulus(product: nat, ll: nat, lh: nat, hl: nat, hh: nat, low: nat, top: nat, high: nat)
    requires product == ll + W2 * (lh + hl) + LIMIT * hh && ll == low + W2 * top && low < W2
    requires high == (top + (lh % W2 + hl % W2) % W2) % W2
    ensures low + W2 * high == product % LIMIT
  {
    var q := HalfSum(top, lh, hl);
    DivModUnique(product, LIMIT, q + hh, low + W2 * high);
  }

  lemma Halves(v: seq<nat>)
    requires Words(v)
    ensures Value(v) == Low(v) + W2 * High(v) && Low(v) < W2 && High(v) < W2
  {
  }

  lemma ProductOfHalves(al: nat, ah: nat, bl: nat, bh: nat, low: nat, top: nat)
    requires al * bl == low + W2 * top && low < W2
    ensures low + W2 * AddHalves(top, al * bh, ah * bl) == (al + W2 * ah) * (bl + W2 * bh) % LIMIT
  {
    HighProduct(al, ah, bl, bh);
    TimesModulus((al + W2 * ah) * (bl + W2 * bh), al * bl, al * bh, ah * bl, ah * bh, low, top,
                 AddHalves(top, al * bh, ah * bl));
  }

  lemma ProductValue(a: seq<nat>, b: seq<nat>, low: seq<nat>)
    requires Words(a) && Words(b) && Words(low) && Value(low) == Low(a) * Low(b)
    ensures Low(low) + W2 * AddHalves(High(low), Low(a) * High(b), High(a) * Low(b)) == Value(a) * Value(b) % LIMIT
  {
    hide Value, Low, High, Words, AddHalves;
    Halves(a);
    Halves(b);
    Halves(low);
    ProductOfHalves(Low(a), High(a), Low(b), High(b), Low(low), High(low));
  }

  lemma WithUpperHalf(low: seq<nat>, high: nat, r: seq<nat>)
    requires Words(low) && high < W2 && r == [low[0], low[1], high % W, high / W]
    ensures Words(r) && Value(r) == Low(low) + W2 * high
  {
  }

  /** operator*: the product modulo 2^128. */
  method Times(a: seq<nat>, b: seq<nat>) returns (r: seq<nat>)
    requires Words(a) && Words(b)
    ensures Words(r) && Value(r) == Value(a) * Value(b) % LIMIT
  {
    hide Value, Low, High, AddHalves;
    var low := MultiplyLow(a, b);
    ProductValue(a, b, low);
    var high := AddHalves(High(low), Low(a) * High(b), High(a) * Low(b));
    r := [low[0], low[1], high % W, high / W];
    WithUpperHalf(low, high, r);
  }

  /** The upper half, in 64-bit arithmetic. */
  function AddHalves(top: nat, lh: nat, hl: nat): (r: nat)
    ensures r < W2
  {
    (top + (lh % W2 + hl % W2) % W2) % W2
  }

  // --- shifts -----------------------------------------------------------------------------------------------

  /** A word shifted left, within its 32 bits. */
  function ShlWord(x: nat, m: nat): (r: nat)
    ensures r < W
  {
    WordIsPow2();
    Shl(32, x, m)
  }

  lemma WordIsPow2()
    ensures Pow2(32) == W
  {
    hide Pow2;
    assert Pow2(8) == 0x100 by {
      Pow2Add(4, 4);
      Pow2Add(2, 2);
      SmallPowers();
    }
    Pow2Add(8, 8);
    Pow2Add(16, 16);
  }

  /** Where a shift by m cuts a word. */
  lemma WordSplit(x: nat, m: nat)
    requires x < W && m <= 32
    ensures Pow2(m) * Pow2(32 - m) == W
    ensures ShlWord(x, m) == x % Pow2(32 - m) * Pow2(m)
    ensures x * Pow2(m) == ShlWord(x, m) + W * Shr(x, 32 - m)
    ensures Shr(x, 32 - m) < Pow2(m)
  {
    hide Pow2;
    WordIsPow2();
    ShiftCuts(32, x, m);
  }

  /** Joining two parts of a word with | is adding them. */
  lemma JoinWords(x: nat, y: nat, m: nat)
    requires x < W && y < W && 1 <= m < 32
    ensures Or(ShlWord(x, m), Shr(y, 32 - m)) == ShlWord(x, m) + Shr(y, 32 - m) < W
    ensures Or(Shr(y, 32 - m), ShlWord(x, m)) == ShlWord(x, m) + Shr(y, 32 - m)
  {
    hide Pow2, Bitwise, Shr;
    WordIsPow2();
    JoinParts(32, x, y, m);
  }

  /** Word j of a number shifted left by 32 d + m bits. */
  ghost function LeftWord(v: seq<nat>, d: nat, m: nat, j: nat): nat
    requires Words(v) && d <= j < 4 && m < 32
  {
    ShlWord(v[j - d], m) + (if j == d then 0 else Shr(v[j - d - 1], 32 - m))
  }

  /** operator<<, for every shift of type bitcount_t. */
  method ShiftLeft(v: seq<nat>, shift: nat) returns (r: seq<nat>)
    requires Words(v) && shift < 256
    ensures Words(r) && Value(r) == Value(v) * Pow2(shift) % LIMIT
  {
    hide Pow2, Shr, ShlWord, Bitwise, Value;
    r := [0, 0, 0, 0];
    var d, m := shift / 32, shift % 32;
    var carryOver, out, inn := 0, d, 0;
    while out < 4
      invariant out == inn + d && (out <= 4 || inn == 0) && Words(r)
      invariant carryOver == if inn == 0 then 0 else Shr(v[inn - 1], 32 - m)
      invariant forall j :: 0 <= j < 4 ==> r[j] == if d <= j < out then LeftWord(v, d, m, j) else 0
    {
      if m != 0 {
        JoinWords(v[inn], if inn == 0 then 0 else v[inn - 1], m);
        NothingOver(32 - m);
        r := r[out := Or(ShlWord(v[inn], m), carryOver)];
      } else {
        WholeWord(v[inn]);
        WholeWord(if inn == 0 then 0 else v[inn - 1]);
        r := r[out := v[inn]];
      }
      carryOver := Shr(v[inn], 32 - m);
      out, inn := out + 1, inn + 1;
    }
    if d < 4 {
      LeftValue(v, d, m, r);
    } else {
      ShiftedOut(v, shift, r);
    }
  }

  lemma ShiftedOut(v: seq<nat>, shift: nat, r: seq<nat>)
    requires Words(v) && 128 <= shift && r == [0, 0, 0, 0]
    ensures Value(r) == 0 == Value(v) * Pow2(shift) % LIMIT && Value(v) / Pow2(shift) == 0
  {
    assert Value(r) == 0;
    hide Pow2, Value;
    LimitIsPow2();
    Pow2Add(shift - 128, 128);
    MultipleOf(Value(v), Pow2(shift - 128), LIMIT);
    Pow2Monotonic(128, shift);
    SmallMod(Value(v), Pow2(shift));
  }

  lemma LimitIsPow2()
    ensures Pow2(128) == LIMIT
  {
    hide Pow2;
    WordIsPow2();
    Pow2Add(32, 32);
    Pow2Add(64, 64);
  }

  lemma MultipleOf(x: nat, p: nat, w: nat)
    requires 0 < w
    ensures x * (p * w) % w == 0
  {
    assert x * (p * w) == x * p * w;
    DivModUnique(x * (p * w), w, x * p, 0);
  }

  lemma NothingOver(n: nat)
    ensures Shr(0, n) == 0
  {
  }

  lemma WholeWord(x: nat)
    requires x < W
    ensures ShlWord(x, 0) == x && Shr(x, 32) == 0 && Shr(x, 0) == x && ShlWord(x, 32) == 0
  {
    hide Pow2;
    SmallPowers();
    WordIsPow2();
    DivModUnique(x * W, W, x, 0);
  }

  lemma ValueTimes(v: seq<nat>, p: nat)
    requires Words(v)
    ensures Value(v) * p == v[0] * p + v[1] * p * W + v[2] * p * W2 + v[3] * p * W3
  {
  }

  function WPower(d: nat): nat
    requires d < 4
  {
    if d == 0 then 1 else if d == 1 then W else if d == 2 then W2 else W3
  }

  lemma PowerOfWords(d: nat, m: nat)
    requires d < 4
    ensures Pow2(32 * d + m) == WPower(d) * Pow2(m)
  {
    hide Pow2;
    WordIsPow2();
    if d > 0 {
      Pow2Add(32, 32 * (d - 1) + m);
    }
    if d > 1 {
      Pow2Add(32, 32 * (d - 2) + m);
    }
    if d > 2 {
      Pow2Add(32, m);
    }
  }

  /** The words of a shifted number, each product t of a word cut into its low part and its overflow h. */
  lemma LeftSum(d: nat, t: seq<nat>, h: seq<nat>, r: seq<nat>) returns (c: nat)
    requires d < 4 && |t| == 4 && |h| == 4 && Words(r)
    requires forall j :: 0 <= j < 4 ==>
               r[j] == if j < d then 0 else t[j - d] - W * h[j - d] + (if j == d then 0 else h[j - d - 1])
    ensures (t[0] + t[1] * W + t[2] * W2 + t[3] * W3) * WPower(d) == Value(r) + LIMIT * c
  {
    assert r[0] == if d == 0 then t[0] - W * h[0] else 0;
    if d == 0 {
      c := h[3];
    } else if d == 1 {
      c := h[2] + t[3];
    } else if d == 2 {
      c := h[1] + t[2] + t[3] * W;
    } else {
      c := h[0] + t[1] + t[2] * W + t[3] * W2;
    }
  }

  lemma LeftValue(v: seq<nat>, d: nat, m: nat, r: seq<nat>)
    requires Words(v) && Words(r) && d < 4 && m < 32
    requires forall j :: 0 <= j < 4 ==> r[j] == if d <= j < 4 then LeftWord(v, d, m, j) else 0
    ensures Value(r) == Value(v) * Pow2(32 * d + m) % LIMIT
  {
    hide Pow2, Shr, ShlWord, Value, WPower;
    var p := Pow2(m);
    ValueTimes(v, p);
    forall i | 0 <= i < 4 ensures ShlWord(v[i], m) == v[i] * p - W * Shr(v[i], 32 - m) {
      WordSplit(v[i], m);
    }
    PowerOfWords(d, m);
    var t := seq(4, i requires 0 <= i < 4 => v[i] * p);
    var h := seq(4, i requires 0 <= i < 4 => Shr(v[i], 32 - m));
    var c := LeftSum(d, t, h, r);
    LeftModulus(Value(v), p, WPower(d), Value(r), c);
  }

  lemma LeftModulus(v: nat, p: nat, w: nat, r: nat, c: nat)
    requires v * p * w == r + LIMIT * c && r < LIMIT
    ensures r == v * (w * p) % LIMIT
  {
    assert v * (w * p) == v * p * w;
    DivModUnique(v * (w * p), LIMIT, c, r);
  }

  /** Word j of a number shifted right by 32 d + m bits. */
  ghost function RightWord(v: seq<nat>, d: nat, m: nat, j: nat): nat
    requires Words(v) && j + d < 4 && m < 32
  {
    Shr(v[j + d], m) + (if j + d == 3 then 0 else ShlWord(v[j + d + 1], 32 - m))
  }

  /** operator>>; from 160 on the source would start above the fourth word. */
  method ShiftRight(v: seq<nat>, shift: nat) returns (r: seq<nat>)
    requires Words(v) && shift < 160
    ensures Words(r) && Value(r) == Value(v) / Pow2(shift)
  {
    hide Pow2, Shr, ShlWord, Bitwise, Value;
    r := [0, 0, 0, 0];
    var d, m := shift / 32, shift % 32;
    var carryOver, out, inn := 0, 4 - d, 4;
    while out != 0
      invariant out + d == inn && 0 <= out <= 4 - d && Words(r)
      invariant carryOver == if inn == 4 then 0 else ShlWord(v[inn], 32 - m)
      invariant forall j :: 0 <= j < 4 ==> r[j] == if out <= j < 4 - d then RightWord(v, d, m, j) else 0
    {
      out, inn := out - 1, inn - 1;
      if m != 0 {
        JoinRight(v[inn], if inn == 3 then 0 else v[inn + 1], m);
        NothingShifted(32 - m);
        r := r[out := Or(Shr(v[inn], m), carryOver)];
      } else {
        WholeWord(v[inn]);
        WholeWord(if inn == 3 then 0 else v[inn + 1]);
        r := r[out := v[inn]];
      }
      carryOver := ShlWord(v[inn], 32 - m);
    }
    if d < 4 {
      RightValue(v, d, m, r);
    } else {
      assert r == [0, 0, 0, 0];
      ShiftedOut(v, shift, r);
    }
  }

  lemma JoinRight(x: nat, y: nat, m: nat)
    requires x < W && y < W && 1 <= m < 32
    ensures Or(Shr(x, m), ShlWord(y, 32 - m)) == Shr(x, m) + ShlWord(y, 32 - m) < W
  {
    hide Bitwise, Shr, ShlWord;
    JoinWords(y, x, 32 - m);
  }

  lemma NothingShifted(m: nat)
    ensures ShlWord(0, m) == 0
  {
    hide Pow2, Shl;
    ShlOfZero(32, m);
  }

  /** A word of the shifted number times 2^m: the word less its low bits, and the low bits of the next one. */
  lemma RightTimes(x: nat, y: nat, m: nat)
    requires x < W && y < W && m < 32
    ensures (Shr(x, m) + ShlWord(y, 32 - m)) * Pow2(m) == x - x % Pow2(m) + y % Pow2(m) * W
  {
    hide Pow2, ShlWord;
    WordSplit(y, 32 - m);
    RightAtoms(x, Pow2(m), Pow2(32 - m), y % Pow2(m));
  }

  lemma RightAtoms(x: nat, p: nat, q: nat, l: nat)
    requires 0 < p && p * q == W
    ensures (x / p + l * q) * p == x - x % p + l * W
  {
    assert x == x / p * p + x % p;
    assert (x / p + l * q) * p == x / p * p + l * (q * p);
  }

  lemma RightSum(d: nat, v: seq<nat>, low: seq<int>, u: seq<int>, p: nat)
    requires d < 4 && Words(v) && |low| == 4 && |u| == 4 && 0 < p && forall i :: 0 <= i < 4 ==> 0 <= low[i] < p
    requires forall j :: 0 <= j < 4 ==>
               u[j] == if j + d >= 4 then 0 else v[j + d] - low[j + d] + (if j + d == 3 then 0 else low[j + d + 1] * W)
    ensures var rest := Value(v) - (u[0] + u[1] * W + u[2] * W2 + u[3] * W3) * WPower(d);
            0 <= rest < WPower(d) * p
  {
    MulMonotonic(low[d], p - 1, WPower(d));
    if d == 0 {
      assert u[0] == v[0] - low[0] + low[1] * W;
    } else if d == 1 {
      assert u[0] == v[1] - low[1] + low[2] * W;
    } else if d == 2 {
      assert u[0] == v[2] - low[2] + low[3] * W;
    } else {
      assert u[0] == v[3] - low[3];
    }
  }

  lemma RightValue(v: seq<nat>, d: nat, m: nat, r: seq<nat>)
    requires Words(v) && Words(r) && d < 4 && m < 32
    requires forall j :: 0 <= j < 4 ==> r[j] == if j + d < 4 then RightWord(v, d, m, j) else 0
    ensures Value(r) == Value(v) / Pow2(32 * d + m)
  {
    hide Pow2, Shr, ShlWord, Value, WPower, RightWord;
    var p := Pow2(m);
    ValueTimes(r, p);
    PowerOfWords(d, m);
    var low: seq<int> := seq(4, i requires 0 <= i < 4 => v[i] % p);
    var u: seq<int> := seq(4, j requires 0 <= j < 4 => r[j] * p);
    forall j | 0 <= j < 4
      ensures u[j] == if j + d >= 4 then 0 else v[j + d] - low[j + d] + (if j + d == 3 then 0 else low[j + d + 1] * W)
    {
      RightTerm(v, d, m, r[j], j);
    }
    RightSum(d, v, low, u, p);
    RightQuotient(Value(v), Value(r), p, WPower(d));
  }

  lemma RightTerm(v: seq<nat>, d: nat, m: nat, x: nat, j: nat)
    requires Words(v) && d < 4 && m < 32 && j < 4 && x == if j + d < 4 then RightWord(v, d, m, j) else 0
    ensures x * Pow2(m)
         == if j + d >= 4 then 0
            else v[j + d] - v[j + d] % Pow2(m) + (if j + d == 3 then 0 else v[j + d + 1] % Pow2(m) * W)
  {
    hide Pow2, Shr, ShlWord;
    if j + d == 3 {
      RightTimes(v[3], 0, m);
      NothingShifted(32 - m);
      SmallMod(0, Pow2(m));
    } else if j + d < 3 {
      RightTimes(v[j + d], v[j + d + 1], m);
    }
  }

  lemma RightQuotient(v: nat, r: nat, p: nat, w: nat)
    requires 0 < p && 0 < w && 0 <= v - r * p * w < w * p
    ensures 0 < w * p && r == v / (w * p)
  {
    assert r * p * w == r * (w * p);
    DivModUnique(v, w * p, r, v - r * p * w);
  }

  // --- logarithm --------------------------------------------------------------------------------------------

  /** The position of the highest one bit, as the count of leading zeros gives it. */
  function FloorLog2(x: nat): (r: nat)
    requires 0 < x
    ensures Pow2(r) <= x < Pow2(r + 1)
  {
    if x == 1 then 0 else 1 + FloorLog2(x / 2)
  }

  /** flog2 of the number; the source aborts on zero. */
  method Flog2(v: seq<nat>) returns (r: nat)
    requires Words(v) && 0 < Value(v)
    ensures r < 128 && Pow2(r) <= Value(v) < Pow2(r + 1)
  {
    hide Pow2, FloorLog2;
    var i := 4;
    while i != 0
      invariant 0 <= i <= 4 && forall k :: i <= k < 4 ==> v[k] == 0
    {
      i := i - 1;
      if v[i] != 0 {
        TopWord(v, i);
        r := FloorLog2(v[i]) + 32 * i;
        LogOfWord(v[i]);
        return;
      }
    }
    assert false;
  }

  lemma LogOfWord(x: nat)
    requires 0 < x < W
    ensures FloorLog2(x) < 32
  {
    hide Pow2, FloorLog2;
    WordIsPow2();
    if FloorLog2(x) >= 32 {
      Pow2Monotonic(32, FloorLog2(x));
    }
  }

  lemma TopBounds(v: seq<nat>, i: nat)
    requires Words(v) && i < 4 && forall k :: i < k < 4 ==> v[k] == 0
    ensures v[i] * WPower(i) <= Value(v) < (v[i] + 1) * WPower(i)
  {
  }

  /** The highest word that is not zero decides the logarithm. */
  lemma TopWord(v: seq<nat>, i: nat)
    requires Words(v) && i < 4 && v[i] != 0 && forall k :: i < k < 4 ==> v[k] == 0
    ensures Pow2(FloorLog2(v[i]) + 32 * i) <= Value(v) < Pow2(FloorLog2(v[i]) + 32 * i + 1)
  {
    hide Pow2, FloorLog2, Value, WPower;
    var l := FloorLog2(v[i]);
    PowerOfWords(i, l);
    PowerOfWords(i, l + 1);
    TopBounds(v, i);
    TopAtoms(v[i], Pow2(l), Pow2(l + 1), WPower(i), Value(v));
  }

  lemma TopAtoms(x: nat, low: nat, high: nat, w: nat, value: nat)
    requires low <= x < high && x * w <= value < (x + 1) * w
    ensures w * low <= value < w * high
  {
    MulMonotonic(low, x, w);
    MulMonotonic(x + 1, high, w);
  }

  // --- division ---------------------------------------------------------------------------------------------

  /** One subtraction of divisor * 2^j, which never goes below zero. */
  lemma SubtractStep(n: nat, d: nat, q: nat, x: nat, j: nat)
    requires q * d + x == n < LIMIT && 0 < d && d * Pow2(j) <= x
    ensures (q + Pow2(j)) * d + (x - d * Pow2(j)) == n && q + Pow2(j) < LIMIT
  {
    hide Pow2;
    var p := Pow2(j);
    assert (q + p) * d == q * d + d * p;
    MulMonotonic(1, d, q + p);
  }

  lemma HalveStep(d: nat, j: nat)
    requires 0 < j
    ensures d * Pow2(j) / 2 == d * Pow2(j - 1) && Pow2(j) / 2 == Pow2(j - 1)
  {
    assert d * Pow2(j) == 2 * (d * Pow2(j - 1));
  }

  /** `>>= 1`. */
  method Halve(v: seq<nat>) returns (r: seq<nat>)
    requires Words(v)
    ensures Words(r) && Value(r) == Value(v) / 2
  {
    r := ShiftRight(v, 1);
    SmallPowers();
  }

  /** factor and qfactor are in step while they still matter. */
  ghost predicate InStep(d: nat, j: nat, factor: nat, qfactor: nat) {
    factor == d * Pow2(j) && qfactor == Pow2(j)
  }

  /** The inner loop: halve both factors until the first is no longer above the dividend. */
  method Shrink(dividend: seq<nat>, factor0: seq<nat>, qfactor0: seq<nat>, ghost d: nat, ghost j0: nat)
    returns (factor: seq<nat>, qfactor: seq<nat>, ghost j: nat)
    requires Words(dividend) && Words(factor0) && Words(qfactor0) && 0 < d
    requires InStep(d, j0, Value(factor0), Value(qfactor0))
    ensures Words(factor) && Words(qfactor) && Value(factor) <= Value(dividend)
    ensures d <= Value(dividend) ==> InStep(d, j, Value(factor), Value(qfactor))
  {
    hide Pow2, Value;
    factor, qfactor, j := factor0, qfactor0, j0;
    while Less(dividend, factor)
      invariant Words(factor) && Words(qfactor)
      invariant d <= Value(dividend) ==> InStep(d, j, Value(factor), Value(qfactor))
      decreases Value(factor)
    {
      if d <= Value(dividend) {
        NotLast(d, j);
        HalveStep(d, j);
        j := j - 1;
      }
      factor := Halve(factor);
      qfactor := Halve(qfactor);
    }
  }

  lemma NotLast(d: nat, j: nat)
    requires d < d * Pow2(j)
    ensures 0 < j
  {
  }

  /** divmod: the dividend is quotient times divisor plus a remainder below the divisor. */
  method DivMod(origDividend: seq<nat>, divisor: seq<nat>) returns (quotient: seq<nat>, remainder: seq<nat>)
    requires Words(origDividend) && Words(divisor) && 0 < Value(divisor)
    ensures Words(quotient) && Words(remainder)
    ensures Value(origDividend) == Value(quotient) * Value(divisor) + Value(remainder)
    ensures Value(remainder) < Value(divisor)
  {
    var zero, one := [0, 0, 0, 0], [1, 0, 0, 0];
    assert Value(zero) == 0 && Value(one) == 1;
    hide Pow2, Value;
    if Less(origDividend, divisor) {
      return zero, origDividend;
    }
    var log2Divisor := Flog2(divisor);
    var log2Dividend := Flog2(origDividend);
    ghost var n, d := Value(origDividend), Value(divisor);
    LogsOrdered(n, d, log2Dividend, log2Divisor);
    if log2Dividend == log2Divisor {
      remainder := Minus(origDividend, divisor);
      SmallMod(n - d, LIMIT);
      return one, remainder;
    }
    var logDiff := log2Dividend - log2Divisor - 1;
    FirstFactor(n, d, log2Dividend, log2Divisor);
    var qfactor := ShiftLeft(one, logDiff);
    var factor := ShiftLeft(divisor, logDiff);
    quotient, remainder := Subtract(origDividend, divisor, factor, qfactor, logDiff);
  }

  lemma LogsOrdered(n: nat, d: nat, ln: nat, ld: nat)
    requires d <= n && Pow2(ln) <= n < Pow2(ln + 1) && Pow2(ld) <= d < Pow2(ld + 1)
    ensures ld <= ln && (ld == ln ==> n - d < d)
  {
    hide Pow2;
    if ln < ld {
      Pow2Monotonic(ln + 1, ld);
    }
    Pow2Add(1, ln);
    SmallPowers();
  }

  /** The first factor underestimates the dividend, so no bit is lost by the shifts. */
  lemma FirstFactor(n: nat, d: nat, ln: nat, ld: nat)
    requires ld < ln && Pow2(ln) <= n < LIMIT && 0 < d < Pow2(ld + 1)
    ensures d * Pow2(ln - ld - 1) < n
    ensures d * Pow2(ln - ld - 1) % LIMIT == d * Pow2(ln - ld - 1) && 1 * Pow2(ln - ld - 1) % LIMIT == Pow2(ln - ld - 1)
  {
    hide Pow2;
    var p := Pow2(ln - ld - 1);
    Pow2Add(ld + 1, ln - ld - 1);
    MulMonotonic(d, Pow2(ld + 1) - 1, p);
    assert (Pow2(ld + 1) - 1) * p == Pow2(ln) - p;
    MulMonotonic(1, d, p);
    SmallMod(d * p, LIMIT);
    SmallMod(p, LIMIT);
  }

  /** The outer loop. */
  method Subtract(origDividend: seq<nat>, divisor: seq<nat>, factor0: seq<nat>, qfactor0: seq<nat>, ghost j0: nat)
    returns (quotient: seq<nat>, dividend: seq<nat>)
    requires Words(origDividend) && Words(divisor) && 0 < Value(divisor) && Words(factor0) && Words(qfactor0)
    requires InStep(Value(divisor), j0, Value(factor0), Value(qfactor0)) && Value(factor0) <= Value(origDividend)
    ensures Words(quotient) && Words(dividend)
    ensures Value(origDividend) == Value(quotient) * Value(divisor) + Value(dividend)
    ensures Value(dividend) < Value(divisor)
  {
    ghost var n, d, j := Value(origDividend), Value(divisor), j0;
    quotient, dividend := [0, 0, 0, 0], origDividend;
    assert Value(quotient) == 0;
    var factor, qfactor := factor0, qfactor0;
    hide Pow2, Value;
    while true
      invariant Words(quotient) && Words(dividend) && Words(factor) && Words(qfactor)
      invariant InStep(d, j, Value(factor), Value(qfactor)) && Value(factor) <= Value(dividend)
      invariant Value(quotient) * d + Value(dividend) == n
      decreases Value(dividend)
    {
      SubtractStep(n, d, Value(quotient), Value(dividend), j);
      FactorPositive(d, j);
      SmallMod(Value(dividend) - Value(factor), LIMIT);
      SmallMod(Value(quotient) + Value(qfactor), LIMIT);
      dividend := Minus(dividend, factor);
      quotient := Plus(quotient, qfactor);
      factor, qfactor, j := Shrink(dividend, factor, qfactor, d, j);
      if Less(dividend, divisor) {
        break;
      }
    }
  }

  lemma FactorPositive(d: nat, j: nat)
    requires 0 < d
    ensures 0 < d * Pow2(j)
  {
    MulMonotonic(1, d, Pow2(j));
  }
}
