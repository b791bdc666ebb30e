/** Shifts of wide integers: whole items move first, then bits cross from item to item. */
module WideShift {
  import opened Arith
  import opened Bits
  import opened WideValue

  /** An item shifted left, within its 64 bits. */
  function ShlItem(x: nat, b: nat): (r: nat)
    ensures r < BASE
  {
    BaseIsPow2();
    Shl(64, x, b)
  }

  lemma BaseIsPow2()
    ensures Pow2(64) == BASE
  {
    hide Pow2;
    assert Pow2(8) == 0x100 by {
      Pow2Add(4, 4);
      assert Pow2(4) == 16 by {
        Pow2Add(2, 2);
        SmallPowers();
      }
    }
    Pow2Add(8, 8);
    Pow2Add(16, 16);
    Pow2Add(32, 32);
  }

  /** Splitting an item at the bit where a shift by b cuts it. */
  lemma ItemSplit(x: nat, b: nat)
    requires x < BASE && 1 <= b < 64
    ensures Pow2(b) * Pow2(64 - b) == BASE
    ensures ShlItem(x, b) == x % Pow2(64 - b) * Pow2(b)
    ensures x * Pow2(b) == ShlItem(x, b) + BASE * Shr(x, 64 - b)
    ensures Shr(x, 64 - b) < Pow2(b)
  {
    hide Pow2;
    BaseIsPow2();
    ShiftCuts(64, x, b);
  }

  /** Joining the two parts of an item with | is adding them. */
  lemma JoinItems(x: nat, y: nat, b: nat)
    requires x < BASE && y < BASE && 1 <= b < 64
    ensures Or(ShlItem(x, b), Shr(y, 64 - b)) == ShlItem(x, b) + Shr(y, 64 - b) < BASE
    ensures Or(Shr(y, 64 - b), ShlItem(x, b)) == ShlItem(x, b) + Shr(y, 64 - b)
  {
    hide Pow2, Bitwise, Shr;
    BaseIsPow2();
    JoinParts(64, x, y, b);
  }

  // --- left ----------------------------------------------------------------------------------------

  /** Item j of the shifted number: its own low part and the high part of the item below. */
  ghost function LeftItem(x: seq<nat>, s: nat, b: nat, j: nat): nat
    requires s <= j < |x| + s && b < 64
  {
    ShlItem(x[j - s], b) + (if j == s || b == 0 then 0 else Shr(x[j - s - 1], 64 - b))
  }

  /** `shift_left` */
  method ShiftLeft(rhs: seq<nat>, n: nat) returns (lhs: seq<nat>)
    requires Items(rhs) && n < 64 * |rhs|
    ensures |lhs| == |rhs| && Items(lhs)
    ensures Value(lhs) == Value(rhs) * Pow2(n) % Size(|rhs|)
  {
    hide Value, Size, Bitwise, Shr, ShlItem, Pow2;
    var count := |rhs|;
    lhs := Repeat(0, count);
    var itemsShift, bitShift := n / 64, n % 64;
    if bitShift != 0 {
      var overflowShift := 64 - bitShift;
      lhs := lhs[count - 1 := ShlItem(rhs[count - 1 - itemsShift], bitShift)];
      var i := 1;
      while i < count - itemsShift
        invariant 1 <= i <= count - itemsShift && |lhs| == count && Items(lhs)
        invariant lhs[count - i] == ShlItem(rhs[count - i - itemsShift], bitShift)
        invariant forall j :: count - i < j < count ==> lhs[j] == LeftItem(rhs, itemsShift, bitShift, j)
      {
        var from, to := count - 1 - (itemsShift + i), count - 1 - (i - 1);
        JoinItems(rhs[from + 1], rhs[from], bitShift);
        lhs := lhs[to := Or(lhs[to], Shr(rhs[from], overflowShift))];
        lhs := lhs[to - 1 := ShlItem(rhs[from], bitShift)];
        i := i + 1;
      }
    } else {
      var i := 0;
      while i < count - itemsShift
        invariant 0 <= i <= count - itemsShift && |lhs| == count && Items(lhs)
        invariant forall j :: count - i <= j < count ==> lhs[j] == LeftItem(rhs, itemsShift, bitShift, j)
      {
        var to := count - 1 - i;
        NoShift(rhs[to - itemsShift]);
        lhs := lhs[to := rhs[to - itemsShift]];
        i := i + 1;
      }
    }
    var i := 0;
    while i < itemsShift
      invariant 0 <= i <= itemsShift && |lhs| == count && Items(lhs)
      invariant forall j :: 0 <= j < i ==> lhs[j] == 0
      invariant forall j :: itemsShift <= j < count ==> lhs[j] == LeftItem(rhs, itemsShift, bitShift, j)
    {
      lhs := lhs[i := 0];
      i := i + 1;
    }
    LeftValue(rhs, itemsShift, bitShift, lhs);
  }

  lemma NoShift(x: nat)
    requires x < BASE
    ensures ShlItem(x, 0) == x
  {
    hide Pow2, Shl;
    BaseIsPow2();
    ShlByZero(64, x);
  }

  /** Between items, a left shift is a multiplication with carries. */
  lemma LeftChain(x: seq<nat>, b: nat, r: seq<nat>) returns (carry: seq<nat>)
    requires Items(x) && b < 64 && |r| == |x|
    requires forall j :: 0 <= j < |x| ==> r[j] == LeftItem(x, 0, b, j)
    ensures |carry| == |x| + 1 && carry[0] == 0 && ScaleChain(x, Pow2(b), r, carry)
  {
    hide Pow2, Shr, ShlItem;
    carry := seq(|x| + 1, i requires 0 <= i <= |x| => if i == 0 || b == 0 then 0 else Shr(x[i - 1], 64 - b));
    forall i | 0 <= i < |x| ensures x[i] * Pow2(b) + carry[i] == r[i] + BASE * carry[i + 1] {
      if b == 0 {
        NoShift(x[i]);
        SmallPowers();
      } else {
        ItemSplit(x[i], b);
      }
    }
  }

  lemma LeftValue(x: seq<nat>, s: nat, b: nat, out: seq<nat>)
    requires Items(x) && Items(out) && |out| == |x| && s < |x| && b < 64
    requires forall j :: 0 <= j < s ==> out[j] == 0
    requires forall j :: s <= j < |x| ==> out[j] == LeftItem(x, s, b, j)
    ensures Value(out) == Value(x) * Pow2(64 * s + b) % Size(|x|)
  {
    hide Value, Size, Pow2, Shr, ShlItem;
    var m := |x| - s;
    var y, z, r := x[..m], x[m..], out[s..];
    assert x == y + z && out == out[..s] + r;
    assert out[..s] == Repeat(0, s);
    var carry := LeftChain(y, b, r);
    ScaleChainValue(y, Pow2(b), r, carry);
    ValueConcat(y, z);
    ValueConcat(out[..s], r);
    ValueRepeat(s);
    ValueBound(out);
    SizeAdd(s, m);
    PowerOfShift(s, b);
    LeftModulus(Value(x), Value(y), Value(z), Value(r), Value(out), Pow2(b), Size(s), Size(m), carry[m], Size(|x|),
                Pow2(64 * s + b));
  }

  /** 2^(64 s + b) */
  lemma {:induction false} PowerOfShift(s: nat, b: nat)
    ensures Pow2(64 * s + b) == Size(s) * Pow2(b)
  {
    hide Pow2;
    if s != 0 {
      PowerOfShift(s - 1, b);
      BaseIsPow2();
      Pow2Add(64, 64 * (s - 1) + b);
      ConcatStep(Size(s - 1), Pow2(b));
    }
  }

  lemma LeftModulus(vx: nat, vy: nat, vz: nat, vr: nat, vo: nat, p: nat, ss: nat, sm: nat, c: nat, sn: nat, q: nat)
    requires vx == vy + sm * vz && vy * p == vr + sm * c && vo == ss * vr && sn == ss * sm && vo < sn
    requires 0 < sn && q == ss * p
    ensures vo == vx * q % sn
  {
    var u := c + vz * p;
    ScaledSum(vx, vy, vz, vr, p, sm, c, u);
    RegroupProduct(vx, ss, p, q);
    ScaledParts(ss, vr, sm, u, sn);
    DivModUnique(vx * q, sn, u, vo);
  }

  lemma ScaledSum(vx: nat, vy: nat, vz: nat, vr: nat, p: nat, sm: nat, c: nat, u: nat)
    requires vx == vy + sm * vz && vy * p == vr + sm * c && u == c + vz * p
    ensures vx * p == vr + sm * u
  {
    assert (vy + sm * vz) * p == vy * p + sm * vz * p;
    assert sm * vz * p == sm * (vz * p);
    assert sm * (c + vz * p) == sm * c + sm * (vz * p);
  }

  lemma RegroupProduct(x: nat, s: nat, p: nat, q: nat)
    requires q == s * p
    ensures x * q == s * (x * p)
  {
    assert x * (s * p) == s * (x * p);
  }

  lemma ScaledParts(s: nat, r: nat, m: nat, u: nat, n: nat)
    requires n == s * m
    ensures s * (r + m * u) == u * n + s * r
  {
    assert s * (r + m * u) == s * r + s * (m * u);
    assert s * (m * u) == u * (s * m);
  }

  // --- right ---------------------------------------------------------------------------------------

  /** Item j of the shifted number: its own high part and the low part of the item above, or the
      sign. */
  ghost function RightItem(x: seq<nat>, s: nat, b: nat, neg: bool, j: nat): nat
    requires j + s < |x| && b < 64
  {
    Shr(x[j + s], b) +
    (if b == 0 then 0
     else if j + s + 1 < |x| then ShlItem(x[j + s + 1], 64 - b)
     else if neg then ShlItem(BASE - 1, 64 - b) else 0)
  }

  lemma JoinRight(x: nat, y: nat, b: nat)
    requires x < BASE && y < BASE && 1 <= b < 64
    ensures Or(Shr(x, b), ShlItem(y, 64 - b)) == Shr(x, b) + ShlItem(y, 64 - b) < BASE
  {
    hide Pow2, Bitwise, Shr, ShlItem;
    JoinItems(y, x, 64 - b);
  }

  /** `shift_right`: arithmetic for signed numbers, logical for unsigned ones. */
  method ShiftRight(signed: bool, rhs: seq<nat>, n: nat) returns (lhs: seq<nat>)
    requires Items(rhs) && n < 64 * |rhs|
    ensures |lhs| == |rhs| && Items(lhs)
    ensures Number(signed, lhs) == Number(signed, rhs) / Pow2(n)
  {
    hide Value, Size, Bitwise, Shr, ShlItem, Pow2, Number, Negative;
    var count := |rhs|;
    var itemsShift, bitShift := n / 64, n % 64;
    var neg := signed && Negative(rhs);
    lhs := ShiftItemsRight(rhs, itemsShift, bitShift);
    if neg {
      if bitShift != 0 {
        JoinRight(rhs[count - 1], BASE - 1, bitShift);
        lhs := lhs[count - 1 - itemsShift := Or(lhs[count - 1 - itemsShift], ShlItem(BASE - 1, 64 - bitShift))];
      }
    }
    var i := 0;
    while i < itemsShift
      invariant 0 <= i <= itemsShift && |lhs| == count && Items(lhs)
      invariant forall j :: count - i <= j < count ==> lhs[j] == if neg then BASE - 1 else 0
      invariant forall j :: 0 <= j < count - itemsShift ==> lhs[j] == RightItem(rhs, itemsShift, bitShift, neg, j)
    {
      lhs := lhs[count - 1 - i := if neg then BASE - 1 else 0];
      i := i + 1;
    }
    RightValue(signed, rhs, itemsShift, bitShift, lhs);
  }

  /** The part of `shift_right` that does not depend on the sign. */
  method ShiftItemsRight(rhs: seq<nat>, itemsShift: nat, bitShift: nat) returns (lhs: seq<nat>)
    requires Items(rhs) && itemsShift < |rhs| && bitShift < 64
    ensures |lhs| == |rhs| && Items(lhs)
    ensures forall j :: 0 <= j < |rhs| - itemsShift ==> lhs[j] == RightItem(rhs, itemsShift, bitShift, false, j)
  {
    hide Bitwise, Shr, ShlItem, Pow2;
    var count := |rhs|;
    lhs := Repeat(0, count);
    if bitShift != 0 {
      var overflowShift := 64 - bitShift;
      lhs := lhs[0 := Shr(rhs[itemsShift], bitShift)];
      var i := 1;
      while i < count - itemsShift
        invariant 1 <= i <= count - itemsShift && |lhs| == count && Items(lhs)
        invariant lhs[i - 1] == Shr(rhs[itemsShift + i - 1], bitShift)
        invariant forall j :: 0 <= j < i - 1 ==> lhs[j] == RightItem(rhs, itemsShift, bitShift, false, j)
      {
        JoinRight(rhs[itemsShift + i - 1], rhs[itemsShift + i], bitShift);
        lhs := lhs[i - 1 := Or(lhs[i - 1], ShlItem(rhs[itemsShift + i], overflowShift))];
        lhs := lhs[i := Shr(rhs[itemsShift + i], bitShift)];
        i := i + 1;
      }
    } else {
      var i := 0;
      while i < count - itemsShift
        invariant 0 <= i <= count - itemsShift && |lhs| == count && Items(lhs)
        invariant forall j :: 0 <= j < i ==> lhs[j] == RightItem(rhs, itemsShift, bitShift, false, j)
      {
        NoShiftRight(rhs[itemsShift + i]);
        lhs := lhs[i := rhs[itemsShift + i]];
        i := i + 1;
      }
    }
  }

  lemma NoShiftRight(x: nat)
    ensures Shr(x, 0) == x
  {
    SmallPowers();
  }

  lemma ItemSplitRight(x: nat, y: nat, b: nat)
    requires x < BASE && y < BASE && 1 <= b < 64
    ensures (Shr(x, b) + ShlItem(y, 64 - b)) * Pow2(b) + x % Pow2(b) == x + BASE * (y % Pow2(b))
  {
    hide Pow2, ShlItem;
    ItemSplit(y, 64 - b);
    RightParts(x, y, Pow2(b), Pow2(64 - b), ShlItem(y, 64 - b), Shr(x, b));
  }

  lemma RightParts(x: nat, y: nat, p: nat, q: nat, t: nat, h: nat)
    requires 0 < p && q * p == BASE && t == y % p * q && h == x / p
    ensures (h + t) * p + x % p == x + BASE * (y % p)
  {
    var r := y % p;
    assert x == h * p + x % p;
    assert (h + t) * p == h * p + t * p;
    assert r * q * p == r * (q * p);
  }

  lemma SignFill(b: nat)
    requires 1 <= b < 64
    ensures (BASE - 1) % Pow2(b) == Pow2(b) - 1
  {
    hide Pow2;
    BaseIsPow2();
    Pow2Add(64 - b, b);
    var p, q := Pow2(b), Pow2(64 - b);
    assert (q - 1) * p == BASE - p;
    DivModUnique(BASE - 1, p, q - 1, p - 1);
  }

  /** Between items, a right shift is a division with remainders passed down. */
  lemma RightChain(x: seq<nat>, b: nat, neg: bool, r: seq<nat>) returns (carry: seq<nat>)
    requires Items(x) && b < 64 && |r| == |x|
    requires forall j :: 0 <= j < |x| ==> r[j] == RightItem(x, 0, b, neg, j)
    ensures |carry| == |x| + 1 && ScaleChain(r, Pow2(b), x, carry)
    ensures carry[|x|] == if neg then Pow2(b) - 1 else 0
    ensures x != [] ==> carry[0] < Pow2(b)
  {
    hide Pow2, Shr, ShlItem;
    var p := Pow2(b);
    carry := seq(|x| + 1, i requires 0 <= i <= |x| => if i < |x| then x[i] % p else if neg then p - 1 else 0);
    forall i | 0 <= i < |x| ensures r[i] * p + carry[i] == x[i] + BASE * carry[i + 1] {
      RightChainStep(x, b, neg, r[i], i);
    }
  }

  lemma RightChainStep(x: seq<nat>, b: nat, neg: bool, item: nat, i: nat)
    requires Items(x) && b < 64 && i < |x|
    requires item == RightItem(x, 0, b, neg, i)
    ensures item * Pow2(b) + x[i] % Pow2(b)
            == x[i] + BASE * (if i + 1 < |x| then x[i + 1] % Pow2(b) else if neg then Pow2(b) - 1 else 0)
  {
    hide Pow2, Shr, ShlItem;
    if b == 0 {
      NoShiftRight(x[i]);
      SmallPowers();
      NoRemainder(x[i]);
      NoRemainder(if i + 1 < |x| then x[i + 1] else 0);
    } else if i + 1 < |x| {
      ItemSplitRight(x[i], x[i + 1], b);
    } else if neg {
      ItemSplitRight(x[i], BASE - 1, b);
      SignFill(b);
    } else {
      ItemSplitRight(x[i], 0, b);
      ZeroShl(64 - b);
      SmallMod(0, Pow2(b));
    }
  }

  lemma NoRemainder(x: nat)
    ensures x % 1 == 0
  {
  }

  lemma ZeroShl(b: nat)
    ensures ShlItem(0, b) == 0
  {
    hide Pow2, Shl;
    ShlOfZero(64, b);
  }

  lemma RightValue(signed: bool, x: seq<nat>, s: nat, b: nat, out: seq<nat>)
    requires Items(x) && Items(out) && |out| == |x| && s < |x| && b < 64
    requires forall j :: 0 <= j < |x| - s ==> out[j] == RightItem(x, s, b, signed && Negative(x), j)
    requires forall j :: |x| - s <= j < |x| ==> out[j] == if signed && Negative(x) then BASE - 1 else 0
    ensures Number(signed, out) == Number(signed, x) / Pow2(64 * s + b)
  {
    hide Value, Size, Pow2, Shr, ShlItem, Negative, InRange, SignedValue, Cong;
    var neg := signed && Negative(x);
    var m := |x| - s;
    var y, r, top := x[s..], out[..m], out[m..];
    assert x == x[..s] + y && out == r + top;
    assert top == Repeat(if neg then BASE - 1 else 0, s);
    var carry := RightChain(y, b, neg, r);
    ScaleChainValue(r, Pow2(b), y, carry);
    ValueConcat(x[..s], y);
    ValueConcat(r, top);
    ValueRepeat(s);
    ValueBound(x[..s]);
    SizeAdd(s, m);
    PowerOfShift(s, b);
    var shifted := if neg then Value(r) - Size(m) else Value(r);
    var number := if neg then Value(x) - Size(|x|) else Value(x);
    RightQuotient(neg, Value(x), Value(x[..s]), Value(y), Value(r), Pow2(b), Size(s), Size(m), carry[0], Size(|x|));
    RightResidue(neg, Value(out), Value(r), Value(top), Size(s), Size(m), Size(|x|));
    SignMatches(signed, x);
    QuotientInRange(signed, |x|, number, Pow2(64 * s + b));
    NumberByResidue(signed, out, shifted);
  }

  lemma SignMatches(signed: bool, x: seq<nat>)
    requires Items(x) && x != []
    ensures Number(signed, x) == if signed && Negative(x) then Value(x) - Size(|x|) else Value(x)
    ensures InRange(signed, |x|, Number(signed, x))
  {
    NumberRange(signed, x);
  }

  lemma RightQuotient(neg: bool, vx: nat, vl: nat, vy: nat, vr: nat, p: nat, ss: nat, sm: nat, c: nat, sn: nat)
    requires 0 < p && 0 < ss && sn == ss * sm && vl < ss && c < p
    requires vx == vl + ss * vy
    requires vr * p + c == vy + sm * (if neg then p - 1 else 0)
    ensures 0 < ss * p
    ensures (if neg then vx - sn else vx) / (ss * p) == if neg then vr - sm else vr
  {
    var y := if neg then vy - sm else vy;
    var x := if neg then vx - sn else vx;
    var r := if neg then vr - sm else vr;
    assert x == y * ss + vl;
    DivModUnique(x, ss, y, vl);
    assert y == r * p + c by {
      assert sm * (p - 1) == sm * p - sm;
      assert (vr - sm) * p == vr * p - sm * p;
    }
    DivModUnique(y, p, r, c);
    DivDiv(x, ss, p);
  }

  lemma RightResidue(neg: bool, vo: nat, vr: nat, vt: nat, ss: nat, sm: nat, sn: nat)
    requires 0 < sn && sn == ss * sm && vo == vr + sm * vt && vt == if neg then ss - 1 else 0
    ensures Cong(vo, if neg then vr - sm else vr, sn)
  {
    if neg {
      assert sm * (ss - 1) == sn - sm;
      CongIntro(vo, vr - sm, sn, 1);
    } else {
      assert sm * vt == 0;
    }
  }

  lemma QuotientInRange(signed: bool, n: nat, x: int, d: int)
    requires InRange(signed, n, x) && 0 < d
    ensures InRange(signed, n, x / d)
  {
    hide Size;
    var q := x / d;
    DivBounds(x, d);
    if x >= 0 {
      DivNonNeg(x, d);
    } else {
      if q >= 0 {
        MulMonotonic(0, q, d);
      } else if q < x {
        MulMonotonic(q + 1, x, d);
        MulMonotonic(1, d, 0 - x);
      }
    }
  }
}
