/** The RXS M XS output function: a random xorshift, a multiplication and a fixed xorshift.  For equal
    state and result widths it is a permutation of the state space, and `unoutput` is its inverse. */
module PcgOutput {
  import opened Arith
  import opened Bits

  /** x ^ (x >> shift) */
  function XorShift(x: nat, shift: nat): nat {
    Xor(x, Shr(x, shift))
  }

  lemma BitXorShift(x: nat, shift: nat, i: nat)
    ensures Bit(XorShift(x, shift), i) == (Bit(x, i) != Bit(x, i + shift))
  {
    hide Bit, Bitwise;
    BitOfBitwise(XorOp, x, Shr(x, shift), i);
    BitShr(x, shift, i);
  }

  lemma XorShiftBound(x: nat, shift: nat, n: nat)
    requires x < Pow2(n)
    ensures XorShift(x, shift) < Pow2(n)
  {
    BitwiseBound(XorOp, x, Shr(x, shift), n);
  }

  lemma MaskBound(x: nat, n: nat)
    ensures And(x, Pow2(n) - 1) < Pow2(n)
  {
    AndMask(x, n);
  }

  lemma MaskFits(n: nat, width: nat)
    requires n <= width
    ensures Pow2(n) - 1 < Pow2(width)
  {
    Pow2Monotonic(n, width);
  }

  /** The bits of `unxorshift` that one xorshift already restores. */
  function Top(width: nat, x: nat, bits: nat, shift: nat): nat
    requires bits <= width && shift * 2 < bits
  {
    MaskFits(bits - shift * 2, width);
    var highmask1 := Not(width, Pow2(bits - shift * 2) - 1);
    And(XorShift(x, shift), highmask1)
  }

  /** The word that `unxorshift` recurses on. */
  function Inner(width: nat, x: nat, bits: nat, shift: nat): nat
    requires bits <= width && shift * 2 < bits
    ensures Inner(width, x, bits, shift) < Pow2(bits - shift)
  {
    var lowmask1, lowmask2 := Pow2(bits - shift * 2) - 1, Pow2(bits - shift) - 1;
    var x' := Or(Top(width, x, bits, shift), And(x, lowmask1));
    MaskBound(x', bits - shift);
    And(x', lowmask2)
  }

  /** `unxorshift` in a word of `width` bits, for a value of `bits` bits. */
  function Unxorshift(width: nat, x: nat, bits: nat, shift: nat): nat
    requires bits <= width && x < Pow2(bits) && 1 <= shift
    decreases bits
  {
    if 2 * shift >= bits then
      XorShift(x, shift)
    else
      var lowmask1 := Pow2(bits - shift * 2) - 1;
      var bottom2 := Unxorshift(width, Inner(width, x, bits, shift), bits - shift, shift);
      Or(Top(width, x, bits, shift), And(bottom2, lowmask1))
  }

  lemma {:induction false} AndBound(x: nat, y: nat, n: nat)
    requires x < Pow2(n)
    ensures And(x, y) < Pow2(n)
    decreases n, y
  {
    if x == 0 {
      AndZero(y);
    } else {
      BitwiseStep(AndOp, x, y);
      var r := And(x, y);
      AndBound(x / 2, y / 2, n - 1);
      assert r == 2 * (r / 2) + r % 2;
    }
  }

  lemma BitTop(width: nat, x: nat, bits: nat, shift: nat, i: nat)
    requires bits <= width && shift * 2 < bits && i < bits
    ensures Bit(Top(width, x, bits, shift), i) == (bits - shift * 2 <= i && Bit(x, i) != Bit(x, i + shift))
  {
    hide Bit, Bitwise, Pow2, XorShift;
    var lo := bits - shift * 2;
    MaskFits(lo, width);
    BitOfBitwise(AndOp, XorShift(x, shift), Not(width, Pow2(lo) - 1), i);
    BitNot(width, Pow2(lo) - 1, i);
    BitMask(lo, i);
    BitXorShift(x, shift, i);
  }

  lemma BitInner(width: nat, x: nat, bits: nat, shift: nat, i: nat)
    requires bits <= width && shift * 2 < bits && i < bits - shift
    ensures Bit(Inner(width, x, bits, shift), i)
            == if bits - shift * 2 <= i then Bit(x, i) != Bit(x, i + shift) else Bit(x, i)
  {
    hide Bit, Bitwise, Pow2, Top;
    var lo, hi := bits - shift * 2, bits - shift;
    var top1 := Top(width, x, bits, shift);
    BitTop(width, x, bits, shift, i);
    BitOfBitwise(AndOp, Or(top1, And(x, Pow2(lo) - 1)), Pow2(hi) - 1, i);
    BitOfBitwise(OrOp, top1, And(x, Pow2(lo) - 1), i);
    BitOfBitwise(AndOp, x, Pow2(lo) - 1, i);
    BitMask(hi, i);
    BitMask(lo, i);
  }

  /** Joining the restored bits with the low bits of a word. */
  lemma BitJoin(width: nat, x: nat, bits: nat, shift: nat, low: nat, i: nat)
    requires bits <= width && shift * 2 < bits && i < bits
    ensures Bit(Or(Top(width, x, bits, shift), And(low, Pow2(bits - shift * 2) - 1)), i)
            == if bits - shift * 2 <= i then Bit(x, i) != Bit(x, i + shift) else Bit(low, i)
  {
    hide Bit, Bitwise, Pow2, Top;
    var lo := bits - shift * 2;
    var top1 := Top(width, x, bits, shift);
    BitTop(width, x, bits, shift, i);
    BitOfBitwise(OrOp, top1, And(low, Pow2(lo) - 1), i);
    BitOfBitwise(AndOp, low, Pow2(lo) - 1, i);
    BitMask(lo, i);
  }

  lemma JoinBound(width: nat, x: nat, bits: nat, shift: nat, low: nat)
    requires bits <= width && shift * 2 < bits && x < Pow2(bits) && low < Pow2(bits)
    ensures Or(Top(width, x, bits, shift), And(low, Pow2(bits - shift * 2) - 1)) < Pow2(bits)
  {
    hide Bitwise, XorShift, Pow2;
    var lo := bits - shift * 2;
    MaskFits(lo, width);
    XorShiftBound(x, shift, bits);
    AndBound(XorShift(x, shift), Not(width, Pow2(lo) - 1), bits);
    AndBound(low, Pow2(lo) - 1, bits);
    BitwiseBound(OrOp, Top(width, x, bits, shift), And(low, Pow2(lo) - 1), bits);
  }

  /** Every word is the xorshift of its `unxorshift`. */
  lemma {:induction false} UnxorshiftSolves(width: nat, x: nat, bits: nat, shift: nat)
    requires bits <= width && x < Pow2(bits) && 1 <= shift
    ensures Unxorshift(width, x, bits, shift) < Pow2(bits)
    ensures XorShift(Unxorshift(width, x, bits, shift), shift) == x
    decreases bits
  {
    hide Bit, Bitwise, Pow2, XorShift, Top, Inner;
    var r := Unxorshift(width, x, bits, shift);
    XorShiftBound(x, shift, bits);
    if 2 * shift >= bits {
      forall i: nat | i < bits ensures Bit(XorShift(r, shift), i) == Bit(x, i) {
        BitXorShift(r, shift, i);
        BitXorShift(x, shift, i);
        BitXorShift(x, shift, i + shift);
        BitSmall(x, bits, i + shift + shift);
      }
    } else {
      var hi := bits - shift;
      var inner := Inner(width, x, bits, shift);
      UnxorshiftSolves(width, inner, hi, shift);
      var bottom2 := Unxorshift(width, inner, hi, shift);
      Pow2Monotonic(hi, bits);
      JoinBound(width, x, bits, shift, bottom2);
      forall i: nat | i < bits ensures Bit(XorShift(r, shift), i) == Bit(x, i) {
        SolvedBit(width, x, bits, shift, bottom2, r, i);
      }
    }
    XorShiftBound(r, shift, bits);
    Extensional(XorShift(r, shift), x, bits);
  }

  /** Given a solution for the inner word, the joined word solves every bit. */
  lemma SolvedBit(width: nat, x: nat, bits: nat, shift: nat, bottom2: nat, r: nat, i: nat)
    requires bits <= width && 1 <= shift && shift * 2 < bits && x < Pow2(bits) && i < bits
    requires bottom2 < Pow2(bits - shift) && XorShift(bottom2, shift) == Inner(width, x, bits, shift)
    requires r < Pow2(bits) && r == Or(Top(width, x, bits, shift), And(bottom2, Pow2(bits - shift * 2) - 1))
    ensures Bit(XorShift(r, shift), i) == Bit(x, i)
  {
    hide Bit, Bitwise, Pow2, XorShift, Top, Inner;
    var lo, hi := bits - shift * 2, bits - shift;
    BitXorShift(r, shift, i);
    BitJoin(width, x, bits, shift, bottom2, i);
    if hi <= i {
      BitSmall(r, bits, i + shift);
      BitSmall(x, bits, i + shift);
    } else {
      BitJoin(width, x, bits, shift, bottom2, i + shift);
      if lo <= i {
        BitSmall(x, bits, i + shift + shift);
      } else {
        BitXorShift(bottom2, shift, i);
        BitInner(width, x, bits, shift, i);
        if lo <= i + shift {
          BitXorShift(bottom2, shift, i + shift);
          BitInner(width, x, bits, shift, i + shift);
          BitSmall(bottom2, hi, i + shift + shift);
        }
      }
    }
  }

  /** A xorshift loses nothing: words with the same xorshift agree from the top bit down. */
  lemma {:induction false} XorShiftInjective(y: nat, z: nat, bits: nat, shift: nat, i: nat)
    requires y < Pow2(bits) && z < Pow2(bits) && 1 <= shift
    requires XorShift(y, shift) == XorShift(z, shift)
    ensures Bit(y, i) == Bit(z, i)
    decreases bits - i
  {
    hide Bit, Bitwise, Pow2, XorShift;
    if bits <= i {
      BitSmall(y, bits, i);
      BitSmall(z, bits, i);
    } else {
      XorShiftInjective(y, z, bits, shift, i + shift);
      BitXorShift(y, shift, i);
      BitXorShift(z, shift, i);
    }
  }

  /** `unxorshift` undoes x ^ (x >> shift) for every width and every shift. */
  lemma UnxorshiftInverts(width: nat, y: nat, bits: nat, shift: nat)
    requires bits <= width && y < Pow2(bits) && 1 <= shift
    ensures XorShift(y, shift) < Pow2(bits)
    ensures Unxorshift(width, XorShift(y, shift), bits, shift) == y
  {
    hide Bit, Bitwise, Pow2, XorShift, Unxorshift;
    XorShiftBound(y, shift, bits);
    var r := Unxorshift(width, XorShift(y, shift), bits, shift);
    UnxorshiftSolves(width, XorShift(y, shift), bits, shift);
    forall i: nat | i < bits ensures Bit(r, i) == Bit(y, i) {
      XorShiftInjective(r, y, bits, shift, i);
    }
    Extensional(r, y, bits);
  }

  // --- the output function ----------------------------------------------------------------------

  /** The number of selector bits for a word of the given width. */
  function OpBits(bits: nat): nat {
    if bits >= 128 then 6
    else if bits >= 64 then 5
    else if bits >= 32 then 4
    else if bits >= 16 then 3
    else 2
  }

  /** The top bits of the word, which choose the first xorshift. */
  function Selector(bits: nat, x: nat): nat
    requires OpBits(bits) <= bits
  {
    And(Shr(x, bits - OpBits(bits)), Pow2(OpBits(bits)) - 1)
  }

  function FinalShift(bits: nat): nat { (2 * bits + 2) / 3 }

  /** `rxs_m_xs_mixin::output` for equal state and result types. */
  function Output(bits: nat, mult: nat, x: nat): nat
    requires OpBits(bits) <= bits
  {
    var a := XorShift(x, OpBits(bits) + Selector(bits, x));
    var b := a * mult % Pow2(bits);
    XorShift(b, FinalShift(bits))
  }

  /** `rxs_m_xs_mixin::unoutput`. */
  function Unoutput(bits: nat, unmult: nat, y: nat): nat
    requires OpBits(bits) <= bits && y < Pow2(bits)
  {
    var a := Unxorshift(bits, y, bits, FinalShift(bits));
    var b := a * unmult % Pow2(bits);
    Unxorshift(bits, b, bits, OpBits(bits) + Selector(bits, b))
  }

  /** What the output is, bit by bit, for the five widths: the state is xored with itself shifted right by o and
      its top o bits, multiplied, and the product xored with itself shifted right by two thirds of the width. */
  lemma OutputBits(bits: nat, mult: nat, x: nat) returns (y: nat)
    requires bits in {8, 16, 32, 64, 128} && x < Pow2(bits)
    ensures OpBits(bits) <= bits && y < Pow2(bits)
    ensures var o := if bits == 8 then 2 else if bits == 16 then 3 else if bits == 32 then 4
                     else if bits == 64 then 5 else 6;
            forall i: nat {:trigger Bit(y, i)} :: Bit(y, i) == (Bit(x, i) != Bit(x, i + o + Shr(x, bits - o)))
    ensures var product := y * mult % Pow2(bits);
            forall i: nat {:trigger Bit(Output(bits, mult, x), i)} ::
              Bit(Output(bits, mult, x), i) == (Bit(product, i) != Bit(product, i + (2 * bits + 2) / 3))
    ensures Output(bits, mult, x) < Pow2(bits)
  {
    hide Bit, Pow2, Output, OpBits;
    SelectorBits(bits);
    y := OutputFolds(bits, mult, x, OpBits(bits));
    FoldedBits(x, y, OpBits(bits), Shr(x, bits - OpBits(bits)));
    FoldedBits(y * mult % Pow2(bits), Output(bits, mult, x), 0, (2 * bits + 2) / 3);
  }

  lemma SelectorBits(bits: nat)
    requires bits in {8, 16, 32, 64, 128}
    ensures OpBits(bits) <= bits && FinalShift(bits) == (2 * bits + 2) / 3
    ensures OpBits(bits) == if bits == 8 then 2 else if bits == 16 then 3 else if bits == 32 then 4
                            else if bits == 64 then 5 else 6
  {
  }

  /** y is x xored with itself shifted right. */
  ghost predicate Folded(x: nat, y: nat, shift: nat) {
    forall i: nat {:trigger Bit(y, i)} :: Bit(y, i) == (Bit(x, i) != Bit(x, i + shift))
  }

  lemma FoldedBits(x: nat, y: nat, o: nat, q: nat)
    requires Folded(x, y, o + q)
    ensures forall i: nat {:trigger Bit(y, i)} :: Bit(y, i) == (Bit(x, i) != Bit(x, i + o + q))
  {
    forall i: nat ensures Bit(y, i) == (Bit(x, i) != Bit(x, i + o + q)) {
      assert i + (o + q) == i + o + q;
    }
  }

  lemma XorShiftFolds(x: nat, shift: nat)
    ensures Folded(x, XorShift(x, shift), shift)
  {
    forall i: nat ensures Bit(XorShift(x, shift), i) == (Bit(x, i) != Bit(x, i + shift)) {
      BitXorShift(x, shift, i);
    }
  }

  lemma OutputFolds(bits: nat, mult: nat, x: nat, o: nat) returns (y: nat)
    requires o == OpBits(bits) <= bits && x < Pow2(bits)
    ensures y < Pow2(bits) && Folded(x, y, o + Shr(x, bits - o))
    ensures Folded(y * mult % Pow2(bits), Output(bits, mult, x), FinalShift(bits))
    ensures Output(bits, mult, x) < Pow2(bits)
  {
    hide Folded, Pow2, XorShift, Selector, OpBits;
    SelectorValue(bits, x);
    var shift := o + Selector(bits, x);
    y := XorShift(x, shift);
    XorShiftBound(x, shift, bits);
    XorShiftFolds(x, shift);
    var product := y * mult % Pow2(bits);
    XorShiftBound(product, FinalShift(bits), bits);
    XorShiftFolds(product, FinalShift(bits));
  }

  /** The selector is the number that the top bits spell. */
  lemma SelectorValue(bits: nat, x: nat)
    requires OpBits(bits) <= bits && x < Pow2(bits)
    ensures Selector(bits, x) == Shr(x, bits - OpBits(bits))
  {
    hide Bitwise, Pow2;
    var low := bits - OpBits(bits);
    ShrBound(x, low, bits);
    AndMask(Shr(x, low), OpBits(bits));
    SmallMod(Shr(x, low), Pow2(OpBits(bits)));
  }

  /** The selector bits survive the xorshift that they choose. */
  lemma SelectorSurvives(bits: nat, x: nat, shift: nat)
    requires OpBits(bits) <= bits && x < Pow2(bits) && OpBits(bits) <= shift
    ensures Selector(bits, XorShift(x, shift)) == Selector(bits, x)
  {
    hide Bit, Bitwise, Pow2, XorShift, Shr;
    var low := bits - OpBits(bits);
    var y := XorShift(x, shift);
    XorShiftBound(x, shift, bits);
    ShrBound(x, low, bits);
    ShrBound(y, low, bits);
    forall i: nat | i < OpBits(bits) ensures Bit(Shr(y, low), i) == Bit(Shr(x, low), i) {
      BitShr(x, low, i);
      BitShr(y, low, i);
      BitXorShift(x, shift, i + low);
      BitSmall(x, bits, i + low + shift);
    }
    Extensional(Shr(y, low), Shr(x, low), OpBits(bits));
  }

  /** Multiplying by two factors that are inverse modulo m changes nothing. */
  lemma MultiplyBack(x: nat, mult: nat, unmult: nat, m: nat)
    requires 0 < m && x < m && Cong(mult * unmult, 1, m)
    ensures x * mult % m * unmult % m == x
  {
    hide Cong;
    var p, u := x * mult, mult * unmult;
    var y := p % m;
    CongMod(p, m);
    CongRefl(unmult, m);
    CongMul(y, p, unmult, unmult, m);
    assert p * unmult == x * u;
    CongRefl(x, m);
    CongMul(x, x, u, 1, m);
    CongTrans(y * unmult, x * u, x, m);
    CongMod(y * unmult, m);
    CongTrans(y * unmult % m, y * unmult, x, m);
    CongSmall(y * unmult % m, x, m);
  }

  /** `unoutput` recovers every state from its output. */
  lemma OutputRoundTrip(bits: nat, mult: nat, unmult: nat, x: nat)
    requires OpBits(bits) <= bits && x < Pow2(bits)
    requires Cong(mult * unmult, 1, Pow2(bits))
    ensures Output(bits, mult, x) < Pow2(bits)
    ensures Unoutput(bits, unmult, Output(bits, mult, x)) == x
  {
    hide Bit, Bitwise, Pow2, XorShift, Unxorshift, Selector, Cong;
    var shift := OpBits(bits) + Selector(bits, x);
    var a := XorShift(x, shift);
    var b := a * mult % Pow2(bits);
    XorShiftBound(x, shift, bits);
    UnxorshiftInverts(bits, b, bits, FinalShift(bits));
    MultiplyBack(a, mult, unmult, Pow2(bits));
    SelectorSurvives(bits, x, shift);
    UnxorshiftInverts(bits, x, bits, shift);
  }

  /** Every word is the output of its `unoutput`: the output function is a permutation. */
  lemma UnoutputRoundTrip(bits: nat, mult: nat, unmult: nat, y: nat)
    requires OpBits(bits) <= bits && y < Pow2(bits)
    requires Cong(mult * unmult, 1, Pow2(bits))
    ensures Unoutput(bits, unmult, y) < Pow2(bits)
    ensures Output(bits, mult, Unoutput(bits, unmult, y)) == y
  {
    hide Bit, Bitwise, Pow2, XorShift, Unxorshift, Selector, Cong;
    var a := Unxorshift(bits, y, bits, FinalShift(bits));
    UnxorshiftSolves(bits, y, bits, FinalShift(bits));
    var b := a * unmult % Pow2(bits);
    var shift := OpBits(bits) + Selector(bits, b);
    var x := Unxorshift(bits, b, bits, shift);
    UnxorshiftSolves(bits, b, bits, shift);
    SelectorSurvives(bits, x, shift);
    Commuted(mult, unmult, Pow2(bits));
    MultiplyBack(a, unmult, mult, Pow2(bits));
  }

  lemma Commuted(mult: nat, unmult: nat, m: nat)
    requires 0 < m && Cong(mult * unmult, 1, m)
    ensures Cong(unmult * mult, 1, m)
  {
    assert mult * unmult == unmult * mult;
  }

  // --- the predefined widths ---------------------------------------------------------------------

  function McgMultiplier(bits: nat): nat {
    if bits == 8 then 217
    else if bits == 16 then 62169
    else if bits == 32 then 277803737
    else if bits == 64 then 12605985483714917081
    else 17766728186571221404 * 0x1_0000_0000_0000_0000 + 12605985483714917081
  }

  function McgUnmultiplier(bits: nat): nat {
    if bits == 8 then 105
    else if bits == 16 then 28009
    else if bits == 32 then 2897767785
    else if bits == 64 then 15009553638781119849
    else 14422606686972528997 * 0x1_0000_0000_0000_0000 + 15009553638781119849
  }

  lemma PowersOfWidths()
    ensures Pow2(8) == 0x100 && Pow2(16) == 0x1_0000 && Pow2(32) == 0x1_0000_0000
    ensures Pow2(64) == 0x1_0000_0000_0000_0000
    ensures Pow2(128) == 0x1_0000_0000_0000_0000 * 0x1_0000_0000_0000_0000
  {
    hide Pow2;
    Pow2Of8();
    Pow2Add(8, 8);
    Pow2Add(16, 16);
    Pow2Add(32, 32);
    Pow2Add(64, 64);
  }

  lemma Pow2Of8()
    ensures Pow2(8) == 0x100
  {
    assert Pow2(4) == 16;
    Pow2Add(4, 4);
  }

  /** The multipliers of all widths are one 128-bit constant, truncated. */
  lemma MultipliersTruncate(bits: nat)
    requires bits in {8, 16, 32, 64, 128}
    ensures McgMultiplier(bits) == 0xf690_1927_4d7f_699c_aef1_7502_108e_f2d9 % Pow2(bits)
  {
    hide Pow2;
    PowersOfWidths();
  }

  /** The constants are inverse to each other in each width, so the output function of every
      predefined generator is invertible. */
  lemma PredefinedOutputsInvert(bits: nat, x: nat)
    requires bits in {8, 16, 32, 64, 128} && x < Pow2(bits)
    ensures OpBits(bits) <= bits && Output(bits, McgMultiplier(bits), x) < Pow2(bits)
    ensures Unoutput(bits, McgUnmultiplier(bits), Output(bits, McgMultiplier(bits), x)) == x
    ensures Unoutput(bits, McgUnmultiplier(bits), x) < Pow2(bits)
    ensures Output(bits, McgMultiplier(bits), Unoutput(bits, McgUnmultiplier(bits), x)) == x
  {
    hide Pow2, Output, Unoutput;
    PowersOfWidths();
    assert Cong(McgMultiplier(bits) * McgUnmultiplier(bits), 1, Pow2(bits));
    OutputRoundTrip(bits, McgMultiplier(bits), McgUnmultiplier(bits), x);
    UnoutputRoundTrip(bits, McgMultiplier(bits), McgUnmultiplier(bits), x);
  }
}
