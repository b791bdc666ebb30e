/** Unbiased draws below a bound, and the in-place shuffle built on them.  A generator is the
    sequence of words it will produce; a draw consumes words from its front. */
module PcgDraws {
  import opened Arith
  import opened Wrappers

  /** The outcome of a bounded draw: a value and the words left over, a generator that ran dry, or the
      remainder by a bound of zero. */
  datatype Draw = Drawn(value: nat, rest: seq<nat>) | Exhausted | DivisionByZero

  /** (max() - min() + 1 - upper_bound) % upper_bound in words of k bits. */
  function Threshold(k: nat, bound: nat): nat
    requires 0 < bound < Pow2(k)
  {
    (Pow2(k) - 1 - 0 + 1 - bound) % Pow2(k) % bound
  }

  lemma ThresholdValue(k: nat, bound: nat)
    requires 0 < bound < Pow2(k)
    ensures Threshold(k, bound) == Pow2(k) % bound < bound
  {
    SmallMod(Pow2(k) - bound, Pow2(k));
    CongIntro(Pow2(k) - bound, Pow2(k), bound, -1);
  }

  /** The first word that is not rejected, reduced. */
  function FirstAccepted(k: nat, bound: nat, words: seq<nat>): Draw
    requires bound < Pow2(k)
  {
    if bound == 0 then DivisionByZero
    else if words == [] then Exhausted
    else if words[0] >= Threshold(k, bound) then Drawn(words[0] % bound, words[1..])
    else FirstAccepted(k, bound, words[1..])
  }

  /** Word i is the first that is at least 2^k mod bound, and d is that word reduced, with the words behind it. */
  predicate AcceptedAt(k: nat, bound: nat, words: seq<nat>, i: nat, d: Draw)
    requires 0 < bound && d.Drawn?
  {
    && i < |words| && words[i] >= Pow2(k) % bound
    && (forall j :: 0 <= j < i ==> words[j] < Pow2(k) % bound)
    && d.value < bound && Cong(d.value, words[i], bound) && d.rest == words[i + 1..]
  }

  /** `bounded_rand` */
  method BoundedRand(k: nat, bound: nat, words: seq<nat>) returns (d: Draw)
    requires bound < Pow2(k)
    ensures d == FirstAccepted(k, bound, words)
    ensures d.DivisionByZero? <==> bound == 0
    ensures d.Drawn? ==> d.value < bound && |d.rest| < |words|
    ensures d.Exhausted? ==> forall j :: 0 <= j < |words| ==> words[j] < Pow2(k) % bound
    ensures d.Drawn? ==> exists i :: AcceptedAt(k, bound, words, i, d)
  {
    if bound == 0 {
      return DivisionByZero;
    }
    hide AcceptedAt, Threshold, Pow2;
    var threshold := Threshold(k, bound);
    var i := 0;
    DrawMeans(k, bound, words);
    while i < |words|
      invariant i <= |words|
      invariant FirstAccepted(k, bound, words) == FirstAccepted(k, bound, words[i..])
    {
      var r := words[i] - 0;
      assert words[i..][1..] == words[i + 1..];
      if r >= threshold {
        return Drawn(r % bound, words[i + 1..]);
      }
      i := i + 1;
    }
    return Exhausted;
  }

  lemma DrawMeans(k: nat, bound: nat, words: seq<nat>)
    requires 0 < bound < Pow2(k)
    ensures var d := FirstAccepted(k, bound, words);
            && (d.Exhausted? ==> forall j :: 0 <= j < |words| ==> words[j] < Pow2(k) % bound)
            && (d.Drawn? ==> exists i :: AcceptedAt(k, bound, words, i, d))
            && (d.Drawn? ==> d.value < bound && |d.rest| < |words|)
            && !d.DivisionByZero?
  {
    hide Pow2, Cong, FirstAccepted;
    var i := DrawnWord(k, bound, words);
    var d := FirstAccepted(k, bound, words);
    assert d.Drawn? ==> AcceptedAt(k, bound, words, i, d);
  }

  /** A draw is the first word that is at least 2^k mod bound, reduced modulo the bound, and leaves the words
      behind it; without such a word the generator runs dry. */
  lemma {:induction false} DrawnWord(k: nat, bound: nat, words: seq<nat>) returns (i: nat)
    requires 0 < bound < Pow2(k)
    ensures i <= |words| && forall j :: 0 <= j < i ==> words[j] < Pow2(k) % bound
    ensures var d := FirstAccepted(k, bound, words);
            if i == |words| then d == Exhausted
            else
              && words[i] >= Pow2(k) % bound
              && d.Drawn? && d.value < bound && Cong(d.value, words[i], bound) && d.rest == words[i + 1..]
    decreases |words|
  {
    hide Threshold, Pow2, Cong;
    ThresholdValue(k, bound);
    if words == [] {
      i := 0;
    } else if words[0] >= Threshold(k, bound) {
      i := 0;
      Reduced(words[0], bound);
    } else {
      var i' := DrawnWord(k, bound, words[1..]);
      i := i' + 1;
      assert forall j :: 1 <= j < |words| ==> words[j] == words[1..][j - 1];
      assert words[1..][i'..] == words[i..];
      if i < |words| {
        assert words[1..][i' + 1..] == words[i + 1..];
      }
    }
  }

  lemma Reduced(w: nat, bound: nat)
    requires 0 < bound
    ensures 0 <= w % bound < bound && Cong(w % bound, w, bound)
  {
    CongMod(w, bound);
  }

  // --- every value is equally likely -----------------------------------------------------------

  /** The words from lo below hi that give the value v. */
  function Between(lo: nat, hi: nat, bound: nat, v: nat): set<nat>
    requires 0 < bound
  {
    set r: nat | r < hi && lo <= r && r % bound == v
  }

  /** The words of k bits from which v is drawn at once. */
  function Favourable(k: nat, bound: nat, v: nat): set<nat>
    requires 0 < bound < Pow2(k)
  {
    set w: nat | w < Pow2(k) && FirstAccepted(k, bound, [w]) == Drawn(v, [])
  }

  lemma OneWord(k: nat, bound: nat, w: nat)
    requires 0 < bound < Pow2(k)
    ensures FirstAccepted(k, bound, [w]) == if w >= Threshold(k, bound) then Drawn(w % bound, []) else Exhausted
  {
    hide Threshold, Pow2;
    assert [w][0] == w && [w][1..] == [];
    assert FirstAccepted(k, bound, []) == Exhausted;
  }

  lemma FavourableWords(k: nat, bound: nat, v: nat)
    requires 0 < bound < Pow2(k)
    ensures Favourable(k, bound, v) == Between(Threshold(k, bound), Pow2(k), bound, v)
  {
    hide Threshold, Pow2, FirstAccepted;
    forall w: nat ensures w in Favourable(k, bound, v) <==> w in Between(Threshold(k, bound), Pow2(k), bound, v) {
      OneWord(k, bound, w);
    }
  }

  /** Among `bound` consecutive words exactly one gives v. */
  lemma BlockMember(base: nat, bound: nat, v: nat) returns (r: nat)
    requires 0 < bound && v < bound
    ensures base <= r < base + bound && r % bound == v
    ensures forall q: nat :: base <= q < base + bound && q % bound == v ==> q == r
  {
    var b := base % bound;
    var q0 := base / bound;
    assert base == q0 * bound + b;
    if b <= v {
      r := base + (v - b);
      DivModUnique(r, bound, q0, v);
    } else {
      r := base + (v - b) + bound;
      assert (q0 + 1) * bound == q0 * bound + bound;
      DivModUnique(r, bound, q0 + 1, v);
    }
    forall q: nat | base <= q < base + bound && q % bound == v ensures q == r {
      var m := CongElim(q, r, bound);
      if m > 0 {
        MulMonotonic(1, m, bound);
      } else if m < 0 {
        MulMonotonic(m, -1, bound);
      }
    }
  }

  lemma BlockAdds(lo: nat, base: nat, bound: nat, v: nat)
    requires 0 < bound && v < bound && lo <= base
    ensures |Between(lo, base + bound, bound, v)| == |Between(lo, base, bound, v)| + 1
  {
    var r := BlockMember(base, bound, v);
    assert Between(lo, base + bound, bound, v) == Between(lo, base, bound, v) + {r};
  }

  lemma {:induction false} BlockCount(t: nat, bound: nat, n: nat, v: nat)
    requires 0 < bound && v < bound
    ensures |Between(t, t + n * bound, bound, v)| == n
  {
    hide Between;
    if n == 0 {
      NothingBetween(t, bound, v);
    } else {
      BlockCount(t, bound, n - 1, v);
      OneMore(n, bound);
      MulMonotonic(0, n - 1, bound);
      BlockAdds(t, t + (n - 1) * bound, bound, v);
    }
  }

  lemma OneMore(n: nat, bound: nat)
    requires n >= 1
    ensures n * bound == (n - 1) * bound + bound
  {
  }

  lemma NothingBetween(t: nat, bound: nat, v: nat)
    requires 0 < bound
    ensures |Between(t, t + 0 * bound, bound, v)| == 0
  {
    assert Between(t, t + 0 * bound, bound, v) == {};
  }

  /** Each value below the bound is drawn from the same number of words. */
  lemma DrawsAreUniform(k: nat, bound: nat, v: nat)
    requires 0 < bound < Pow2(k) && v < bound
    ensures |Favourable(k, bound, v)| == Pow2(k) / bound
  {
    hide Pow2, Between, Threshold, Favourable;
    FavourableWords(k, bound, v);
    var n := Pow2(k) / bound;
    ThresholdValue(k, bound);
    DivNonNeg(Pow2(k), bound);
    assert Pow2(k) == n * bound + Pow2(k) % bound;
    BlockCount(Threshold(k, bound), bound, n, v);
  }

  // --- shuffle -----------------------------------------------------------------------------------

  function Swapped<T>(s: seq<T>, i: nat, j: nat): (r: seq<T>)
    requires i < |s| && j < |s|
    ensures |r| == |s|
  {
    s[i := s[j]][j := s[i]]
  }

  /** One sequence is a rearrangement of the other. */
  predicate Rearranged<T(==)>(s: seq<T>, t: seq<T>) {
    multiset(s) == multiset(t)
  }

  lemma SwappedRearranges<T>(s: seq<T>, i: nat, j: nat, r: seq<T>)
    requires i < |s| && j < |s| && Rearranged(s, r)
    ensures Rearranged(Swapped(s, i, j), r)
  {
  }

  /** One choice per step: below n, then below n - 1, down to below 2. */
  predicate Choices(n: nat, choices: seq<nat>)
  {
    if n <= 1 then choices == []
    else choices != [] && choices[0] < n && Choices(n - 1, choices[1..])
  }

  /** The arrangement that a sequence of choices produces. */
  function Shuffled<T>(s: seq<T>, choices: seq<nat>): (r: seq<T>)
    requires Choices(|s|, choices)
    ensures |r| == |s|
    decreases |s|
  {
    if |s| <= 1 then s
    else
      var last := |s| - 1;
      var t := Swapped(s, choices[0], last);
      Shuffled(t[..last], choices[1..]) + [t[last]]
  }

  lemma ShuffledUnfold<T>(s: seq<T>, choices: seq<nat>, t: seq<T>)
    requires |s| > 1 && Choices(|s|, choices)
    requires t == Swapped(s, choices[0], |s| - 1)
    ensures Choices(|s| - 1, choices[1..])
    ensures Shuffled(s, choices) == Shuffled(t[..|s| - 1], choices[1..]) + [t[|s| - 1]]
  {
  }

  /** The chosen element goes to the last place, the last one takes its place, and the rest is shuffled on. */
  lemma ShuffledStep<T>(s: seq<T>, choices: seq<nat>, rest: seq<T>)
    requires |s| > 1 && Choices(|s|, choices) && |rest| == |s| - 1
    requires forall i :: 0 <= i < |rest| ==> rest[i] == if i == choices[0] then s[|s| - 1] else s[i]
    ensures Choices(|s| - 1, choices[1..])
    ensures Shuffled(s, choices) == Shuffled(rest, choices[1..]) + [s[choices[0]]]
  {
    var t := Swapped(s, choices[0], |s| - 1);
    ShuffledUnfold(s, choices, t);
    assert t[..|s| - 1] == rest;
  }

  /** A shuffle only rearranges. */
  lemma {:induction false} ShuffledPermutes<T>(s: seq<T>, choices: seq<nat>)
    requires Choices(|s|, choices)
    ensures Rearranged(Shuffled(s, choices), s)
    decreases |s|
  {
    hide Shuffled, Choices, Rearranged, Swapped;
    if |s| <= 1 {
      ShuffledNothing(s, choices);
    } else {
      ChoicesHead(|s|, choices);
      var last := |s| - 1;
      var t := Swapped(s, choices[0], last);
      ShuffledUnfold(s, choices, t);
      SwapRearranges(s, choices[0], last);
      ShuffledPermutes(t[..last], choices[1..]);
      RearrangedLast(Shuffled(t[..last], choices[1..]), t, s);
    }
  }

  lemma ShuffledNothing<T>(s: seq<T>, choices: seq<nat>)
    requires |s| <= 1 && Choices(|s|, choices)
    ensures Shuffled(s, choices) == s && Rearranged(s, s)
  {
  }

  lemma ChoicesHead(n: nat, choices: seq<nat>)
    requires n > 1 && Choices(n, choices)
    ensures choices != [] && choices[0] < n && Choices(n - 1, choices[1..])
  {
  }

  lemma SwapRearranges<T>(s: seq<T>, i: nat, j: nat)
    requires i < |s| && j < |s|
    ensures Rearranged(Swapped(s, i, j), s)
  {
    SwappedRearranges(s, i, j, s);
  }

  lemma RearrangedLast<T>(r: seq<T>, t: seq<T>, s: seq<T>)
    requires |t| > 0 && |r| == |t| - 1 && Rearranged(r, t[..|t| - 1]) && Rearranged(t, s)
    ensures Rearranged(r + [t[|t| - 1]], s)
  {
    SplitLast(t);
  }

  lemma SwapKeepsDistinct<T>(s: seq<T>, i: nat)
    requires Distinct(s) && i < |s|
    ensures Distinct(Swapped(s, i, |s| - 1)[..|s| - 1])
  {
  }

  /** Different choices give different arrangements of distinct elements. */
  lemma {:induction false} ShuffledInjective<T>(s: seq<T>, c: seq<nat>, d: seq<nat>)
    requires Distinct(s) && Choices(|s|, c) && Choices(|s|, d)
    requires Shuffled(s, c) == Shuffled(s, d)
    ensures c == d
    decreases |s|
  {
    if |s| > 1 {
      var last := |s| - 1;
      var t, u := Swapped(s, c[0], last), Swapped(s, d[0], last);
      assert Shuffled(s, c)[last] == s[c[0]] && Shuffled(s, d)[last] == s[d[0]];
      assert c[0] == d[0];
      assert Shuffled(t[..last], c[1..]) == Shuffled(s, c)[..last] == Shuffled(u[..last], d[1..]);
      SwapKeepsDistinct(s, c[0]);
      ShuffledInjective(t[..last], c[1..], d[1..]);
      assert c == [c[0]] + c[1..] && d == [d[0]] + d[1..];
    }
  }

  /** Every arrangement is produced by some choices. */
  lemma {:induction false} ShuffledSurjective<T>(s: seq<T>, p: seq<T>) returns (choices: seq<nat>)
    requires Rearranged(p, s)
    ensures Choices(|s|, choices) && Shuffled(s, choices) == p
    decreases |s|
  {
    hide Shuffled, Rearranged, Swapped;
    SameLength(s, p);
    if |s| > 1 {
      var last := |s| - 1;
      var i := PickLast(s, p);
      var t := Swapped(s, i, last);
      var rest := ShuffledSurjective(t[..last], p[..last]);
      choices := [i] + rest;
      assert choices[1..] == rest;
      ShuffledUnfold(s, choices, t);
      assert p == p[..last] + [p[last]];
    } else {
      choices := [];
      ShuffledShort(s, p);
    }
  }

  lemma SameLength<T>(s: seq<T>, p: seq<T>)
    requires Rearranged(p, s)
    ensures |p| == |s|
  {
    assert |p| == |multiset(p)| == |multiset(s)| == |s|;
  }

  lemma ShuffledShort<T>(s: seq<T>, p: seq<T>)
    requires Rearranged(p, s) && |s| == |p| <= 1
    ensures Shuffled(s, []) == p
  {
    if |s| == 1 {
      SingletonMultiset(s, p);
    }
  }

  lemma PickLast<T>(s: seq<T>, p: seq<T>) returns (i: nat)
    requires Rearranged(p, s) && |s| == |p| > 0
    ensures i < |s|
    ensures Swapped(s, i, |s| - 1)[|s| - 1] == p[|s| - 1]
    ensures Rearranged(p[..|s| - 1], Swapped(s, i, |s| - 1)[..|s| - 1])
  {
    var last := |s| - 1;
    i := IndexIn(s, p, last);
    SwappedRearranges(s, i, last, s);
    DropLastMultiset(Swapped(s, i, last), p);
  }

  lemma SingletonMultiset<T>(s: seq<T>, p: seq<T>)
    requires |s| == |p| == 1 && multiset(p) == multiset(s)
    ensures p == s
  {
    assert p == [p[0]] && s == [s[0]];
    assert p[0] in multiset(p);
  }

  lemma IndexIn<T>(s: seq<T>, p: seq<T>, j: nat) returns (i: nat)
    requires multiset(p) == multiset(s) && j < |p|
    ensures i < |s| && s[i] == p[j]
  {
    assert p[j] in multiset(p);
    assert p[j] in s;
    i :| i < |s| && s[i] == p[j];
  }

  lemma SplitLast<T>(t: seq<T>)
    requires |t| > 0
    ensures multiset(t) == multiset(t[..|t| - 1]) + multiset{t[|t| - 1]}
  {
    assert t == t[..|t| - 1] + [t[|t| - 1]];
  }

  lemma CancelOne<T>(a: multiset<T>, b: multiset<T>, x: T)
    requires a + multiset{x} == b + multiset{x}
    ensures a == b
  {
    assert a == a + multiset{x} - multiset{x};
    assert b == b + multiset{x} - multiset{x};
  }

  lemma DropLastMultiset<T>(t: seq<T>, p: seq<T>)
    requires |t| == |p| > 0 && t[|t| - 1] == p[|p| - 1] && multiset(t) == multiset(p)
    ensures multiset(t[..|t| - 1]) == multiset(p[..|p| - 1])
  {
    SplitLast(t);
    SplitLast(p);
    CancelOne(multiset(t[..|t| - 1]), multiset(p[..|p| - 1]), t[|t| - 1]);
  }

  /** How a shuffle ends: all elements placed, the generator run dry, or a remainder by zero. */
  datatype Ending = Placed | RanDry | DividedByZero

  /** How a shuffle of n elements ends, and the choices it makes. */
  function ChoicesOf(k: nat, n: nat, words: seq<nat>): (r: (Ending, seq<nat>))
    ensures r.0.Placed? ==> Choices(n, r.1)
  {
    if n <= 1 then (Placed, [])
    else
      match FirstAccepted(k, Truncated(k, n), words)
      case Exhausted => (RanDry, [])
      case DivisionByZero => (DividedByZero, [])
      case Drawn(value, rest) =>
        FirstAcceptedBound(k, Truncated(k, n), words);
        var (ending, choices) := ChoicesOf(k, n - 1, rest);
        assert ([value] + choices)[1..] == choices;
        (ending, [value] + choices)
  }

  /** result_t(count): the number of elements left, in a word of k bits. */
  function Truncated(k: nat, n: nat): (r: nat)
    ensures r <= n && r < Pow2(k)
  {
    DivBounds(n, Pow2(k));
    DivNonNeg(n, Pow2(k));
    MulMonotonic(0, n / Pow2(k), Pow2(k));
    n % Pow2(k)
  }

  // --- when a shuffle divides by zero ------------------------------------------------------------

  /** A shuffle of 2^k elements or more is never complete: on its way down the count is a multiple of 2^k and the
      bound is truncated to zero. */
  lemma {:induction false} LongNeverPlaced(k: nat, n: nat, words: seq<nat>)
    requires 1 < n && Pow2(k) <= n
    ensures ChoicesOf(k, n, words).0 != Placed
  {
    var d := FirstAccepted(k, Truncated(k, n), words);
    if n == Pow2(k) || Pow2(k) == 1 {
      CutToZero(k, n);
    } else if d.Drawn? {
      LongNeverPlaced(k, n - 1, d.rest);
    }
  }

  lemma CutToZero(k: nat, n: nat)
    requires n == Pow2(k) || Pow2(k) == 1
    ensures Truncated(k, n) == 0
  {
    DivModUnique(n, Pow2(k), if n == Pow2(k) then 1 else n, 0);
  }

  /** Below 2^k elements nothing is cut off. */
  lemma NothingTruncated(k: nat, n: nat)
    requires n < Pow2(k)
    ensures Truncated(k, n) == n
  {
    SmallMod(n, Pow2(k));
  }

  /** A draw divides by zero exactly if its bound is zero. */
  lemma {:induction false} ZeroBoundOnly(k: nat, bound: nat, words: seq<nat>)
    requires bound < Pow2(k)
    ensures FirstAccepted(k, bound, words).DivisionByZero? <==> bound == 0
  {
    if bound != 0 && words != [] {
      ZeroBoundOnly(k, bound, words[1..]);
    }
  }

  /** A shuffle of fewer than 2^k elements never divides by zero. */
  lemma {:induction false} ShortNeverDivides(k: nat, n: nat, words: seq<nat>)
    requires n <= 1 || n < Pow2(k)
    ensures ChoicesOf(k, n, words).0 != DividedByZero
  {
    hide FirstAccepted, Truncated;
    if n > 1 {
      NothingTruncated(k, n);
      ZeroBoundOnly(k, n, words);
      var d := FirstAccepted(k, n, words);
      if d.Drawn? {
        ShortNeverDivides(k, n - 1, d.rest);
      }
    }
  }

  /** The words in the upper half of their range. */
  function UpperHalf(k: nat, words: seq<nat>): nat {
    if words == [] then 0
    else (if Pow2(k) <= 2 * words[0] then 1 else 0) + UpperHalf(k, words[1..])
  }

  /** A word in the upper half is accepted, whatever the bound. */
  lemma ThresholdBelowHalf(k: nat, bound: nat)
    requires 0 < bound < Pow2(k)
    ensures 2 * Threshold(k, bound) < Pow2(k)
  {
    hide Pow2, Threshold;
    ThresholdValue(k, bound);
    DivNonNeg(Pow2(k), bound);
    var q := Pow2(k) / bound;
    assert Pow2(k) == q * bound + Pow2(k) % bound;
    MulMonotonic(1, q, bound);
  }

  /** A draw with a word of the upper half ahead succeeds and uses up no more than one of them. */
  lemma {:induction false} DrawSucceeds(k: nat, bound: nat, words: seq<nat>)
    requires 0 < bound < Pow2(k) && UpperHalf(k, words) > 0
    ensures var d := FirstAccepted(k, bound, words); d.Drawn? && UpperHalf(k, d.rest) + 1 >= UpperHalf(k, words)
  {
    hide Threshold, Pow2;
    ThresholdBelowHalf(k, bound);
    if words[0] < Threshold(k, bound) {
      DrawSucceeds(k, bound, words[1..]);
    }
  }

  /** One word of the upper half per draw is enough. */
  lemma {:induction false} EnoughWords(k: nat, n: nat, words: seq<nat>)
    requires n <= UpperHalf(k, words) + 1
    ensures ChoicesOf(k, n, words).0 != RanDry
  {
    hide FirstAccepted, Truncated, UpperHalf, Pow2;
    var bound := Truncated(k, n);
    ZeroBoundOnly(k, bound, words);
    if n > 1 && bound != 0 {
      DrawSucceeds(k, bound, words);
      EnoughWords(k, n - 1, FirstAccepted(k, bound, words).rest);
    }
  }

  /** Given enough words, a shuffle divides by zero if there are 2^k elements or more, and else is complete. */
  lemma ShuffleEnds(k: nat, n: nat, words: seq<nat>)
    requires n <= UpperHalf(k, words) + 1
    ensures ChoicesOf(k, n, words).0 == if n <= 1 || n < Pow2(k) then Placed else DividedByZero
  {
    hide ChoicesOf, UpperHalf, Pow2;
    EnoughWords(k, n, words);
    if n <= 1 || n < Pow2(k) {
      ShortNeverDivides(k, n, words);
    } else {
      LongNeverPlaced(k, n, words);
    }
  }

  /** All words have k bits. */
  predicate Words(k: nat, words: seq<nat>) {
    forall i :: 0 <= i < |words| ==> words[i] < Pow2(k)
  }

  /** Some words make the shuffle of n elements end this way. */
  ghost predicate CanEnd(k: nat, n: nat, ending: Ending) {
    exists words: seq<nat> :: Words(k, words) && ChoicesOf(k, n, words).0 == ending
  }

  lemma {:induction false} LargestWords(k: nat, n: nat)
    requires 1 <= k
    ensures Words(k, seq(n, _ => Pow2(k) - 1)) && UpperHalf(k, seq(n, _ => Pow2(k) - 1)) == n
  {
    if n > 0 {
      LargestWords(k, n - 1);
      assert seq(n, _ => Pow2(k) - 1)[1..] == seq(n - 1, _ => Pow2(k) - 1);
    }
  }

  /** A shuffle can divide by zero if and only if it has 2^k elements or more, and can be complete if and only if
      it has fewer; nothing to shuffle is always complete. */
  lemma DivisionByZeroIff(k: nat, n: nat)
    ensures CanEnd(k, n, DividedByZero) <==> 1 < n && Pow2(k) <= n
    ensures CanEnd(k, n, Placed) <==> n <= 1 || n < Pow2(k)
  {
    hide ChoicesOf, UpperHalf, Words, Pow2;
    var words := EndingWords(k, n);
    forall ws: seq<nat> ensures !(ChoicesOf(k, n, ws).0 == (if n <= 1 || n < Pow2(k) then DividedByZero else Placed)) {
      if n <= 1 || n < Pow2(k) {
        ShortNeverDivides(k, n, ws);
      } else {
        LongNeverPlaced(k, n, ws);
      }
    }
  }

  lemma EndingWords(k: nat, n: nat) returns (words: seq<nat>)
    ensures Words(k, words)
    ensures ChoicesOf(k, n, words).0 == if n <= 1 || n < Pow2(k) then Placed else DividedByZero
  {
    if k == 0 {
      words := [];
      CutToZero(k, n);
    } else {
      words := seq(n, _ => Pow2(k) - 1);
      hide ChoicesOf, UpperHalf, Words, Pow2;
      LargestWords(k, n);
      ShuffleEnds(k, n, words);
    }
  }

  lemma {:induction false} FirstAcceptedBound(k: nat, bound: nat, words: seq<nat>)
    requires bound < Pow2(k)
    ensures FirstAccepted(k, bound, words).Drawn? ==> FirstAccepted(k, bound, words).value < bound
  {
    if bound != 0 && words != [] && words[0] < Threshold(k, bound) {
      FirstAcceptedBound(k, bound, words[1..]);
    }
  }

  /** `shuffle` */
  method Shuffle<T>(a: array<T>, k: nat, words: seq<nat>) returns (ending: Ending)
    modifies a
    ensures ending == ChoicesOf(k, a.Length, words).0
    ensures ending.Placed? ==> a[..] == Shuffled(old(a[..]), ChoicesOf(k, a.Length, words).1)
    ensures a.Length <= 1 || a.Length < Pow2(k) ==> !ending.DividedByZero?
    ensures 1 < a.Length && Pow2(k) <= a.Length ==> !ending.Placed?
    ensures a.Length <= UpperHalf(k, words) + 1 ==> !ending.RanDry?
    ensures Rearranged(a[..], old(a[..]))
  {
    hide FirstAccepted, Shuffled, ChoicesOf, Choices, Pow2, Truncated, Swapped, Rearranged, Leads, UpperHalf;
    ShuffleEnding(k, a.Length, words);
    var count, rest := a.Length, words;
    ghost var all := ChoicesOf(k, a.Length, words);
    ghost var target := if all.0.Placed? then Shuffled(old(a[..]), all.1) else [];
    LeadsStart(k, a[..], words, all, target);
    while count > 1
      invariant 0 <= count <= a.Length
      invariant Rearranged(a[..], old(a[..]))
      invariant Leads(k, a[..], count, rest, all.0, target)
    {
      var d := BoundedRand(k, Truncated(k, count), rest);
      if !d.Drawn? {
        LeadsNowhere(k, count, rest, a[..], all.0, target);
        return if d.Exhausted? then RanDry else DividedByZero;
      }
      ghost var before := a[..];
      count := count - 1;
      Swap(a, d.value, count);
      SwappedRearranges(before, d.value, count, old(a[..]));
      LeadsOn(k, before, a[..], count, rest, d, all.0, target);
      rest := d.rest;
    }
    ending := Placed;
    ShuffleEnd(k, count, rest, a[..], all.0, target);
  }

  lemma ShuffleEnding(k: nat, n: nat, words: seq<nat>)
    ensures var ending := ChoicesOf(k, n, words).0;
            && (n <= 1 || n < Pow2(k) ==> ending != DividedByZero)
            && (1 < n && Pow2(k) <= n ==> ending != Placed)
            && (n <= UpperHalf(k, words) + 1 ==> ending != RanDry)
  {
    hide ChoicesOf, UpperHalf, Pow2;
    if n <= 1 || n < Pow2(k) {
      ShortNeverDivides(k, n, words);
    } else {
      LongNeverPlaced(k, n, words);
    }
    if n <= UpperHalf(k, words) + 1 {
      EnoughWords(k, n, words);
    }
  }

  method Swap<T>(a: array<T>, i: nat, j: nat)
    requires i < a.Length && j < a.Length
    modifies a
    ensures a[..] == Swapped(old(a[..]), i, j)
  {
    a[i], a[j] := a[j], a[i];
  }

  /** The state s, with `count` elements to go, leads to the target. */
  ghost predicate Leads<T>(k: nat, s: seq<T>, count: nat, words: seq<nat>, ending: Ending, target: seq<T>)
    requires count <= |s|
  {
    var c := ChoicesOf(k, count, words);
    ending == c.0 && (ending.Placed? ==> Shuffled(s[..count], c.1) + s[count..] == target)
  }

  lemma LeadsStart<T>(k: nat, s: seq<T>, words: seq<nat>, all: (Ending, seq<nat>), target: seq<T>)
    requires all == ChoicesOf(k, |s|, words) && (all.0.Placed? ==> target == Shuffled(s, all.1))
    ensures Leads(k, s, |s|, words, all.0, target) && Rearranged(s, s)
  {
    hide Shuffled, ChoicesOf;
    assert s[..|s|] == s && s[|s|..] == [] && target + [] == target;
  }

  lemma LeadsNowhere<T>(k: nat, n: nat, words: seq<nat>, s: seq<T>, ending: Ending, target: seq<T>)
    requires 1 < n <= |s| && Leads(k, s, n, words, ending, target)
    requires !FirstAccepted(k, Truncated(k, n), words).Drawn?
    ensures ending == if FirstAccepted(k, Truncated(k, n), words).Exhausted? then RanDry else DividedByZero
  {
  }

  lemma ChoicesStep(k: nat, n: nat, words: seq<nat>, d: Draw)
    requires 1 < n && d == FirstAccepted(k, Truncated(k, n), words) && d.Drawn?
    ensures ChoicesOf(k, n, words).0 == ChoicesOf(k, n - 1, d.rest).0
    ensures ChoicesOf(k, n, words).1 == [d.value] + ChoicesOf(k, n - 1, d.rest).1
  {
    FirstAcceptedBound(k, Truncated(k, n), words);
  }

  lemma LeadsOn<T>(k: nat, before: seq<T>, after: seq<T>, count: nat, words: seq<nat>, d: Draw, ending: Ending,
                   target: seq<T>)
    requires 1 <= count < |before|
    requires d == FirstAccepted(k, Truncated(k, count + 1), words) && d.Drawn? && d.value <= count
    requires after == Swapped(before, d.value, count) && Leads(k, before, count + 1, words, ending, target)
    ensures Leads(k, after, count, d.rest, ending, target)
  {
    hide Swapped, Shuffled, ChoicesOf, Choices, Truncated, FirstAccepted;
    ChoicesStep(k, count + 1, words, d);
    if ending.Placed? {
      var choices := ChoicesOf(k, count + 1, words).1;
      assert choices[0] == d.value && choices[1..] == ChoicesOf(k, count, d.rest).1;
      ShuffleStep(before, after, count, choices);
    }
  }

  lemma ShuffleEnd<T>(k: nat, n: nat, words: seq<nat>, s: seq<T>, ending: Ending, target: seq<T>)
    requires n <= 1 && n <= |s| && Leads(k, s, n, words, ending, target)
    ensures ending == Placed && s == target
  {
    assert s[..n] + s[n..] == s;
  }

  lemma ShuffleStep<T>(before: seq<T>, after: seq<T>, count: nat, choices: seq<nat>)
    requires 1 <= count < |before| && Choices(count + 1, choices) && choices != [] && choices[0] <= count
    requires Choices(count, choices[1..])
    requires after == Swapped(before, choices[0], count)
    ensures Shuffled(before[..count + 1], choices) + before[count + 1..]
            == Shuffled(after[..count], choices[1..]) + after[count..]
  {
    hide Shuffled, Choices;
    var s := before[..count + 1];
    var t := Swapped(s, choices[0], count);
    ShuffledUnfold(s, choices, t);
    assert t[..count] == after[..count] && t[count] == after[count];
    assert after[count..] == [after[count]] + before[count + 1..];
  }

  // --- every arrangement is equally likely --------------------------------------------------------

  /** All sequences of n words of k bits. */
  function Sequences(k: nat, n: nat): set<seq<nat>> {
    if n == 0 then {[]}
    else Prepended(Below(Pow2(k)), Sequences(k, n - 1))
  }

  function Prepended(heads: set<nat>, tails: set<seq<nat>>): set<seq<nat>> {
    set w, rest | w in heads && rest in tails :: [w] + rest
  }

  lemma PrependedMember(heads: set<nat>, tails: set<seq<nat>>, ws: seq<nat>)
    ensures ws in Prepended(heads, tails) <==> ws != [] && ws[0] in heads && ws[1..] in tails
  {
    if ws != [] && ws[0] in heads && ws[1..] in tails {
      assert ws == [ws[0]] + ws[1..];
    }
    if ws in Prepended(heads, tails) {
      var w, rest :| w in heads && rest in tails && ws == [w] + rest;
      assert ws[1..] == rest;
    }
  }

  lemma {:induction false} SequencesMember(k: nat, n: nat, ws: seq<nat>)
    ensures ws in Sequences(k, n) <==> |ws| == n && Words(k, ws)
  {
    if n > 0 {
      PrependedMember(Below(Pow2(k)), Sequences(k, n - 1), ws);
      if ws != [] {
        SequencesMember(k, n - 1, ws[1..]);
        assert ws == [ws[0]] + ws[1..];
      }
    }
  }

  lemma {:induction false} PrependedSize(heads: set<nat>, tails: set<seq<nat>>)
    ensures |Prepended(heads, tails)| == |heads| * |tails|
    decreases heads
  {
    if heads == {} {
      assert Prepended(heads, tails) == {};
    } else {
      hide Prepended;
      var w :| w in heads;
      var rest := heads - {w};
      PrependedSize(rest, tails);
      OneHead(w, tails);
      SplitHead(w, rest, tails);
      assert rest + {w} == heads && |heads| == |rest| + 1;
      OneMore(|heads|, |tails|);
    }
  }

  lemma SplitHead(w: nat, rest: set<nat>, tails: set<seq<nat>>)
    requires w !in rest
    ensures |Prepended(rest + {w}, tails)| == |Prepended(rest, tails)| + |Prepended({w}, tails)|
  {
    hide Prepended;
    var a, b, c := Prepended(rest + {w}, tails), Prepended(rest, tails), Prepended({w}, tails);
    forall ws ensures (ws in a <==> ws in b + c) && !(ws in b && ws in c) {
      PrependedMember(rest + {w}, tails, ws);
      PrependedMember(rest, tails, ws);
      PrependedMember({w}, tails, ws);
    }
    assert a == b + c && b !! c;
  }

  lemma {:induction false} OneHead(w: nat, tails: set<seq<nat>>)
    ensures |Prepended({w}, tails)| == |tails|
    decreases tails
  {
    if tails == {} {
      assert Prepended({w}, tails) == {};
    } else {
      var t :| t in tails;
      OneHead(w, tails - {t});
      forall ws ensures ws in Prepended({w}, tails) <==> ws in Prepended({w}, tails - {t}) + {[w] + t} {
        PrependedMember({w}, tails, ws);
        PrependedMember({w}, tails - {t}, ws);
        if ws != [] {
          assert ws == [ws[0]] + ws[1..];
        }
        assert ([w] + t)[1..] == t;
      }
      assert Prepended({w}, tails) == Prepended({w}, tails - {t}) + {[w] + t};
      PrependedMember({w}, tails - {t}, [w] + t);
      assert ([w] + t)[1..] == t;
    }
  }

  /** In how many ways n - 1 words make the same choices: floor(2^k / n) * ... * floor(2^k / 2). */
  function Ways(k: nat, n: nat): nat {
    if n <= 1 then 1 else Pow2(k) / n * Ways(k, n - 1)
  }

  /** The sequences of n - 1 words that make these choices, none of them rejected. */
  function Makers(k: nat, n: nat, choices: seq<nat>): set<seq<nat>> {
    set ws | ws in Sequences(k, if n == 0 then 0 else n - 1) && ChoicesOf(k, n, ws) == (Placed, choices)
  }

  /** A complete shuffle of n elements has used at least n - 1 words. */
  lemma {:induction false} WordsUsed(k: nat, n: nat, words: seq<nat>)
    requires ChoicesOf(k, n, words).0 == Placed
    ensures n <= |words| + 1
  {
    if n > 1 {
      var d := FirstAccepted(k, Truncated(k, n), words);
      DrawUsesWord(k, Truncated(k, n), words);
      WordsUsed(k, n - 1, d.rest);
    }
  }

  lemma {:induction false} DrawUsesWord(k: nat, bound: nat, words: seq<nat>)
    requires bound < Pow2(k) && FirstAccepted(k, bound, words).Drawn?
    ensures var d := FirstAccepted(k, bound, words);
            && |d.rest| < |words|
            && (|d.rest| + 1 == |words| ==>
                  d.rest == words[1..] && FirstAccepted(k, bound, [words[0]]) == Drawn(d.value, []))
  {
    hide Threshold, Pow2;
    OneWord(k, bound, words[0]);
    if words[0] < Threshold(k, bound) {
      DrawUsesWord(k, bound, words[1..]);
    }
  }

  lemma AtOnce(k: nat, bound: nat, words: seq<nat>, v: nat)
    requires 0 < bound < Pow2(k) && words != [] && FirstAccepted(k, bound, [words[0]]) == Drawn(v, [])
    ensures FirstAccepted(k, bound, words) == Drawn(v, words[1..])
  {
    OneWord(k, bound, words[0]);
  }

  lemma MakersStep(k: nat, n: nat, choices: seq<nat>, ws: seq<nat>)
    requires 1 < n < Pow2(k) && Choices(n, choices)
    ensures choices != []
    ensures ws in Makers(k, n, choices)
       <==> ws in Prepended(Favourable(k, n, choices[0]), Makers(k, n - 1, choices[1..]))
  {
    hide FirstAccepted, Truncated, Sequences, Words, Pow2, Prepended;
    NothingTruncated(k, n);
    PrependedMember(Favourable(k, n, choices[0]), Makers(k, n - 1, choices[1..]), ws);
    SequencesMember(k, n - 1, ws);
    if ws != [] {
      SequencesMember(k, n - 2, ws[1..]);
      WordsTail(k, ws);
      if ws in Makers(k, n, choices) {
        MakerHead(k, n, choices, ws);
      }
      if ws[0] in Favourable(k, n, choices[0]) && ws[1..] in Makers(k, n - 1, choices[1..]) {
        AtOnce(k, n, ws, choices[0]);
        ChoicesStep(k, n, ws, FirstAccepted(k, n, ws));
        assert choices == [choices[0]] + choices[1..];
      }
    }
  }

  lemma WordsTail(k: nat, ws: seq<nat>)
    requires ws != []
    ensures Words(k, ws) <==> ws[0] < Pow2(k) && Words(k, ws[1..])
  {
    assert ws == [ws[0]] + ws[1..];
  }

  lemma MakerHead(k: nat, n: nat, choices: seq<nat>, ws: seq<nat>)
    requires 1 < n < Pow2(k) && Choices(n, choices) && |ws| == n - 1 && ChoicesOf(k, n, ws) == (Placed, choices)
    ensures FirstAccepted(k, n, [ws[0]]) == Drawn(choices[0], [])
    ensures ChoicesOf(k, n - 1, ws[1..]) == (Placed, choices[1..])
  {
    hide FirstAccepted, Truncated, Pow2;
    NothingTruncated(k, n);
    var d := FirstAccepted(k, n, ws);
    ChoicesStep(k, n, ws, d);
    WordsUsed(k, n - 1, d.rest);
    DrawUsesWord(k, n, ws);
    assert choices[1..] == ChoicesOf(k, n - 1, d.rest).1;
  }

  lemma {:induction false} MakersCount(k: nat, n: nat, choices: seq<nat>)
    requires n < Pow2(k) && Choices(n, choices)
    ensures |Makers(k, n, choices)| == Ways(k, n)
  {
    hide Makers, Favourable, Pow2, Prepended;
    if n <= 1 {
      OnlyMaker(k, n);
    } else {
      forall ws ensures ws in Makers(k, n, choices)
                   <==> ws in Prepended(Favourable(k, n, choices[0]), Makers(k, n - 1, choices[1..]))
      {
        MakersStep(k, n, choices, ws);
      }
      assert Makers(k, n, choices) == Prepended(Favourable(k, n, choices[0]), Makers(k, n - 1, choices[1..]));
      PrependedSize(Favourable(k, n, choices[0]), Makers(k, n - 1, choices[1..]));
      MakersCount(k, n - 1, choices[1..]);
      DrawsAreUniform(k, n, choices[0]);
    }
  }

  lemma OnlyMaker(k: nat, n: nat)
    requires n <= 1
    ensures |Makers(k, n, [])| == 1
  {
    assert Sequences(k, 0) == {[]};
    hide Sequences;
    assert ChoicesOf(k, n, []) == (Placed, []);
    forall ws ensures ws in Makers(k, n, []) <==> ws in {[]} {
    }
    assert Makers(k, n, []) == {[]};
  }

  /** The sequences of words, one per draw, that put s in the order p. */
  function Shufflers<T(==)>(k: nat, s: seq<T>, p: seq<T>): set<seq<nat>> {
    set ws | ws in Sequences(k, if s == [] then 0 else |s| - 1)
             && ChoicesOf(k, |s|, ws).0 == Placed && Shuffled(s, ChoicesOf(k, |s|, ws).1) == p
  }

  /** Every arrangement of fewer than 2^k distinct elements comes from the same number of word sequences. */
  lemma ShuffleIsUniform<T>(k: nat, s: seq<T>, p: seq<T>)
    requires Distinct(s) && |s| < Pow2(k) && Rearranged(p, s)
    ensures |Shufflers(k, s, p)| == Ways(k, |s|)
  {
    hide ChoicesOf, Shuffled, Sequences, Ways, Distinct, Rearranged, Pow2;
    var choices := ShuffledSurjective(s, p);
    forall ws ensures ws in Shufflers(k, s, p) <==> ws in Makers(k, |s|, choices) {
      var c := ChoicesOf(k, |s|, ws);
      if c.0 == Placed && Shuffled(s, c.1) == p {
        ShuffledInjective(s, c.1, choices);
      }
    }
    assert Shufflers(k, s, p) == Makers(k, |s|, choices);
    MakersCount(k, |s|, choices);
  }
}
