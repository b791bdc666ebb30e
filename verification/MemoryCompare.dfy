/** Comparison of byte strings in blocks of 16 (base/base/memcmpSmall.h and base/base/StringRef.h).  A byte is an
    unsigned number.  A region may be read up to 15 bytes past its end, so memory is longer than the size that
    goes with it. */
module MemoryCompare {
  import opened Arith

  function Cmp(a: nat, b: nat): int { if a < b then -1 else if a > b then 1 else 0 }

  // --- the orders, byte by byte -----------------------------------------------------------------------------

  /** Lexicographic order; a proper prefix comes first. */
  function Lex(x: seq<nat>, y: seq<nat>): int {
    if x == [] then (if y == [] then 0 else -1)
    else if y == [] then 1
    else if x[0] != y[0] then Cmp(x[0], y[0])
    else Lex(x[1..], y[1..])
  }

  function Zeros(n: nat): (r: seq<nat>)
    ensures |r| == n && forall i :: 0 <= i < n ==> r[i] == 0
  {
    seq(n, i => 0)
  }

  function Pad(x: seq<nat>, n: nat): (r: seq<nat>)
    requires |x| <= n
    ensures |r| == n && r[..|x|] == x && forall i :: |x| <= i < n ==> r[i] == 0
  {
    x + Zeros(n - |x|)
  }

  /** The order of the strings when the shorter one is filled up with zero bytes. */
  function Padded(x: seq<nat>, y: seq<nat>): int {
    Lex(Pad(x, Max(|x|, |y|)), Pad(y, Max(|x|, |y|)))
  }

  /** The first difference decides. */
  lemma {:induction false} LexDiffers(x: seq<nat>, y: seq<nat>, i: nat)
    requires i < |x| && i < |y| && x[i] != y[i] && forall k :: 0 <= k < i ==> x[k] == y[k]
    ensures Lex(x, y) == Cmp(x[i], y[i])
  {
    if i > 0 {
      LexDiffers(x[1..], y[1..], i - 1);
    }
  }

  /** Without a difference the sizes decide. */
  lemma {:induction false} LexPrefix(x: seq<nat>, y: seq<nat>)
    requires forall k :: 0 <= k < |x| && k < |y| ==> x[k] == y[k]
    ensures Lex(x, y) == Cmp(|x|, |y|)
  {
    if x != [] && y != [] {
      LexPrefix(x[1..], y[1..]);
    }
  }

  /** x and y agree before i, where x ends or has the smaller byte. */
  predicate PrecedesAt(x: seq<nat>, y: seq<nat>, i: nat) {
    i <= |x| && i < |y| && x[..i] == y[..i] && (i == |x| || x[i] < y[i])
  }

  ghost predicate Precedes(x: seq<nat>, y: seq<nat>) {
    exists i: nat :: PrecedesAt(x, y, i)
  }

  lemma PrecedesTails(x: seq<nat>, y: seq<nat>)
    requires x != [] && y != [] && x[0] == y[0]
    ensures Precedes(x, y) <==> Precedes(x[1..], y[1..])
  {
    if i: nat :| PrecedesAt(x, y, i) {
      assert i > 0 && x[1..][..i - 1] == x[..i][1..] && y[1..][..i - 1] == y[..i][1..];
      assert PrecedesAt(x[1..], y[1..], i - 1);
    }
    if i: nat :| PrecedesAt(x[1..], y[1..], i) {
      assert x[..i + 1] == [x[0]] + x[1..][..i] && y[..i + 1] == [y[0]] + y[1..][..i];
      assert PrecedesAt(x, y, i + 1);
    }
  }

  /** The order is by the first difference, a proper prefix comes first, and only equal strings are equal. */
  lemma {:induction false} LexIff(x: seq<nat>, y: seq<nat>)
    ensures Lex(x, y) == -1 <==> Precedes(x, y)
    ensures Lex(x, y) == 1 <==> Precedes(y, x)
    ensures Lex(x, y) == 0 <==> x == y
    ensures -1 <= Lex(x, y) <= 1
    decreases |x|
  {
    if x == [] || y == [] || x[0] != y[0] {
      assert PrecedesAt(x, y, 0) <==> y != [] && (x == [] || x[0] < y[0]);
      assert PrecedesAt(y, x, 0) <==> x != [] && (y == [] || y[0] < x[0]);
      assert forall i: nat :: 0 < i <= |x| && i <= |y| ==> x[..i][0] == x[0] && y[..i][0] == y[0];
    } else {
      LexIff(x[1..], y[1..]);
      PrecedesTails(x, y);
      PrecedesTails(y, x);
      assert x == [x[0]] + x[1..] && y == [y[0]] + y[1..];
    }
  }

  /** Byte i of a string that is filled up with zeros. */
  function Filled(x: seq<nat>, i: nat): nat { if i < |x| then x[i] else 0 }

  /** The zero-filled strings agree before i, where x has the smaller byte. */
  predicate FilledAt(x: seq<nat>, y: seq<nat>, i: nat) {
    Filled(x, i) < Filled(y, i) && forall k: nat :: k < i ==> Filled(x, k) == Filled(y, k)
  }

  /** The padded order is by the first difference of the zero-filled strings. */
  lemma PaddedIff(x: seq<nat>, y: seq<nat>)
    ensures Padded(x, y) == -1 <==> exists i: nat :: FilledAt(x, y, i)
    ensures Padded(x, y) == 1 <==> exists i: nat :: FilledAt(y, x, i)
  {
    hide Lex;
    var n := Max(|x|, |y|);
    LexIff(Pad(x, n), Pad(y, n));
    FilledPrecedes(x, y, n);
    FilledPrecedes(y, x, n);
  }

  lemma FilledPrecedes(x: seq<nat>, y: seq<nat>, n: nat)
    requires |x| <= n && |y| <= n
    ensures Precedes(Pad(x, n), Pad(y, n)) <==> exists i: nat :: FilledAt(x, y, i)
  {
    var a, b := Pad(x, n), Pad(y, n);
    PadBytes(x, n);
    PadBytes(y, n);
    hide Pad;
    if i: nat :| PrecedesAt(a, b, i) {
      assert forall k: nat :: k < i ==> a[k] == a[..i][k] && b[k] == b[..i][k];
      assert FilledAt(x, y, i);
    }
    if i: nat :| FilledAt(x, y, i) {
      assert i < n;
      assert a[..i] == b[..i];
      assert PrecedesAt(a, b, i);
    }
  }

  lemma PadBytes(x: seq<nat>, n: nat)
    requires |x| <= n
    ensures forall k: nat :: k < n ==> Pad(x, n)[k] == Filled(x, k)
  {
    forall k: nat | k < n ensures Pad(x, n)[k] == Filled(x, k) {
      if k < |x| {
        assert Pad(x, n)[..|x|][k] == x[k];
      }
    }
  }

  // --- the byte-wise fallback -------------------------------------------------------------------------------

  /** What the C library promises of memcmp on regions of one size: negative, zero or positive as the first
      region comes before the second, is equal to it or comes after it. */
  ghost predicate IsMemcmp(memcmp: (seq<nat>, seq<nat>) -> int) {
    forall x: seq<nat>, y: seq<nat> :: |x| == |y| ==>
      (memcmp(x, y) < 0 <==> Precedes(x, y)) && (memcmp(x, y) == 0 <==> x == y)
  }

  /** There is such a function. */
  lemma LexIsMemcmp()
    ensures IsMemcmp(Lex)
  {
    hide Lex, Precedes;
    forall x: seq<nat>, y: seq<nat> | |x| == |y|
      ensures (Lex(x, y) < 0 <==> Precedes(x, y)) && (Lex(x, y) == 0 <==> x == y)
    {
      LexIff(x, y);
    }
  }

  lemma MemcmpSign(memcmp: (seq<nat>, seq<nat>) -> int, x: seq<nat>, y: seq<nat>)
    requires IsMemcmp(memcmp) && |x| == |y|
    ensures SignOf(memcmp(x, y)) == Lex(x, y)
  {
    hide Lex, Precedes;
    LexIff(x, y);
  }

  /** memcmpSmallAllowOverflow15 without vector instructions: memcmp, then the sizes. */
  method CompareBytes(a: seq<nat>, b: seq<nat>, memcmp: (seq<nat>, seq<nat>) -> int) returns (r: int)
    requires IsMemcmp(memcmp)
    ensures SignOf(r) == Lex(a, b)
  {
    var minSize := Min(|a|, |b|);
    var res := memcmp(a[..minSize], b[..minSize]);
    MemcmpSign(memcmp, a[..minSize], b[..minSize]);
    LexOfPrefixes(a, b, minSize);
    if res != 0 {
      return res;
    }
    return Cmp(|a|, |b|);
  }

  /** memcmpSmallLikeZeroPaddedAllowOverflow15 without vector instructions: memcmp, then a loop over the rest. */
  method ComparePaddedBytes(a: seq<nat>, b: seq<nat>, memcmp: (seq<nat>, seq<nat>) -> int) returns (r: int)
    requires IsMemcmp(memcmp)
    ensures SignOf(r) == Padded(a, b)
  {
    var minSize, maxSize, longest, sizeCmp := |a|, |a|, a, 0;
    if |a| > |b| {
      minSize, maxSize, longest, sizeCmp := |b|, |a|, a, 1;
    } else if |a| < |b| {
      minSize, maxSize, longest, sizeCmp := |a|, |b|, b, -1;
    }
    var res := memcmp(a[..minSize], b[..minSize]);
    MemcmpSign(memcmp, a[..minSize], b[..minSize]);
    PaddedPrefix(a, b, minSize);
    if res != 0 {
      return res;
    }
    var i := minSize;
    while i < maxSize
      invariant minSize <= i <= maxSize && forall k :: minSize <= k < i ==> longest[k] == 0
    {
      if longest[i] != 0 {
        PaddedDiffers(a, b, minSize, i);
        return sizeCmp;
      }
      i := i + 1;
    }
    PaddedSame(a, b, minSize);
    return 0;
  }

  /** The common prefix decides if it differs; else the sizes. */
  lemma LexOfPrefixes(a: seq<nat>, b: seq<nat>, n: nat)
    requires n == Min(|a|, |b|)
    ensures Lex(a[..n], b[..n]) != 0 ==> Lex(a, b) == Lex(a[..n], b[..n])
    ensures Lex(a[..n], b[..n]) == 0 ==> a[..n] == b[..n] && Lex(a, b) == Cmp(|a|, |b|)
  {
    hide Lex, Cmp;
    LexAntisymmetric(a[..n], b[..n]);
    if Lex(a[..n], b[..n]) == 0 {
      SameBelow(a, b, n);
      LexPrefix(a, b);
    } else {
      var i := FirstUnequal(a[..n], b[..n]);
      LexDiffers(a[..n], b[..n], i);
      LexDiffers(a, b, i);
    }
  }

  lemma SameBelow(a: seq<nat>, b: seq<nat>, n: nat)
    requires n <= |a| && n <= |b| && a[..n] == b[..n]
    ensures forall k :: 0 <= k < n ==> a[k] == b[k]
  {
    forall k | 0 <= k < n ensures a[k] == b[k] {
      assert a[k] == a[..n][k];
    }
  }

  lemma {:induction false} FirstUnequal(x: seq<nat>, y: seq<nat>) returns (i: nat)
    requires |x| == |y| && x != y
    ensures i < |x| && x[i] != y[i] && forall k :: 0 <= k < i ==> x[k] == y[k]
    decreases |x|
  {
    if x[0] != y[0] {
      i := 0;
    } else {
      assert x == [x[0]] + x[1..] && y == [y[0]] + y[1..];
      var j := FirstUnequal(x[1..], y[1..]);
      i := j + 1;
    }
  }

  lemma PadAt(x: seq<nat>, n: nat, k: nat)
    requires |x| <= n && k < n
    ensures Pad(x, n)[k] == if k < |x| then x[k] else 0
  {
  }

  /** The padded order of strings whose common prefix differs. */
  lemma PaddedPrefix(a: seq<nat>, b: seq<nat>, n: nat)
    requires n == Min(|a|, |b|)
    ensures Lex(a[..n], b[..n]) != 0 ==> Padded(a, b) == Lex(a[..n], b[..n])
    ensures Lex(a[..n], b[..n]) == 0 ==> forall k :: 0 <= k < n ==> a[k] == b[k]
  {
    LexAntisymmetric(a[..n], b[..n]);
    if Lex(a[..n], b[..n]) == 0 {
      SameBelow(a, b, n);
    } else {
      var i := FirstUnequal(a[..n], b[..n]);
      LexDiffers(a[..n], b[..n], i);
      PaddedDecides(a, b, i);
    }
  }

  /** The first difference of the padded strings. */
  lemma PaddedDecides(a: seq<nat>, b: seq<nat>, i: nat)
    requires i < |a| && i < |b| && a[i] != b[i] && forall k :: 0 <= k < i ==> a[k] == b[k]
    ensures Padded(a, b) == Cmp(a[i], b[i])
  {
    var n := Max(|a|, |b|);
    forall k | 0 <= k <= i ensures Pad(a, n)[k] == a[k] && Pad(b, n)[k] == b[k] {
      PadAt(a, n, k);
      PadAt(b, n, k);
    }
    LexDiffers(Pad(a, n), Pad(b, n), i);
  }

  lemma PaddedDiffers(a: seq<nat>, b: seq<nat>, n: nat, i: nat)
    requires n == Min(|a|, |b|) && |a| != |b| && n <= i < Max(|a|, |b|)
    requires forall k :: 0 <= k < n ==> a[k] == b[k]
    requires var longest := if |a| > |b| then a else b; longest[i] != 0 && forall k :: n <= k < i ==> longest[k] == 0
    ensures Padded(a, b) == if |a| > |b| then 1 else -1
  {
    var m := Max(|a|, |b|);
    forall k | 0 <= k <= i
      ensures Pad(a, m)[k] == (if k < |a| then a[k] else 0) && Pad(b, m)[k] == (if k < |b| then b[k] else 0)
    {
      PadAt(a, m, k);
      PadAt(b, m, k);
    }
    LexDiffers(Pad(a, m), Pad(b, m), i);
  }

  lemma PaddedSame(a: seq<nat>, b: seq<nat>, n: nat)
    requires n == Min(|a|, |b|) && forall k :: 0 <= k < n ==> a[k] == b[k]
    requires var longest := if |a| > |b| then a else b; forall k :: n <= k < |longest| ==> longest[k] == 0
    ensures Padded(a, b) == 0
  {
    var m := Max(|a|, |b|);
    forall k | 0 <= k < m ensures Pad(a, m)[k] == Pad(b, m)[k] {
      PadAt(a, m, k);
      PadAt(b, m, k);
    }
    LexPrefix(Pad(a, m), Pad(b, m));
  }

  // --- blocks -----------------------------------------------------------------------------------------------

  /** The number of trailing zeros of the mask of differing bytes: the first of 16 bytes that differs, or 16. */
  function FirstDifference(x: seq<nat>, y: seq<nat>, i: nat): (r: nat)
    requires |x| == |y| == 16 && i <= 16
    ensures i <= r <= 16 && (r < 16 ==> x[r] != y[r]) && forall k :: i <= k < r ==> x[k] == y[k]
    decreases 16 - i
  {
    if i < 16 && x[i] == y[i] then FirstDifference(x, y, i + 1) else i
  }

  /** The common loop: the first difference below size, or size if there is none. */
  method FindDifference(a: seq<nat>, b: seq<nat>, size: nat) returns (r: nat)
    requires size + 15 <= |a| && size + 15 <= |b|
    ensures r <= size && (r < size ==> a[r] != b[r]) && forall k :: 0 <= k < r ==> a[k] == b[k]
  {
    var offset := 0;
    while offset < size
      invariant forall k :: 0 <= k < offset && k < size ==> a[k] == b[k]
    {
      var x, y := a[offset..offset + 16], b[offset..offset + 16];
      var first := FirstDifference(x, y, 0);
      forall k | offset <= k < offset + first ensures a[k] == b[k] {
        assert a[k] == x[k - offset] && b[k] == y[k - offset];
      }
      if first < 16 {
        offset := offset + first;
        if offset >= size {
          return size;
        }
        return offset;
      }
      offset := offset + 16;
    }
    return size;
  }

  /** memcmpSmallAllowOverflow15: lexicographic order, whatever the bytes past the ends are. */
  method Compare(a: seq<nat>, aSize: nat, b: seq<nat>, bSize: nat) returns (r: int)
    requires aSize + 15 <= |a| && bSize + 15 <= |b|
    ensures r == Lex(a[..aSize], b[..bSize])
  {
    var minSize := Min(aSize, bSize);
    var offset := FindDifference(a, b, minSize);
    if offset < minSize {
      LexDiffers(a[..aSize], b[..bSize], offset);
      return Cmp(a[offset], b[offset]);
    }
    LexPrefix(a[..aSize], b[..bSize]);
    return Cmp(aSize, bSize);
  }

  /** memcmpSmallLikeZeroPaddedAllowOverflow15: the order of the zero-padded strings. */
  method ComparePadded(a: seq<nat>, aSize: nat, b: seq<nat>, bSize: nat) returns (r: int)
    requires aSize + 15 <= |a| && bSize + 15 <= |b|
    ensures r == Padded(a[..aSize], b[..bSize])
  {
    var minSize := Min(aSize, bSize);
    ghost var x, y := a[..aSize], b[..bSize];
    var offset := FindDifference(a, b, minSize);
    if offset < minSize {
      PaddedDecides(x, y, offset);
      return Cmp(a[offset], b[offset]);
    }
    if aSize == bSize {
      PaddedSame(x, y, minSize);
      return 0;
    }
    var maxSize, longest, cmp := bSize, b, -1;
    if aSize > bSize {
      maxSize, longest, cmp := aSize, a, 1;
    }
    var tail := FindNonZero(longest, minSize, maxSize);
    if tail >= maxSize {
      PaddedSame(x, y, minSize);
      return 0;
    }
    PaddedDiffers(x, y, minSize, tail);
    return cmp;
  }

  /** The loop over the rest of the longer string. */
  method FindNonZero(longest: seq<nat>, minSize: nat, maxSize: nat) returns (r: nat)
    requires minSize <= maxSize && maxSize + 15 <= |longest|
    ensures minSize <= r <= maxSize && (r < maxSize ==> longest[r] != 0)
    ensures forall k :: minSize <= k < r ==> longest[k] == 0
  {
    var zero16 := Zeros(16);
    var offset := minSize;
    while offset < maxSize
      invariant minSize <= offset && forall k :: minSize <= k < offset && k < maxSize ==> longest[k] == 0
    {
      var x := longest[offset..offset + 16];
      var first := FirstDifference(x, zero16, 0);
      forall k | offset <= k < offset + first ensures longest[k] == 0 {
        assert longest[k] == x[k - offset] == zero16[k - offset];
      }
      if first < 16 {
        offset := offset + first;
        if offset >= maxSize {
          return maxSize;
        }
        return offset;
      }
      offset := offset + 16;
    }
    return maxSize;
  }

  /** memequalSmallAllowOverflow15. */
  method Equal(a: seq<nat>, aSize: nat, b: seq<nat>, bSize: nat) returns (r: bool)
    requires aSize + 15 <= |a| && bSize + 15 <= |b|
    ensures r <==> a[..aSize] == b[..bSize]
  {
    if aSize != bSize {
      return false;
    }
    var offset := FindDifference(a, b, aSize);
    if offset < aSize {
      assert a[..aSize][offset] != b[..bSize][offset];
    }
    return offset >= aSize;
  }

  // --- overlapping loads ------------------------------------------------------------------------------------

  /** Loads of n bytes at offset o are equal; the load must lie inside both buffers. */
  predicate SameLoad(p1: seq<nat>, p2: seq<nat>, o: nat, n: nat)
    requires o + n <= |p1| && o + n <= |p2|
  {
    p1[o..o + n] == p2[o..o + n]
  }

  lemma LoadBytes(p1: seq<nat>, p2: seq<nat>, o: nat, n: nat)
    requires o + n <= |p1| && o + n <= |p2|
    ensures SameLoad(p1, p2, o, n) <==> forall k :: o <= k < o + n ==> p1[k] == p2[k]
  {
    if SameLoad(p1, p2, o, n) {
      forall k | o <= k < o + n ensures p1[k] == p2[k] {
        assert p1[k] == p1[o..o + n][k - o];
      }
    }
  }

  /** Two loads of n bytes, from the front and from the back, cover a buffer of n to 2 n bytes. */
  method EqualByTwo(p1: seq<nat>, p2: seq<nat>, n: nat) returns (r: bool)
    requires |p1| == |p2| && n <= |p1| <= 2 * n
    ensures r <==> p1 == p2
  {
    LoadBytes(p1, p2, 0, n);
    LoadBytes(p1, p2, |p1| - n, n);
    return SameLoad(p1, p2, 0, n) && SameLoad(p1, p2, |p1| - n, n);
  }

  /** memequalWide: byte equality of buffers of the same size, with no load outside them. */
  method EqualWide(p1: seq<nat>, p2: seq<nat>) returns (r: bool)
    requires |p1| == |p2|
    ensures r <==> p1 == p2
  {
    var size := |p1|;
    if size <= 16 {
      if size >= 8 {
        r := EqualByTwo(p1, p2, 8);
        return;
      }
      if size >= 4 {
        r := EqualByTwo(p1, p2, 4);
        return;
      }
      if size >= 2 {
        r := EqualByTwo(p1, p2, 2);
        return;
      }
      if size >= 1 {
        return p1[0] == p2[0];
      }
      return true;
    }
    hide SameLoad;
    var p := 0;
    while size >= 64
      invariant p + size == |p1| && (p == 0 || p >= 64) && forall k :: 0 <= k < p ==> p1[k] == p2[k]
    {
      LoadBytes(p1, p2, p, 64);
      if SameLoad(p1, p2, p, 64) {
        p := p + 64;
        size := size - 64;
      } else {
        return false;
      }
    }
    var blocks := size / 16;
    if blocks >= 3 {
      LoadBytes(p1, p2, p + 32, 16);
      if !SameLoad(p1, p2, p + 32, 16) {
        return false;
      }
    }
    if blocks >= 2 {
      LoadBytes(p1, p2, p + 16, 16);
      if !SameLoad(p1, p2, p + 16, 16) {
        return false;
      }
    }
    if blocks >= 1 {
      LoadBytes(p1, p2, p, 16);
      if !SameLoad(p1, p2, p, 16) {
        return false;
      }
    }
    LoadBytes(p1, p2, p + size - 16, 16);
    return SameLoad(p1, p2, p + size - 16, 16);
  }

  // --- the padded order is a total preorder -----------------------------------------------------------------

  lemma {:induction false} LexAntisymmetric(x: seq<nat>, y: seq<nat>)
    ensures Lex(x, y) == 0 - Lex(y, x) && -1 <= Lex(x, y) <= 1 && (Lex(x, y) == 0 <==> x == y)
  {
    if x != [] && y != [] && x[0] == y[0] {
      LexAntisymmetric(x[1..], y[1..]);
      assert x == [x[0]] + x[1..] && y == [y[0]] + y[1..];
    }
  }

  lemma {:induction false} LexTransitive(x: seq<nat>, y: seq<nat>, z: seq<nat>)
    requires Lex(x, y) <= 0 && Lex(y, z) <= 0
    ensures Lex(x, z) <= 0
  {
    if x != [] && y != [] && z != [] && x[0] == y[0] == z[0] {
      LexTransitive(x[1..], y[1..], z[1..]);
    }
  }

  lemma {:induction false} LexAppend(x: seq<nat>, y: seq<nat>, t: seq<nat>)
    requires |x| == |y|
    ensures Lex(x + t, y + t) == Lex(x, y)
  {
    if x == [] {
      LexAntisymmetric(t, t);
      assert x + t == t && y + t == t;
    } else {
      assert (x + t)[1..] == x[1..] + t && (y + t)[1..] == y[1..] + t;
      LexAppend(x[1..], y[1..], t);
    }
  }

  /** Padding further changes nothing. */
  lemma PaddedAt(x: seq<nat>, y: seq<nat>, n: nat)
    requires |x| <= n && |y| <= n
    ensures Padded(x, y) == Lex(Pad(x, n), Pad(y, n))
  {
    var m := Max(|x|, |y|);
    assert Pad(x, n) == Pad(x, m) + Zeros(n - m);
    assert Pad(y, n) == Pad(y, m) + Zeros(n - m);
    LexAppend(Pad(x, m), Pad(y, m), Zeros(n - m));
  }

  /** Total, antisymmetric up to trailing zeros, and transitive. */
  lemma PaddedIsTotalPreorder(x: seq<nat>, y: seq<nat>, z: seq<nat>)
    ensures Padded(x, y) == 0 - Padded(y, x) && -1 <= Padded(x, y) <= 1
    ensures Padded(x, y) <= 0 && Padded(y, z) <= 0 ==> Padded(x, z) <= 0
  {
    var n := Max(Max(|x|, |y|), |z|);
    PaddedAt(x, y, n);
    PaddedAt(y, z, n);
    PaddedAt(x, z, n);
    PaddedAt(y, x, n);
    LexAntisymmetric(Pad(x, n), Pad(y, n));
    if Padded(x, y) <= 0 && Padded(y, z) <= 0 {
      LexTransitive(Pad(x, n), Pad(y, n), Pad(z, n));
    }
  }

  /** Equal exactly when the strings differ by trailing zero bytes only. */
  lemma PaddedEqual(x: seq<nat>, y: seq<nat>)
    requires |x| <= |y|
    ensures Padded(x, y) == 0 <==> y == x + Zeros(|y| - |x|)
  {
    LexAntisymmetric(Pad(x, |y|), Pad(y, |y|));
    assert Pad(y, |y|) == y;
  }
}
