/** Decimal printing of built-in integers by fixed-point reciprocals: the number is multiplied once by
    a rounded power of ten over a power of two, and then pairs of digits appear in the integer part
    each time the fraction is multiplied by 100. */
module Itoa {
  import opened Arith
  import opened Decimal

  const WORD32: nat := 0x1_0000_0000
  const WORD64: nat := 0x1_0000_0000_0000_0000

  // --- fixed point -------------------------------------------------------------------------------

  /** f, read in units of 1/one, is r/h up to an error below one unit of the last digit:
      r <= f/one * h < r + 1. */
  predicate Represents(f: nat, one: nat, h: nat, r: nat) {
    r * one <= f * h < (r + 1) * one
  }

  /** The integer part is exactly r / h, and the fraction still represents r % h. */
  lemma Extract(f: nat, one: nat, h: nat, r: nat)
    requires 0 < one && 0 < h && Represents(f, one, h, r)
    ensures f / one == r / h
    ensures Represents(f % one, one, h, r % h)
  {
    var t, g := f / one, f % one;
    assert f == t * one + g;
    var w := t * h;
    ExtractBounds(f, one, h, r, t, g, w);
    DivModUnique(r, h, t, r - w);
  }

  lemma ExtractBounds(f: nat, one: nat, h: nat, r: nat, t: int, g: int, w: int)
    requires 0 < one && 0 < h && Represents(f, one, h, r)
    requires f == t * one + g && 0 <= g < one && w == t * h
    ensures w <= r < w + h
    ensures (r - w) * one <= g * h < (r - w + 1) * one
  {
    assert f * h == w * one + g * h by {
      assert (t * one + g) * h == t * one * h + g * h;
      assert t * one * h == t * h * one;
    }
    assert (r - w) * one == r * one - w * one && (r - w + 1) * one == (r + 1) * one - w * one;
    MulMonotonic(0, g, h);
    MulMonotonic(g, one - 1, h);
    if r < w {
      MulMonotonic(r - w + 1, 0, one);
    }
    if r >= w + h {
      MulMonotonic(h, r - w, one);
    }
  }

  /** Multiplying the fraction by 100 moves on to the next pair of digits. */
  lemma Rescale(g: nat, one: nat, h: nat, r: nat)
    requires Represents(g, one, 100 * h, r)
    ensures Represents(g * 100, one, h, r)
  {
    assert g * 100 * h == g * (100 * h);
  }

  // --- the buffer ----------------------------------------------------------------------------------

  /** The text stands at `from`; nothing else changed, except for `slack` characters right after it. */
  predicate Written(before: string, after: string, from: nat, text: string, slack: nat) {
    && |after| == |before| && from + |text| + slack <= |after|
    && after[..from] == before[..from]
    && after[from..from + |text|] == text
    && after[from + |text| + slack..] == before[from + |text| + slack..]
  }

  function Overwrite(s: string, p: nat, t: string): (r: string)
    requires p + |t| <= |s|
    ensures |r| == |s|
  {
    s[..p] + t + s[p + |t|..]
  }

  lemma WrittenMore(before: string, mid: string, from: nat, text: string, slack: nat, more: string)
    requires Written(before, mid, from, text, slack) && slack <= |more|
    requires from + |text| + |more| <= |mid|
    ensures Written(before, Overwrite(mid, from + |text|, more), from, text + more, 0)
  {
    var p := from + |text|;
    var after := Overwrite(mid, p, more);
    assert after[..from] == mid[..from];
    assert after[from..p] == mid[from..p];
    assert after[from..p + |more|] == after[from..p] + after[p..p + |more|];
    assert after[p + |more|..] == mid[p + |more|..];
    assert mid[p + |more|..] == mid[p + slack..][|more| - slack..];
    assert before[p + |more|..] == before[p + slack..][|more| - slack..];
  }

  lemma WrittenConcat(before: string, mid: string, after: string, from: nat, a: string, b: string)
    requires Written(before, mid, from, a, 0) && Written(mid, after, from + |a|, b, 0)
    ensures Written(before, after, from, a + b, 0)
  {
    var p, q := from + |a|, from + |a| + |b|;
    assert after[..from] == after[..p][..from] && mid[..from] == mid[..p][..from];
    assert after[from..p] == after[..p][from..] && mid[from..p] == mid[..p][from..];
    assert after[from..q] == after[from..p] + after[p..q];
    assert mid[q..] == mid[p..][|b|..] && before[q..] == before[p..][|b|..];
  }

  /** Two characters at once. */
  method PutPair(buf: array<char>, p: int, pair: string)
    requires 0 <= p && p + 2 <= buf.Length && |pair| == 2
    modifies buf
    ensures buf[..] == Overwrite(old(buf[..]), p, pair)
  {
    buf[p], buf[p + 1] := pair[0], pair[1];
  }

  /** `digits.fd`: one digit and a NUL, or two digits. */
  function FirstPair(d: nat): (r: string)
    requires d < 100
    ensures |r| == 2
  {
    if d < 10 then [Digit(d), '\0'] else TwoDigits(d)
  }

  // --- pairs of digits -----------------------------------------------------------------------------

  /** The text up to `pos` is written and the fraction of f represents the remaining 2k digits. */
  ghost predicate Pending(before: string, after: string, from: nat, text: string, target: string, slack: nat,
                          f: nat, one: nat, k: nat, rest: nat)
    requires 0 < one
  {
    && Written(before, after, from, text, slack)
    && text + Pad(rest, 2 * k) == target && rest < Pow10(2 * k)
    && Represents(f % one, one, Pow10(2 * k), rest)
  }

  lemma Pow10Pair(k: nat)
    requires 1 <= k
    ensures Pow10(2 * k) == 100 * Pow10(2 * k - 2)
  {
  }

  /** Multiplying the fraction by 100 brings the next two digits into the integer part. */
  lemma NextDigits(f: nat, one: nat, k: nat, rest: nat)
    requires 0 < one && 1 <= k && rest < Pow10(2 * k) && Represents(f % one, one, Pow10(2 * k), rest)
    ensures var f' := f % one * 100;
            && f' / one == Upper(rest, 2 * k - 2) < 100
            && Represents(f' % one, one, Pow10(2 * k - 2), rest % Pow10(2 * k - 2))
    ensures Pad(rest, 2 * k) == TwoDigits(Upper(rest, 2 * k - 2)) + Pad(rest % Pow10(2 * k - 2), 2 * k - 2)
  {
    hide Represents, Pow10, Pad;
    var h := Pow10(2 * k - 2);
    Pow10Pair(k);
    Rescale(f % one, one, h, rest);
    Extract(f % one * 100, one, h, rest);
    UpperBelow(rest, h);
    PadSplit(rest, 2, 2 * k - 2);
    PadTwo(Upper(rest, 2 * k - 2));
  }

  lemma UpperBelow(r: nat, h: nat)
    requires 0 < h && r < 100 * h
    ensures 0 <= r / h < 100
  {
    DivNonNeg(r, h);
    var q := r / h;
    DivBounds(r, h);
    if q >= 100 {
      MulMonotonic(100, q, h);
    }
  }

  /** One stage: f2 = (f0 & mask) * 100, and the pair digits.dd[f2 >> s]. */
  method Stage(buf: array<char>, pos: int, f: nat, one: nat, ghost before: string, ghost from: nat,
               ghost text: string, ghost target: string, ghost slack: nat, ghost k: nat, ghost rest: nat)
    returns (f': nat, ghost text': string, ghost rest': nat)
    requires 0 < one <= WORD64 / 100 && 1 <= k && slack <= 2
    requires Pending(before, buf[..], from, text, target, slack, f, one, k, rest)
    requires pos == from + |text| && from + |target| <= buf.Length
    modifies buf
    ensures f' < 100 * one && |text'| == |text| + 2
    ensures Pending(before, buf[..], from, text', target, 0, f', one, k - 1, rest')
  {
    hide Represents, Pow10, Pad, Upper, Written, Overwrite;
    f' := f % one * 100 % WORD64;
    SmallMod(f % one * 100, WORD64);
    NextDigits(f, one, k, rest);
    ghost var mid := buf[..];
    PutPair(buf, pos, TwoDigits(f' / one));
    WrittenMore(before, mid, from, text, slack, TwoDigits(f' / one));
    text' := text + TwoDigits(f' / one);
    rest' := rest % Pow10(2 * k - 2);
    assert 2 * k - 2 == 2 * (k - 1);
    assert text + (TwoDigits(f' / one) + Pad(rest', 2 * k - 2)) == text' + Pad(rest', 2 * k - 2);
  }

  /** The leading one or two digits, from the table that marks single digits with a NUL. */
  method PutFirst(buf: array<char>, b: nat, f: nat, one: nat, ghost m: nat, ghost n: nat)
    returns (ghost text: string)
    requires 0 < one && 1 <= m && Pow10(2 * m) <= n < 100 * Pow10(2 * m)
    requires Represents(f, one, Pow10(2 * m), n)
    requires b + |Digits(n)| <= buf.Length
    modifies buf
    ensures |text| == if n < 10 * Pow10(2 * m) then 1 else 2
    ensures Pending(old(buf[..]), buf[..], b, text, Digits(n), 2 - |text|, f, one, m, n % Pow10(2 * m))
    ensures |Digits(n)| == |text| + 2 * m
  {
    hide Represents, Pow10, Pad, Upper, Written, Overwrite, Digits, Digit;
    ghost var h := Pow10(2 * m);
    Extract(f, one, h, n);
    UpperBelow(n, h);
    DigitsSplit(n, 2 * m);
    text := Digits(Upper(n, 2 * m));
    UpperIs(n, 2 * m);
    LeadingDigits(n, h, f / one);
    ghost var before := buf[..];
    PutPair(buf, b, FirstPair(f / one));
    FirstWritten(before, b, f / one);
  }

  lemma UpperIs(n: nat, k: nat)
    ensures Upper(n, k) == n / Pow10(k) && n % Pow10(k) < Pow10(k)
  {
  }

  lemma LeadingDigits(n: nat, h: nat, d: nat)
    requires 0 < h && h <= n && d == n / h && d < 100
    ensures 0 < d && (d < 10 <==> n < 10 * h)
    ensures |Digits(d)| == if d < 10 then 1 else 2
  {
    DivBounds(n, h);
    if d <= 0 {
      MulMonotonic(d, 0, h);
    }
    if d < 10 {
      MulMonotonic(d + 1, 10, h);
    } else {
      MulMonotonic(10, d, h);
    }
    PadTwo(d);
  }

  lemma FirstWritten(before: string, b: nat, d: nat)
    requires d < 100 && b + 2 <= |before|
    ensures |Digits(d)| <= 2
    ensures Written(before, Overwrite(before, b, FirstPair(d)), b, Digits(d), 2 - |Digits(d)|)
  {
    PadTwo(d);
    var after := Overwrite(before, b, FirstPair(d));
    assert after[b..b + |Digits(d)|] == FirstPair(d)[..|Digits(d)|];
  }

  /** When no digits are left, the whole text is there. */
  lemma AllWritten(before: string, after: string, from: nat, text: string, target: string, f: nat, one: nat, rest: nat)
    requires 0 < one && Pending(before, after, from, text, target, 0, f, one, 0, rest)
    ensures Written(before, after, from, target, 0) && text == target
  {
    assert text + "" == text;
  }

  // --- the shapes ------------------------------------------------------------------------------------
  // Each method prints a number in a range of lengths; `shrink` is what the source subtracts from the
  // position when the first pair holds a single digit.

  /** 3 or 4 digits. */
  method Write4(buf: array<char>, b: nat, n: nat, word: nat, shrink: int) returns (end: int)
    requires 100 <= n < 10000 && WORD32 <= word && shrink == (if n < 1000 then 1 else 0)
    requires b + |Digits(n)| <= buf.Length
    modifies buf
    ensures end == b + |Digits(n)| && Written(old(buf[..]), buf[..], b, Digits(n), 0)
  {
    hide Pow10, Pad, Digits, Pending, Written;
    ghost var before, target := buf[..], Digits(n);
    SmallPowersOf10();
    var one := 0x100_0000;
    var f0 := 167773 * n % word;
    SmallMod(167773 * n, word);
    ghost var text := PutFirst(buf, b, f0, one, 1, n);
    ghost var rest := n % Pow10(2);
    ghost var slack := 2 - |text|;
    var pos := b - shrink;
    var f2;
    f2, text, rest := Stage(buf, pos + 2, f0, one, before, b, text, target, slack, 1, rest);
    AllWritten(before, buf[..], b, text, target, f2, one, rest);
    end := pos + 4;
  }

  /** 5 or 6 digits. */
  method Write6(buf: array<char>, b: nat, n: nat, shrink: int) returns (end: int)
    requires 10000 <= n < 1000000 && shrink == (if n < 100000 then 1 else 0)
    requires b + |Digits(n)| <= buf.Length
    modifies buf
    ensures end == b + |Digits(n)| && Written(old(buf[..]), buf[..], b, Digits(n), 0)
  {
    hide Pow10, Pad, Digits, Pending, Written;
    ghost var before, target := buf[..], Digits(n);
    SmallPowersOf10();
    var one := WORD32;
    var f0 := 429497 * n % WORD64;
    SmallMod(429497 * n, WORD64);
    ghost var text := PutFirst(buf, b, f0, one, 2, n);
    ghost var rest := n % Pow10(4);
    ghost var slack := 2 - |text|;
    var pos := b - shrink;
    var f2, f4;
    f2, text, rest := Stage(buf, pos + 2, f0, one, before, b, text, target, slack, 2, rest);
    f4, text, rest := Stage(buf, pos + 4, f2, one, before, b, text, target, 0, 1, rest);
    AllWritten(before, buf[..], b, text, target, f4, one, rest);
    end := pos + 6;
  }

  /** 7 or 8 digits. */
  method Write8(buf: array<char>, b: nat, n: nat, shrink: int) returns (end: int)
    requires 1000000 <= n < 100000000 && shrink == (if n < 10000000 then 1 else 0)
    requires b + |Digits(n)| <= buf.Length
    modifies buf
    ensures end == b + |Digits(n)| && Written(old(buf[..]), buf[..], b, Digits(n), 0)
  {
    hide Pow10, Pad, Digits, Pending, Written;
    ghost var before, target := buf[..], Digits(n);
    SmallPowersOf10();
    var one := WORD32;
    var f0 := 281474977 * n % WORD64 / 0x1_0000;
    SmallMod(281474977 * n, WORD64);
    ghost var text := PutFirst(buf, b, f0, one, 3, n);
    ghost var rest := n % Pow10(6);
    ghost var slack := 2 - |text|;
    var pos := b - shrink;
    var f2, f4, f6;
    f2, text, rest := Stage(buf, pos + 2, f0, one, before, b, text, target, slack, 3, rest);
    f4, text, rest := Stage(buf, pos + 4, f2, one, before, b, text, target, 0, 2, rest);
    f6, text, rest := Stage(buf, pos + 6, f4, one, before, b, text, target, 0, 1, rest);
    AllWritten(before, buf[..], b, text, target, f6, one, rest);
    end := pos + 8;
  }

  /** 9 or 10 digits. */
  method Write10(buf: array<char>, b: nat, n: nat, shrink: int) returns (end: int)
    requires 100000000 <= n < WORD32 && shrink == (if n < 1000000000 then 1 else 0)
    requires b + |Digits(n)| <= buf.Length
    modifies buf
    ensures end == b + |Digits(n)| && Written(old(buf[..]), buf[..], b, Digits(n), 0)
  {
    hide Pow10, Pad, Digits, Pending, Written;
    ghost var before, target := buf[..], Digits(n);
    SmallPowersOf10();
    var one := 0x200_0000_0000_0000;
    var f0 := 1441151881 * n % WORD64;
    SmallMod(1441151881 * n, WORD64);
    ghost var text := PutFirst(buf, b, f0, one, 4, n);
    ghost var rest := n % Pow10(8);
    ghost var slack := 2 - |text|;
    var pos := b - shrink;
    var f2, f4, f6, f8;
    f2, text, rest := Stage(buf, pos + 2, f0, one, before, b, text, target, slack, 4, rest);
    f4, text, rest := Stage(buf, pos + 4, f2, one, before, b, text, target, 0, 3, rest);
    f6, text, rest := Stage(buf, pos + 6, f4, one, before, b, text, target, 0, 2, rest);
    f8, text, rest := Stage(buf, pos + 8, f6, one, before, b, text, target, 0, 1, rest);
    AllWritten(before, buf[..], b, text, target, f8, one, rest);
    end := pos + 10;
  }

  /** Exactly 8 digits, zeros included. */
  method WriteAll8(buf: array<char>, b: nat, z: nat) returns (end: int)
    requires z < 100000000 && b + 8 <= buf.Length
    modifies buf
    ensures end == b + 8 && Written(old(buf[..]), buf[..], b, Pad(z, 8), 0)
  {
    hide Pow10, Pad, Digits, Pending, Written;
    ghost var before, target := buf[..], Pad(z, 8);
    SmallPowersOf10();
    var one := WORD32;
    var f0 := 281474977 * z % WORD64 / 0x1_0000 + 1;
    SmallMod(281474977 * z, WORD64);
    ghost var text, rest := PutFixed(buf, b, f0, one, z);
    var f2, f4, f6;
    f2, text, rest := Stage(buf, b + 2, f0, one, before, b, text, target, 0, 3, rest);
    f4, text, rest := Stage(buf, b + 4, f2, one, before, b, text, target, 0, 2, rest);
    f6, text, rest := Stage(buf, b + 6, f4, one, before, b, text, target, 0, 1, rest);
    AllWritten(before, buf[..], b, text, target, f6, one, rest);
    end := b + 8;
  }

  /** The first two of exactly 8 digits. */
  method PutFixed(buf: array<char>, b: nat, f: nat, one: nat, ghost z: nat)
    returns (ghost text: string, ghost rest: nat)
    requires 0 < one && z < 100000000 && b + 8 <= buf.Length
    requires Represents(f, one, Pow10(6), z)
    modifies buf
    ensures Pending(old(buf[..]), buf[..], b, text, Pad(z, 8), 0, f, one, 3, rest)
    ensures |text| == 2
  {
    hide Represents, Pow10, Pad, Upper, Overwrite, Digit;
    SmallPowersOf10();
    Extract(f, one, Pow10(6), z);
    UpperBelow(z, Pow10(6));
    UpperIs(z, 6);
    PadSplit(z, 2, 6);
    text, rest := TwoDigits(Upper(z, 6)), z % Pow10(6);
    PadTwo(Upper(z, 6));
    ghost var before := buf[..];
    PutPair(buf, b, TwoDigits(f / one));
    WrittenMore(before, before, b, "", 0, TwoDigits(f / one));
    assert b + |""| == b && "" + text == text;
  }

  // --- to_text_from_integer ----------------------------------------------------------------------------

  /** Values of a built-in integer type of q bytes. */
  predicate OfType(q: nat, signed: bool, i: int) {
    q in {1, 2, 4, 8} &&
    var range := if q == 1 then 0x100 else if q == 2 then 0x1_0000 else if q == 4 then WORD32 else WORD64;
    if signed then 0 - range / 2 <= i < range / 2 else 0 <= i < range
  }

  /** The ranges of the eight built-in types. */
  lemma BuiltInTypes(i: int)
    ensures OfType(1, true, i) <==> -128 <= i <= 127
    ensures OfType(2, true, i) <==> -32768 <= i <= 32767
    ensures OfType(4, true, i) <==> -2147483648 <= i <= 2147483647
    ensures OfType(8, true, i) <==> -9223372036854775808 <= i <= 9223372036854775807
    ensures OfType(1, false, i) <==> 0 <= i <= 255
    ensures OfType(2, false, i) <==> 0 <= i <= 65535
    ensures OfType(4, false, i) <==> 0 <= i <= 4294967295
    ensures OfType(8, false, i) <==> 0 <= i <= 18446744073709551615
  {
  }

  /** `outOneDigit`, `outTwoDigits` */
  method WriteUpTo2(buf: array<char>, b: nat, n: nat) returns (end: int)
    requires n < 100 && b + |Digits(n)| <= buf.Length
    modifies buf
    ensures end == b + |Digits(n)| && Written(old(buf[..]), buf[..], b, Digits(n), 0)
  {
    hide Digits;
    PadTwo(n);
    ghost var before := buf[..];
    if n < 10 {
      buf[b] := Digit(n);
      assert buf[..] == Overwrite(before, b, Digits(n));
      end := b + 1;
    } else {
      PutPair(buf, b, TwoDigits(n));
      end := b + 2;
    }
    WrittenMore(before, before, b, "", 0, Digits(n));
    assert b + |""| == b && "" + Digits(n) == Digits(n);
  }

  /** Up to ten digits: everything that fits 32 bits. */
  method WriteUInt32(buf: array<char>, b: nat, n: nat, q: nat) returns (end: int)
    requires n < WORD32 && q in {1, 2, 4, 8} && (q == 1 ==> n < 0x100) && (q == 2 ==> n < 0x1_0000)
    requires b + |Digits(n)| <= buf.Length
    modifies buf
    ensures end == b + |Digits(n)| && Written(old(buf[..]), buf[..], b, Digits(n), 0)
  {
    hide Digits, Written;
    var word := if q == 8 then WORD64 else WORD32;
    if n < 100 {
      end := WriteUpTo2(buf, b, n);
    } else if n < 1000000 {
      if q == 1 || n < 10000 {
        end := Write4(buf, b, n, word, if q == 1 then 1 else if n < 1000 then 1 else 0);
      } else {
        end := Write6(buf, b, n, if q == 2 then 1 else if n < 100000 then 1 else 0);
      }
    } else if n < 100000000 {
      end := Write8(buf, b, n, if n < 10000000 then 1 else 0);
    } else {
      end := Write10(buf, b, n, if n < 1000000000 then 1 else 0);
    }
  }

  /** Digits of a number that is cut in front of its last eight. */
  lemma CutEight(n: nat)
    requires n >= 100000000
    ensures Digits(n) == Digits(n / 100000000) + Pad(n % 100000000, 8)
  {
    SmallPowersOf10();
    DigitsSplit(n, 8);
  }

  /** The leading part of a number above 32 bits: u is n / 10^8, at least 42. */
  method WriteHead(buf: array<char>, b: nat, u: nat) returns (end: int)
    requires 10 <= u < WORD64 / 100000000 + 1 && b + |Digits(u)| <= buf.Length
    modifies buf
    ensures end == b + |Digits(u)| && Written(old(buf[..]), buf[..], b, Digits(u), 0)
  {
    hide Digits, Written, Pad;
    if u < 100 {
      PadTwo(u);
      end := WriteUpTo2(buf, b, u);
    } else if u < 1000000 {
      if u < 10000 {
        end := Write4(buf, b, u, WORD64, if u < 1000 then 1 else 0);
      } else {
        end := Write6(buf, b, u, if u < 100000 then 1 else 0);
      }
    } else if u < 100000000 {
      end := Write8(buf, b, u, if u < 10000000 then 1 else 0);
    } else if u < WORD32 {
      end := Write10(buf, b, u, if u < 1000000000 then 1 else 0);
    } else {
      ghost var before := buf[..];
      var y, v := u % 100000000, u / 100000000;
      CutEight(u);
      if v < 100 {
        PadTwo(v);
        end := WriteUpTo2(buf, b, v);
      } else {
        end := Write4(buf, b, v, WORD64, if v < 1000 then 1 else 0);
      }
      ghost var mid := buf[..];
      end := WriteAll8(buf, end, y);
      WrittenConcat(before, mid, buf[..], b, Digits(v), Pad(y, 8));
    }
  }

  /** The unsigned part of `to_text_from_integer`. */
  method WriteUnsigned(buf: array<char>, b: nat, n: nat, q: nat) returns (end: int)
    requires n < WORD64 && q in {1, 2, 4, 8}
    requires (q == 1 ==> n < 0x100) && (q == 2 ==> n < 0x1_0000) && (q == 4 ==> n < WORD32)
    requires b + |Digits(n)| <= buf.Length
    modifies buf
    ensures end == b + |Digits(n)| && Written(old(buf[..]), buf[..], b, Digits(n), 0)
  {
    hide Digits, Written, Pad;
    if q == 4 || n < WORD32 {
      end := WriteUInt32(buf, b, n, q);
    } else {
      ghost var before := buf[..];
      var z, u := n % 100000000, n / 100000000;
      CutEight(n);
      end := WriteHead(buf, b, u);
      ghost var mid := buf[..];
      end := WriteAll8(buf, end, z);
      WrittenConcat(before, mid, buf[..], b, Digits(u), Pad(z, 8));
    }
  }

  /** `to_text_from_integer`: writes exactly the canonical decimal text, touching nothing else. */
  method ToTextFromInteger(buf: array<char>, b: nat, q: nat, signed: bool, i: int) returns (end: int)
    requires OfType(q, signed, i) && b + |Text(i)| <= buf.Length
    modifies buf
    ensures end == b + |Text(i)| && Written(old(buf[..]), buf[..], b, Text(i), 0)
  {
    hide Digits, Written;
    if i < 0 {
      ghost var before := buf[..];
      PutMinus(buf, b);
      ghost var mid := buf[..];
      end := WriteUnsigned(buf, b + 1, 0 - i, q);
      WrittenConcat(before, mid, buf[..], b, "-", Digits(0 - i));
    } else {
      end := WriteUnsigned(buf, b, i, q);
    }
  }

  /** A leading minus sign. */
  method PutMinus(buf: array<char>, b: nat)
    requires b < buf.Length
    modifies buf
    ensures Written(old(buf[..]), buf[..], b, "-", 0)
  {
    ghost var before := buf[..];
    buf[b] := '-';
    assert buf[..] == Overwrite(before, b, "-");
    WrittenMore(before, before, b, "", 0, "-");
    assert b + |""| == b && "" + "-" == "-";
  }

  // --- 128 and 256 bits ----------------------------------------------------------------------------------

  const BLOCK: nat := 1_00_00_00_00_00_00_00_00_00

  const WORD128: nat := 0x1_0000_0000_0000_0000_0000_0000_0000_0000

  const WORD256: nat := 0x1_0000_0000_0000_0000_0000_0000_0000_0000_0000_0000_0000_0000_0000_0000_0000_0000

  /** The pairs two_values[0..k], least significant first, as text. */
  function PairsText(values: seq<nat>, k: nat): (r: string)
    requires k <= |values| && forall j :: 0 <= j < k ==> values[j] < 100
    ensures |r| == 2 * k
  {
    if k == 0 then "" else TwoDigits(values[k - 1]) + PairsText(values, k - 1)
  }

  /** The number that the pairs spell. */
  function PairsNumber(values: seq<nat>, k: nat): nat
    requires k <= |values|
  {
    if k == 0 then 0 else values[k - 1] * Pow10(2 * k - 2) + PairsNumber(values, k - 1)
  }

  /** A pair in front of w padded digits. */
  lemma PairInFront(v: nat, low: nat, w: nat, n: nat)
    requires v < 100 && low < Pow10(w) && n == v * Pow10(w) + low
    ensures n < Pow10(w + 2)
    ensures Pad(n, w + 2) == TwoDigits(v) + Pad(low, w)
  {
    hide Pad, Digit, TwoDigits;
    var h := Pow10(w);
    assert Pow10(w + 2) == 100 * h by { assert Pow10(w + 1) == 10 * h; }
    hide Pow10;
    MulMonotonic(v, 99, h);
    DivModUnique(n, h, v, low);
    UpperIs(n, w);
    PadSplit(n, 2, w);
    PadTwo(v);
  }

  /** Pairs spell their number with leading zeros. */
  lemma {:induction false} PairsSpell(values: seq<nat>, k: nat)
    requires k <= |values| && forall j :: 0 <= j < k ==> values[j] < 100
    ensures PairsNumber(values, k) < Pow10(2 * k)
    ensures PairsText(values, k) == Pad(PairsNumber(values, k), 2 * k)
  {
    hide Pad, Pow10, Digit, TwoDigits, PairsText, PairsNumber;
    if k == 0 {
      NoPairs(values);
    } else {
      PairsSpell(values, k - 1);
      PairsUnfold(values, k);
      PairInFront(values[k - 1], PairsNumber(values, k - 1), 2 * k - 2, PairsNumber(values, k));
    }
  }

  lemma NoPairs(values: seq<nat>)
    ensures PairsNumber(values, 0) == 0 < Pow10(0) && PairsText(values, 0) == "" == Pad(0, 0)
  {
  }

  lemma PairsUnfold(values: seq<nat>, k: nat)
    requires 0 < k <= |values| && forall j :: 0 <= j < k ==> values[j] < 100
    ensures PairsNumber(values, k) == values[k - 1] * Pow10(2 * k - 2) + PairsNumber(values, k - 1)
    ensures PairsText(values, k) == TwoDigits(values[k - 1]) + PairsText(values, k - 1)
  {
  }

  lemma BlockIsPow10()
    ensures Pow10(18) == BLOCK
  {
    hide Pow10;
    SmallPowersOf10();
    Pow10Add(8, 8);
    Pow10Add(16, 2);
  }

  lemma {:induction false} Pow10Add(a: nat, b: nat)
    ensures Pow10(a + b) == Pow10(a) * Pow10(b)
  {
    if a != 0 {
      Pow10Add(a - 1, b);
      assert 10 * Pow10(a - 1) * Pow10(b) == 10 * (Pow10(a - 1) * Pow10(b));
    }
  }

  /** The pairs below `pos` and the rest u spell the total. */
  ghost predicate Filling(values: seq<nat>, pos: nat, u: nat, total: nat)
    requires pos <= |values|
  {
    u * Pow10(2 * pos) + PairsNumber(values, pos) == total
  }

  lemma FillStep(before: seq<nat>, values: seq<nat>, pos: nat, u: nat, total: nat)
    requires pos < |values| == |before| && Filling(before, pos, u, total)
    requires values == before[pos := u % 100]
    ensures Filling(values, pos + 1, u / 100, total)
  {
    hide Pow10;
    PairsPrefix(before, values, pos);
    Pow10Next(2 * pos);
    SplitPair(u, Pow10(2 * pos));
  }

  lemma SplitPair(u: nat, h: nat)
    ensures u * h == u / 100 * (100 * h) + u % 100 * h
  {
    assert u == u / 100 * 100 + u % 100;
    assert (u / 100 * 100 + u % 100) * h == u / 100 * (100 * h) + u % 100 * h;
  }

  lemma FillEnd(values: seq<nat>, pos: nat, end: nat, total: nat)
    requires pos <= end <= |values| && Filling(values, pos, 0, total)
    requires forall j :: pos <= j < end ==> values[j] == 0
    ensures PairsNumber(values, end) == total
  {
    ZeroPairs(values, pos, end);
    assert 0 * Pow10(2 * pos) == 0;
  }

  /** The inner loop: the nine pairs of a remainder below 100^9 go to two_values[start..]. */
  method FillPairs(values: seq<nat>, start: nat, remainder: nat) returns (r: seq<nat>)
    requires start + 9 <= |values| && remainder < BLOCK
    requires forall j :: start <= j < |values| ==> values[j] == 0
    requires forall j :: 0 <= j < start ==> values[j] < 100
    ensures |r| == |values|
    ensures forall j :: 0 <= j < start + 9 ==> r[j] < 100
    ensures forall j :: start + 9 <= j < |r| ==> r[j] == 0
    ensures PairsNumber(r, start + 9) == remainder * Pow10(2 * start) + PairsNumber(values, start)
  {
    hide Pow10, Filling, PairsNumber, FilledTo;
    ghost var total := remainder * Pow10(2 * start) + PairsNumber(values, start);
    r := values;
    var pos, u := start, remainder;
    StartsFilling(values, start, remainder, total);
    BlockIsPow10();
    while u != 0
      invariant start <= pos <= start + 9 && |r| == |values|
      invariant FilledTo(r, pos)
      invariant 0 <= u < Pow10(18 - 2 * (pos - start))
      invariant Filling(r, pos, u, total)
    {
      FillRoom(u, 18 - 2 * (pos - start));
      FilledMore(r, pos, u % 100);
      FillStep(r, r[pos := u % 100], pos, u, total);
      r := r[pos := u % 100];
      pos := pos + 1;
      u := u / 100;
    }
    FilledAll(r, pos, start + 9);
    FillEnd(r, pos, start + 9, total);
  }

  /** Pairs below pos, zeros from there on. */
  ghost predicate FilledTo(values: seq<nat>, pos: nat) {
    && pos <= |values|
    && (forall j :: 0 <= j < pos ==> values[j] < 100)
    && (forall j :: pos <= j < |values| ==> values[j] == 0)
  }

  lemma StartsFilling(values: seq<nat>, start: nat, remainder: nat, total: nat)
    requires start <= |values| && total == remainder * Pow10(2 * start) + PairsNumber(values, start)
    requires forall j :: start <= j < |values| ==> values[j] == 0
    requires forall j :: 0 <= j < start ==> values[j] < 100
    ensures Filling(values, start, remainder, total) && FilledTo(values, start)
  {
  }

  lemma FilledMore(values: seq<nat>, pos: nat, v: nat)
    requires FilledTo(values, pos) && pos < |values| && v < 100
    ensures FilledTo(values[pos := v], pos + 1)
  {
  }

  lemma FilledAll(values: seq<nat>, pos: nat, end: nat)
    requires FilledTo(values, pos) && pos <= end <= |values|
    ensures forall j :: 0 <= j < end ==> values[j] < 100
    ensures forall j :: pos <= j < |values| ==> values[j] == 0
    ensures forall j :: end <= j < |values| ==> values[j] == 0
  {
  }

  lemma Pow10Next(k: nat)
    ensures Pow10(k + 2) == 100 * Pow10(k)
  {
  }

  /** A nonzero rest leaves room for another pair. */
  lemma FillRoom(u: nat, k: int)
    requires 0 < u && 0 <= k && u < Pow10(k) && k % 2 == 0
    ensures 2 <= k && u / 100 < Pow10(k - 2)
  {
    if k >= 2 {
      Pow10Next(k - 2);
    }
  }

  /** The number of the first k pairs depends on them only. */
  lemma {:induction false} PairsPrefix(a: seq<nat>, b: seq<nat>, k: nat)
    requires k <= |a| == |b| && forall j :: 0 <= j < k ==> a[j] == b[j]
    ensures PairsNumber(a, k) == PairsNumber(b, k)
  {
    if k != 0 {
      PairsPrefix(a, b, k - 1);
    }
  }

  lemma {:induction false} ZeroPairs(values: seq<nat>, k: nat, n: nat)
    requires k <= n <= |values| && forall j :: k <= j < n ==> values[j] == 0
    ensures PairsNumber(values, n) == PairsNumber(values, k)
  {
    if k < n {
      ZeroPairs(values, k, n - 1);
      assert 0 * Pow10(2 * n - 2) == 0;
    }
  }

  /** The last loop of the wide printers: the collected pairs, most significant first. */
  method WritePairs(buf: array<char>, p: nat, values: seq<nat>, count: nat) returns (end: int)
    requires count <= |values| && forall j :: 0 <= j < count ==> values[j] < 100
    requires p + 2 * count <= buf.Length
    modifies buf
    ensures end == p + 2 * count && Written(old(buf[..]), buf[..], p, PairsText(values, count), 0)
  {
    hide Written, Overwrite;
    ghost var before, text := buf[..], "";
    end := p;
    NothingWritten(before, p);
    var i := 0;
    while i < count
      invariant 0 <= i <= count && end == p + 2 * i && |text| == 2 * i
      invariant Written(before, buf[..], p, text, 0)
      invariant text + PairsText(values, count - i) == PairsText(values, count)
    {
      ghost var mid := buf[..];
      var two := TwoDigits(values[count - 1 - i]);
      PutPair(buf, end, two);
      WrittenMore(before, mid, p, text, 0, two);
      assert text + (two + PairsText(values, count - i - 1)) == text + two + PairsText(values, count - i - 1);
      text := text + two;
      end := end + 2;
      i := i + 1;
    }
    assert text + "" == text;
  }

  lemma NothingWritten(before: string, p: nat)
    requires p <= |before|
    ensures Written(before, before, p, "", 0)
  {
  }

  /** Cutting a number in front of its collected pairs. */
  lemma CutPairs(x0: nat, x: nat, values: seq<nat>, k: nat)
    requires k <= |values| && forall j :: 0 <= j < k ==> values[j] < 100
    requires 0 < x && Filling(values, k, x, x0)
    ensures Digits(x0) == Digits(x) + PairsText(values, k)
  {
    hide Digits, Pad, PairsNumber, PairsText, Pow10;
    PairsSpell(values, k);
    var h, low := Pow10(2 * k), PairsNumber(values, k);
    MulMonotonic(1, x, h);
    DivModUnique(x0, h, x, low);
    UpperIs(x0, 2 * k);
    DigitsSplit(x0, 2 * k);
  }

  /** One round of the outer loop: nine more pairs. */
  lemma BlockStep(values: seq<nat>, values': seq<nat>, k: nat, x: nat, x0: nat)
    requires k + 9 <= |values| == |values'| && Filling(values, k, x, x0)
    requires PairsNumber(values', k + 9) == x % BLOCK * Pow10(2 * k) + PairsNumber(values, k)
    ensures Filling(values', k + 9, x / BLOCK, x0)
  {
    hide Pow10, PairsNumber;
    BlockIsPow10();
    Pow10Add(18, 2 * k);
    SplitBlock(x, Pow10(2 * k));
  }

  lemma SplitBlock(x: nat, h: nat)
    ensures x * h == x / BLOCK * (BLOCK * h) + x % BLOCK * h
  {
    assert x == x / BLOCK * BLOCK + x % BLOCK;
    var q := x / BLOCK;
    assert q * BLOCK * h == q * (BLOCK * h);
  }

  lemma StartFilling(values: seq<nat>, x: nat)
    ensures Filling(values, 0, x, x)
  {
    assert Pow10(0) == 1;
  }

  /** `writeUIntText` for 128 bits. */
  method WriteUInt128(buf: array<char>, p: nat, value: nat) returns (end: int)
    requires value < WORD128 && p + |Digits(value)| <= buf.Length
    modifies buf
    ensures end == p + |Digits(value)| && Written(old(buf[..]), buf[..], p, Digits(value), 0)
  {
    hide Digits, Written, Filling, PairsNumber, PairsText;
    if value / WORD64 == 0 {
      end := WriteUnsigned(buf, p, value % WORD64, 8);
      return;
    }
    var x := value;
    var twoValues := seq(20, i => 0);
    var currentBlock := 0;
    StartFilling(twoValues, x);
    while x > WORD64 - 1
      invariant buf[..] == old(buf[..]) && 0 < x && |twoValues| == 20
      invariant currentBlock == 0 || currentBlock == 9 || currentBlock == 18
      invariant currentBlock == 0 ==> x < WORD128
      invariant currentBlock == 9 ==> x <= WORD128 / BLOCK
      invariant currentBlock == 18 ==> x <= WORD128 / BLOCK / BLOCK
      invariant forall j :: 0 <= j < currentBlock ==> twoValues[j] < 100
      invariant forall j :: currentBlock <= j < |twoValues| ==> twoValues[j] == 0
      invariant Filling(twoValues, currentBlock, x, value)
    {
      var remainder := x % BLOCK;
      var next := FillPairs(twoValues, currentBlock, remainder);
      BlockStep(twoValues, next, currentBlock, x, value);
      twoValues := next;
      x := x / BLOCK;
      currentBlock := currentBlock + 9;
    }
    CutPairs(value, x, twoValues, currentBlock);
    ghost var before := buf[..];
    end := WriteUnsigned(buf, p, x, 8);
    ghost var mid := buf[..];
    end := WritePairs(buf, end, twoValues, currentBlock);
    WrittenConcat(before, mid, buf[..], p, Digits(x), PairsText(twoValues, currentBlock));
  }

  /** `writeUIntText` for 256 bits. */
  method WriteUInt256(buf: array<char>, p: nat, value: nat) returns (end: int)
    requires value < WORD256 && p + |Digits(value)| <= buf.Length
    modifies buf
    ensures end == p + |Digits(value)| && Written(old(buf[..]), buf[..], p, Digits(value), 0)
  {
    hide Digits, Written, Filling, PairsNumber, PairsText;
    if value / WORD128 == 0 {
      end := WriteUInt128(buf, p, value);
      return;
    }
    var x := value;
    var twoValues := seq(39, i => 0);
    var currentPos := 0;
    StartFilling(twoValues, x);
    while x > WORD128 - 1
      invariant buf[..] == old(buf[..]) && 0 < x && |twoValues| == 39
      invariant currentPos == 0 || currentPos == 9 || currentPos == 18 || currentPos == 27
      invariant currentPos == 0 ==> x < WORD256
      invariant currentPos == 9 ==> x <= WORD256 / BLOCK
      invariant currentPos == 18 ==> x <= WORD256 / BLOCK / BLOCK
      invariant currentPos == 27 ==> x <= WORD256 / BLOCK / BLOCK / BLOCK
      invariant forall j :: 0 <= j < currentPos ==> twoValues[j] < 100
      invariant forall j :: currentPos <= j < |twoValues| ==> twoValues[j] == 0
      invariant Filling(twoValues, currentPos, x, value)
    {
      var remainder := x % BLOCK;
      var next := FillPairs(twoValues, currentPos, remainder);
      BlockStep(twoValues, next, currentPos, x, value);
      twoValues := next;
      x := x / BLOCK;
      currentPos := currentPos + 9;
    }
    CutPairs(value, x, twoValues, currentPos);
    ghost var before := buf[..];
    end := WriteUInt128(buf, p, x);
    ghost var mid := buf[..];
    end := WritePairs(buf, end, twoValues, currentPos);
    WrittenConcat(before, mid, buf[..], p, Digits(x), PairsText(twoValues, currentPos));
  }

  lemma OneMore(n: nat, high: nat, d: nat)
    requires n == high * 10 + d && d < 10 && 0 < high
    ensures Digits(n) == Digits(high) + [Digit(d)]
  {
  }

  /** Four more digits of a literal. */
  lemma FourMore(high: nat, a: nat, b: nat, c: nat, d: nat, n: nat)
    requires a < 10 && b < 10 && c < 10 && d < 10 && 0 < high
    requires n == high * 10000 + a * 1000 + b * 100 + c * 10 + d
    ensures Digits(n) == Digits(high) + [Digit(a), Digit(b), Digit(c), Digit(d)]
  {
    hide Digits, Digit;
    var n1 := high * 10 + a;
    var n2 := n1 * 10 + b;
    var n3 := n2 * 10 + c;
    OneMore(n1, high, a);
    OneMore(n2, n1, b);
    OneMore(n3, n2, c);
    OneMore(n, n3, d);
  }

  const MIN_DIGITS_128 :=
    "170" + "1411" + "8346" + "0469" + "2317" + "3168" + "7303" + "7158" + "8410" + "5728"

  lemma DigitsOfMin128()
    ensures Digits(170141183460469231731687303715884105728) == MIN_DIGITS_128
  {
    assert Digits(170) == "170";
    hide Digits;
    FourMore(170, 1, 4, 1, 1, 1701411);
    FourMore(1701411, 8, 3, 4, 6, 17014118346);
    FourMore(17014118346, 0, 4, 6, 9, 170141183460469);
    FourMore(170141183460469, 2, 3, 1, 7, 1701411834604692317);
    FourMore(1701411834604692317, 3, 1, 6, 8, 17014118346046923173168);
    FourMore(17014118346046923173168, 7, 3, 0, 3, 170141183460469231731687303);
    FourMore(170141183460469231731687303, 7, 1, 5, 8, 1701411834604692317316873037158);
    FourMore(1701411834604692317316873037158, 8, 4, 1, 0, 17014118346046923173168730371588410);
    FourMore(17014118346046923173168730371588410, 5, 7, 2, 8, 170141183460469231731687303715884105728);
  }

  const MIN_DIGITS_256 :=
    "5" + "7896" + "0446" + "1865" + "8097" + "7117" + "8549" + "2504" + "3439" + "5392" + "6634" + "9923" +
    "3282" + "0282" + "0197" + "2879" + "2003" + "9565" + "6481" + "9968"

  lemma DigitsOfMin256()
    ensures Digits(57896044618658097711785492504343953926634992332820282019728792003956564819968) == MIN_DIGITS_256
  {
    assert Digits(5) == "5";
    hide Digits;
    FourMore(5, 7, 8, 9, 6, 57896);
    FourMore(57896, 0, 4, 4, 6, 578960446);
    FourMore(578960446, 1, 8, 6, 5, 5789604461865);
    FourMore(5789604461865, 8, 0, 9, 7, 57896044618658097);
    FourMore(57896044618658097, 7, 1, 1, 7, 578960446186580977117);
    FourMore(578960446186580977117, 8, 5, 4, 9, 5789604461865809771178549);
    FourMore(5789604461865809771178549, 2, 5, 0, 4, 57896044618658097711785492504);
    FourMore(57896044618658097711785492504, 3, 4, 3, 9, 578960446186580977117854925043439);
    FourMore(578960446186580977117854925043439, 5, 3, 9, 2, 5789604461865809771178549250434395392);
    FourMore(5789604461865809771178549250434395392, 6, 6, 3, 4, 57896044618658097711785492504343953926634);
    FourMore(57896044618658097711785492504343953926634, 9, 9, 2, 3, 578960446186580977117854925043439539266349923);
    FourMore(578960446186580977117854925043439539266349923, 3, 2, 8, 2,
             5789604461865809771178549250434395392663499233282);
    FourMore(5789604461865809771178549250434395392663499233282, 0, 2, 8, 2,
             57896044618658097711785492504343953926634992332820282);
    FourMore(57896044618658097711785492504343953926634992332820282, 0, 1, 9, 7,
             578960446186580977117854925043439539266349923328202820197);
    FourMore(578960446186580977117854925043439539266349923328202820197, 2, 8, 7, 9,
             5789604461865809771178549250434395392663499233282028201972879);
    FourMore(5789604461865809771178549250434395392663499233282028201972879, 2, 0, 0, 3,
             57896044618658097711785492504343953926634992332820282019728792003);
    FourMore(57896044618658097711785492504343953926634992332820282019728792003, 9, 5, 6, 5,
             578960446186580977117854925043439539266349923328202820197287920039565);
    FourMore(578960446186580977117854925043439539266349923328202820197287920039565, 6, 4, 8, 1,
             5789604461865809771178549250434395392663499233282028201972879200395656481);
    FourMore(5789604461865809771178549250434395392663499233282028201972879200395656481, 9, 9, 6, 8,
             57896044618658097711785492504343953926634992332820282019728792003956564819968);
  }

  /** `writeSIntText`: the most negative value has no positive counterpart and is a literal. */
  method WriteSInt(buf: array<char>, p: nat, bits: nat, value: int) returns (end: int)
    requires bits == 128 || bits == 256
    requires var half := if bits == 128 then WORD128 / 2 else WORD256 / 2; 0 - half <= value < half
    requires p + |Text(value)| <= buf.Length
    modifies buf
    ensures end == p + |Text(value)| && Written(old(buf[..]), buf[..], p, Text(value), 0)
  {
    hide Digits, Written;
    var minInt := if bits == 128 then 0 - WORD128 / 2 else 0 - WORD256 / 2;
    if value == minInt {
      DigitsOfMin128();
      DigitsOfMin256();
      var res := "-" + if bits == 128 then MIN_DIGITS_128 else MIN_DIGITS_256;
      assert res == Text(value);
      end := PutText(buf, p, res);
    } else if value < 0 {
      ghost var before := buf[..];
      PutMinus(buf, p);
      ghost var mid := buf[..];
      end := WriteUInt(buf, p + 1, bits, 0 - value);
      WrittenConcat(before, mid, buf[..], p, "-", Digits(0 - value));
    } else {
      end := WriteUInt(buf, p, bits, value);
    }
  }

  /** `writeUIntText` of either width. */
  method WriteUInt(buf: array<char>, p: nat, bits: nat, value: nat) returns (end: int)
    requires bits == 128 || bits == 256
    requires value < if bits == 128 then WORD128 else WORD256
    requires p + |Digits(value)| <= buf.Length
    modifies buf
    ensures end == p + |Digits(value)| && Written(old(buf[..]), buf[..], p, Digits(value), 0)
  {
    if bits == 128 {
      end := WriteUInt128(buf, p, value);
    } else {
      end := WriteUInt256(buf, p, value);
    }
  }

  /** memcpy of a literal. */
  method PutText(buf: array<char>, p: nat, text: string) returns (end: int)
    requires p + |text| <= buf.Length
    modifies buf
    ensures end == p + |text| && Written(old(buf[..]), buf[..], p, text, 0)
  {
    ghost var before := buf[..];
    var i := 0;
    while i < |text|
      invariant 0 <= i <= |text|
      invariant buf[..p] == before[..p] && buf[p..p + i] == text[..i] && buf[p + i..] == before[p + i..]
    {
      buf[p + i] := text[i];
      i := i + 1;
    }
    end := p + |text|;
    assert text[..|text|] == text;
  }
}
