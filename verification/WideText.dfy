/** Overflow checks, printing and reading of wide integers. */
module WideText {
  import opened Arith
  import opened Decimal
  import opened WideValue
  import opened WideArithmetic
  import opened WideMultiply
  import opened WideDivide

  // --- overflow checks -------------------------------------------------------------------------------

  /** numeric_limits::max() and ::min() */
  function MaxItems(signed: bool, n: nat): (r: seq<nat>)
    requires 0 < n
    ensures |r| == n && Items(r)
  {
    if signed then Repeat(BASE - 1, n - 1) + [BASE / 2 - 1] else Repeat(BASE - 1, n)
  }

  function MinItems(n: nat): (r: seq<nat>)
    requires 0 < n
    ensures |r| == n && Items(r)
  {
    Repeat(0, n - 1) + [BASE / 2]
  }

  /** The limits are the ends of the range. */
  lemma Limits(n: nat)
    requires 0 < n
    ensures Number(false, MaxItems(false, n)) == Size(n) - 1
    ensures 2 * Number(true, MaxItems(true, n)) == Size(n) - 2
    ensures 2 * Number(true, MinItems(n)) == 0 - Size(n)
  {
    hide Value, Repeat, Size;
    ValueRepeat(n);
    MaxSigned(n);
    MinSigned(n);
  }

  lemma MaxSigned(n: nat)
    requires 0 < n
    ensures 2 * Number(true, MaxItems(true, n)) == Size(n) - 2
  {
    hide Value, Repeat, Size;
    ValueRepeat(n - 1);
    TopItem(Repeat(BASE - 1, n - 1), BASE / 2 - 1);
  }

  lemma MinSigned(n: nat)
    requires 0 < n
    ensures 2 * Number(true, MinItems(n)) == 0 - Size(n)
  {
    hide Value, Repeat, Size;
    ValueRepeat(n - 1);
    TopItem(Repeat(0, n - 1), BASE / 2);
  }

  /** The value of items below a top item; Size(|low| + 1) is written out. */
  lemma TopItem(low: seq<nat>, top: nat)
    ensures Value(low + [top]) == Value(low) + Size(|low|) * top
    ensures Size(|low| + 1) == BASE * Size(|low|)
  {
    ValueConcat(low, [top]);
    SingleValue(top);
  }

  lemma LimitsFit(n: nat, y: int)
    requires 0 < n && InRange(true, n, y)
    ensures y > 0 ==> InRange(true, n, Number(true, MaxItems(true, n)) - y)
    ensures y < 0 ==> InRange(true, n, Number(true, MinItems(n)) - y)
    ensures y < 0 ==> InRange(true, n, Number(true, MaxItems(true, n)) + y)
    ensures y > 0 ==> InRange(true, n, Number(true, MinItems(n)) + y)
  {
    hide Number;
    Limits(n);
  }

  lemma ZeroItems(signed: bool, n: nat)
    requires 0 < n
    ensures Items(Repeat(0, n)) && Number(signed, Repeat(0, n)) == 0
  {
    ValueRepeat(n);
  }

  /** `addOverflow`: the wrapped sum, and whether the sum is out of range. */
  method AddOverflow(signed: bool, x: seq<nat>, y: seq<nat>) returns (overflow: bool, res: seq<nat>)
    requires Items(x) && Items(y) && |y| == |x| > 0
    ensures |res| == |x| && Items(res)
    ensures Cong(Number(signed, res), Number(signed, x) + Number(signed, y), Size(|x|))
    ensures overflow <==> !InRange(signed, |x|, Number(signed, x) + Number(signed, y))
  {
    hide Value, Number, Negative, Cong, MaxItems, MinItems, InRange, Size, Repeat;
    var n := |x|;
    res := OperatorPlus(signed, x, y);
    NumberRange(signed, x);
    NumberRange(signed, y);
    if signed {
      var zero := Repeat(0, n);
      ZeroItems(signed, n);
      LimitsFit(n, Number(signed, y));
      var positive := OperatorGreater(signed, y, zero);
      var negative := OperatorLess(signed, y, zero);
      var high := OperatorMinus(signed, MaxItems(signed, n), y);
      var low := OperatorMinus(signed, MinItems(n), y);
      var above := OperatorGreater(signed, x, high);
      var below := OperatorLess(signed, x, low);
      overflow := (positive && above) || (negative && below);
      SignedSum(n, Number(signed, x), Number(signed, y));
    } else {
      var room := OperatorMinus(false, MaxItems(false, n), y);
      UnsignedRoom(n, Number(false, y), Number(false, x));
      overflow := OperatorGreater(false, x, room);
    }
  }

  lemma UnsignedRoom(n: nat, y: int, x: int)
    requires 0 < n && InRange(false, n, y) && InRange(false, n, x)
    ensures InRange(false, n, Number(false, MaxItems(false, n)) - y)
    ensures x > Number(false, MaxItems(false, n)) - y <==> !InRange(false, n, x + y)
    ensures x < y <==> !InRange(false, n, x - y)
  {
    hide Number;
    Limits(n);
  }

  /** Comparing against the limits, shifted by one operand, decides whether the sum fits. */
  lemma SignedSum(n: nat, x: int, y: int)
    requires 0 < n && InRange(true, n, x) && InRange(true, n, y)
    ensures !InRange(true, n, x + y) <==>
            (y > 0 && x > Number(true, MaxItems(true, n)) - y) || (y < 0 && x < Number(true, MinItems(n)) - y)
    ensures !InRange(true, n, x - y) <==>
            (y < 0 && x > Number(true, MaxItems(true, n)) + y) || (y > 0 && x < Number(true, MinItems(n)) + y)
  {
    hide Number;
    Limits(n);
  }

  /** `subOverflow` */
  method SubOverflow(signed: bool, x: seq<nat>, y: seq<nat>) returns (overflow: bool, res: seq<nat>)
    requires Items(x) && Items(y) && |y| == |x| > 0
    ensures |res| == |x| && Items(res)
    ensures Cong(Number(signed, res), Number(signed, x) - Number(signed, y), Size(|x|))
    ensures overflow <==> !InRange(signed, |x|, Number(signed, x) - Number(signed, y))
  {
    hide Value, Number, Negative, Cong, MaxItems, MinItems, InRange, Size, Repeat;
    var n := |x|;
    res := OperatorMinus(signed, x, y);
    NumberRange(signed, x);
    NumberRange(signed, y);
    if signed {
      var zero := Repeat(0, n);
      ZeroItems(signed, n);
      LimitsFit(n, Number(signed, y));
      var positive := OperatorGreater(signed, y, zero);
      var negative := OperatorLess(signed, y, zero);
      var high := OperatorPlus(signed, MaxItems(signed, n), y);
      var low := OperatorPlus(signed, MinItems(n), y);
      var above := OperatorGreater(signed, x, high);
      var below := OperatorLess(signed, x, low);
      overflow := (negative && above) || (positive && below);
      SignedSum(n, Number(signed, x), Number(signed, y));
    } else {
      UnsignedRoom(n, Number(false, y), Number(false, x));
      overflow := OperatorLess(false, x, y);
    }
  }

  // --- printing --------------------------------------------------------------------------------------

  /** The built-in word w as a wide integer. */
  function FromWord(w: nat, n: nat): (r: seq<nat>)
    requires 0 < n && w < BASE
    ensures |r| == n && Items(r)
  {
    [w] + Repeat(0, n - 1)
  }

  lemma FromWordValue(w: nat, n: nat)
    requires 0 < n && w < BASE
    ensures Value(FromWord(w, n)) == w
  {
    MaskedZero(FromWord(w, n));
  }

  /** `to_string`: digits by repeated division by ten. */
  method ToString(signed: bool, n: seq<nat>) returns (res: string)
    requires Items(n) && n != []
    ensures res == Text(Number(signed, n))
  {
    hide Value, Size, Number, Negative, Repeat, FromWord, Digits, Abs;
    Magnitude(signed, n);
    res := "";
    var zero := IsZero(n);
    ZeroNumber(signed, n);
    if zero {
      return "0";
    }
    var neg := signed && Negative(n);
    var t := MakePositive(signed, n);
    var ten := FromWord(10, |n|);
    FromWordValue(10, |n|);
    ghost var magnitude := Value(t);
    AbsZero(Number(signed, n));
    var finished := IsZero(t);
    assert Digits(magnitude) + res == Digits(magnitude);
    while !finished
      invariant |t| == |n| && Items(t)
      invariant finished <==> Value(t) == 0
      invariant if Value(t) == 0 then res == Digits(magnitude) else Digits(magnitude) == Digits(Value(t)) + res
      decreases Value(t)
    {
      var digit := OperatorPercent(false, t, ten);
      var next := OperatorSlash(false, t, ten);
      ghost var before, v := res, Value(t);
      UnsignedNumber(t);
      UnsignedNumber(ten);
      UnsignedNumber(next.value);
      UnsignedNumber(digit.value);
      DivideByTen(v, digit.value, next.value);
      res := [Digit(digit.value[0])] + res;
      t := next.value;
      PeelDigit(v, before);
      finished := IsZero(t);
    }
    if neg {
      res := "-" + res;
    }
    TextOfMagnitude(Number(signed, n));
  }

  lemma ZeroNumber(signed: bool, n: seq<nat>)
    requires Items(n) && n != []
    ensures Value(n) == 0 <==> Number(signed, n) == 0
    ensures Text(0) == "0"
  {
    ValueBound(n);
    assert Digits(0) == [Digit(0)] == "0";
  }

  lemma DivideByTen(v: nat, digit: seq<nat>, next: seq<nat>)
    requires Items(digit) && digit != [] && Value(digit) == Remainder(v, 10) && Value(next) == Quotient(v, 10)
    ensures digit[0] == v % 10 && Value(next) == v / 10
  {
    LowItem(digit);
  }

  lemma LowItem(s: seq<nat>)
    requires Items(s) && s != [] && Value(s) < 10
    ensures s[0] == Value(s)
  {
    assert Value(s) == s[0] + BASE * Value(s[1..]);
  }

  lemma PeelDigit(v: nat, rest: string)
    requires v > 0
    ensures var d := [Digit(v % 10)] + rest;
            if v / 10 == 0 then Digits(v) + rest == d else Digits(v) + rest == Digits(v / 10) + d
  {
  }

  lemma TextOfMagnitude(x: int)
    ensures Text(x) == (if x < 0 then "-" else "") + Digits(Abs(x))
  {
  }

  // --- reading ---------------------------------------------------------------------------------------

  /** A value, or the "Invalid char" error. */
  datatype Parsed<T> = Valid(value: T) | InvalidChar

  predicate IsHex(c: char) { IsDigit(c) || 'a' <= c <= 'f' || 'A' <= c <= 'F' }

  function HexOf(c: char): nat
    requires IsHex(c)
  {
    if IsDigit(c) then DigitOf(c)
    else if 'a' <= c <= 'f' then c as nat - 'a' as nat + 10
    else c as nat - 'A' as nat + 10
  }

  predicate HasDigit(hex: bool, c: char) { if hex then IsHex(c) else IsDigit(c) }

  function DigitIn(hex: bool, c: char): (d: nat)
    requires HasDigit(hex, c)
    ensures d < 16
  {
    if hex then HexOf(c) else DigitOf(c)
  }

  /** The number spelled in the given base, if all characters are digits. */
  function ParseDigits(hex: bool, s: string): Parsed<nat> {
    if s == "" then Valid(0)
    else
      var last := s[|s| - 1];
      match ParseDigits(hex, s[..|s| - 1])
      case InvalidChar => InvalidChar
      case Valid(v) =>
        if HasDigit(hex, last) then Valid(v * (if hex then 16 else 10) + DigitIn(hex, last)) else InvalidChar
  }

  predicate IsNegativeText(signed: bool, s: string) { signed && s != "" && s[0] == '-' }

  predicate IsHexText(s: string) { |s| >= 2 && s[0] == '0' && (s[1] == 'x' || s[1] == 'X') }

  /** The number denoted by the text: an optional minus sign, an optional 0x, digits. */
  function Parse(signed: bool, s: string): Parsed<int> {
    var neg := IsNegativeText(signed, s);
    var body := if neg then s[1..] else s;
    var hex := IsHexText(body);
    match ParseDigits(hex, if hex then body[2..] else body)
    case InvalidChar => InvalidChar
    case Valid(v) => Valid(if neg then 0 - v else v)
  }

  lemma {:induction false} InvalidPrefix(hex: bool, s: string, i: nat)
    requires i < |s| && !HasDigit(hex, s[i])
    ensures ParseDigits(hex, s).InvalidChar?
    decreases |s|
  {
    if i < |s| - 1 {
      InvalidPrefix(hex, s[..|s| - 1], i);
    }
  }

  /** The digit loop of `from_str` on 256-bit integers. */
  method AccumulateDigits(hex: bool, s: string) returns (r: Parsed<seq<nat>>)
    ensures match ParseDigits(hex, s)
            case InvalidChar => r == InvalidChar
            case Valid(v) => r.Valid? && |r.value| == 4 && Items(r.value) && Value(r.value) == v % Size(4)
  {
    hide Value, Size, HasDigit, DigitIn, Repeat;
    var res := Repeat(0, 4);
    ValueRepeat(4);
    var i := 0;
    ghost var v := 0;
    EmptyParse(hex, s);
    while i < |s|
      invariant 0 <= i <= |s| && |res| == 4 && Items(res)
      invariant ParseDigits(hex, s[..i]) == Valid(v) && Value(res) == v % Size(4)
    {
      if !HasDigit(hex, s[i]) {
        InvalidPrefix(hex, s, i);
        return InvalidChar;
      }
      assert s[..i + 1][..i] == s[..i] && s[..i + 1][i] == s[i];
      var b := if hex then 16 else 10;
      ghost var d := DigitIn(hex, s[i]);
      SingleValue(b);
      SingleValue(d);
      var t := MultiplyByHalves(res, [b]);
      res := Plus(t, [DigitIn(hex, s[i])]);
      HornerStep(v, b, d, Size(4));
      v := v * b + d;
      i := i + 1;
    }
    assert s[..|s|] == s;
    return Valid(res);
  }

  lemma EmptyParse(hex: bool, s: string)
    ensures ParseDigits(hex, s[..0]) == Valid(0) && 0 % Size(4) == 0
  {
    SmallMod(0, Size(4));
  }

  lemma HornerStep(v: int, b: int, d: int, m: int)
    requires 0 < m
    ensures (v % m * b % m + d) % m == (v * b + d) % m
  {
    hide Cong;
    CongMod(v, m);
    CongRefl(b, m);
    CongMul(v % m, v, b, b, m);
    CongMod(v % m * b, m);
    CongTrans(v % m * b % m, v % m * b, v * b, m);
    CongRefl(d, m);
    CongAdd(v % m * b % m, v * b, d, d, m);
    CongEqual(v % m * b % m + d, v * b + d, m);
  }

  lemma CongEqual(x: int, y: int, m: int)
    requires 0 < m && Cong(x, y, m)
    ensures x % m == y % m
  {
  }

  /** `from_str` for 256-bit integers. */
  method FromStr(signed: bool, c: string) returns (r: Parsed<seq<nat>>)
    ensures match Parse(signed, c)
            case InvalidChar => r == InvalidChar
            case Valid(x) =>
              && r.Valid? && |r.value| == 4 && Items(r.value)
              && Cong(Number(signed, r.value), x, Size(4))
              && (InRange(signed, 4, x) ==> Number(signed, r.value) == x)
  {
    hide Value, Size, ParseDigits, Cong, InRange, Number;
    var body := c;
    var isNeg := IsNegativeText(signed, c);
    if isNeg {
      body := body[1..];
    }
    var hex := IsHexText(body);
    if hex {
      body := body[2..];
    }
    r := AccumulateDigits(hex, body);
    if r.Valid? {
      ghost var v: int := ParseDigits(hex, body).value;
      var res := r.value;
      if isNeg {
        res := UnaryMinus(res);
        NegateReduced(v, Size(4));
      } else {
        CongMod(v, Size(4));
      }
      r := Valid(res);
      NumberByResidue(signed, res, if isNeg then 0 - v else v);
    }
  }

  lemma NegateReduced(v: int, m: int)
    requires 0 < m
    ensures Cong((0 - v % m) % m, 0 - v, m)
  {
    CongMod(v, m);
    CongSub(0, 0, v % m, v, m);
    CongMod(0 - v % m, m);
  }

  /** Reading the decimal text of a number gives the number. */
  lemma ParseText(signed: bool, x: int)
    requires signed || 0 <= x
    ensures Parse(signed, Text(x)) == Valid(x)
  {
    var m := Abs(x);
    ParseReading(m);
    DigitsCanonical(m);
    var d := Digits(m);
    assert !IsHexText(d) by {
      if |d| >= 2 {
        assert d[1] != 'x' && d[1] != 'X';
      }
    }
    if x < 0 {
      assert Text(x)[1..] == d;
    }
  }

  lemma {:induction false} ParseReading(n: nat)
    ensures ParseDigits(false, Digits(n)) == Valid(n)
  {
    if n < 10 {
      assert Digits(n)[..0] == "";
      assert ParseDigits(false, "") == Valid(0);
    } else {
      ParseReading(n / 10);
      var s := Digits(n);
      assert s[..|s| - 1] == Digits(n / 10);
    }
  }

  // --- hexadecimal text -------------------------------------------------------------------------------

  function HexDigit(d: nat, upper: bool): char
    requires d < 16
  {
    (if upper then "0123456789ABCDEF" else "0123456789abcdef")[d]
  }

  function HexDigits(n: nat, upper: bool): string {
    if n < 16 then [HexDigit(n, upper)] else HexDigits(n / 16, upper) + [HexDigit(n % 16, upper)]
  }

  /** A hexadecimal text: an optional minus sign, 0x or 0X, and digits in either case. */
  function HexText(negative: bool, capital: bool, n: nat, upper: bool): string {
    (if negative then "-" else "") + "0" + (if capital then "X" else "x") + HexDigits(n, upper)
  }

  lemma HexDigitRead(d: nat, upper: bool)
    requires d < 16
    ensures HasDigit(true, HexDigit(d, upper)) && DigitIn(true, HexDigit(d, upper)) == d
  {
  }

  lemma {:induction false} ParseHexDigits(n: nat, upper: bool)
    ensures ParseDigits(true, HexDigits(n, upper)) == Valid(n)
  {
    hide HexDigit, HasDigit, DigitIn;
    var s := HexDigits(n, upper);
    HexDigitRead(n % 16, upper);
    if n < 16 {
      SmallMod(n, 16);
      assert s[..0] == "";
      assert ParseDigits(true, "") == Valid(0);
    } else {
      ParseHexDigits(n / 16, upper);
      assert s[..|s| - 1] == HexDigits(n / 16, upper);
    }
  }

  /** Reading a hexadecimal text gives its number. */
  lemma ParseHex(signed: bool, negative: bool, capital: bool, n: nat, upper: bool)
    requires negative ==> signed
    ensures Parse(signed, HexText(negative, capital, n, upper)) == Valid(if negative then 0 - n else n)
  {
    hide HexDigits, ParseDigits;
    ParseHexDigits(n, upper);
    var digits, s := HexDigits(n, upper), HexText(negative, capital, n, upper);
    var body := "0" + (if capital then "X" else "x") + digits;
    if negative {
      assert s == "-" + body && s[0] == '-' && s[1..] == body;
    } else {
      assert s == body && s[0] == '0';
    }
    assert IsHexText(body) && body[2..] == digits;
  }

  /** A text is rejected exactly if it has a character that is no digit of its base. */
  lemma {:induction false} RejectedIff(hex: bool, s: string)
    ensures ParseDigits(hex, s).Valid?
       <==> forall i :: 0 <= i < |s| ==> s[i] in (if hex then "0123456789abcdefABCDEF" else "0123456789")
    decreases |s|
  {
    if s != "" {
      var last := |s| - 1;
      hide HasDigit, DigitIn;
      RejectedIff(hex, s[..last]);
      DigitCharacters(hex, s[last]);
      assert forall i :: 0 <= i < last ==> s[..last][i] == s[i];
    }
  }

  lemma DigitCharacters(hex: bool, c: char)
    ensures HasDigit(hex, c) <==> c in (if hex then "0123456789abcdefABCDEF" else "0123456789")
  {
    if IsDigit(c) {
      assert "0123456789"[c as int - '0' as int] == c;
      assert "0123456789abcdefABCDEF"[c as int - '0' as int] == c;
    } else if 'a' <= c <= 'f' {
      assert "0123456789abcdefABCDEF"[10 + c as int - 'a' as int] == c;
    } else if 'A' <= c <= 'F' {
      assert "0123456789abcdefABCDEF"[16 + c as int - 'A' as int] == c;
    }
  }

  /** Printing a 256-bit integer and reading the text back gives the same items. */
  method PrintAndRead(signed: bool, n: seq<nat>) returns (r: Parsed<seq<nat>>)
    requires Items(n) && |n| == 4
    ensures r == Valid(n)
  {
    hide Value, Size, Cong, InRange, Number, Parse, Text;
    var text := ToString(signed, n);
    r := FromStr(signed, text);
    NumberRange(signed, n);
    UnsignedNumber(n);
    ParseText(signed, Number(signed, n));
    SameNumber(signed, r.value, n);
  }

  lemma UnsignedNumber(n: seq<nat>)
    ensures Number(false, n) == Value(n)
  {
  }

  lemma SameNumber(signed: bool, a: seq<nat>, b: seq<nat>)
    requires Items(a) && Items(b) && |a| == |b| > 0 && Number(signed, a) == Number(signed, b)
    ensures a == b
  {
    hide Value, Size, Cong;
    NumberRange(signed, a);
    NumberRange(signed, b);
    ValueBound(a);
    ValueBound(b);
    CongSym(Number(signed, a), Value(a), Size(|a|));
    CongTrans(Value(a), Number(signed, b), Value(b), Size(|a|));
    CongSmall(Value(a), Value(b), Size(|a|));
    ValueInjective(a, b);
  }
}
