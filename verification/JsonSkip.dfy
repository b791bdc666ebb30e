/** Stepping over one element of a JSON text (base/base/JSON.cpp).  A position is an index into the text and
    the end of the text is ptr_end; an exception is `Failure`. */
module JsonSkip {
  import opened Decimal
  import opened JsonText

  // --- where each element ends ------------------------------------------------------------------------------

  function FirstQuote(s: string, pos: nat): (q: nat)
    requires pos <= |s|
    ensures pos <= q <= |s| && (q < |s| ==> s[q] == '\"')
    decreases |s| - pos
  {
    if pos < |s| && s[pos] != '\"' then FirstQuote(s, pos + 1) else pos
  }

  /** The scan that honours escapes. */
  function SlowString(s: string, pos: nat): (r: Result<nat>)
    ensures r.Success? ==> pos < r.value <= |s|
    decreases |s| - pos
  {
    if pos >= |s| then Failure
    else if s[pos] == '\"' then Success(pos + 1)
    else if s[pos] != '\\' then SlowString(s, pos + 1)
    else if pos + 1 >= |s| then Failure
    else if s[pos + 1] != 'u' then SlowString(s, pos + 2)
    else if pos + 5 >= |s| then Failure
    else SlowString(s, pos + 6)
  }

  function StringEnd(s: string, p: nat): (r: Result<nat>)
    ensures r.Success? ==> p + 1 < r.value <= |s|
  {
    if p >= |s| || s[p] != '\"' then Failure
    else
      var q := FirstQuote(s, p + 1);
      if q < |s| && s[q - 1] != '\\' then Success(q + 1) else SlowString(s, p + 1)
  }

  function DigitsEnd(s: string, pos: nat): (r: nat)
    requires pos <= |s|
    ensures pos <= r <= |s|
    decreases |s| - pos
  {
    if pos < |s| && IsDigit(s[pos]) then DigitsEnd(s, pos + 1) else pos
  }

  /** One optional character. */
  function Past(s: string, pos: nat, first: char, second: char): (r: nat)
    requires pos <= |s|
    ensures pos <= r <= |s|
  {
    if pos < |s| && (s[pos] == first || s[pos] == second) then pos + 1 else pos
  }

  function NumberEnd(s: string, p: nat): (r: nat)
    requires p < |s|
    ensures p <= r <= |s|
    ensures s[p] == '-' || IsDigit(s[p]) ==> p < r
  {
    var whole := DigitsEnd(s, Past(s, p, '-', '-'));
    var fraction := DigitsEnd(s, Past(s, whole, '.', '.'));
    DigitsEnd(s, Past(s, Past(s, fraction, 'e', 'E'), '-', '-'))
  }

  /** JSON(pos, ptr_end, level) does not throw. */
  predicate CanOpen(s: string, pos: nat, level: nat) {
    pos < |s| && level <= MAX_DEPTH
  }

  function ElementEnd(s: string, p: nat, level: nat): (r: Result<nat>)
    requires p < |s|
    ensures r.Success? ==> p < r.value
    decreases |s| - p, 2
  {
    if s[p] == '{' then ObjectEnd(s, p, level)
    else if s[p] == '[' then ArrayEnd(s, p, level)
    else if s[p] == 't' then Success(p + 4)
    else if s[p] == 'f' then Success(p + 5)
    else if s[p] == 'n' then Success(p + 4)
    else if s[p] == '-' || IsDigit(s[p]) then Success(NumberEnd(s, p))
    else if s[p] == '\"' then
      var q := StringEnd(s, p);
      if q.Success? && q.value < |s| && s[q.value] == ':' then PairEnd(s, p, level) else q
    else Failure
  }

  function PairEnd(s: string, p: nat, level: nat): (r: Result<nat>)
    ensures r.Success? ==> p < r.value
    decreases |s| - p, 1
  {
    var q := StringEnd(s, p);
    if q.Failure? || q.value >= |s| || s[q.value] != ':' || !CanOpen(s, q.value + 1, level + 1) then Failure
    else ElementEnd(s, q.value + 1, level + 1)
  }

  function ArrayEnd(s: string, p: nat, level: nat): (r: Result<nat>)
    requires p < |s|
    ensures r.Success? ==> p < r.value
    decreases |s| - p, 1
  {
    if p + 1 >= |s| then Failure
    else if s[p + 1] == ']' then Success(p + 2)
    else ItemsEnd(s, p + 1, level)
  }

  function ItemsEnd(s: string, pos: nat, level: nat): (r: Result<nat>)
    ensures r.Success? ==> pos < r.value
    decreases |s| - pos, 3
  {
    if !CanOpen(s, pos, level + 1) then Failure
    else
      var q := ElementEnd(s, pos, level + 1);
      if q.Failure? || q.value >= |s| then Failure
      else if s[q.value] == ',' then ItemsEnd(s, q.value + 1, level)
      else if s[q.value] == ']' then Success(q.value + 1)
      else Failure
  }

  function ObjectEnd(s: string, p: nat, level: nat): (r: Result<nat>)
    requires p < |s|
    ensures r.Success? ==> p < r.value
    decreases |s| - p, 1
  {
    if p + 1 >= |s| then Failure
    else if s[p + 1] == '}' then Success(p + 2)
    else MembersEnd(s, p + 1, level)
  }

  function MembersEnd(s: string, pos: nat, level: nat): (r: Result<nat>)
    ensures r.Success? ==> pos < r.value
    decreases |s| - pos, 3
  {
    if !CanOpen(s, pos, level + 1) then Failure
    else
      var q := PairEnd(s, pos, level + 1);
      if q.Failure? || q.value >= |s| then Failure
      else if s[q.value] == ',' then MembersEnd(s, q.value + 1, level)
      else if s[q.value] == '}' then Success(q.value + 1)
      else Failure
  }

  // --- printed strings --------------------------------------------------------------------------------------

  lemma BodyStep(s: string, pos: nat, pieces: seq<Piece>)
    requires pieces != [] && At(s, pos, Body(pieces) + "\"")
    ensures At(s, pos, pieces[0].Written())
    ensures At(s, pos + |pieces[0].Written()|, Body(pieces[1..]) + "\"")
    ensures |Body(pieces)| == |pieces[0].Written()| + |Body(pieces[1..])|
  {
    hide At, Piece.Written;
    var a, rest := pieces[0].Written(), Body(pieces[1..]);
    assert Body(pieces) == a + rest;
    hide Body;
    assert a + rest + "\"" == a + (rest + "\"");
    AtConcat(s, pos, a, rest + "\"");
  }

  lemma EmptyBody(s: string, pos: nat)
    requires At(s, pos, Body([]) + "\"")
    ensures Body([]) == "" && pos < |s| && s[pos] == '\"'
  {
    assert Body([]) + "\"" == "\"";
    AtChar(s, pos, '\"');
  }

  lemma PieceScanned(s: string, pos: nat, piece: Piece)
    requires piece.Valid() && At(s, pos, piece.Written()) && pos + |piece.Written()| < |s|
    ensures SlowString(s, pos) == SlowString(s, pos + |piece.Written()|)
  {
    var w := piece.Written();
    assert s[pos] == s[pos..pos + |w|][0] == w[0];
    if !piece.Plain? {
      assert s[pos + 1] == s[pos..pos + |w|][1] == w[1];
    }
  }

  /** The escape-aware scan stops behind the closing quote. */
  lemma {:induction false} SlowStringPrinted(s: string, pos: nat, pieces: seq<Piece>)
    requires ValidString(pieces) && At(s, pos, Body(pieces) + "\"")
    ensures SlowString(s, pos) == Success(pos + |Body(pieces)| + 1)
    decreases |pieces|
  {
    hide At, Piece.Valid, Piece.Written, Body;
    if pieces == [] {
      EmptyBody(s, pos);
    } else {
      hide SlowString;
      BodyStep(s, pos, pieces);
      AtBound(s, pos + |pieces[0].Written()|, Body(pieces[1..]) + "\"");
      PieceScanned(s, pos, pieces[0]);
      SlowStringPrinted(s, pos + |pieces[0].Written()|, pieces[1..]);
    }
  }

  lemma PieceQuotes(s: string, pos: nat, piece: Piece)
    requires piece.Valid() && At(s, pos, piece.Written())
    ensures piece == Escaped('\"') ==> pos + 1 < |s| && s[pos] == '\\' && s[pos + 1] == '\"'
    ensures piece != Escaped('\"') ==> forall i :: pos <= i < pos + |piece.Written()| ==> s[i] != '\"'
  {
    var w := piece.Written();
    assert forall i :: pos <= i < pos + |w| ==> s[i] == w[i - pos];
    if piece.Unicode? {
      assert forall i :: 2 <= i < |w| ==> w[i] == piece.hex[i - 2];
    }
  }

  lemma EscapedQuote(s: string, pos: nat)
    requires pos + 1 < |s| && s[pos] == '\\' && s[pos + 1] == '\"'
    ensures FirstQuote(s, pos) == pos + 1
  {
  }

  /** The first quote either closes the string or is escaped. */
  lemma {:induction false} FirstQuotePrinted(s: string, pos: nat, pieces: seq<Piece>)
    requires 0 < pos && ValidString(pieces) && At(s, pos, Body(pieces) + "\"")
    ensures FirstQuote(s, pos) == pos + |Body(pieces)| || s[FirstQuote(s, pos) - 1] == '\\'
    decreases |pieces|
  {
    hide At, Piece.Valid, Piece.Written, Body;
    if pieces == [] {
      EmptyBody(s, pos);
    } else {
      hide FirstQuote;
      BodyStep(s, pos, pieces);
      var n := |pieces[0].Written()|;
      FirstQuotePrinted(s, pos + n, pieces[1..]);
      PieceQuotes(s, pos, pieces[0]);
      AtBound(s, pos, pieces[0].Written());
      if pieces[0] == Escaped('\"') {
        EscapedQuote(s, pos);
      } else {
        FirstQuoteSkips(s, pos, n);
      }
    }
  }

  lemma {:induction false} FirstQuoteSkips(s: string, pos: nat, n: nat)
    requires pos + n <= |s| && forall i :: pos <= i < pos + n ==> s[i] != '\"'
    ensures FirstQuote(s, pos) == FirstQuote(s, pos + n)
  {
    if n != 0 {
      FirstQuoteSkips(s, pos, n - 1);
    }
  }

  lemma QuotedSplit(s: string, p: nat, pieces: seq<Piece>)
    requires At(s, p, Quoted(pieces))
    ensures p < |s| && s[p] == '\"' && At(s, p + 1, Body(pieces) + "\"") && |Quoted(pieces)| == |Body(pieces)| + 2
  {
    hide At, Body;
    assert Quoted(pieces) == "\"" + (Body(pieces) + "\"");
    AtConcat(s, p, "\"", Body(pieces) + "\"");
    AtChar(s, p, '\"');
  }

  /** On every valid string the memchr shortcut and the scan agree, and both stop behind the closing quote. */
  lemma StringPrinted(s: string, p: nat, pieces: seq<Piece>)
    requires ValidString(pieces) && At(s, p, Quoted(pieces))
    ensures StringEnd(s, p) == SlowString(s, p + 1) == Success(p + |Quoted(pieces)|)
  {
    hide At, Quoted, Body, SlowString, FirstQuote, ValidString;
    QuotedSplit(s, p, pieces);
    SlowStringPrinted(s, p + 1, pieces);
    FirstQuotePrinted(s, p + 1, pieces);
  }

  // --- printed numbers --------------------------------------------------------------------------------------

  lemma {:induction false} DigitsPrinted(s: string, pos: nat, digits: string)
    requires AllDigits(digits) && At(s, pos, digits)
    requires pos + |digits| < |s| ==> !IsDigit(s[pos + |digits|])
    ensures DigitsEnd(s, pos) == pos + |digits|
    decreases |digits|
  {
    if digits != "" {
      AtConcat(s, pos, digits[..1], digits[1..]);
      assert digits == digits[..1] + digits[1..];
      AtChar(s, pos, digits[0]);
      assert digits[..1] == [digits[0]];
      DigitsPrinted(s, pos + 1, digits[1..]);
    }
  }

  /** No digit follows: the end of a run of digits. */
  predicate NoDigit(s: string, p: nat) { p < |s| ==> !IsDigit(s[p]) }

  lemma FirstDigit(s: string, pos: nat, digits: string)
    requires AllDigits(digits) && digits != "" && At(s, pos, digits)
    ensures pos < |s| && IsDigit(s[pos])
  {
    assert s[pos..pos + |digits|][0] == digits[0];
  }

  lemma AtBound(s: string, p: nat, t: string)
    requires At(s, p, t)
    ensures p + |t| <= |s|
  {
  }

  lemma NoDigits(s: string, p: nat)
    requires p <= |s| && NoDigit(s, p)
    ensures DigitsEnd(s, p) == p
  {
  }

  lemma WholePrinted(s: string, p: nat, n: Number)
    requires n.Valid()
    requires At(s, p, (if n.negative then "-" else "") + n.whole)
    requires NoDigit(s, p + |(if n.negative then "-" else "") + n.whole|)
    ensures DigitsEnd(s, Past(s, p, '-', '-')) == p + |(if n.negative then "-" else "") + n.whole|
  {
    var sign := if n.negative then "-" else "";
    AtConcat(s, p, sign, n.whole);
    AtChar(s, p, '-');
    FirstDigit(s, p + |sign|, n.whole);
    DigitsPrinted(s, p + |sign|, n.whole);
  }

  lemma PointNoDigit()
    ensures !IsDigit('.') && !IsDigit('+') && !IsDigit('-') && !IsDigit('e') && !IsDigit('E')
  {
  }

  lemma FractionPrinted(s: string, p: nat, n: Number)
    requires n.Valid() && At(s, p, n.Point())
    requires NoDigit(s, p + |n.Point()|) && (p + |n.Point()| < |s| ==> s[p + |n.Point()|] != '.')
    ensures DigitsEnd(s, Past(s, p, '.', '.')) == p + |n.Point()|
    ensures NoDigit(s, p)
  {
    hide At, DigitsEnd, AllDigits, IsDigit, Exponent.Valid;
    AtBound(s, p, n.Point());
    if n.fraction != "" {
      AtConcat(s, p, ".", n.fraction);
      AtChar(s, p, '.');
      PointNoDigit();
      DigitsPrinted(s, p + 1, n.fraction);
    } else {
      NoDigits(s, p);
    }
  }

  lemma SignChar(s: string, p: nat, sign: string)
    requires At(s, p, sign) && |sign| == 1
    ensures p < |s| && s[p] == sign[0]
  {
    assert s[p..p + 1][0] == s[p];
  }

  lemma ExponentSplit(s: string, p: nat, e: Exponent)
    requires e.Exponent? && e.Valid() && At(s, p, e.Written())
    ensures p < |s| && s[p] == e.mark
    ensures e.sign != "" ==> p + 1 < |s| && s[p + 1] == e.sign[0]
    ensures At(s, p + 1 + |e.sign|, e.digits)
    ensures p + 1 + |e.sign| < |s| && IsDigit(s[p + 1 + |e.sign|])
  {
    hide At, AllDigits, IsDigit;
    var head := [e.mark] + e.sign;
    AtConcat(s, p, head, e.digits);
    AtConcat(s, p, [e.mark], e.sign);
    AtChar(s, p, e.mark);
    FirstDigit(s, p + 1 + |e.sign|, e.digits);
    if e.sign != "" {
      SignChar(s, p + 1, e.sign);
    }
  }

  lemma ExponentPrinted(s: string, p: nat, e: Exponent)
    requires e.Valid() && At(s, p, e.Written()) && Ends(s, p + |e.Written()|)
    ensures DigitsEnd(s, Past(s, Past(s, p, 'e', 'E'), '-', '-'))
         == if e.Exponent? && e.sign == "+" then p + 1 else p + |e.Written()|
    ensures NoDigit(s, p) && (p < |s| ==> s[p] != '.')
    ensures e.Exponent? && e.sign == "+" ==> p + 1 < |s| && s[p + 1] == '+'
  {
    hide At, DigitsEnd, AllDigits, IsDigit;
    PointNoDigit();
    AtBound(s, p, e.Written());
    if e.NoExponent? {
      NoDigits(s, p);
    } else {
      ExponentSplit(s, p, e);
      if e.sign == "+" {
        NoDigits(s, p + 1);
      } else {
        DigitsPrinted(s, p + 1 + |e.sign|, e.digits);
      }
    }
  }

  /** A number is stepped over whole, unless its exponent has a plus sign, where the scan stops. */
  lemma NumberPrinted(s: string, p: nat, n: Number)
    requires n.Valid() && At(s, p, n.Written()) && Ends(s, p + |n.Written()|)
    ensures p < |s| && (s[p] == '-' || IsDigit(s[p]))
    ensures NumberEnd(s, p) == if n.HasPlus() then p + |n.Mantissa()| + 1 else p + |n.Written()|
    ensures n.HasPlus() ==> NumberEnd(s, p) < |s| && s[NumberEnd(s, p)] == '+'
  {
    hide At, AllDigits, DigitsEnd, Past, Exponent.Valid, Exponent.Written, Number.Point, IsDigit;
    var sign := if n.negative then "-" else "";
    var head := sign + n.whole;
    assert n.Mantissa() == head + n.Point();
    AtConcat(s, p, n.Mantissa(), n.exponent.Written());
    AtConcat(s, p, head, n.Point());
    AtConcat(s, p, sign, n.whole);
    AtChar(s, p, '-');
    FirstDigit(s, p + |sign|, n.whole);
    ExponentPrinted(s, p + |n.Mantissa()|, n.exponent);
    FractionPrinted(s, p + |head|, n);
    WholePrinted(s, p, n);
  }

  // --- printed values ---------------------------------------------------------------------------------------

  /** What stepping over a printed value at p gives: its end, the plus sign of a bare number, or an error. */
  function Outcome(v: Value, p: nat, level: nat): Result<nat> {
    if v.Num? && v.number.HasPlus() then Success(p + |v.number.Mantissa()| + 1)
    else if Readable(v, level) then Success(p + |Print(v)|)
    else Failure
  }

  predicate ReadableItems(items: seq<Value>, level: nat) {
    !SomeItemHasPlus(items) && level + DepthOfItems(items) <= MAX_DEPTH
  }

  predicate ReadableMembers(members: seq<Member>, level: nat) {
    !SomeMemberHasPlus(members) && level + DepthOfMembers(members) <= MAX_DEPTH
  }

  lemma LiteralPrinted(s: string, p: nat, level: nat, v: Value)
    requires v.Null? || v.Bool?
    requires At(s, p, Print(v)) && level <= MAX_DEPTH
    ensures p < |s| && ElementEnd(s, p, level) == Outcome(v, p, level)
  {
    assert s[p] == s[p..p + |Print(v)|][0];
  }

  lemma ContainerSplit(s: string, p: nat, open: string, middle: string, close: string)
    requires |open| == |close| == 1 && At(s, p, open + middle + close)
    ensures p + 1 + |middle| < |s| && s[p] == open[0] && s[p + 1 + |middle|] == close[0]
    ensures At(s, p + 1, middle)
  {
    AtConcat(s, p, open + middle, close);
    AtConcat(s, p, open, middle);
    AtChar(s, p, open[0]);
    AtChar(s, p + 1 + |middle|, close[0]);
    assert open == [open[0]] && close == [close[0]];
  }

  lemma CommaSplit(s: string, p: nat, a: string, b: string)
    requires At(s, p, a + "," + b)
    ensures At(s, p, a) && At(s, p + |a|, ",") && At(s, p + |a| + 1, b)
  {
    hide At;
    AtConcat(s, p, a + ",", b);
    AtConcat(s, p, a, ",");
  }

  lemma ItemsSplit(s: string, p: nat, items: seq<Value>)
    requires items != [] && At(s, p, PrintItems(items))
    ensures At(s, p, Print(items[0]))
    ensures |items| > 1 ==>
              At(s, p + |Print(items[0])|, ",") && At(s, p + |Print(items[0])| + 1, PrintItems(items[1..]))
  {
    hide At;
    if |items| > 1 {
      CommaSplit(s, p, Print(items[0]), PrintItems(items[1..]));
    }
  }

  lemma MembersSplit(s: string, p: nat, members: seq<Member>)
    requires members != [] && At(s, p, PrintMembers(members))
    ensures At(s, p, PrintMember(members[0]))
    ensures |members| > 1 ==>
              && At(s, p + |PrintMember(members[0])|, ",")
              && At(s, p + |PrintMember(members[0])| + 1, PrintMembers(members[1..]))
  {
    hide At;
    if |members| > 1 {
      CommaSplit(s, p, PrintMember(members[0]), PrintMembers(members[1..]));
    }
  }

  /** The first character of a printed value opens an element: it is not a closing bracket. */
  lemma FirstChar(s: string, p: nat, v: Value)
    requires Valid(v) && At(s, p, Print(v))
    ensures p < |s| && s[p] != ']' && s[p] != '}'
    ensures s[p] == '\"' <==> v.Str?
  {
    var t := Print(v);
    if v.Num? {
      var n := v.number;
      assert t == (if n.negative then "-" else n.whole[..1]) + t[1..];
    }
    assert s[p] == s[p..p + |t|][0] == t[0];
  }

  lemma NumberCase(s: string, p: nat, level: nat, v: Value)
    requires v.Num? && Valid(v) && At(s, p, Print(v)) && Ends(s, p + |Print(v)|) && level <= MAX_DEPTH
    ensures p < |s| && ElementEnd(s, p, level) == Outcome(v, p, level)
    ensures v.number.HasPlus() ==>
              NumberEnd(s, p) < |s| && s[NumberEnd(s, p)] == '+' && Outcome(v, p, level) == Success(NumberEnd(s, p))
  {
    hide At, NumberEnd, Number.Written, Number.Mantissa, Number.Valid;
    NumberPrinted(s, p, v.number);
  }

  lemma StringCase(s: string, p: nat, level: nat, v: Value)
    requires v.Str? && Valid(v) && At(s, p, Print(v)) && Ends(s, p + |Print(v)|) && level <= MAX_DEPTH
    ensures p < |s| && ElementEnd(s, p, level) == Outcome(v, p, level)
  {
    hide At, Quoted, SlowString;
    StringPrinted(s, p, v.pieces);
  }

  lemma ArrayOpens(s: string, p: nat, v: Value)
    requires v.Array? && Valid(v) && At(s, p, Print(v)) && v.items != []
    ensures forall i :: 0 <= i < |v.items| ==> Valid(v.items[i])
    ensures p + 1 < |s| && s[p] == '[' && s[p + 1] != ']'
    ensures At(s, p + 1, PrintItems(v.items)) && At(s, p + 1 + |PrintItems(v.items)|, "]")
  {
    hide At, PrintItems;
    ContainerSplit(s, p, "[", PrintItems(v.items), "]");
    AtChar(s, p + 1 + |PrintItems(v.items)|, ']');
    ItemsSplit(s, p + 1, v.items);
    FirstChar(s, p + 1, v.items[0]);
  }

  lemma ArrayCase(s: string, p: nat, level: nat, v: Value)
    requires v.Array? && Valid(v) && At(s, p, Print(v)) && level <= MAX_DEPTH
    requires v.items != [] ==>
               ItemsEnd(s, p + 1, level)
               == if ReadableItems(v.items, level + 1) then Success(p + |PrintItems(v.items)| + 2) else Failure
    ensures p < |s| && ElementEnd(s, p, level) == Outcome(v, p, level)
  {
    hide At, ItemsEnd, ObjectEnd, PairEnd, StringEnd, NumberEnd;
    if v.items == [] {
      assert Print(v) == "[" + "" + "]";
      ContainerSplit(s, p, "[", "", "]");
    } else {
      hide PrintItems;
      ArrayOpens(s, p, v);
    }
  }

  lemma ObjectOpens(s: string, p: nat, v: Value)
    requires v.Object? && Valid(v) && At(s, p, Print(v)) && v.members != []
    ensures forall i :: 0 <= i < |v.members| ==> ValidString(v.members[i].name) && Valid(v.members[i].value)
    ensures p < |s| && s[p] == '{'
    ensures At(s, p + 1, PrintMembers(v.members)) && At(s, p + 1 + |PrintMembers(v.members)|, "}")
  {
    hide At, PrintMembers, ValidString;
    ContainerSplit(s, p, "{", PrintMembers(v.members), "}");
    AtChar(s, p + 1 + |PrintMembers(v.members)|, '}');
  }

  lemma ObjectCase(s: string, p: nat, level: nat, v: Value)
    requires v.Object? && Valid(v) && At(s, p, Print(v)) && level <= MAX_DEPTH
    requires v.members != [] ==> p + 1 < |s| && s[p + 1] == '\"'
    requires v.members != [] ==>
               MembersEnd(s, p + 1, level)
               == if ReadableMembers(v.members, level + 2) then Success(p + |PrintMembers(v.members)| + 2) else Failure
    ensures p < |s| && ElementEnd(s, p, level) == Outcome(v, p, level)
  {
    hide At, MembersEnd, ArrayEnd, PairEnd, StringEnd, NumberEnd;
    if v.members == [] {
      assert Print(v) == "{" + "" + "}";
      ContainerSplit(s, p, "{", "", "}");
    } else {
      hide PrintMembers;
      ObjectOpens(s, p, v);
    }
  }

  /** Every printed value, at every level, followed by a character that does not carry it on: the reader
      steps over exactly the value if and only if the value is readable. */
  lemma {:induction false} ElementPrinted(s: string, p: nat, level: nat, v: Value)
    requires Valid(v) && At(s, p, Print(v)) && Ends(s, p + |Print(v)|) && level <= MAX_DEPTH
    ensures p < |s| && ElementEnd(s, p, level) == Outcome(v, p, level)
    ensures v.Num? && v.number.HasPlus() ==>
              NumberEnd(s, p) < |s| && s[NumberEnd(s, p)] == '+' && Outcome(v, p, level) == Success(NumberEnd(s, p))
    decreases v
  {
    hide At, Valid, Print, PrintItems, PrintMembers, Ends, ElementEnd, Outcome, ItemsEnd, MembersEnd, NumberEnd;
    match v {
      case Null =>
        LiteralPrinted(s, p, level, v);
      case Bool(_) =>
        LiteralPrinted(s, p, level, v);
      case Num(_) =>
        NumberCase(s, p, level, v);
      case Str(_) =>
        StringCase(s, p, level, v);
      case Array(items) =>
        if items != [] {
          ArrayOpens(s, p, v);
          ItemsPrinted(s, p + 1, level, items);
        }
        ArrayCase(s, p, level, v);
      case Object(members) =>
        if members != [] {
          ObjectOpens(s, p, v);
          MembersPrinted(s, p + 1, level, members);
        }
        ObjectCase(s, p, level, v);
    }
  }

  lemma ItemsStep(items: seq<Value>, level: nat)
    requires items != []
    ensures ReadableItems(items, level)
       <==> Readable(items[0], level) && (|items| > 1 ==> ReadableItems(items[1..], level))
    ensures |items| > 1 ==> |PrintItems(items)| == |Print(items[0])| + 1 + |PrintItems(items[1..])|
    ensures |items| == 1 ==> PrintItems(items) == Print(items[0])
  {
    if |items| == 1 {
      assert items[1..] == [];
      assert DepthOfItems(items[1..]) == 0 && !SomeItemHasPlus(items[1..]);
    }
  }

  lemma ItemsEndStep(s: string, p: nat, level: nat)
    requires p < |s|
    ensures var e := ElementEnd(s, p, level + 1);
            ItemsEnd(s, p, level)
            == if level + 1 > MAX_DEPTH || e.Failure? || e.value >= |s| then Failure
               else if s[e.value] == ',' then ItemsEnd(s, e.value + 1, level)
               else if s[e.value] == ']' then Success(e.value + 1)
               else Failure
  {
    hide ElementEnd;
  }

  /** The items of an array up to its closing bracket. */
  lemma {:induction false} ItemsPrinted(s: string, p: nat, level: nat, items: seq<Value>)
    requires items != [] && forall i :: 0 <= i < |items| ==> Valid(items[i])
    requires At(s, p, PrintItems(items)) && At(s, p + |PrintItems(items)|, "]") && level <= MAX_DEPTH
    ensures ItemsEnd(s, p, level)
         == if ReadableItems(items, level + 1) then Success(p + |PrintItems(items)| + 1) else Failure
    decreases items
  {
    hide At, ElementEnd, Print, NumberEnd, Depth, HasPlus, ItemsEnd, PrintItems, ReadableItems, Valid, Outcome, Ends;
    ItemsSplit(s, p, items);
    ItemsStep(items, level + 1);
    FirstChar(s, p, items[0]);
    ItemsEndStep(s, p, level);
    var q := p + |Print(items[0])|;
    AtChar(s, q, if |items| == 1 then ']' else ',');
    if level + 1 <= MAX_DEPTH {
      CommaEnds(s, q);
      ElementPrinted(s, p, level + 1, items[0]);
      OutcomeIs(items[0], p, level + 1);
    }
    if |items| > 1 {
      ItemsPrinted(s, q + 1, level, items[1..]);
    }
  }

  lemma CommaEnds(s: string, p: nat)
    requires p < |s| && (s[p] == ',' || s[p] == ']' || s[p] == '}')
    ensures Ends(s, p)
  {
  }

  lemma OutcomeIs(v: Value, p: nat, level: nat)
    ensures !(v.Num? && v.number.HasPlus()) ==>
              Outcome(v, p, level) == if Readable(v, level) then Success(p + |Print(v)|) else Failure
    ensures v.Num? && v.number.HasPlus() ==> !Readable(v, level)
  {
  }

  lemma MemberSplit(s: string, p: nat, m: Member)
    requires Valid(m.value) && At(s, p, PrintMember(m))
    ensures At(s, p, Quoted(m.name)) && At(s, p + |Quoted(m.name)| + 1, Print(m.value))
    ensures p + |Quoted(m.name)| + 1 < |s| && s[p + |Quoted(m.name)|] == ':'
    ensures |PrintMember(m)| == |Quoted(m.name)| + 1 + |Print(m.value)|
  {
    hide At, Print, Quoted, Valid;
    var q := p + |Quoted(m.name)|;
    AtConcat(s, p, Quoted(m.name) + ":", Print(m.value));
    AtConcat(s, p, Quoted(m.name), ":");
    AtChar(s, q, ':');
    FirstChar(s, q + 1, m.value);
  }

  lemma StringEndIs(s: string, p: nat)
    requires StringEnd(s, p).Success?
    ensures p < |s| && s[p] == '\"'
  {
  }

  lemma {:induction false} PairPrinted(s: string, p: nat, level: nat, m: Member)
    requires ValidString(m.name) && Valid(m.value) && level <= MAX_DEPTH
    requires At(s, p, PrintMember(m)) && Ends(s, p + |PrintMember(m)|)
    ensures p < |s| && s[p] == '\"'
    ensures PairEnd(s, p, level) == if level + 1 > MAX_DEPTH then Failure
                                    else Outcome(m.value, p + |Quoted(m.name)| + 1, level + 1)
    ensures m.value.Num? && m.value.number.HasPlus() && PairEnd(s, p, level).Success? ==>
              PairEnd(s, p, level).value < |s| && s[PairEnd(s, p, level).value] == '+'
    decreases m
  {
    hide At, ElementEnd, Outcome, NumberEnd, Print, Quoted, Valid, ValidString, PrintMember, SlowString;
    MemberSplit(s, p, m);
    StringPrinted(s, p, m.name);
    StringEndIs(s, p);
    hide StringEnd;
    if level + 1 <= MAX_DEPTH {
      ElementPrinted(s, p + |Quoted(m.name)| + 1, level + 1, m.value);
    }
  }

  lemma MembersStep(members: seq<Member>, level: nat)
    requires members != []
    ensures ReadableMembers(members, level)
       <==> Readable(members[0].value, level) && (|members| > 1 ==> ReadableMembers(members[1..], level))
    ensures |members| > 1 ==> |PrintMembers(members)| == |PrintMember(members[0])| + 1 + |PrintMembers(members[1..])|
    ensures |members| == 1 ==> PrintMembers(members) == PrintMember(members[0])
  {
    if |members| == 1 {
      assert members[1..] == [];
      assert DepthOfMembers(members[1..]) == 0 && !SomeMemberHasPlus(members[1..]);
    }
  }

  lemma MembersEndStep(s: string, p: nat, level: nat)
    requires p < |s|
    ensures var e := PairEnd(s, p, level + 1);
            MembersEnd(s, p, level)
            == if level + 1 > MAX_DEPTH || e.Failure? || e.value >= |s| then Failure
               else if s[e.value] == ',' then MembersEnd(s, e.value + 1, level)
               else if s[e.value] == '}' then Success(e.value + 1)
               else Failure
  {
    hide PairEnd;
  }

  /** The members of an object up to its closing brace. */
  lemma {:induction false} MembersPrinted(s: string, p: nat, level: nat, members: seq<Member>)
    requires members != [] && forall i :: 0 <= i < |members| ==> ValidString(members[i].name) && Valid(members[i].value)
    requires At(s, p, PrintMembers(members)) && At(s, p + |PrintMembers(members)|, "}") && level <= MAX_DEPTH
    ensures p < |s| && s[p] == '\"'
    ensures MembersEnd(s, p, level)
         == if ReadableMembers(members, level + 2) then Success(p + |PrintMembers(members)| + 1) else Failure
    decreases members
  {
    hide At, PairEnd, PrintMember, Print, NumberEnd, Depth, HasPlus, ValidString, MembersEnd, PrintMembers;
    hide ReadableMembers, Valid, Outcome, Quoted;
    MembersSplit(s, p, members);
    MembersStep(members, level + 2);
    MemberSplit(s, p, members[0]);
    MembersEndStep(s, p, level);
    var q := p + |PrintMember(members[0])|;
    AtChar(s, q, if |members| == 1 then '}' else ',');
    CommaEnds(s, q);
    PairPrinted(s, p, if level + 1 <= MAX_DEPTH then level + 1 else level, members[0]);
    OutcomeIs(members[0].value, p + |Quoted(members[0].name)| + 1, level + 2);
    if |members| > 1 {
      MembersPrinted(s, q + 1, level, members[1..]);
    }
  }

  /** The reader gets past exactly the printed value if and only if the value is readable: no more levels than
      are left, and no exponent with a plus sign. */
  lemma SkipIff(s: string, p: nat, level: nat, v: Value)
    requires Valid(v) && At(s, p, Print(v)) && Ends(s, p + |Print(v)|) && level <= MAX_DEPTH
    ensures p < |s| && (ElementEnd(s, p, level) == Success(p + |Print(v)|) <==> Readable(v, level))
  {
    hide At, ElementEnd, NumberEnd, Ends;
    ElementPrinted(s, p, level, v);
  }

  /** n arrays inside each other. */
  function Nested(n: nat): Value
    requires 1 <= n
  {
    if n == 1 then Array([]) else Array([Nested(n - 1)])
  }

  lemma {:induction false} NestedDepth(n: nat)
    requires 1 <= n
    ensures Valid(Nested(n)) && !HasPlus(Nested(n)) && Depth(Nested(n)) == n - 1
  {
    if n > 1 {
      NestedDepth(n - 1);
      var items := [Nested(n - 1)];
      assert items[1..] == [];
      assert DepthOfItems(items) == n - 2 && !SomeItemHasPlus(items);
    }
  }

  /** Arrays can be nested 101 deep, and no deeper. */
  lemma NestingLimit(n: nat)
    requires 1 <= n
    ensures Print(Nested(n)) != ""
    ensures ElementEnd(Print(Nested(n)), 0, 0) == Success(|Print(Nested(n))|) <==> n <= 101
  {
    hide Print, ElementEnd, Nested;
    NestedDepth(n);
    var s := Print(Nested(n));
    assert At(s, 0, s) by { assert s[0..0 + |s|] == s; }
    SkipIff(s, 0, 0, Nested(n));
  }

  /** The number 1e+5 is not stepped over: the scan stops behind the e. */
  lemma PlusStopsTheScan()
    ensures ElementEnd("1e+5", 0, 0) == Success(2)
  {
    var n := Number(false, "1", "", Exponent('e', "+", "5"));
    assert n.Written() == "1e+5" && n.Mantissa() == "1" && At("1e+5", 0, n.Written());
    ElementPrinted("1e+5", 0, 0, Num(n));
  }
}
