/** The reader itself: an immutable reference to a place in a text, with the scanning loops of
    base/base/JSON.cpp. */
module JsonReader {
  import opened Decimal
  import opened JsonText
  import opened JsonSkip

  datatype ElementType = TypeObject | TypeArray | TypeNumber | TypeString | TypeBool | TypeNull | TypeNameValuePair

  function TypeAt(s: string, p: nat): (r: Result<ElementType>)
    requires p < |s|
  {
    if s[p] == '{' then Success(TypeObject)
    else if s[p] == '[' then Success(TypeArray)
    else if s[p] == 't' || s[p] == 'f' then Success(TypeBool)
    else if s[p] == 'n' then Success(TypeNull)
    else if s[p] == '-' || IsDigit(s[p]) then Success(TypeNumber)
    else if s[p] == '\"' then
      var q := StringEnd(s, p);
      if q.Failure? then Failure
      else if q.value < |s| && s[q.value] == ':' then Success(TypeNameValuePair)
      else Success(TypeString)
    else Failure
  }

  /** The type that a value has by its constructor. */
  function TypeOf(v: Value): ElementType {
    match v
    case Null => TypeNull
    case Bool(_) => TypeBool
    case Num(_) => TypeNumber
    case Str(_) => TypeString
    case Array(_) => TypeArray
    case Object(_) => TypeObject
  }

  /** A printed value has the type of its constructor; a string is not taken for the name of a pair. */
  lemma TypePrinted(s: string, p: nat, v: Value)
    requires Valid(v) && At(s, p, Print(v)) && Ends(s, p + |Print(v)|)
    ensures p < |s| && TypeAt(s, p) == Success(TypeOf(v))
  {
    if v.Num? {
      hide At, NumberEnd, Number.Written;
      NumberPrinted(s, p, v.number);
    } else if v.Str? {
      hide At, Quoted, SlowString;
      StringPrinted(s, p, v.pieces);
    } else {
      hide At, Print, StringEnd;
      FirstLetter(s, p, v);
    }
  }

  /** getBool: by the first letter. */
  function BoolAt(s: string, p: nat): Result<bool>
    requires p < |s|
  {
    if s[p] == 't' then Success(true) else if s[p] == 'f' then Success(false) else Failure
  }

  /** getBool of a printed value is the boolean that it is, and an exception for everything else. */
  lemma BoolPrinted(s: string, p: nat, v: Value)
    requires Valid(v) && At(s, p, Print(v)) && Ends(s, p + |Print(v)|)
    ensures p < |s| && BoolAt(s, p) == if v.Bool? then Success(v.b) else Failure
  {
    TypePrinted(s, p, v);
    if v.Bool? {
      assert s[p] == s[p..p + |Print(v)|][0];
    }
  }

  /** The three literals are values, and the reader steps over each of them. */
  lemma Literals()
    ensures Valid(Null) && Valid(Bool(true)) && Valid(Bool(false))
    ensures Print(Null) == "null" && Print(Bool(true)) == "true" && Print(Bool(false)) == "false"
    ensures ElementEnd("null", 0, 0) == ElementEnd("true", 0, 0) == Success(4)
    ensures ElementEnd("false", 0, 0) == Success(5)
  {
  }

  lemma FirstLetter(s: string, p: nat, v: Value)
    requires !v.Num? && !v.Str? && At(s, p, Print(v))
    ensures p < |s|
    ensures match v
            case Null => s[p] == 'n'
            case Bool(_) => s[p] == 't' || s[p] == 'f'
            case Array(_) => s[p] == '['
            case Object(_) => s[p] == '{'
            case _ => true
  {
    hide PrintItems, PrintMembers;
    assert s[p] == s[p..p + |Print(v)|][0];
  }

  /** A printed member is a name-value pair. */
  lemma MemberTypePrinted(s: string, p: nat, m: Member)
    requires ValidString(m.name) && Valid(m.value) && At(s, p, PrintMember(m))
    ensures p < |s| && TypeAt(s, p) == Success(TypeNameValuePair)
  {
    hide At, Valid, ValidString, PrintMember, Print, Quoted, SlowString;
    MemberSplit(s, p, m);
    StringPrinted(s, p, m.name);
  }

  /** ptr_begin and level; ptr_end is the end of the text.  `Valid` is what the constructor checks. */
  datatype Reader = Reader(text: string, begin: nat, level: nat) {
    predicate Valid() { CanOpen(text, begin, level) }

    method GetType() returns (r: Result<ElementType>)
      requires Valid()
      ensures r == TypeAt(text, begin)
    {
      var c := text[begin];
      if c == '{' {
        return Success(TypeObject);
      } else if c == '[' {
        return Success(TypeArray);
      } else if c == 't' || c == 'f' {
        return Success(TypeBool);
      } else if c == 'n' {
        return Success(TypeNull);
      } else if c == '-' || IsDigit(c) {
        return Success(TypeNumber);
      } else if c == '\"' {
        var afterString := SkipString();
        if afterString.Failure? {
          return Failure;
        }
        if afterString.value < |text| && text[afterString.value] == ':' {
          return Success(TypeNameValuePair);
        }
        return Success(TypeString);
      } else {
        return Failure;
      }
    }

    method GetBool() returns (r: Result<bool>)
      requires Valid()
      ensures r == BoolAt(text, begin)
    {
      if text[begin] == 't' {
        return Success(true);
      }
      if text[begin] == 'f' {
        return Success(false);
      }
      return Failure;
    }

    /** The memchr shortcut, then the scan. */
    method SkipString() returns (r: Result<nat>)
      requires Valid()
      ensures r == StringEnd(text, begin)
    {
      var pos := begin;
      if text[pos] != '\"' {
        return Failure;
      }
      pos := pos + 1;
      var closingQuote := FirstQuote(text, pos);
      if closingQuote < |text| && text[closingQuote - 1] != '\\' {
        return Success(closingQuote + 1);
      }
      while pos < |text| && text[pos] != '\"'
        invariant begin < pos
        invariant SlowString(text, pos) == SlowString(text, begin + 1)
      {
        if text[pos] == '\\' {
          pos := pos + 1;
          if pos >= |text| {
            return Failure;
          }
          if text[pos] == 'u' {
            pos := pos + 4;
            if pos >= |text| {
              return Failure;
            }
          }
        }
        pos := pos + 1;
      }
      if pos >= |text| {
        return Failure;
      }
      return Success(pos + 1);
    }

    method SkipDigits(start: nat) returns (pos: nat)
      requires start <= |text|
      ensures pos == DigitsEnd(text, start)
    {
      pos := start;
      while pos < |text| && IsDigit(text[pos])
        invariant pos <= |text| && DigitsEnd(text, pos) == DigitsEnd(text, start)
      {
        pos := pos + 1;
      }
    }

    method SkipNumber() returns (pos: nat)
      requires Valid()
      ensures pos == NumberEnd(text, begin)
    {
      hide DigitsEnd;
      pos := begin;
      if text[pos] == '-' {
        pos := pos + 1;
      }
      pos := SkipDigits(pos);
      if pos < |text| && text[pos] == '.' {
        pos := pos + 1;
      }
      pos := SkipDigits(pos);
      if pos < |text| && (text[pos] == 'e' || text[pos] == 'E') {
        pos := pos + 1;
      }
      if pos < |text| && text[pos] == '-' {
        pos := pos + 1;
      }
      pos := SkipDigits(pos);
    }

    method SkipNameValuePair() returns (r: Result<nat>)
      requires Valid()
      ensures r == PairEnd(text, begin, level)
      decreases |text| - begin, 1
    {
      var pos := SkipString();
      if pos.Failure? || pos.value >= |text| || text[pos.value] != ':' {
        return Failure;
      }
      if !CanOpen(text, pos.value + 1, level + 1) {
        return Failure;
      }
      r := Reader(text, pos.value + 1, level + 1).SkipElement();
    }

    method SkipArray() returns (r: Result<nat>)
      requires Valid() && text[begin] == '['
      ensures r == ArrayEnd(text, begin, level)
      decreases |text| - begin, 1
    {
      var pos := begin + 1;
      if pos >= |text| {
        return Failure;
      }
      if text[pos] == ']' {
        return Success(pos + 1);
      }
      while true
        invariant begin < pos <= |text|
        invariant ItemsEnd(text, pos, level) == ArrayEnd(text, begin, level)
        decreases |text| - pos
      {
        if !CanOpen(text, pos, level + 1) {
          return Failure;
        }
        var next := Reader(text, pos, level + 1).SkipElement();
        if next.Failure? || next.value >= |text| {
          return Failure;
        }
        if text[next.value] == ']' {
          return Success(next.value + 1);
        } else if text[next.value] != ',' {
          return Failure;
        }
        pos := next.value + 1;
      }
    }

    method SkipObject() returns (r: Result<nat>)
      requires Valid() && text[begin] == '{'
      ensures r == ObjectEnd(text, begin, level)
      decreases |text| - begin, 1
    {
      var pos := begin + 1;
      if pos >= |text| {
        return Failure;
      }
      if text[pos] == '}' {
        return Success(pos + 1);
      }
      while true
        invariant begin < pos <= |text|
        invariant MembersEnd(text, pos, level) == ObjectEnd(text, begin, level)
        decreases |text| - pos
      {
        if !CanOpen(text, pos, level + 1) {
          return Failure;
        }
        var next := Reader(text, pos, level + 1).SkipNameValuePair();
        if next.Failure? || next.value >= |text| {
          return Failure;
        }
        if text[next.value] == '}' {
          return Success(next.value + 1);
        } else if text[next.value] != ',' {
          return Failure;
        }
        pos := next.value + 1;
      }
    }

    method SkipElement() returns (r: Result<nat>)
      requires Valid()
      ensures r == ElementEnd(text, begin, level)
      decreases |text| - begin, 2
    {
      var elementType := GetType();
      match elementType {
        case Failure =>
          return Failure;
        case Success(t) =>
          match t {
            case TypeNull =>
              return Success(begin + 4);
            case TypeBool =>
              return Success(begin + if text[begin] == 't' then 4 else 5);
            case TypeNumber =>
              var pos := SkipNumber();
              return Success(pos);
            case TypeString =>
              r := SkipString();
            case TypeNameValuePair =>
              r := SkipNameValuePair();
            case TypeArray =>
              r := SkipArray();
            case TypeObject =>
              r := SkipObject();
          }
      }
    }
  }
}
