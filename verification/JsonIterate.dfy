/** Iterating over an array or an object, indexing, and looking a name up (base/base/JSON.cpp). */
module JsonIterate {
  import opened JsonText
  import opened JsonSkip
  import opened JsonReader
  import opened Wrappers

  // --- names ------------------------------------------------------------------------------------------------

  /** hasEscapes; the source reads the byte at ptr_end when nothing is found, here that is a failure. */
  function EscapesFrom(s: string, pos: nat): Result<bool>
    decreases |s| - pos
  {
    if pos >= |s| then Failure
    else if s[pos] == '\"' then Success(false)
    else if s[pos] == '\\' then Success(true)
    else EscapesFrom(s, pos + 1)
  }

  /** getString behind the opening quote. */
  function Decode(s: string, pos: nat, utf8: string -> Result<string>): Result<string>
    decreases |s| - pos
  {
    if pos >= |s| then Failure
    else if s[pos] == '\"' then Success("")
    else if s[pos] != '\\' then Join(Success([s[pos]]), Decode(s, pos + 1, utf8))
    else if pos + 1 >= |s| then Failure
    else if s[pos + 1] != 'u' then Join(Success([Unescaped(s[pos + 1])]), Decode(s, pos + 2, utf8))
    else if pos + 6 >= |s| then Failure
    else Join(utf8(s[pos + 2..pos + 6]), Decode(s, pos + 6, utf8))
  }

  function GetString(s: string, p: nat, utf8: string -> Result<string>): Result<string>
    requires p < |s|
  {
    if s[p] != '\"' then Failure else Decode(s, p + 1, utf8)
  }

  function RawString(s: string, p: nat): Result<string>
    requires p < |s|
  {
    if s[p] != '\"' then Failure
    else
      var q := FirstQuote(s, p + 1);
      if q < |s| then Success(s[p + 1..q]) else Failure
  }

  /** Without escapes the raw bytes are the string, for every text. */
  lemma RawAgrees(s: string, p: nat, utf8: string -> Result<string>)
    requires p < |s| && s[p] == '\"' && EscapesFrom(s, p + 1) == Success(false)
    ensures RawString(s, p) == GetString(s, p, utf8) && RawString(s, p).Success?
  {
    RawAgreesFrom(s, p + 1, utf8);
  }

  lemma {:induction false} RawAgreesFrom(s: string, pos: nat, utf8: string -> Result<string>)
    requires pos <= |s| && EscapesFrom(s, pos) == Success(false)
    ensures FirstQuote(s, pos) < |s| && Decode(s, pos, utf8) == Success(s[pos..FirstQuote(s, pos)])
    decreases |s| - pos
  {
    if s[pos] == '\"' {
      assert s[pos..pos] == "";
    } else {
      RawAgreesFrom(s, pos + 1, utf8);
      var q := FirstQuote(s, pos);
      assert s[pos..q] == [s[pos]] + s[pos + 1..q];
    }
  }

  lemma PieceDecoded(s: string, pos: nat, piece: Piece, utf8: string -> Result<string>)
    requires piece.Valid() && At(s, pos, piece.Written()) && pos + |piece.Written()| < |s|
    ensures Decode(s, pos, utf8) == Join(piece.Decoded(utf8), Decode(s, pos + |piece.Written()|, utf8))
  {
    var w := piece.Written();
    assert s[pos] == s[pos..pos + |w|][0] == w[0];
    if !piece.Plain? {
      assert s[pos + 1] == s[pos..pos + |w|][1] == w[1];
    }
    if piece.Unicode? {
      assert s[pos + 2..pos + 6] == s[pos..pos + |w|][2..6] == w[2..6] == piece.hex;
    }
  }

  /** A printed string decodes to the characters it stands for. */
  lemma {:induction false} DecodePrinted(s: string, pos: nat, pieces: seq<Piece>, utf8: string -> Result<string>)
    requires ValidString(pieces) && At(s, pos, Body(pieces) + "\"")
    ensures Decode(s, pos, utf8) == Decoded(pieces, utf8)
    decreases |pieces|
  {
    hide At, Piece.Valid, Piece.Written, Piece.Decoded, Body;
    if pieces == [] {
      EmptyBody(s, pos);
    } else {
      BodyStep(s, pos, pieces);
      AtBound(s, pos + |pieces[0].Written()|, Body(pieces[1..]) + "\"");
      PieceDecoded(s, pos, pieces[0], utf8);
      DecodePrinted(s, pos + |pieces[0].Written()|, pieces[1..], utf8);
    }
  }

  /** One character as section 7 of RFC 8259 writes it: with a two-character escape where there is one. */
  function Escape(c: char): string {
    if c == '\"' then "\\\""
    else if c == '\\' then "\\\\"
    else if c == 8 as char then "\\b"
    else if c == 12 as char then "\\f"
    else if c == 10 as char then "\\n"
    else if c == 13 as char then "\\r"
    else if c == 9 as char then "\\t"
    else [c]
  }

  function EscapeAll(t: string): string {
    if t == "" then "" else Escape(t[0]) + EscapeAll(t[1..])
  }

  lemma EscapeStep(s: string, pos: nat, c: char, utf8: string -> Result<string>)
    requires At(s, pos, Escape(c))
    ensures pos < |s| && Decode(s, pos, utf8) == Join(Success([c]), Decode(s, pos + |Escape(c)|, utf8))
  {
    var w := Escape(c);
    assert s[pos] == s[pos..pos + |w|][0] == w[0];
    if |w| == 2 {
      assert s[pos + 1] == s[pos..pos + |w|][1] == w[1];
    }
  }

  lemma {:induction false} DecodeEscaped(s: string, pos: nat, t: string, utf8: string -> Result<string>)
    requires At(s, pos, EscapeAll(t) + "\"")
    ensures Decode(s, pos, utf8) == Success(t)
    decreases |t|
  {
    hide At, Escape, Decode;
    if t == "" {
      assert EscapeAll(t) + "\"" == "\"";
      ClosingQuote(s, pos, utf8);
    } else {
      var w, rest := Escape(t[0]), EscapeAll(t[1..]) + "\"";
      assert EscapeAll(t) + "\"" == w + rest;
      AtConcat(s, pos, w, rest);
      EscapeStep(s, pos, t[0], utf8);
      DecodeEscaped(s, pos + |w|, t[1..], utf8);
      assert [t[0]] + t[1..] == t;
    }
  }

  lemma ClosingQuote(s: string, pos: nat, utf8: string -> Result<string>)
    requires At(s, pos, "\"")
    ensures Decode(s, pos, utf8) == Success("")
  {
    AtChar(s, pos, '\"');
  }

  /** getString reads every string back from its escaped text. */
  lemma GetStringEscaped(s: string, p: nat, t: string, utf8: string -> Result<string>)
    requires At(s, p, "\"" + EscapeAll(t) + "\"")
    ensures p < |s| && GetString(s, p, utf8) == Success(t)
  {
    hide At, Decode;
    var rest := EscapeAll(t) + "\"";
    assert "\"" + EscapeAll(t) + "\"" == "\"" + rest;
    AtConcat(s, p, "\"", rest);
    AtChar(s, p, '\"');
    DecodeEscaped(s, p + 1, t, utf8);
  }

  /** A backslash before any other character but u stands for that character. */
  lemma OtherEscape(s: string, pos: nat, utf8: string -> Result<string>)
    requires pos + 1 < |s| && s[pos] == '\\' && s[pos + 1] !in "bfnrtu"
    ensures Decode(s, pos, utf8) == Join(Success([s[pos + 1]]), Decode(s, pos + 2, utf8))
  {
    var c := s[pos + 1];
    assert "bfnrtu"[0] == 'b' && "bfnrtu"[1] == 'f' && "bfnrtu"[2] == 'n' && "bfnrtu"[3] == 'r' && "bfnrtu"[4] == 't';
    assert "bfnrtu"[5] == 'u';
  }

  lemma {:induction false} EscapesPrinted(s: string, pos: nat, pieces: seq<Piece>)
    requires ValidString(pieces) && At(s, pos, Body(pieces) + "\"")
    ensures EscapesFrom(s, pos) == Success(exists i :: 0 <= i < |pieces| && !pieces[i].Plain?)
    decreases |pieces|
  {
    hide At, Body;
    if pieces == [] {
      EmptyBody(s, pos);
    } else {
      BodyStep(s, pos, pieces);
      var w := pieces[0].Written();
      AtBound(s, pos, w);
      FirstOf(s, pos, w);
      if pieces[0].Plain? {
        EscapesPrinted(s, pos + 1, pieces[1..]);
        assert forall i :: 1 <= i < |pieces| ==> pieces[i] == pieces[1..][i - 1];
      }
    }
  }

  lemma FirstOf(s: string, pos: nat, t: string)
    requires t != "" && At(s, pos, t)
    ensures pos < |s| && s[pos] == t[0]
  {
    assert s[pos] == s[pos..pos + |t|][0];
  }

  // --- children ---------------------------------------------------------------------------------------------

  /** begin(): where the first child is, or `None`, the end. */
  function BeginOf(s: string, p: nat, level: nat): Result<Option<nat>>
    requires p < |s|
  {
    var t := TypeAt(s, p);
    if t.Failure? || (t.value != TypeArray && t.value != TypeObject) || p + 1 >= |s| then Failure
    else if s[p + 1] == '}' || s[p + 1] == ']' then
      if level + 1 <= MAX_DEPTH then Success(None) else Failure
    else if CanOpen(s, p + 1, level + 1) then Success(Some(p + 1))
    else Failure
  }

  /** operator++ on a child at pos. */
  function NextOf(s: string, pos: nat, level: nat): (r: Result<Option<nat>>)
    requires pos < |s|
    ensures r.Success? && r.value.Some? ==> pos < r.value.value < |s|
  {
    var q := ElementEnd(s, pos, level);
    if q.Failure? || q.value >= |s| then Failure
    else if s[q.value] != ',' then Success(None)
    else if q.value + 1 >= |s| then Failure
    else Success(Some(q.value + 1))
  }

  /** The places an iteration visits. */
  function Visited(s: string, at: Option<nat>, level: nat): Result<seq<nat>>
    requires at.Some? ==> at.value < |s|
    decreases if at.Some? then |s| - at.value else 0
  {
    if at.None? then Success([])
    else
      var next := NextOf(s, at.value, level);
      if next.Failure? then Failure
      else
        var rest := Visited(s, next.value, level);
        if rest.Failure? then Failure else Success([at.value] + rest.value)
  }

  function Count(v: Value): nat
    requires v.Array? || v.Object?
  {
    if v.Array? then |v.items| else |v.members|
  }

  function ChildText(v: Value, i: nat): string
    requires (v.Array? || v.Object?) && i < Count(v)
  {
    if v.Array? then Print(v.items[i]) else PrintMember(v.members[i])
  }

  /** Where the i-th child of a container printed at p begins. */
  function ChildStart(v: Value, p: nat, i: nat): nat
    requires (v.Array? || v.Object?) && i <= Count(v)
  {
    if i == 0 then p + 1 else ChildStart(v, p, i - 1) + |ChildText(v, i - 1)| + 1
  }

  lemma {:induction false} ItemAt(s: string, p: nat, v: Value, i: nat)
    requires v.Array? && Valid(v) && At(s, p, Print(v)) && i < |v.items|
    ensures At(s, ChildStart(v, p, i), PrintItems(v.items[i..]))
    ensures At(s, ChildStart(v, p, i) + |PrintItems(v.items[i..])|, "]")
  {
    hide At, Print, Valid;
    if i == 0 {
      ArrayOpens(s, p, v);
      assert v.items[0..] == v.items;
    } else {
      ItemAt(s, p, v, i - 1);
      var rest := v.items[i - 1..];
      assert rest[1..] == v.items[i..] && rest[0] == v.items[i - 1];
      ItemsSplit(s, ChildStart(v, p, i - 1), rest);
      ItemsStep(rest, 0);
    }
  }

  lemma {:induction false} MemberAt(s: string, p: nat, v: Value, i: nat)
    requires v.Object? && Valid(v) && At(s, p, Print(v)) && i < |v.members|
    ensures At(s, ChildStart(v, p, i), PrintMembers(v.members[i..]))
    ensures At(s, ChildStart(v, p, i) + |PrintMembers(v.members[i..])|, "}")
  {
    hide At, Print, PrintMember, Valid;
    if i == 0 {
      ObjectOpens(s, p, v);
      assert v.members[0..] == v.members;
    } else {
      MemberAt(s, p, v, i - 1);
      var rest := v.members[i - 1..];
      assert rest[1..] == v.members[i..] && rest[0] == v.members[i - 1];
      MembersSplit(s, ChildStart(v, p, i - 1), rest);
      MembersStep(rest, 0);
    }
  }

  /** Each child is printed where ChildStart says, and a comma or the closing bracket follows. */
  lemma ChildAt(s: string, p: nat, v: Value, i: nat)
    requires (v.Array? || v.Object?) && Valid(v) && At(s, p, Print(v)) && i < Count(v)
    ensures At(s, ChildStart(v, p, i), ChildText(v, i))
    ensures var q := ChildStart(v, p, i) + |ChildText(v, i)|;
            q < |s| && s[q] == if i + 1 < Count(v) then ',' else if v.Array? then ']' else '}'
  {
    hide At, Print, PrintMember, Valid, PrintItems, PrintMembers, ReadableItems, ReadableMembers;
    var q := ChildStart(v, p, i) + |ChildText(v, i)|;
    AtChar(s, q, if i + 1 < Count(v) then ',' else if v.Array? then ']' else '}');
    if v.Array? {
      ItemAt(s, p, v, i);
      ItemsSplit(s, ChildStart(v, p, i), v.items[i..]);
      ItemsStep(v.items[i..], 0);
    } else {
      MemberAt(s, p, v, i);
      MembersSplit(s, ChildStart(v, p, i), v.members[i..]);
      MembersStep(v.members[i..], 0);
    }
  }

  // --- stepping from child to child ---------------------------------------------------------------------------

  /** What an increment on a child does: go on, end the iteration without a word, or throw. */
  datatype Step = GoesOn | Stops | Throws

  function ChildValue(v: Value, i: nat): Value
    requires (v.Array? || v.Object?) && i < Count(v)
  {
    if v.Array? then v.items[i] else v.members[i].value
  }

  /** The level at which the value of a child is read: a member of an object costs two. */
  function ChildLevel(v: Value, level: nat): nat { if v.Array? then level + 1 else level + 2 }

  /** A number with a plus sign in its exponent, not inside an array or object. */
  predicate BarePlus(v: Value) { v.Num? && v.number.HasPlus() }

  predicate Steppable(v: Value, level: nat, i: nat)
    requires (v.Array? || v.Object?) && i < Count(v)
  {
    Readable(ChildValue(v, i), ChildLevel(v, level))
  }

  function StepOver(v: Value, level: nat, i: nat): Step
    requires (v.Array? || v.Object?) && i < Count(v)
  {
    if Steppable(v, level, i) then GoesOn
    else if BarePlus(ChildValue(v, i)) && ChildLevel(v, level) <= MAX_DEPTH then Stops
    else Throws
  }

  lemma ChildValid(v: Value, i: nat)
    requires (v.Array? || v.Object?) && Valid(v) && i < Count(v)
    ensures Valid(ChildValue(v, i)) && (v.Object? ==> ValidString(v.members[i].name))
  {
  }

  /** An element that begins with a name and a colon is a pair. */
  lemma PairElement(s: string, p: nat, level: nat, m: Member)
    requires ValidString(m.name) && Valid(m.value) && level <= MAX_DEPTH
    requires At(s, p, PrintMember(m)) && Ends(s, p + |PrintMember(m)|)
    ensures p < |s| && ElementEnd(s, p, level) == PairEnd(s, p, level)
  {
    hide At, Print, PrintMember, Valid, ValidString, Ends, Quoted, SlowString, StringEnd, PairEnd, Outcome;
    PairPrinted(s, p, level, m);
    MemberSplit(s, p, m);
    StringPrinted(s, p, m.name);
  }

  /** Stepping over a printed item that a comma or bracket follows. */
  lemma ItemEnd(s: string, c: nat, level: nat, v: Value)
    requires Valid(v) && At(s, c, Print(v)) && Ends(s, c + |Print(v)|) && level <= MAX_DEPTH
    ensures c < |s|
    ensures Readable(v, level) ==> ElementEnd(s, c, level) == Success(c + |Print(v)|)
    ensures BarePlus(v) ==> var e := ElementEnd(s, c, level); e.Success? && e.value < |s| && s[e.value] == '+'
    ensures !Readable(v, level) && !BarePlus(v) ==> ElementEnd(s, c, level) == Failure
  {
    hide At, Print, Valid, Readable, Ends, ElementEnd, Outcome, NumberEnd;
    ElementPrinted(s, c, level, v);
    OutcomeIs(v, c, level);
  }

  /** Stepping over a printed member. */
  lemma MemberEnd(s: string, c: nat, level: nat, m: Member)
    requires ValidString(m.name) && Valid(m.value) && level <= MAX_DEPTH
    requires At(s, c, PrintMember(m)) && Ends(s, c + |PrintMember(m)|)
    ensures c < |s|
    ensures level + 1 > MAX_DEPTH ==> ElementEnd(s, c, level) == Failure
    ensures level + 1 <= MAX_DEPTH && Readable(m.value, level + 1) ==>
              ElementEnd(s, c, level) == Success(c + |PrintMember(m)|)
    ensures level + 1 <= MAX_DEPTH && BarePlus(m.value) ==>
              var e := ElementEnd(s, c, level); e.Success? && e.value < |s| && s[e.value] == '+'
    ensures !Readable(m.value, level + 1) && !BarePlus(m.value) ==> ElementEnd(s, c, level) == Failure
  {
    hide At, Print, PrintMember, Valid, ValidString, Readable, Ends, ElementEnd, PairEnd, Outcome, Quoted;
    PairElement(s, c, level, m);
    PairPrinted(s, c, level, m);
    MemberSplit(s, c, m);
    OutcomeIs(m.value, c + |Quoted(m.name)| + 1, level + 1);
    if BarePlus(m.value) && level + 1 <= MAX_DEPTH {
      PlusOutcome(m.value, c + |Quoted(m.name)| + 1, level + 1);
    }
  }

  lemma PlusOutcome(v: Value, p: nat, level: nat)
    requires BarePlus(v)
    ensures Outcome(v, p, level).Success?
  {
  }

  lemma TooDeep(v: Value, level: nat)
    requires level > MAX_DEPTH
    ensures !Readable(v, level)
  {
  }

  /** Stepping over the i-th child of any printed container. */
  lemma ChildEnd(s: string, p: nat, level: nat, v: Value, i: nat)
    requires (v.Array? || v.Object?) && Valid(v) && At(s, p, Print(v)) && level < MAX_DEPTH && i < Count(v)
    ensures ChildStart(v, p, i) < |s|
    ensures var e := ElementEnd(s, ChildStart(v, p, i), level + 1);
            match StepOver(v, level, i)
            case GoesOn => e == Success(ChildStart(v, p, i) + |ChildText(v, i)|)
            case Stops => e.Success? && e.value < |s| && s[e.value] == '+'
            case Throws => e == Failure
  {
    hide At, Print, PrintMember, ChildStart, Valid, ValidString, Readable, Ends, ElementEnd;
    ChildAt(s, p, v, i);
    ChildValid(v, i);
    var c := ChildStart(v, p, i);
    CommaEnds(s, c + |ChildText(v, i)|);
    if v.Array? {
      ItemEnd(s, c, level + 1, v.items[i]);
    } else {
      MemberEnd(s, c, level + 1, v.members[i]);
      if level + 2 > MAX_DEPTH {
        TooDeep(v.members[i].value, level + 2);
      }
    }
  }

  /** One increment, exactly: to the next child or from the last one to the end where the child can be stepped
      over; straight to the end on a bare number with a plus sign; else it throws. */
  lemma ChildNext(s: string, p: nat, level: nat, v: Value, i: nat)
    requires (v.Array? || v.Object?) && Valid(v) && At(s, p, Print(v)) && level < MAX_DEPTH && i < Count(v)
    ensures ChildStart(v, p, i) < |s| && (i + 1 < Count(v) ==> ChildStart(v, p, i + 1) < |s|)
    ensures NextOf(s, ChildStart(v, p, i), level + 1)
         == match StepOver(v, level, i)
            case GoesOn => Success(if i + 1 < Count(v) then Some(ChildStart(v, p, i + 1)) else None)
            case Stops => Success(None)
            case Throws => Failure
  {
    hide At, Print, PrintMember, Valid, StepOver, ElementEnd, ChildText;
    ChildEnd(s, p, level, v, i);
    ChildAt(s, p, v, i);
    if i + 1 < Count(v) {
      ChildEnd(s, p, level, v, i + 1);
    }
  }

  lemma Opening(s: string, p: nat, v: Value)
    requires (v.Array? || v.Object?) && At(s, p, Print(v))
    ensures p + 1 < |s| && s[p] == if v.Array? then '[' else '{'
    ensures Count(v) == 0 ==> s[p + 1] == if v.Array? then ']' else '}'
  {
    var t := Print(v);
    hide PrintItems, PrintMembers;
    assert s[p] == s[p..p + |t|][0] && s[p + 1] == s[p..p + |t|][1];
  }

  /** The first character of a child is not a closing bracket. */
  lemma FirstChild(s: string, p: nat, v: Value)
    requires (v.Array? || v.Object?) && Valid(v) && At(s, p, Print(v)) && Count(v) > 0
    ensures p + 1 < |s| && s[p + 1] != '}' && s[p + 1] != ']'
  {
    hide At, Print, Valid, PrintItems, PrintMembers, Quoted;
    ChildAt(s, p, v, 0);
    ChildValid(v, 0);
    if v.Array? {
      FirstChar(s, p + 1, v.items[0]);
    } else {
      MemberTypePrinted(s, p + 1, v.members[0]);
    }
  }

  /** begin() is the first child, whatever the children are. */
  lemma BeginPrinted(s: string, p: nat, level: nat, v: Value)
    requires (v.Array? || v.Object?) && Valid(v) && At(s, p, Print(v)) && level <= MAX_DEPTH
    ensures p < |s|
    ensures BeginOf(s, p, level)
         == if level == MAX_DEPTH then Failure else if Count(v) == 0 then Success(None) else Success(Some(p + 1))
  {
    hide At, Print, Valid, StringEnd;
    Opening(s, p, v);
    if Count(v) > 0 {
      FirstChild(s, p, v);
    }
  }

  /** The last child that an iteration from the i-th one gets to: the first that cannot be stepped over. */
  function LastReached(v: Value, level: nat, i: nat): (r: nat)
    requires (v.Array? || v.Object?) && i < Count(v)
    ensures i <= r < Count(v)
    ensures forall k :: i <= k < r ==> Steppable(v, level, k)
    ensures r + 1 < Count(v) ==> !Steppable(v, level, r)
    decreases Count(v) - i
  {
    if Steppable(v, level, i) && i + 1 < Count(v) then LastReached(v, level, i + 1) else i
  }

  /** An iteration visits the children up to the last one reached, and throws exactly if that one throws. */
  lemma {:induction false} VisitsChildren(s: string, p: nat, level: nat, v: Value, i: nat)
    requires (v.Array? || v.Object?) && Valid(v) && At(s, p, Print(v)) && level < MAX_DEPTH && i < Count(v)
    ensures ChildStart(v, p, i) < |s|
    ensures var r, last := Visited(s, Some(ChildStart(v, p, i)), level + 1), LastReached(v, level, i);
            if StepOver(v, level, last) == Throws then r == Failure
            else
              && r.Success? && |r.value| == last + 1 - i
              && forall k :: i <= k <= last ==> r.value[k - i] == ChildStart(v, p, k)
    decreases Count(v) - i
  {
    hide At, Print, Valid, Steppable, NextOf, ChildStart;
    ChildNext(s, p, level, v, i);
    if Steppable(v, level, i) && i + 1 < Count(v) {
      VisitsChildren(s, p, level, v, i + 1);
    }
  }

  /** Every child but the last can be stepped over, and the last one too or it is a bare number with a plus. */
  predicate Iterable(v: Value, level: nat)
    requires v.Array? || v.Object?
  {
    level < MAX_DEPTH
    && (forall i :: 0 <= i < Count(v) - 1 ==> Steppable(v, level, i))
    && (Count(v) > 0 ==> StepOver(v, level, Count(v) - 1) != Throws)
  }

  lemma IterableIff(v: Value, level: nat)
    requires (v.Array? || v.Object?) && Count(v) > 0 && level < MAX_DEPTH
    ensures var last := LastReached(v, level, 0);
            Iterable(v, level) <==> last + 1 == Count(v) && StepOver(v, level, last) != Throws
  {
    hide Steppable, StepOver;
  }

  // --- the operations ---------------------------------------------------------------------------------------

  function SizeOf(s: string, p: nat, level: nat): Result<nat>
    requires p < |s|
  {
    var first := BeginOf(s, p, level);
    if first.Failure? then Failure
    else
      var visited := Visited(s, first.value, level + 1);
      if visited.Failure? then Failure else Success(|visited.value|)
  }

  /** n increments, which must all happen before the end. */
  function StepTo(s: string, at: Option<nat>, level: nat, n: nat): Result<Option<nat>>
    requires at.Some? ==> at.value < |s|
    decreases n
  {
    if n == 0 then Success(at)
    else if at.None? then Failure
    else
      var next := NextOf(s, at.value, level);
      if next.Failure? then Failure else StepTo(s, next.value, level, n - 1)
  }

  /** operator[](n). */
  function IndexOf(s: string, p: nat, level: nat, n: nat): Result<Option<nat>>
    requires p < |s|
  {
    var first := BeginOf(s, p, level);
    if s[p] != '[' || first.Failure? then Failure else StepTo(s, first.value, level + 1, n)
  }

  /** The name of a pair, decoded. */
  function NameAt(s: string, pos: nat, utf8: string -> Result<string>): Result<string>
    requires pos < |s|
  {
    if EscapesFrom(s, pos + 1).Failure? then Failure else GetString(s, pos, utf8)
  }

  function SearchFrom(s: string, at: Option<nat>, level: nat, name: string, utf8: string -> Result<string>)
    : Result<Option<nat>>
    requires at.Some? ==> at.value < |s|
    decreases if at.Some? then |s| - at.value else 0
  {
    if at.None? then Success(None)
    else
      var found := NameAt(s, at.value, utf8);
      if found.Failure? then Failure
      else if found.value == name then Success(at)
      else
        var next := NextOf(s, at.value, level);
        if next.Failure? then Failure else SearchFrom(s, next.value, level, name, utf8)
  }

  function FieldOf(s: string, p: nat, level: nat, name: string, utf8: string -> Result<string>): Result<Option<nat>>
    requires p < |s|
  {
    var first := BeginOf(s, p, level);
    if s[p] != '{' || first.Failure? then Failure else SearchFrom(s, first.value, level + 1, name, utf8)
  }

  /** JSON as an iterator: ptr_begin moves, and is null at the end. */
  class Cursor {
    const text: string
    const level: nat
    var begin: Option<nat>

    ghost predicate Valid()
      reads this
    {
      level <= MAX_DEPTH && (begin.Some? ==> begin.value < |text|)
    }

    constructor (text: string, begin: Option<nat>, level: nat)
      requires level <= MAX_DEPTH && (begin.Some? ==> begin.value < |text|)
      ensures Valid() && this.text == text && this.begin == begin && this.level == level
    {
      this.text := text;
      this.begin := begin;
      this.level := level;
    }

    /** operator++; false when the source throws. */
    method Increment() returns (ok: bool)
      requires Valid() && begin.Some?
      modifies this
      ensures Valid()
      ensures ok <==> NextOf(text, old(begin).value, level).Success?
      ensures begin == if ok then NextOf(text, old(begin).value, level).value else old(begin)
    {
      var pos := Reader(text, begin.value, level).SkipElement();
      if pos.Failure? || pos.value >= |text| {
        return false;
      }
      if text[pos.value] != ',' {
        begin := None;
      } else {
        if pos.value + 1 >= |text| {
          return false;
        }
        begin := Some(pos.value + 1);
      }
      return true;
    }
  }

  /** begin() of a container; the end is the same reader with a null pointer. */
  method Begin(json: Reader) returns (r: Result<Option<nat>>)
    requires json.Valid()
    ensures r == BeginOf(json.text, json.begin, json.level)
    ensures r.Success? ==> json.level + 1 <= MAX_DEPTH && (r.value.Some? ==> r.value.value < |json.text|)
  {
    var t := json.GetType();
    if t.Failure? || (t.value != TypeArray && t.value != TypeObject) {
      return Failure;
    }
    var pos := json.begin + 1;
    if pos >= |json.text| {
      return Failure;
    }
    if json.text[pos] == '}' || json.text[pos] == ']' {
      return if json.level + 1 <= MAX_DEPTH then Success(None) else Failure;
    }
    return if CanOpen(json.text, pos, json.level + 1) then Success(Some(pos)) else Failure;
  }

  method Size(json: Reader) returns (r: Result<nat>)
    requires json.Valid()
    ensures r == SizeOf(json.text, json.begin, json.level)
  {
    hide NextOf;
    var first := Begin(json);
    if first.Failure? {
      return Failure;
    }
    var i := 0;
    var it := new Cursor(json.text, first.value, json.level + 1);
    ghost var all := Visited(json.text, first.value, json.level + 1);
    while it.begin != None
      invariant it.Valid() && it.text == json.text && it.level == json.level + 1
      invariant var rest := Visited(json.text, it.begin, json.level + 1);
                if rest.Failure? then all.Failure? else all.Success? && |all.value| == i + |rest.value|
      decreases if it.begin.Some? then |json.text| - it.begin.value else -1
    {
      var ok := it.Increment();
      if !ok {
        return Failure;
      }
      i := i + 1;
    }
    return Success(i);
  }

  method Index(json: Reader, n: nat) returns (r: Result<Option<nat>>)
    requires json.Valid()
    ensures r == IndexOf(json.text, json.begin, json.level, n)
  {
    hide NextOf;
    var t := json.GetType();
    if t != Success(TypeArray) {
      return Failure;
    }
    var first := Begin(json);
    if first.Failure? {
      return Failure;
    }
    var i := 0;
    var it := new Cursor(json.text, first.value, json.level + 1);
    while i < n && it.begin != None
      invariant it.Valid() && it.text == json.text && it.level == json.level + 1 && i <= n
      invariant StepTo(json.text, it.begin, json.level + 1, n - i) == StepTo(json.text, first.value, json.level + 1, n)
    {
      var ok := it.Increment();
      if !ok {
        return Failure;
      }
      i := i + 1;
    }
    if i != n {
      return Failure;
    }
    return Success(it.begin);
  }

  method HasEscapes(json: Reader) returns (r: Result<bool>)
    requires json.Valid()
    ensures r == EscapesFrom(json.text, json.begin + 1)
  {
    var pos := json.begin + 1;
    while pos < |json.text| && json.text[pos] != '\"' && json.text[pos] != '\\'
      invariant EscapesFrom(json.text, pos) == EscapesFrom(json.text, json.begin + 1)
    {
      pos := pos + 1;
    }
    if pos >= |json.text| {
      return Failure;
    }
    return Success(json.text[pos] == '\\');
  }

  method GetRawString(json: Reader) returns (r: Result<string>)
    requires json.Valid()
    ensures r == RawString(json.text, json.begin)
  {
    var s := json.begin;
    if json.text[s] != '\"' {
      return Failure;
    }
    s := s + 1;
    while s != |json.text| && json.text[s] != '\"'
      invariant json.begin < s <= |json.text| && FirstQuote(json.text, s) == FirstQuote(json.text, json.begin + 1)
    {
      s := s + 1;
    }
    if s != |json.text| {
      return Success(json.text[json.begin + 1..s]);
    }
    return Failure;
  }

  /** find_first_symbols for a backslash or a quote. */
  function FirstSymbol(s: string, pos: nat): (q: nat)
    requires pos <= |s|
    ensures pos <= q <= |s| && (q < |s| ==> s[q] == '\"' || s[q] == '\\')
    decreases |s| - pos
  {
    if pos < |s| && s[pos] != '\"' && s[pos] != '\\' then FirstSymbol(s, pos + 1) else pos
  }

  lemma {:induction false} DecodeRun(s: string, pos: nat, utf8: string -> Result<string>)
    requires pos <= |s|
    ensures Decode(s, pos, utf8) == Join(Success(s[pos..FirstSymbol(s, pos)]), Decode(s, FirstSymbol(s, pos), utf8))
    decreases |s| - pos
  {
    var q := FirstSymbol(s, pos);
    if q == pos {
      assert s[pos..pos] == "";
      assert forall t: string :: "" + t == t;
    } else {
      DecodeRun(s, pos + 1, utf8);
      assert s[pos..q] == [s[pos]] + s[pos + 1..q];
      JoinAssociative(Success([s[pos]]), Success(s[pos + 1..q]), Decode(s, q, utf8));
    }
  }

  lemma JoinAssociative(a: Result<string>, b: Result<string>, c: Result<string>)
    ensures Join(Join(a, b), c) == Join(a, Join(b, c))
  {
    if a.Success? && b.Success? && c.Success? {
      assert a.value + b.value + c.value == a.value + (b.value + c.value);
    }
  }

  /** The switch on the character behind a backslash. */
  method ReadEscape(text: string, backslash: nat, utf8: string -> Result<string>)
    returns (piece: Result<string>, next: nat)
    requires backslash < |text| && text[backslash] == '\\'
    ensures piece.Failure? ==> Decode(text, backslash, utf8) == Failure
    ensures piece.Success? ==>
              backslash < next <= |text| && Decode(text, backslash, utf8) == Join(piece, Decode(text, next, utf8))
  {
    var s := backslash + 1;
    next := s + 1;
    if s >= |text| {
      return Failure, next;
    }
    if text[s] == 'u' {
      if s + 5 >= |text| {
        return Failure, next;
      }
      return utf8(text[s + 1..s + 5]), s + 5;
    }
    return Success([Unescaped(text[s])]), next;
  }

  /** getString: runs of plain characters and escapes are appended to a buffer. */
  method ReadString(json: Reader, utf8: string -> Result<string>) returns (r: Result<string>)
    requires json.Valid()
    ensures r == GetString(json.text, json.begin, utf8)
  {
    var text, s := json.text, json.begin;
    if text[s] != '\"' {
      return Failure;
    }
    s := s + 1;
    if s >= |text| {
      return Failure;
    }
    var buf := "";
    ghost var whole := Decode(text, s, utf8);
    assert forall t: string :: "" + t == t;
    while s < |text|
      invariant s <= |text| && Join(Success(buf), Decode(text, s, utf8)) == whole
    {
      hide FirstSymbol;
      var p := FirstSymbol(text, s);
      DecodeRun(text, s, utf8);
      if p >= |text| {
        break;
      }
      JoinAssociative(Success(buf), Success(text[s..p]), Decode(text, p, utf8));
      buf := buf + text[s..p];
      if text[p] == '\"' {
        assert buf + "" == buf;
        return Success(buf);
      }
      hide Decode;
      var piece, next := ReadEscape(text, p, utf8);
      if piece.Failure? {
        return Failure;
      }
      JoinAssociative(Success(buf), piece, Decode(text, next, utf8));
      buf := buf + piece.value;
      s := next;
    }
    return Failure;
  }

  /** The raw name is compared where there are no escapes, the decoded name elsewhere. */
  method SearchField(json: Reader, name: string, utf8: string -> Result<string>) returns (r: Result<Option<nat>>)
    requires json.Valid()
    ensures r == FieldOf(json.text, json.begin, json.level, name, utf8)
  {
    hide NextOf, Decode, FirstQuote;
    var t := json.GetType();
    if t != Success(TypeObject) {
      return Failure;
    }
    var first := Begin(json);
    if first.Failure? {
      return Failure;
    }
    var text, level := json.text, json.level + 1;
    var it := new Cursor(text, first.value, level);
    while it.begin != None
      invariant it.Valid() && it.text == text && it.level == level
      invariant SearchFrom(text, it.begin, level, name, utf8) == SearchFrom(text, first.value, level, name, utf8)
      decreases if it.begin.Some? then |text| - it.begin.value else -1
    {
      var pair := Reader(text, it.begin.value, level);
      var escapes := HasEscapes(pair);
      if escapes.Failure? {
        return Failure;
      }
      var current;
      if !escapes.value {
        current := GetRawString(pair);
        if text[it.begin.value] == '\"' {
          RawAgrees(text, it.begin.value, utf8);
        }
      } else {
        current := ReadString(pair, utf8);
      }
      if current.Failure? {
        return Failure;
      }
      if current.value == name {
        break;
      }
      var ok := it.Increment();
      if !ok {
        return Failure;
      }
    }
    return Success(it.begin);
  }

  // --- what the operations give on printed containers -------------------------------------------------------

  /** size(), exactly. */
  lemma SizePrinted(s: string, p: nat, level: nat, v: Value)
    requires (v.Array? || v.Object?) && Valid(v) && At(s, p, Print(v)) && level <= MAX_DEPTH
    ensures p < |s|
    ensures SizeOf(s, p, level)
         == if level == MAX_DEPTH then Failure
            else if Count(v) == 0 then Success(0)
            else
              var last := LastReached(v, level, 0);
              if StepOver(v, level, last) == Throws then Failure else Success(last + 1)
  {
    hide At, Print, Valid, BeginOf, NextOf, LastReached, StepOver;
    BeginPrinted(s, p, level, v);
    if Count(v) > 0 && level < MAX_DEPTH {
      VisitsChildren(s, p, level, v, 0);
    }
  }

  /** size() is the number of children if and only if the container is iterable. */
  lemma SizeIff(s: string, p: nat, level: nat, v: Value)
    requires (v.Array? || v.Object?) && Valid(v) && At(s, p, Print(v)) && level <= MAX_DEPTH
    ensures p < |s| && (SizeOf(s, p, level) == Success(Count(v)) <==> Iterable(v, level))
  {
    hide At, Print, Valid, SizeOf;
    SizePrinted(s, p, level, v);
    if Count(v) > 0 && level < MAX_DEPTH {
      IterableIff(v, level);
    }
  }

  lemma {:induction false} StepsPrinted(s: string, p: nat, level: nat, v: Value, i: nat, n: nat)
    requires (v.Array? || v.Object?) && Valid(v) && At(s, p, Print(v)) && level < MAX_DEPTH && i < Count(v)
    ensures ChildStart(v, p, i) < |s|
    ensures var last := LastReached(v, level, i);
            StepTo(s, Some(ChildStart(v, p, i)), level + 1, n)
            == if i + n <= last then Success(Some(ChildStart(v, p, i + n)))
               else if i + n == last + 1 && StepOver(v, level, last) != Throws then Success(None)
               else Failure
    decreases n
  {
    hide At, Print, Valid, Steppable, NextOf, ChildStart;
    ChildNext(s, p, level, v, i);
    if n > 0 && Steppable(v, level, i) && i + 1 < Count(v) {
      StepsPrinted(s, p, level, v, i + 1, n - 1);
    }
  }

  /** operator[](n), exactly: the n-th child up to the last one reached; one past it the end, which is a reader
      with a null pointer, unless the last one throws; an exception beyond. */
  lemma IndexPrinted(s: string, p: nat, level: nat, v: Value, n: nat)
    requires v.Array? && Valid(v) && At(s, p, Print(v)) && level <= MAX_DEPTH
    ensures p < |s|
    ensures IndexOf(s, p, level, n)
         == if level == MAX_DEPTH then Failure
            else if v.items == [] then (if n == 0 then Success(None) else Failure)
            else
              var last := LastReached(v, level, 0);
              if n <= last then Success(Some(ChildStart(v, p, n)))
              else if n == last + 1 && StepOver(v, level, last) != Throws then Success(None)
              else Failure
  {
    hide At, Print, Valid, BeginOf, NextOf, LastReached, StepOver;
    Opening(s, p, v);
    BeginPrinted(s, p, level, v);
    if Count(v) > 0 && level < MAX_DEPTH {
      StepsPrinted(s, p, level, v, 0, n);
    }
  }

  /** operator[](n) is the n-th item of n + 1 or more if and only if all items before it can be stepped over. */
  lemma IndexIff(s: string, p: nat, level: nat, v: Value, n: nat)
    requires v.Array? && Valid(v) && At(s, p, Print(v)) && level <= MAX_DEPTH && n < |v.items|
    ensures p < |s|
    ensures IndexOf(s, p, level, n) == Success(Some(ChildStart(v, p, n)))
       <==> level < MAX_DEPTH && forall k :: 0 <= k < n ==> Steppable(v, level, k)
  {
    hide At, Print, Valid, IndexOf, Steppable, StepOver;
    IndexPrinted(s, p, level, v, n);
  }

  /** The first member whose decoded name is the one asked for; a name that cannot be decoded is an error. */
  function FirstMatch(members: seq<Member>, i: nat, name: string, utf8: string -> Result<string>)
    : (r: Result<Option<nat>>)
    requires i <= |members|
    ensures r.Success? && r.value.Some? ==> i <= r.value.value < |members|
    decreases |members| - i
  {
    if i == |members| then Success(None)
    else
      var d := Decoded(members[i].name, utf8);
      if d.Failure? then Failure
      else if d.value == name then Success(Some(i))
      else FirstMatch(members, i + 1, name, utf8)
  }

  /** The name decodes, and to something else. */
  predicate OtherName(m: Member, name: string, utf8: string -> Result<string>) {
    Decoded(m.name, utf8).Success? && Decoded(m.name, utf8).value != name
  }

  lemma {:induction false} FirstMatchIsFirst(members: seq<Member>, i: nat, name: string, utf8: string -> Result<string>)
    requires i <= |members|
    ensures var r := FirstMatch(members, i, name, utf8);
            && (r.Success? && r.value.Some? ==>
                  i <= r.value.value < |members| && Decoded(members[r.value.value].name, utf8) == Success(name)
                  && forall j :: i <= j < r.value.value ==> OtherName(members[j], name, utf8))
            && (r == Success(None) <==> forall j :: i <= j < |members| ==> OtherName(members[j], name, utf8))
    decreases |members| - i
  {
    if i < |members| {
      FirstMatchIsFirst(members, i + 1, name, utf8);
    }
  }

  lemma NamePrinted(s: string, p: nat, m: Member, utf8: string -> Result<string>)
    requires ValidString(m.name) && Valid(m.value) && At(s, p, PrintMember(m))
    ensures p < |s| && NameAt(s, p, utf8) == Decoded(m.name, utf8)
  {
    hide Valid, ValidString, Print, Body, Decoded, Decode, EscapesFrom, PrintMember, At;
    MemberSplit(s, p, m);
    QuotedSplit(s, p, m.name);
    DecodePrinted(s, p + 1, m.name, utf8);
    EscapesPrinted(s, p + 1, m.name);
  }

  /** The search among the members up to the last one reached. */
  function Searched(v: Value, p: nat, level: nat, i: nat, name: string, utf8: string -> Result<string>)
    : Result<Option<nat>>
    requires v.Object? && i < |v.members|
  {
    var last := LastReached(v, level, i);
    var m := FirstMatch(v.members[..last + 1], i, name, utf8);
    if m.Failure? then Failure
    else if m.value.Some? then Success(Some(ChildStart(v, p, m.value.value)))
    else if StepOver(v, level, last) == Throws then Failure
    else Success(None)
  }

  lemma SearchedStep(v: Value, p: nat, level: nat, i: nat, name: string, utf8: string -> Result<string>)
    requires v.Object? && i < |v.members|
    ensures var d := Decoded(v.members[i].name, utf8);
            Searched(v, p, level, i, name, utf8)
            == if d.Failure? then Failure
               else if d.value == name then Success(Some(ChildStart(v, p, i)))
               else if Steppable(v, level, i) && i + 1 < |v.members| then Searched(v, p, level, i + 1, name, utf8)
               else if StepOver(v, level, i) == Throws then Failure
               else Success(None)
  {
    hide Decoded, Steppable, ChildStart;
    var last := LastReached(v, level, i);
    var reached := v.members[..last + 1];
    assert reached[i] == v.members[i];
    if Steppable(v, level, i) && i + 1 < |v.members| {
      assert last == LastReached(v, level, i + 1);
    } else {
      assert last == i && FirstMatch(reached, i + 1, name, utf8) == Success(None);
    }
  }

  lemma {:induction false} SearchPrinted(s: string, p: nat, level: nat, v: Value, i: nat, name: string,
                                         utf8: string -> Result<string>)
    requires v.Object? && Valid(v) && At(s, p, Print(v)) && level < MAX_DEPTH && i < |v.members|
    ensures ChildStart(v, p, i) < |s|
    ensures SearchFrom(s, Some(ChildStart(v, p, i)), level + 1, name, utf8) == Searched(v, p, level, i, name, utf8)
    decreases |v.members| - i
  {
    hide At, Print, PrintMember, Valid, ValidString, Steppable, NextOf, ChildStart, NameAt, Decoded, Searched;
    ChildAt(s, p, v, i);
    ChildValid(v, i);
    NamePrinted(s, ChildStart(v, p, i), v.members[i], utf8);
    ChildNext(s, p, level, v, i);
    SearchedStep(v, p, level, i, name, utf8);
    if Steppable(v, level, i) && i + 1 < |v.members| {
      SearchPrinted(s, p, level, v, i + 1, name, utf8);
    }
  }

  /** searchField, exactly: the first member of that name among those reached; null if there is none among them
      and the last one does not throw. */
  lemma FieldPrinted(s: string, p: nat, level: nat, v: Value, name: string, utf8: string -> Result<string>)
    requires v.Object? && Valid(v) && At(s, p, Print(v)) && level <= MAX_DEPTH
    ensures p < |s|
    ensures FieldOf(s, p, level, name, utf8)
         == if level == MAX_DEPTH then Failure
            else if v.members == [] then Success(None)
            else Searched(v, p, level, 0, name, utf8)
  {
    hide At, Print, Valid, BeginOf, NextOf, Searched;
    Opening(s, p, v);
    BeginPrinted(s, p, level, v);
    if Count(v) > 0 && level < MAX_DEPTH {
      SearchPrinted(s, p, level, v, 0, name, utf8);
    }
  }

  lemma {:induction false} FirstMatchPrefix(members: seq<Member>, n: nat, i: nat, name: string,
                                            utf8: string -> Result<string>)
    requires i <= n <= |members|
    ensures var r, m := FirstMatch(members[..n], i, name, utf8), FirstMatch(members, i, name, utf8);
            && (m.Success? && m.value.Some? ==> r == if m.value.value < n then m else Success(None))
            && (m == Success(None) ==> r == Success(None))
    decreases n - i
  {
    if i < n {
      FirstMatchPrefix(members, n, i + 1, name, utf8);
    }
  }

  /** A member that is there is found if and only if all members before it can be stepped over, and reported
      missing if and only if a bare number with a plus sign is the first that cannot. */
  lemma FoundIff(s: string, p: nat, level: nat, v: Value, name: string, utf8: string -> Result<string>, k: nat)
    requires v.Object? && Valid(v) && At(s, p, Print(v)) && level <= MAX_DEPTH
    requires FirstMatch(v.members, 0, name, utf8) == Success(Some(k))
    ensures p < |s|
    ensures FieldOf(s, p, level, name, utf8) == Success(Some(ChildStart(v, p, k)))
       <==> level < MAX_DEPTH && forall j :: 0 <= j < k ==> Steppable(v, level, j)
    ensures FieldOf(s, p, level, name, utf8) == Success(None)
       <==> level < MAX_DEPTH && LastReached(v, level, 0) < k && StepOver(v, level, LastReached(v, level, 0)) == Stops
  {
    hide At, Print, Valid, FieldOf, FirstMatch, Steppable, ChildStart;
    FieldPrinted(s, p, level, v, name, utf8);
    FirstMatchPrefix(v.members, LastReached(v, level, 0) + 1, 0, name, utf8);
  }

  /** For a name that is not there, the answer is null if and only if no member makes the search throw. */
  lemma MissingIff(s: string, p: nat, level: nat, v: Value, name: string, utf8: string -> Result<string>)
    requires v.Object? && Valid(v) && At(s, p, Print(v)) && level <= MAX_DEPTH
    requires forall j :: 0 <= j < |v.members| ==> OtherName(v.members[j], name, utf8)
    ensures p < |s|
    ensures FieldOf(s, p, level, name, utf8) == Success(None)
       <==> level < MAX_DEPTH && (v.members == [] || StepOver(v, level, LastReached(v, level, 0)) != Throws)
  {
    hide At, Print, Valid, FieldOf, FirstMatch, Steppable, StepOver, ChildStart, LastReached;
    FieldPrinted(s, p, level, v, name, utf8);
    FirstMatchIsFirst(v.members, 0, name, utf8);
    if v.members != [] {
      FirstMatchPrefix(v.members, LastReached(v, level, 0) + 1, 0, name, utf8);
    }
  }

  // --- the silent end of an iteration -----------------------------------------------------------------------

  const PLUS := Num(Number(false, "1", "", Exponent('e', "+", "5")))
  const TWO := Num(Number(false, "2", "", NoExponent))

  /** The array [1e+5,2] has one element by size(), and its second one is the null reader. */
  lemma ArrayCutShort()
    ensures SizeOf("[1e+5,2]", 0, 0) == Success(1)
    ensures IndexOf("[1e+5,2]", 0, 0, 1) == Success(None)
  {
    var v, s := Array([PLUS, TWO]), "[1e+5,2]";
    assert Print(PLUS) == "1e+5" && Print(TWO) == "2";
    assert [PLUS, TWO][1..] == [TWO];
    assert PrintItems([PLUS, TWO]) == "1e+5" + "," + "2";
    assert Print(v) == s && At(s, 0, Print(v));
    SizePrinted(s, 0, 0, v);
    IndexPrinted(s, 0, 0, v, 1);
    assert !Steppable(v, 0, 0) && StepOver(v, 0, 0) == Stops;
    assert LastReached(v, 0, 0) == 0;
  }

  const A := Member([Plain('a')], PLUS)
  const B := Member([Plain('b')], TWO)
  const AB := Object([A, B])

  lemma MembersWritten()
    ensures PrintMember(A) == "\"a\":1e+5" && PrintMember(B) == "\"b\":2"
  {
    assert Body([]) == "" && [Plain('a')][1..] == [] && [Plain('b')][1..] == [];
    assert Quoted(A.name) == "\"a\"" && Quoted(B.name) == "\"b\"";
    assert Print(PLUS) == "1e+5" && Print(TWO) == "2";
  }

  lemma ObjectWritten()
    ensures Valid(AB) && Print(AB) == "{\"a\":1e+5,\"b\":2}"
  {
    MembersWritten();
    assert [A, B][1..] == [B];
    hide PrintMember;
    assert PrintMembers([A, B]) == PrintMember(A) + "," + PrintMember(B);
  }

  lemma FirstMemberStops()
    ensures LastReached(AB, 0, 0) == 0 && StepOver(AB, 0, 0) == Stops
  {
    assert !Steppable(AB, 0, 0);
  }

  /** The object {"a":1e+5,"b":2} has no member b by searchField. */
  lemma MemberCutOff(utf8: string -> Result<string>)
    ensures FieldOf("{\"a\":1e+5,\"b\":2}", 0, 0, "b", utf8) == Success(None)
  {
    var s := "{\"a\":1e+5,\"b\":2}";
    ObjectWritten();
    FirstMemberStops();
    assert s[0..|s|] == s;
    assert At(s, 0, Print(AB));
    hide At, Print, Valid, FieldOf, StepOver, LastReached, Searched;
    FieldPrinted(s, 0, 0, AB, "b", utf8);
    SearchedStep(AB, 0, 0, 0, "b", utf8);
    NameOfA(utf8);
  }

  lemma NameOfA(utf8: string -> Result<string>)
    ensures Decoded(A.name, utf8) == Success("a") && !Steppable(AB, 0, 0)
  {
    assert A.name[1..] == [];
    assert Decoded([], utf8) == Success("");
    assert "a" + "" == "a";
  }
}
