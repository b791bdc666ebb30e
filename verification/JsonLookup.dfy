/** Going down a path of names and indices, and reading what is there (base/base/JSON.cpp). */
module JsonLookup {
  import opened JsonText
  import opened JsonSkip
  import opened JsonReader
  import opened JsonIterate
  import opened Wrappers

  // --- the operations -----------------------------------------------------------------------------------------

  /** getValue of the pair at p: the reader behind the name and the colon. */
  function ValueOf(s: string, p: nat, level: nat): (r: Result<Reader>)
    ensures r.Success? ==> r.value.text == s && r.value.Valid()
  {
    var q := StringEnd(s, p);
    if q.Failure? || q.value >= |s| || s[q.value] != ':' || !CanOpen(s, q.value + 1, level + 1) then Failure
    else Success(Reader(s, q.value + 1, level + 1))
  }

  method GetValue(json: Reader) returns (r: Result<Reader>)
    requires json.Valid()
    ensures r == ValueOf(json.text, json.begin, json.level)
  {
    var pos := json.SkipString();
    if pos.Failure? || pos.value >= |json.text| || json.text[pos.value] != ':' {
      return Failure;
    }
    if !CanOpen(json.text, pos.value + 1, json.level + 1) {
      return Failure;
    }
    return Success(Reader(json.text, pos.value + 1, json.level + 1));
  }

  /** operator[](name): the value of the pair that is found. */
  function NamedOf(s: string, p: nat, level: nat, name: string, utf8: string -> Result<string>): (r: Result<Reader>)
    requires p < |s|
    ensures r.Success? ==> r.value.text == s && r.value.Valid()
  {
    var found := FieldOf(s, p, level, name, utf8);
    if found.Failure? || found.value.None? || !CanOpen(s, found.value.value, level + 1) then Failure
    else ValueOf(s, found.value.value, level + 1)
  }

  method Named(json: Reader, name: string, utf8: string -> Result<string>) returns (r: Result<Reader>)
    requires json.Valid()
    ensures r == NamedOf(json.text, json.begin, json.level, name, utf8)
  {
    var pos := SearchField(json, name, utf8);
    if pos.Failure? || pos.value.None? {
      return Failure;
    }
    if !CanOpen(json.text, pos.value.value, json.level + 1) {
      return Failure;
    }
    r := GetValue(Reader(json.text, pos.value.value, json.level + 1));
  }

  /** One step of a path. */
  datatype Key = Nth(n: nat) | Name(name: string)

  /** operator[] with either kind of key; a null reader, which nothing can be read from, is a failure too. */
  function StepInto(json: Reader, key: Key, utf8: string -> Result<string>): (r: Result<Reader>)
    requires json.Valid()
    ensures r.Success? ==> r.value.text == json.text && r.value.Valid()
  {
    match key
    case Name(name) => NamedOf(json.text, json.begin, json.level, name, utf8)
    case Nth(n) =>
      var item := IndexOf(json.text, json.begin, json.level, n);
      if item.Failure? || item.value.None? || !CanOpen(json.text, item.value.value, json.level + 1) then Failure
      else Success(Reader(json.text, item.value.value, json.level + 1))
  }

  function Follow(json: Reader, path: seq<Key>, utf8: string -> Result<string>): (r: Result<Reader>)
    requires json.Valid()
    ensures r.Success? ==> r.value.text == json.text && r.value.Valid()
    decreases |path|
  {
    if path == [] then Success(json)
    else
      var next := StepInto(json, path[0], utf8);
      if next.Failure? then Failure else Follow(next.value, path[1..], utf8)
  }

  /** toString: the value of a string, the text of everything else.  The source steps over a cut off `true` to
      beyond the end of the text; here that is a failure. */
  function TextOf(s: string, p: nat, level: nat, utf8: string -> Result<string>): Result<string>
    requires p < |s|
  {
    var t := TypeAt(s, p);
    if t.Failure? then Failure
    else if t.value == TypeString then GetString(s, p, utf8)
    else
      var e := ElementEnd(s, p, level);
      if e.Failure? || e.value > |s| then Failure else Success(s[p..e.value])
  }

  method ToString(json: Reader, utf8: string -> Result<string>) returns (r: Result<string>)
    requires json.Valid()
    ensures r == TextOf(json.text, json.begin, json.level, utf8)
  {
    var t := json.GetType();
    if t.Failure? {
      return Failure;
    }
    if t.value == TypeString {
      r := ReadString(json, utf8);
      return;
    }
    var pos := json.SkipElement();
    if pos.Failure? || pos.value > |json.text| {
      return Failure;
    }
    return Success(json.text[json.begin..pos.value]);
  }

  // --- one step on a printed value --------------------------------------------------------------------------------

  /** The child that a key names: the n-th item, or the value of the first member of that name. */
  function ChildOf(v: Value, key: Key, utf8: string -> Result<string>): (r: Option<nat>)
    ensures r.Some? ==> (v.Array? || v.Object?) && r.value < Count(v)
  {
    match key
    case Nth(n) => if v.Array? && n < |v.items| then Some(n) else None
    case Name(name) =>
      if !v.Object? then None
      else
        var m := FirstMatch(v.members, 0, name, utf8);
        if m.Failure? then None else m.value
  }

  /** Where the value of the i-th child begins: behind the name and the colon in an object. */
  function ValueStart(v: Value, p: nat, i: nat): nat
    requires (v.Array? || v.Object?) && i < Count(v)
  {
    if v.Array? then ChildStart(v, p, i) else ChildStart(v, p, i) + |Quoted(v.members[i].name)| + 1
  }

  /** A step can go to the i-th child: there is a level left for it, and all children before it can be stepped over. */
  predicate Open(v: Value, level: nat, i: nat)
    requires (v.Array? || v.Object?) && i < Count(v)
  {
    ChildLevel(v, level) <= MAX_DEPTH && forall k :: 0 <= k < i ==> Steppable(v, level, k)
  }

  /** The value of a child is printed where ValueStart says. */
  lemma ValueAt(s: string, p: nat, v: Value, i: nat)
    requires (v.Array? || v.Object?) && Valid(v) && At(s, p, Print(v)) && i < Count(v)
    ensures var q := ValueStart(v, p, i);
            q < |s| && At(s, q, Print(ChildValue(v, i))) && Ends(s, q + |Print(ChildValue(v, i))|)
  {
    hide At, Print, Valid, Quoted, PrintMember, ChildStart;
    ChildAt(s, p, v, i);
    ChildValid(v, i);
    CommaEnds(s, ChildStart(v, p, i) + |ChildText(v, i)|);
    if v.Object? {
      MemberSplit(s, ChildStart(v, p, i), v.members[i]);
    }
    Nonempty(s, ValueStart(v, p, i), ChildValue(v, i));
  }

  lemma Nonempty(s: string, p: nat, v: Value)
    requires Valid(v) && At(s, p, Print(v))
    ensures p < |s|
  {
    hide PrintItems, PrintMembers, Body;
    assert |Print(v)| > 0;
  }

  /** getValue of a printed member is a reader at its value, one level down, or an exception at the depth limit. */
  lemma ValuePrinted(s: string, p: nat, level: nat, m: Member)
    requires ValidString(m.name) && Valid(m.value) && At(s, p, PrintMember(m))
    ensures ValueOf(s, p, level)
         == if level + 1 <= MAX_DEPTH then Success(Reader(s, p + |Quoted(m.name)| + 1, level + 1)) else Failure
  {
    hide At, Print, PrintMember, Valid, ValidString, Quoted, StringEnd, SlowString;
    MemberSplit(s, p, m);
    StringPrinted(s, p, m.name);
  }

  /** A value that is not an array does not look like one, nor like an object. */
  lemma OtherBracket(s: string, p: nat, v: Value)
    requires Valid(v) && At(s, p, Print(v))
    ensures p < |s|
    ensures !v.Array? ==> s[p] != '['
    ensures !v.Object? ==> s[p] != '{'
  {
    Nonempty(s, p, v);
    if v.Num? {
      assert s[p] == s[p..p + |Print(v)|][0];
    } else if v.Str? {
      assert s[p] == s[p..p + |Print(v)|][0];
    } else {
      hide At, Print;
      FirstLetter(s, p, v);
    }
  }

  /** operator[](n) on a printed value: the n-th item, if there is one and the step is open. */
  lemma NthPrinted(s: string, p: nat, level: nat, v: Value, n: nat)
    requires Valid(v) && At(s, p, Print(v)) && level <= MAX_DEPTH
    ensures p < |s|
    ensures var r := IndexOf(s, p, level, n);
            if v.Array? && n < |v.items| && Open(v, level, n) then r == Success(Some(ChildStart(v, p, n)))
            else r == Failure || r == Success(None)
  {
    hide At, Print, Valid, Steppable, ChildStart, BeginOf, StepTo, StepOver;
    OtherBracket(s, p, v);
    if v.Array? {
      hide IndexOf;
      IndexPrinted(s, p, level, v, n);
      if n < |v.items| {
        IndexIff(s, p, level, v, n);
      }
    }
  }

  /** operator[](name) on a printed value: the value of the first member of that name, two levels down, if there is
      one and the step is open. */
  lemma NamedPrinted(s: string, p: nat, level: nat, v: Value, name: string, utf8: string -> Result<string>)
    requires Valid(v) && At(s, p, Print(v)) && level <= MAX_DEPTH
    ensures p < |s|
    ensures var c := ChildOf(v, Name(name), utf8);
            NamedOf(s, p, level, name, utf8)
            == if c.Some? && Open(v, level, c.value) then Success(Reader(s, ValueStart(v, p, c.value), level + 2))
               else Failure
  {
    hide At, Print, Valid, Steppable, ChildStart, BeginOf, SearchFrom, ValueOf, FirstMatch, Quoted, PrintMember;
    OtherBracket(s, p, v);
    if v.Object? {
      hide FieldOf;
      FieldResult(s, p, level, v, name, utf8);
      var c := ChildOf(v, Name(name), utf8);
      if c.Some? {
        ChildAt(s, p, v, c.value);
        ChildValid(v, c.value);
        ValuePrinted(s, ChildStart(v, p, c.value), level + 1, v.members[c.value]);
      }
    }
  }

  lemma FieldResult(s: string, p: nat, level: nat, v: Value, name: string, utf8: string -> Result<string>)
    requires v.Object? && Valid(v) && At(s, p, Print(v)) && level <= MAX_DEPTH
    ensures p < |s|
    ensures var r, c := FieldOf(s, p, level, name, utf8), ChildOf(v, Name(name), utf8);
            if c.Some? && level < MAX_DEPTH && (forall k :: 0 <= k < c.value ==> Steppable(v, level, k))
            then r == Success(Some(ChildStart(v, p, c.value)))
            else r == Failure || r == Success(None)
  {
    hide At, Print, Valid, Steppable, ChildStart, FieldOf, FirstMatch, StepOver;
    FieldPrinted(s, p, level, v, name, utf8);
    if v.members != [] && level < MAX_DEPTH {
      MatchInPrefix(v.members, LastReached(v, level, 0) + 1, 0, name, utf8);
    } else {
      assert v.members == [] ==> FirstMatch(v.members, 0, name, utf8) == Success(None) by {
        FirstMatchIsFirst(v.members, 0, name, utf8);
      }
    }
  }

  /** A match among the first n members is the match among all. */
  lemma {:induction false} MatchInPrefix(members: seq<Member>, n: nat, i: nat, name: string,
                                         utf8: string -> Result<string>)
    requires i <= n <= |members|
    ensures var r, m := FirstMatch(members[..n], i, name, utf8), FirstMatch(members, i, name, utf8);
            && (r.Success? && r.value.Some? <==> m.Success? && m.value.Some? && m.value.value < n)
            && (r.Success? && r.value.Some? ==> r == m)
    decreases n - i
  {
    if i < n {
      MatchInPrefix(members, n, i + 1, name, utf8);
    }
  }

  /** One step of a path on a printed value. */
  lemma StepPrinted(s: string, p: nat, level: nat, v: Value, key: Key, utf8: string -> Result<string>)
    requires Valid(v) && At(s, p, Print(v)) && CanOpen(s, p, level)
    ensures var c := ChildOf(v, key, utf8);
            StepInto(Reader(s, p, level), key, utf8)
            == if c.Some? && Open(v, level, c.value)
               then Success(Reader(s, ValueStart(v, p, c.value), ChildLevel(v, level)))
               else Failure
  {
    hide At, Print, Valid, IndexOf, NamedOf, ChildStart, Quoted;
    match key
    case Nth(n) =>
      NthPrinted(s, p, level, v, n);
      if v.Array? && n < |v.items| {
        ValueAt(s, p, v, n);
      }
    case Name(name) => NamedPrinted(s, p, level, v, name, utf8);
  }

  // --- whole paths ----------------------------------------------------------------------------------------------

  /** A subvalue, where it is printed, and the level at which it is read. */
  datatype Place = Place(value: Value, begin: nat, level: nat)

  /** Where a path through a value printed at p leads, as long as every step is open. */
  function PlaceOf(v: Value, p: nat, level: nat, path: seq<Key>, utf8: string -> Result<string>): Option<Place>
    decreases |path|
  {
    if path == [] then Some(Place(v, p, level))
    else
      var c := ChildOf(v, path[0], utf8);
      if c.None? || !Open(v, level, c.value) then None
      else PlaceOf(ChildValue(v, c.value), ValueStart(v, p, c.value), ChildLevel(v, level), path[1..], utf8)
  }

  /** The reader follows a path through any printed value to exactly that place, and fails if there is none. */
  lemma {:induction false} FollowPrinted(s: string, p: nat, level: nat, v: Value, path: seq<Key>,
                                         utf8: string -> Result<string>)
    requires Valid(v) && At(s, p, Print(v)) && Ends(s, p + |Print(v)|) && CanOpen(s, p, level)
    ensures var to := PlaceOf(v, p, level, path, utf8);
            && Follow(Reader(s, p, level), path, utf8)
               == (if to.Some? then Success(Reader(s, to.value.begin, to.value.level)) else Failure)
            && (to.Some? ==>
                  && Valid(to.value.value) && CanOpen(s, to.value.begin, to.value.level)
                  && At(s, to.value.begin, Print(to.value.value))
                  && Ends(s, to.value.begin + |Print(to.value.value)|))
    decreases |path|
  {
    hide At, Print, Valid, StepInto, Open, ChildOf, ValueStart, Ends;
    if path != [] {
      StepPrinted(s, p, level, v, path[0], utf8);
      var c := ChildOf(v, path[0], utf8);
      if c.Some? && Open(v, level, c.value) {
        ValueAt(s, p, v, c.value);
        ChildValid(v, c.value);
        OpenLevel(v, level, c.value);
        FollowPrinted(s, ValueStart(v, p, c.value), ChildLevel(v, level), ChildValue(v, c.value), path[1..], utf8);
      }
    }
  }

  lemma OpenLevel(v: Value, level: nat, i: nat)
    requires (v.Array? || v.Object?) && i < Count(v) && Open(v, level, i)
    ensures ChildLevel(v, level) <= MAX_DEPTH
  {
  }

  /** The subvalue that a path names, on the value alone. */
  function Subvalue(v: Value, path: seq<Key>, utf8: string -> Result<string>): Option<Value>
    decreases |path|
  {
    if path == [] then Some(v)
    else
      var c := ChildOf(v, path[0], utf8);
      if c.None? then None else Subvalue(ChildValue(v, c.value), path[1..], utf8)
  }

  lemma {:induction false} ItemReadable(items: seq<Value>, level: nat, i: nat)
    requires ReadableItems(items, level) && i < |items|
    ensures Readable(items[i], level)
  {
    hide Readable, ReadableItems;
    ItemsStep(items, level);
    if i > 0 {
      ItemReadable(items[1..], level, i - 1);
    }
  }

  lemma {:induction false} MemberReadable(members: seq<Member>, level: nat, i: nat)
    requires ReadableMembers(members, level) && i < |members|
    ensures Readable(members[i].value, level)
  {
    hide Readable, ReadableMembers;
    MembersStep(members, level);
    if i > 0 {
      MemberReadable(members[1..], level, i - 1);
    }
  }

  /** In a readable value every step is open and leads to a readable value. */
  lemma ReadableOpen(v: Value, level: nat, i: nat)
    requires (v.Array? || v.Object?) && i < Count(v) && Readable(v, level)
    ensures Open(v, level, i) && Readable(ChildValue(v, i), ChildLevel(v, level))
  {
    forall k | 0 <= k <= i ensures Steppable(v, level, k) {
      if v.Array? {
        ItemReadable(v.items, level + 1, k);
      } else {
        MemberReadable(v.members, level + 2, k);
      }
    }
    assert Steppable(v, level, i);
  }

  /** In a readable value a path leads to the subvalue that it names. */
  lemma {:induction false} PlaceIsSubvalue(v: Value, p: nat, level: nat, path: seq<Key>, utf8: string -> Result<string>)
    requires Readable(v, level)
    ensures var to, sub := PlaceOf(v, p, level, path, utf8), Subvalue(v, path, utf8);
            && (to.Some? <==> sub.Some?)
            && (to.Some? ==> to.value.value == sub.value && Readable(sub.value, to.value.level))
    decreases |path|
  {
    hide Readable, Open, ChildOf, ValueStart;
    if path != [] {
      var c := ChildOf(v, path[0], utf8);
      if c.Some? {
        ReadableOpen(v, level, c.value);
        PlaceIsSubvalue(ChildValue(v, c.value), ValueStart(v, p, c.value), ChildLevel(v, level), path[1..], utf8);
      }
    }
  }

  // --- the text of a value ----------------------------------------------------------------------------------------

  /** toString of a printed string is the string it stands for. */
  lemma StringText(s: string, p: nat, level: nat, v: Value, utf8: string -> Result<string>)
    requires v.Str? && Valid(v) && At(s, p, Print(v)) && Ends(s, p + |Print(v)|)
    ensures p < |s| && TextOf(s, p, level, utf8) == Decoded(v.pieces, utf8)
  {
    hide At, Quoted, Decoded, Decode, Ends, TypeAt, ElementEnd;
    TypePrinted(s, p, v);
    QuotedSplit(s, p, v.pieces);
    DecodePrinted(s, p + 1, v.pieces, utf8);
  }

  /** toString of any other printed value is its text if and only if the value is readable. */
  lemma TextIff(s: string, p: nat, level: nat, v: Value, utf8: string -> Result<string>)
    requires !v.Str? && Valid(v) && At(s, p, Print(v)) && Ends(s, p + |Print(v)|) && level <= MAX_DEPTH
    ensures p < |s| && (TextOf(s, p, level, utf8) == Success(Print(v)) <==> Readable(v, level))
  {
    hide Print, Readable, TypeAt, ElementEnd, Ends;
    TypePrinted(s, p, v);
    SkipIff(s, p, level, v);
    var e := ElementEnd(s, p, level);
    if e.Success? && e.value <= |s| && s[p..e.value] == Print(v) {
      assert |s[p..e.value]| == e.value - p;
    }
  }

  /** What toString is meant to give. */
  function Meant(v: Value, utf8: string -> Result<string>): Result<string> {
    if v.Str? then Decoded(v.pieces, utf8) else Success(Print(v))
  }

  /** Going down a path in the text of a readable value and reading the text there gives the text of the subvalue
      that the path names; if there is none, it fails on the way. */
  lemma PathText(v: Value, path: seq<Key>, utf8: string -> Result<string>)
    requires Valid(v) && Readable(v, 0)
    ensures Print(v) != ""
    ensures var r, sub := Follow(Reader(Print(v), 0, 0), path, utf8), Subvalue(v, path, utf8);
            && (r.Success? <==> sub.Some?)
            && (r.Success? ==> TextOf(Print(v), r.value.begin, r.value.level, utf8) == Meant(sub.value, utf8))
  {
    hide Print, Valid, Readable, Follow, Subvalue, PlaceOf, TextOf;
    var s := Print(v);
    assert At(s, 0, s) by { assert s[0..0 + |s|] == s; }
    Nonempty(s, 0, v);
    FollowPrinted(s, 0, 0, v, path, utf8);
    PlaceIsSubvalue(v, 0, 0, path, utf8);
    var to := PlaceOf(v, 0, 0, path, utf8);
    if to.Some? {
      var at := to.value;
      if at.value.Str? {
        StringText(s, at.begin, at.level, at.value, utf8);
      } else {
        TextIff(s, at.begin, at.level, at.value, utf8);
      }
    }
  }
}
