/** JSON values, their text without whitespace (RFC 8259), and what the reader of base/base/JSON.cpp is
    meant to make of that text. */
module JsonText {
  import opened Arith
  import opened Decimal

  datatype Result<T> = Success(value: T) | Failure

  const MAX_DEPTH := 100

  predicate AllDigits(s: string) { forall i :: 0 <= i < |s| ==> IsDigit(s[i]) }

  // --- strings, section 7 -----------------------------------------------------------------------------------

  /** One character of a string as it is written. */
  datatype Piece = Plain(c: char) | Escaped(letter: char) | Unicode(hex: string) {
    predicate Valid() {
      match this
      case Plain(c) => c != '\"' && c != '\\'
      case Escaped(letter) => letter != 'u'
      case Unicode(hex) => |hex| == 4 && '\"' !in hex
    }

    function Written(): string {
      match this
      case Plain(c) => [c]
      case Escaped(letter) => ['\\', letter]
      case Unicode(hex) => ['\\', 'u'] + hex
    }

    /** What the piece stands for; \u sequences are converted by `utf8`. */
    function Decoded(utf8: string -> Result<string>): Result<string> {
      match this
      case Plain(c) => Success([c])
      case Escaped(letter) => Success([Unescaped(letter)])
      case Unicode(hex) => utf8(hex)
    }
  }

  function Unescaped(letter: char): char {
    match letter
    case 'b' => 8 as char
    case 'f' => 12 as char
    case 'n' => '\n'
    case 'r' => '\r'
    case 't' => '\t'
    case _ => letter
  }

  predicate ValidString(pieces: seq<Piece>) {
    forall i :: 0 <= i < |pieces| ==> pieces[i].Valid()
  }

  function Body(pieces: seq<Piece>): string {
    if pieces == [] then "" else pieces[0].Written() + Body(pieces[1..])
  }

  function Quoted(pieces: seq<Piece>): string {
    "\"" + Body(pieces) + "\""
  }

  function Decoded(pieces: seq<Piece>, utf8: string -> Result<string>): Result<string> {
    if pieces == [] then Success("")
    else Join(pieces[0].Decoded(utf8), Decoded(pieces[1..], utf8))
  }

  function Join(a: Result<string>, b: Result<string>): Result<string> {
    if a.Success? && b.Success? then Success(a.value + b.value) else Failure
  }

  // --- numbers, section 6 -----------------------------------------------------------------------------------

  datatype Exponent = NoExponent | Exponent(mark: char, sign: string, digits: string) {
    predicate Valid() {
      this.Exponent? ==>
        (mark == 'e' || mark == 'E') && (sign == "" || sign == "-" || sign == "+") && AllDigits(digits) && digits != ""
    }

    function Written(): string {
      if NoExponent? then "" else [mark] + sign + digits
    }
  }

  datatype Number = Number(negative: bool, whole: string, fraction: string, exponent: Exponent) {
    predicate Valid() {
      AllDigits(whole) && whole != "" && AllDigits(fraction) && exponent.Valid()
    }

    function Point(): string { if fraction == "" then "" else "." + fraction }

    function Mantissa(): string { (if negative then "-" else "") + whole + Point() }

    function Written(): string { Mantissa() + exponent.Written() }

    /** An exponent with an explicit plus sign. */
    predicate HasPlus() { exponent.Exponent? && exponent.sign == "+" }
  }

  // --- values -----------------------------------------------------------------------------------------------

  datatype Member = Member(name: seq<Piece>, value: Value)

  datatype Value =
    | Null
    | Bool(b: bool)
    | Num(number: Number)
    | Str(pieces: seq<Piece>)
    | Array(items: seq<Value>)
    | Object(members: seq<Member>)

  predicate Valid(v: Value)
    decreases v
  {
    match v
    case Num(n) => n.Valid()
    case Str(pieces) => ValidString(pieces)
    case Array(items) => forall i :: 0 <= i < |items| ==> Valid(items[i])
    case Object(members) => forall i :: 0 <= i < |members| ==> ValidString(members[i].name) && Valid(members[i].value)
    case _ => true
  }

  function Print(v: Value): string
    decreases v
  {
    match v
    case Null => "null"
    case Bool(b) => if b then "true" else "false"
    case Num(n) => n.Written()
    case Str(pieces) => Quoted(pieces)
    case Array(items) => if items == [] then "[]" else "[" + PrintItems(items) + "]"
    case Object(members) => if members == [] then "{}" else "{" + PrintMembers(members) + "}"
  }

  function PrintItems(items: seq<Value>): string
    requires items != []
    decreases items
  {
    if |items| == 1 then Print(items[0]) else Print(items[0]) + "," + PrintItems(items[1..])
  }

  function PrintMember(m: Member): string
    decreases m
  {
    Quoted(m.name) + ":" + Print(m.value)
  }

  function PrintMembers(members: seq<Member>): string
    requires members != []
    decreases members
  {
    if |members| == 1 then PrintMember(members[0]) else PrintMember(members[0]) + "," + PrintMembers(members[1..])
  }

  /** The levels below a value: one for a nested array, two for a member of an object. */
  function Depth(v: Value): nat
    decreases v
  {
    match v
    case Array(items) => if items == [] then 0 else 1 + DepthOfItems(items)
    case Object(members) => if members == [] then 0 else 2 + DepthOfMembers(members)
    case _ => 0
  }

  function DepthOfItems(items: seq<Value>): nat
    decreases items
  {
    if items == [] then 0 else Max(Depth(items[0]), DepthOfItems(items[1..]))
  }

  function DepthOfMembers(members: seq<Member>): nat
    decreases members
  {
    if members == [] then 0 else Max(Depth(members[0].value), DepthOfMembers(members[1..]))
  }

  /** An exponent with an explicit plus sign occurs somewhere. */
  predicate HasPlus(v: Value)
    decreases v
  {
    match v
    case Num(n) => n.HasPlus()
    case Array(items) => SomeItemHasPlus(items)
    case Object(members) => SomeMemberHasPlus(members)
    case _ => false
  }

  predicate SomeItemHasPlus(items: seq<Value>)
    decreases items
  {
    items != [] && (HasPlus(items[0]) || SomeItemHasPlus(items[1..]))
  }

  predicate SomeMemberHasPlus(members: seq<Member>)
    decreases members
  {
    members != [] && (HasPlus(members[0].value) || SomeMemberHasPlus(members[1..]))
  }

  /** The reader can step over the value: it is within the depth limit and has no plus sign. */
  predicate Readable(v: Value, level: nat) {
    !HasPlus(v) && level + Depth(v) <= MAX_DEPTH
  }

  // --- places in a text -------------------------------------------------------------------------------------

  /** The text has t at position p. */
  predicate At(s: string, p: nat, t: string) {
    p + |t| <= |s| && s[p..p + |t|] == t
  }

  /** The character at p does not carry on the element before it. */
  predicate Ends(s: string, p: nat) {
    p < |s| ==> !IsDigit(s[p]) && s[p] != '.' && s[p] != 'e' && s[p] != 'E' && s[p] != '-' && s[p] != ':'
  }

  lemma AtConcat(s: string, p: nat, a: string, b: string)
    ensures At(s, p, a + b) <==> At(s, p, a) && At(s, p + |a|, b)
  {
    if At(s, p, a + b) {
      assert s[p..p + |a|] == (a + b)[..|a|];
      assert s[p + |a|..p + |a| + |b|] == (a + b)[|a|..];
    }
    if At(s, p, a) && At(s, p + |a|, b) {
      assert s[p..p + |a + b|] == s[p..p + |a|] + s[p + |a|..p + |a| + |b|];
    }
  }

  lemma AtChar(s: string, p: nat, c: char)
    ensures At(s, p, [c]) <==> p < |s| && s[p] == c
  {
    if p < |s| {
      assert s[p..p + 1] == [s[p]];
    }
  }
}
