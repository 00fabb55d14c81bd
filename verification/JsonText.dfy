/** JSON values, the compact text that `FastWriter` gives them, and what `Reader`
    makes of a text. Comments are not part of the texts. */
module JsonText {
  import opened Bytes
  import opened JsonNumbers
  import opened JsonStrings
  import opened Wrappers

  /** Values may nest this deep. */
  const STACK_LIMIT: nat := 1000

  const COMMA: byte := 44
  const COLON: byte := 58
  const LEFT_BRACKET: byte := 91
  const RIGHT_BRACKET: byte := 93
  const LEFT_BRACE: byte := 123
  const RIGHT_BRACE: byte := 125
  const POINT: byte := 46
  const NEWLINE: byte := 10

  const TEXT_NULL: seq<byte> := [110, 117, 108, 108]
  const TEXT_TRUE: seq<byte> := [116, 114, 117, 101]
  const TEXT_FALSE: seq<byte> := [102, 97, 108, 115, 101]

  /** Objects are maps, their members in the order of the names. `Real` holds text
      that is left to floating-point conversion. */
  datatype Value =
    | Null
    | Bool(b: bool)
    | Int(i: int)
    | UInt(u: nat)
    | Real(text: seq<byte>)
    | Str(s: seq<byte>)
    | Arr(items: seq<Value>)
    | Obj(members: seq<Member>)

  datatype Member = Member(name: seq<byte>, value: Value)

  // ------------------------------------------------------------- writing

  function Text(v: Value): seq<byte> {
    match v
    case Null => TEXT_NULL
    case Bool(b) => if b then TEXT_TRUE else TEXT_FALSE
    case Int(i) => IntText(i)
    case UInt(u) => IntText(u)
    case Real(text) => text
    case Str(s) => Quoted(s, false)
    case Arr(items) => [LEFT_BRACKET] + Joined(Texts(items)) + [RIGHT_BRACKET]
    case Obj(members) => [LEFT_BRACE] + Joined(MemberTexts(members)) + [RIGHT_BRACE]
  }

  function Texts(items: seq<Value>): (r: seq<seq<byte>>)
    ensures |r| == |items| && forall k :: 0 <= k < |r| ==> r[k] == Text(items[k])
  {
    if items == [] then [] else [Text(items[0])] + Texts(items[1..])
  }

  function MemberTexts(members: seq<Member>): (r: seq<seq<byte>>)
    ensures |r| == |members| && forall k :: 0 <= k < |r| ==>
              r[k] == MemberText(Quoted(members[k].name, false), Text(members[k].value))
  {
    if members == [] then []
    else [MemberText(Quoted(members[0].name, false), Text(members[0].value))] + MemberTexts(members[1..])
  }

  function MemberText(quotedName: seq<byte>, value: seq<byte>): seq<byte> {
    quotedName + ([COLON] + value)
  }

  /** With commas in between. */
  function Joined(texts: seq<seq<byte>>): seq<byte> {
    if texts == [] then []
    else if |texts| == 1 then texts[0]
    else texts[0] + ([COMMA] + Joined(texts[1..]))
  }

  // ------------------------------------------------------------- tokens

  datatype Kind =
    | ObjectBegin | ObjectEnd | ArrayBegin | ArrayEnd | StringToken | NumberToken | TrueToken | FalseToken
    | NullToken | ArraySeparator | MemberSeparator | EndOfStream | ErrorToken

  /** A token, its text (for a string, what is between the quotes), and the rest of the input. */
  datatype Token = Token(kind: Kind, text: seq<byte>, rest: seq<byte>)

  predicate IsSpace(b: byte) {
    b == 32 || b == 9 || b == 13 || b == 10
  }

  function SkipSpaces(s: seq<byte>): (r: seq<byte>)
    ensures |r| <= |s|
  {
    if s != [] && IsSpace(s[0]) then SkipSpaces(s[1..]) else s
  }

  function CountDigits(s: seq<byte>): (n: nat)
    ensures n <= |s|
  {
    if s != [] && IsDigit(s[0]) then 1 + CountDigits(s[1..]) else 0
  }

  function CountFraction(s: seq<byte>): (n: nat)
    ensures n <= |s|
  {
    if s != [] && s[0] == POINT then 1 + CountDigits(s[1..]) else 0
  }

  function CountExponent(s: seq<byte>): (n: nat)
    ensures n <= |s|
  {
    if s != [] && (s[0] == 101 || s[0] == 69) then
      var k := if |s| > 1 && (s[1] == 43 || s[1] == MINUS) then 2 else 1;
      k + CountDigits(s[k..])
    else 0
  }

  /** The rest of a number after its first character: digits, a fraction, an exponent,
      each of them possibly empty. */
  function CountNumber(s: seq<byte>): (n: nat)
    ensures n <= |s|
  {
    var n := CountDigits(s);
    var m := n + CountFraction(s[n..]);
    m + CountExponent(s[m..])
  }

  predicate StartsWith(s: seq<byte>, pattern: seq<byte>) {
    |s| >= |pattern| && s[..|pattern|] == pattern
  }

  function Word(kind: Kind, word: seq<byte>, s: seq<byte>): (r: Token)
    requires s != [] && word != []
    ensures |r.rest| < |s|
  {
    if StartsWith(s[1..], word[1..]) then Token(kind, word, s[|word|..]) else Token(ErrorToken, s[..1], s[1..])
  }

  function ReadToken(s: seq<byte>): (r: Token)
    ensures |r.rest| <= |s| && (r.kind != EndOfStream ==> |r.rest| < |s|)
  {
    var t := SkipSpaces(s);
    if t == [] then Token(EndOfStream, [], []) else TokenAt(t)
  }

  function TokenAt(t: seq<byte>): (r: Token)
    requires t != []
    ensures |r.rest| < |t|
  {
    var single := Single(t[0]);
    if single.Some? then Token(single.value, t[..1], t[1..])
    else if t[0] == QUOTE then
      var n := ScanString(t[1..]);
      if n.None? then Token(ErrorToken, [], []) else Token(StringToken, t[1..n.value], t[1 + n.value..])
    else if IsDigit(t[0]) || t[0] == MINUS then
      var n := 1 + CountNumber(t[1..]);
      Token(NumberToken, t[..n], t[n..])
    else if t[0] == 116 then Word(TrueToken, TEXT_TRUE, t)
    else if t[0] == 102 then Word(FalseToken, TEXT_FALSE, t)
    else if t[0] == 110 then Word(NullToken, TEXT_NULL, t)
    else Token(ErrorToken, t[..1], t[1..])
  }

  /** The tokens of one character; a zero byte ends the stream. */
  function Single(b: byte): Option<Kind> {
    match b
    case 123 => Some(ObjectBegin)
    case 125 => Some(ObjectEnd)
    case 91 => Some(ArrayBegin)
    case 93 => Some(ArrayEnd)
    case 44 => Some(ArraySeparator)
    case 58 => Some(MemberSeparator)
    case 0 => Some(EndOfStream)
    case _ => None
  }

  // ------------------------------------------------------------- reading

  /** A value and the rest of the input, a reported error, or the exception about nesting. */
  datatype Outcome = Done(value: Value, rest: seq<byte>) | Failed | Exceeded

  /** The order of the names of an object: bytewise, shorter names first. */
  predicate Less(a: seq<byte>, b: seq<byte>) {
    b != [] && (a == [] || a[0] < b[0] || (a[0] == b[0] && Less(a[1..], b[1..])))
  }

  /** Set the member `name` of a map. */
  function Put(members: seq<Member>, name: seq<byte>, v: Value): seq<Member> {
    if members == [] then [Member(name, v)]
    else if members[0].name == name then [Member(name, v)] + members[1..]
    else if Less(name, members[0].name) then [Member(name, v)] + members
    else [members[0]] + Put(members[1..], name, v)
  }

  function NumberValue(text: seq<byte>): Value {
    match NumberOf(text, MAX_INT)
    case Int(i) => Value.Int(i)
    case UInt(u) => Value.UInt(u)
    case Double(t) => Real(t)
  }

  /** Read a value where `depth` values are open, this one included. */
  function ReadValue(s: seq<byte>, depth: nat): (r: Outcome)
    ensures r.Done? ==> |r.rest| < |s|
    decreases |s|, 0
  {
    if depth > STACK_LIMIT then Exceeded
    else
      var t := ReadToken(s);
      match t.kind
      case ObjectBegin => ReadMembers(t.rest, depth, [], true)
      case ArrayBegin =>
        var u := SkipSpaces(t.rest);
        if u != [] && u[0] == RIGHT_BRACKET then Done(Arr([]), u[1..]) else ReadItems(u, depth, [])
      case NumberToken => Done(NumberValue(t.text), t.rest)
      case StringToken =>
        var d := DecodeString(t.text);
        if d.None? then Failed else Done(Str(d.value), t.rest)
      case TrueToken => Done(Bool(true), t.rest)
      case FalseToken => Done(Bool(false), t.rest)
      case NullToken => Done(Null, t.rest)
      case _ => Failed
  }

  /** The items of an array from the next one on. */
  function ReadItems(s: seq<byte>, depth: nat, items: seq<Value>): (r: Outcome)
    ensures r.Done? ==> |r.rest| < |s|
    decreases |s|, 1
  {
    var v := ReadValue(s, depth + 1);
    if !v.Done? then v
    else
      var t := ReadToken(v.rest);
      match t.kind
      case ArraySeparator => ReadItems(t.rest, depth, items + [v.value])
      case ArrayEnd => Done(Arr(items + [v.value]), t.rest)
      case _ => Failed
  }

  /** The members of an object from the next one on. A closing brace may follow where
      the last name was empty, not only where there was none. */
  function ReadMembers(s: seq<byte>, depth: nat, members: seq<Member>, emptyName: bool): (r: Outcome)
    ensures r.Done? ==> |r.rest| < |s|
    decreases |s|, 1
  {
    var t := ReadToken(s);
    if t.kind == ObjectEnd && emptyName then Done(Obj(members), t.rest)
    else if t.kind != StringToken then Failed
    else
      var name := DecodeString(t.text);
      if name.None? then Failed
      else
        var colon := ReadToken(t.rest);
        if colon.kind != MemberSeparator then Failed
        else
          var v := ReadValue(colon.rest, depth + 1);
          if !v.Done? then v
          else
            var comma := ReadToken(v.rest);
            var after := Put(members, name.value, v.value);
            match comma.kind
            case ObjectEnd => Done(Obj(after), comma.rest)
            case ArraySeparator => ReadMembers(comma.rest, depth, after, name.value == [])
            case _ => Failed
  }

  /** What follows the value is of no interest. */
  function Parse(document: seq<byte>): Outcome {
    ReadValue(document, 1)
  }
}
