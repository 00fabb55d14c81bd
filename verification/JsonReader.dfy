/** The reader that advances through a document, and the writer that appends to one. */
module JsonReader {
  import opened Bytes
  import opened JsonNumbers
  import opened JsonStrings
  import opened Wrappers
  import opened JsonText
  import Utf8

  /** A value, a reported error, or the exception about nesting. */
  datatype Result = Success(value: Value) | Error | StackLimitExceeded

  /** What the specification says about a result, and where reading stops. */
  ghost predicate Agrees(r: Result, rest: seq<byte>, o: Outcome) {
    match o
    case Done(v, post) => r == Success(v) && rest == post
    case Failed => r == Error
    case Exceeded => r == StackLimitExceeded
  }

  // ------------------------------------------------------------- decoding strings

  /** Four hexadecimal digits from `current` on. */
  method DecodeUnicodeEscapeSequence(s: seq<byte>, current: nat) returns (unicode: Option<nat>)
    requires current <= |s|
    ensures unicode == DecodeHex(s[current..])
  {
    if |s| - current < 4 {
      return None;
    }
    var digits := s[current..current + 4];
    var value := 0;
    for index := 0 to 4
      invariant forall k: nat {:trigger digits[k]} :: k < index ==> HexValue(digits[k]).Some?
      invariant value == HexPrefix(digits, index)
    {
      var digit := HexValue(digits[index]);
      if digit.None? {
        return None;
      }
      value := value * 16 + digit.value;
    }
    FourDigits(digits, s[current..]);
    return Some(value);
  }

  lemma FourDigits(digits: seq<byte>, s: seq<byte>)
    requires |digits| == 4 <= |s| && digits == s[..4]
    requires forall k: nat {:trigger digits[k]} :: k < 4 ==> HexValue(digits[k]).Some?
    ensures DecodeHex(s) == Some(HexPrefix(digits, 4))
  {
    assert HexPrefix(digits, 1) == HexValue(digits[0]).value;
    assert HexPrefix(digits, 2) == HexValue(digits[0]).value * 16 + HexValue(digits[1]).value;
    assert HexPrefix(digits, 3) == HexPrefix(digits, 2) * 16 + HexValue(digits[2]).value;
  }

  /** The value of the first `n` digits. */
  ghost function HexPrefix(digits: seq<byte>, n: nat): nat
    requires n <= |digits| && forall k: nat {:trigger digits[k]} :: k < n ==> HexValue(digits[k]).Some?
  {
    if n == 0 then 0 else HexPrefix(digits, n - 1) * 16 + HexValue(digits[n - 1]).value
  }

  method DecodeCodePoint(s: seq<byte>, current: nat) returns (r: Option<Utf8.Step>)
    requires current <= |s|
    ensures r == DecodeUnicodeCodePoint(s[current..])
  {
    var unicode := DecodeUnicodeEscapeSequence(s, current);
    if unicode.None? {
      return None;
    }
    if 0xD800 <= unicode.value <= 0xDBFF {
      if |s| - (current + 4) < 6 || s[current + 4] != BACKSLASH || s[current + 5] != LETTER_U {
        return None;
      }
      var surrogatePair := DecodeUnicodeEscapeSequence(s, current + 6);
      if surrogatePair.None? {
        return None;
      }
      return Some(Utf8.Step(0x1_0000 + unicode.value % 0x400 * 0x400 + surrogatePair.value % 0x400, 10));
    }
    return Some(Utf8.Step(unicode.value, 4));
  }

  /** The meaning of the escape whose letter is at `current`. */
  method DecodeOneEscape(s: seq<byte>, current: nat) returns (r: Option<Chunk>)
    requires current <= |s|
    ensures r == DecodeEscape(s[current..])
  {
    if current == |s| {
      return None;
    }
    match s[current] {
      case 34 => return Some(Chunk([34], 1));
      case 47 => return Some(Chunk([47], 1));
      case 92 => return Some(Chunk([92], 1));
      case 98 => return Some(Chunk([8], 1));
      case 102 => return Some(Chunk([12], 1));
      case 110 => return Some(Chunk([10], 1));
      case 114 => return Some(Chunk([13], 1));
      case 116 => return Some(Chunk([9], 1));
      case 117 =>
        var r := DecodeCodePoint(s, current + 1);
        if r.None? {
          return None;
        }
        return Some(Chunk(Utf8.CodePointToUTF8(r.value.cp), 1 + r.value.used));
      case _ => return None;
    }
  }

  lemma PrependTwice(a: seq<byte>, b: seq<byte>, r: Option<seq<byte>>)
    ensures Prepend(a, Prepend(b, r)) == Prepend(a + b, r)
  {
    if r.Some? {
      assert a + (b + r.value) == a + b + r.value;
    }
  }

  /** With `decoded` so far, decoding the rest of `s` from `current` on gives `goal`. */
  ghost predicate Decoding(s: seq<byte>, current: nat, decoded: seq<byte>, goal: Option<seq<byte>>) {
    current <= |s| && forall rest {:trigger DecodeString(rest)} :: rest == s[current..] ==>
      Prepend(decoded, DecodeString(rest)) == goal
  }

  lemma DecodingStarts(s: seq<byte>)
    ensures Decoding(s, 0, [], DecodeString(s))
  {
    var goal := DecodeString(s);
    assert s[0..] == s && (goal.Some? ==> [] + goal.value == goal.value);
  }

  lemma RawDecodes(s: seq<byte>, current: nat, decoded: seq<byte>, goal: Option<seq<byte>>)
    requires Decoding(s, current, decoded, goal) && current < |s| && s[current] != QUOTE && s[current] != BACKSLASH
    ensures Decoding(s, current + 1, decoded + [s[current]], goal)
  {
    var rest := s[current..];
    assert Prepend(decoded, DecodeString(rest)) == goal && rest[1..] == s[current + 1..];
    PrependTwice(decoded, [s[current]], DecodeString(rest[1..]));
  }

  lemma EscapeDecodesOn(s: seq<byte>, current: nat, decoded: seq<byte>, goal: Option<seq<byte>>, r: Option<Chunk>)
    requires Decoding(s, current, decoded, goal) && current < |s| && s[current] == BACKSLASH &&
             r == DecodeEscape(s[current + 1..])
    ensures r.None? ==> goal == None
    ensures r.Some? ==> Decoding(s, current + 1 + r.value.used, decoded + r.value.text, goal)
  {
    var rest := s[current..];
    assert Prepend(decoded, DecodeString(rest)) == goal && rest[1..] == s[current + 1..];
    if r.Some? {
      EscapeDecodes(rest, r.value);
      PrependTwice(decoded, r.value.text, DecodeString(rest[1 + r.value.used..]));
      assert rest[1 + r.value.used..] == s[current + 1 + r.value.used..];
    }
  }

  lemma DecodingEnds(s: seq<byte>, current: nat, decoded: seq<byte>, goal: Option<seq<byte>>)
    requires Decoding(s, current, decoded, goal) && (current == |s| || s[current] == QUOTE)
    ensures goal == Some(decoded)
  {
    assert Prepend(decoded, DecodeString(s[current..])) == goal && decoded + [] == decoded;
  }

  /** Decode what is between the quotes. */
  method DecodeText(s: seq<byte>) returns (r: Option<seq<byte>>)
    ensures r == DecodeString(s)
  {
    var decoded: seq<byte> := [];
    var current := 0;
    ghost var goal := DecodeString(s);
    DecodingStarts(s);
    while current < |s| && s[current] != QUOTE
      invariant Decoding(s, current, decoded, goal)
    {
      if s[current] == BACKSLASH {
        var escape := DecodeOneEscape(s, current + 1);
        EscapeDecodesOn(s, current, decoded, goal, escape);
        if escape.None? {
          return None;
        }
        decoded := decoded + escape.value.text;
        current := current + 1 + escape.value.used;
      } else {
        RawDecodes(s, current, decoded, goal);
        decoded := decoded + [s[current]];
        current := current + 1;
      }
    }
    DecodingEnds(s, current, decoded, goal);
    return Some(decoded);
  }

  // ------------------------------------------------------------- reading one item or member

  /** With `items` read so far, at `s` reading comes to `o`. */
  ghost predicate ItemsCome(s: seq<byte>, depth: nat, items: seq<Value>, o: Outcome) {
    forall d: nat {:trigger ReadItems(s, d, items)} :: d == depth ==> ReadItems(s, d, items) == o
  }

  ghost predicate MembersCome(s: seq<byte>, depth: nat, members: seq<Member>, emptyName: bool, o: Outcome) {
    forall d: nat {:trigger ReadMembers(s, d, members, emptyName)} :: d == depth ==>
      ReadMembers(s, d, members, emptyName) == o
  }

  lemma ItemFails(s: seq<byte>, depth: nat, items: seq<Value>, o: Outcome)
    requires ItemsCome(s, depth, items, o)
    ensures !ReadValue(s, depth + 1).Done? ==> o == ReadValue(s, depth + 1)
  {
    assert ReadItems(s, depth, items) == o;
  }

  lemma ItemIsRead(s: seq<byte>, depth: nat, items: seq<Value>, v: Value, rest: seq<byte>, o: Outcome)
    requires ItemsCome(s, depth, items, o) && ReadValue(s, depth + 1) == Done(v, rest)
    ensures var t := JsonText.ReadToken(rest);
            && (t.kind == ArraySeparator ==> ItemsCome(t.rest, depth, items + [v], o))
            && (t.kind == ArrayEnd ==> o == Done(Arr(items + [v]), t.rest))
            && (t.kind != ArraySeparator && t.kind != ArrayEnd ==> o == Failed)
  {
    assert ReadItems(s, depth, items) == o;
  }

  /** The name at `s` is `name`, and the member's value is at `u`. */
  ghost predicate NameAndColon(s: seq<byte>, name: seq<byte>, u: seq<byte>) {
    var t := JsonText.ReadToken(s);
    && t.kind == Kind.StringToken && DecodeString(t.text) == Some(name)
    && JsonText.ReadToken(t.rest).kind == MemberSeparator && JsonText.ReadToken(t.rest).rest == u
  }

  lemma NoMember(s: seq<byte>, depth: nat, members: seq<Member>, emptyName: bool, o: Outcome)
    requires MembersCome(s, depth, members, emptyName, o)
    ensures var t := JsonText.ReadToken(s);
            && (t.kind == ObjectEnd && emptyName ==> o == Done(Obj(members), t.rest))
            && (t.kind != Kind.StringToken && !(t.kind == ObjectEnd && emptyName) ==> o == Failed)
            && (t.kind == Kind.StringToken && DecodeString(t.text).None? ==> o == Failed)
            && (t.kind == Kind.StringToken && JsonText.ReadToken(t.rest).kind != MemberSeparator ==> o == Failed)
  {
    assert ReadMembers(s, depth, members, emptyName) == o;
  }

  /** At `u` the value of the member `name` is next. */
  ghost predicate ValueComes(u: seq<byte>, name: seq<byte>, depth: nat, members: seq<Member>, o: Outcome) {
    match ReadValue(u, depth + 1)
    case Done(v, rest) =>
      var t := JsonText.ReadToken(rest);
      && (t.kind == ArraySeparator ==> MembersCome(t.rest, depth, Put(members, name, v), name == [], o))
      && (t.kind == ObjectEnd ==> o == Done(Obj(Put(members, name, v)), t.rest))
      && (t.kind != ArraySeparator && t.kind != ObjectEnd ==> o == Failed)
    case failure => o == failure
  }

  lemma MemberBegins(s: seq<byte>, name: seq<byte>, u: seq<byte>, depth: nat, members: seq<Member>, emptyName: bool,
                     o: Outcome)
    requires MembersCome(s, depth, members, emptyName, o) && NameAndColon(s, name, u)
    ensures ValueComes(u, name, depth, members, o)
  {
    assert ReadMembers(s, depth, members, emptyName) == o;
  }

  /** With `done` bytes passed, the search for the closing quote goes on in `rest` and
      comes to `goal`. */
  ghost predicate Scanning(goal: Option<nat>, done: nat, rest: seq<byte>) {
    forall r {:trigger ScanString(r)} :: r == rest ==> goal == Advance(done, ScanString(r))
  }

  lemma ScanStarts(s: seq<byte>)
    ensures Scanning(ScanString(s), 0, s)
  {
  }

  /** A step of the search; a lone backslash ends the document. */
  lemma ScanOn(goal: Option<nat>, done: nat, rest: seq<byte>)
    requires Scanning(goal, done, rest) && rest != []
    ensures rest[0] == QUOTE ==> goal == Some(done + 1)
    ensures rest[0] != QUOTE && rest[0] != BACKSLASH ==> Scanning(goal, done + 1, rest[1..])
    ensures rest[0] == BACKSLASH && |rest| >= 2 ==> Scanning(goal, done + 2, rest[2..])
    ensures rest[0] == BACKSLASH && |rest| == 1 ==> Scanning(goal, done + 1, [])
  {
    assert goal == Advance(done, ScanString(rest));
  }

  lemma ScanEnds(goal: Option<nat>, done: nat)
    requires Scanning(goal, done, [])
    ensures goal == None
  {
    assert goal == Advance(done, ScanString([]));
  }

  lemma NumberParts(s: seq<byte>, n: nat, m: nat)
    requires n == CountDigits(s) && m == n + CountFraction(s[n..])
    ensures CountNumber(s) == m + CountExponent(s[m..])
  {
  }

  class Reader {
    const document: seq<byte>
    var current: nat
    var nodes: nat   // how many values are open

    ghost predicate Valid()
      reads this
    {
      current <= |document|
    }

    ghost function Rest(): seq<byte>
      requires Valid()
      reads this
    {
      document[current..]
    }

    constructor (text: seq<byte>)
      ensures Valid() && document == text && current == 0 && nodes == 1
    {
      document, current, nodes := text, 0, 1;
    }

    // ----------------------------------------------------------- tokens

    method SkipSpaces()
      requires Valid()
      modifies this`current
      ensures Valid() && Rest() == JsonText.SkipSpaces(old(Rest())) && current >= old(current)
    {
      while current < |document|
        invariant old(current) <= current <= |document|
        invariant JsonText.SkipSpaces(Rest()) == JsonText.SkipSpaces(old(Rest()))
      {
        if !IsSpace(document[current]) {
          break;
        }
        current := current + 1;
      }
    }

    method GetNextChar() returns (c: byte)
      requires Valid()
      modifies this`current
      ensures Valid()
      ensures if old(Rest()) == [] then c == 0 && Rest() == [] && current == old(current)
              else c == old(Rest())[0] && Rest() == old(Rest())[1..] && current == old(current) + 1
    {
      if current == |document| {
        return 0;
      }
      c := document[current];
      current := current + 1;
    }

    method Match(pattern: seq<byte>) returns (ok: bool)
      requires Valid()
      modifies this`current
      ensures Valid() && ok == StartsWith(old(Rest()), pattern)
      ensures current == if ok then old(current) + |pattern| else old(current)
    {
      if |document| - current < |pattern| {
        return false;
      }
      var index := |pattern|;
      while index > 0
        invariant 0 <= index <= |pattern| && forall k :: index <= k < |pattern| ==> document[current + k] == pattern[k]
      {
        index := index - 1;
        if document[current + index] != pattern[index] {
          return false;
        }
      }
      assert document[current..][..|pattern|] == pattern;
      current := current + |pattern|;
      return true;
    }

    /** To the end of the string that began before `current`. */
    method ReadString() returns (ok: bool)
      requires Valid()
      modifies this`current
      ensures Valid() && current >= old(current)
      ensures match ScanString(old(Rest()))
              case None => !ok && current == |document|
              case Some(n) => ok && current == old(current) + n
    {
      ghost var start, goal := current, ScanString(Rest());
      ScanStarts(Rest());
      var c: byte := 0;
      while current < |document|
        invariant start <= current <= |document|
        invariant c != QUOTE && Scanning(goal, current - start, Rest())
        decreases |document| - current
      {
        ScanOn(goal, current - start, Rest());
        c := GetNextChar();
        if c == BACKSLASH {
          var _ := GetNextChar();
        } else if c == QUOTE {
          break;
        }
      }
      if c != QUOTE {
        ScanEnds(goal, current - start);
      }
      return c == QUOTE;
    }

    method SkipDigits()
      requires Valid()
      modifies this`current
      ensures Valid() && current == old(current) + CountDigits(old(Rest()))
    {
      while current < |document| && IsDigit(document[current])
        invariant old(current) <= current <= |document|
        invariant CountDigits(old(Rest())) == current - old(current) + CountDigits(Rest())
      {
        current := current + 1;
      }
    }

    method SkipFraction()
      requires Valid()
      modifies this`current
      ensures Valid() && current == old(current) + CountFraction(old(Rest()))
    {
      if current < |document| && document[current] == POINT {
        current := current + 1;
        SkipDigits();
      }
    }

    method SkipExponent()
      requires Valid()
      modifies this`current
      ensures Valid() && current == old(current) + CountExponent(old(Rest()))
    {
      if current < |document| && (document[current] == 101 || document[current] == 69) {
        current := current + 1;
        if current < |document| && (document[current] == 43 || document[current] == MINUS) {
          current := current + 1;
        }
        SkipDigits();
      }
    }

    /** Over the rest of a number whose first character was read. */
    method ReadNumber()
      requires Valid()
      modifies this`current
      ensures Valid() && current == old(current) + CountNumber(old(Rest()))
    {
      ghost var s, start := Rest(), current;
      SkipDigits();
      ghost var n := current - start;
      assert Rest() == s[n..];
      SkipFraction();
      ghost var m := current - start;
      assert Rest() == s[m..];
      NumberParts(s, n, m);
      SkipExponent();
    }

    /** A token, from `start` to `end` in the document. */
    ghost predicate IsToken(kind: Kind, start: nat, end: nat, t: Token)
      requires Valid()
      reads this
    {
      && kind == t.kind && start <= end == current && Rest() == t.rest
      && (kind == Kind.StringToken ==> start + 2 <= end && document[start + 1..end - 1] == t.text)
      && (kind == Kind.NumberToken ==> document[start..end] == t.text)
    }

    method ReadToken() returns (kind: Kind, start: nat, end: nat)
      requires Valid()
      modifies this`current
      ensures Valid() && current >= old(current) && IsToken(kind, start, end, JsonText.ReadToken(old(Rest())))
    {
      SkipSpaces();
      if current == |document| {
        return EndOfStream, current, current;
      }
      kind, start, end := ReadTokenHere();
    }

    method ReadTokenHere() returns (kind: Kind, start: nat, end: nat)
      requires Valid() && Rest() != []
      modifies this`current
      ensures Valid() && current >= old(current) && IsToken(kind, start, end, TokenAt(old(Rest())))
    {
      ghost var t := Rest();
      start := current;
      var c := GetNextChar();
      var single := Single(c);
      if single.Some? {
        kind := single.value;
      } else if c == QUOTE {
        kind := ReadStringToken(t);
      } else if IsDigit(c) || c == MINUS {
        kind := ReadNumberToken(t);
      } else {
        kind := ReadWord(c, t);
      }
      end := current;
    }

    method ReadStringToken(ghost t: seq<byte>) returns (kind: Kind)
      requires Valid() && t != [] && t[0] == QUOTE && 0 < current && t == document[current - 1..]
      modifies this`current
      ensures Valid() && current >= old(current) && IsToken(kind, old(current) - 1, current, TokenAt(t))
    {
      ghost var start := current;
      assert Rest() == t[1..];
      var ok := ReadString();
      if ok {
        assert document[start..current - 1] == t[1..current - start];
        return Kind.StringToken;
      }
      return ErrorToken;
    }

    method ReadNumberToken(ghost t: seq<byte>) returns (kind: Kind)
      requires Valid() && t != [] && (IsDigit(t[0]) || t[0] == MINUS) && 0 < current && t == document[current - 1..]
      modifies this`current
      ensures Valid() && current >= old(current) && IsToken(kind, old(current) - 1, current, TokenAt(t))
    {
      ghost var start := current - 1;
      assert Rest() == t[1..];
      ReadNumber();
      assert document[start..current] == t[..current - start];
      return Kind.NumberToken;
    }

    method ReadWord(c: byte, ghost t: seq<byte>) returns (kind: Kind)
      requires Valid() && t != [] && t[0] == c && Rest() == t[1..] && Single(c).None? && c != QUOTE && !IsDigit(c) &&
               c != MINUS
      modifies this`current
      ensures Valid() && current >= old(current) && kind != Kind.StringToken && kind != Kind.NumberToken
      ensures c == 116 ==> kind == Word(TrueToken, TEXT_TRUE, t).kind && Rest() == Word(TrueToken, TEXT_TRUE, t).rest
      ensures c == 102 ==>
                kind == Word(FalseToken, TEXT_FALSE, t).kind && Rest() == Word(FalseToken, TEXT_FALSE, t).rest
      ensures c == 110 ==> kind == Word(NullToken, TEXT_NULL, t).kind && Rest() == Word(NullToken, TEXT_NULL, t).rest
      ensures c != 116 && c != 102 && c != 110 ==> kind == ErrorToken && Rest() == t[1..]
    {
      var ok := false;
      if c == 116 {
        ok := Match([114, 117, 101]);
        kind := TrueToken;
      } else if c == 102 {
        ok := Match([97, 108, 115, 101]);
        kind := FalseToken;
      } else if c == 110 {
        ok := Match([117, 108, 108]);
        kind := NullToken;
      }
      if !ok {
        kind := ErrorToken;
      }
    }

    // ----------------------------------------------------------- values

    method DecodeNumberToken(start: nat, end: nat) returns (v: Value)
      requires start <= end <= |document|
      ensures v == NumberValue(document[start..end])
    {
      var n := DecodeNumber(document[start..end]);
      match n {
        case Int(i) => return Value.Int(i);
        case UInt(u) => return Value.UInt(u);
        case Double(text) => return Real(text);
      }
    }

    method ReadValue() returns (r: Result)
      requires Valid()
      modifies this
      ensures Valid() && current >= old(current) && (r != StackLimitExceeded ==> nodes == old(nodes))
      ensures Agrees(r, Rest(), JsonText.ReadValue(old(Rest()), old(nodes)))
      decreases |document| - current, 0
    {
      if nodes > STACK_LIMIT {
        return StackLimitExceeded;
      }
      ghost var o := JsonText.ReadValue(Rest(), nodes);
      var kind, start, end := ReadToken();
      match kind {
        case ObjectBegin => r := ReadObject(o);
        case ArrayBegin => r := ReadArray(o);
        case NumberToken =>
          var v := DecodeNumberToken(start, end);
          r := Success(v);
        case StringToken =>
          var text := DecodeText(document[start + 1..end - 1]);
          r := if text.Some? then Success(Str(text.value)) else Error;
        case TrueToken => r := Success(Bool(true));
        case FalseToken => r := Success(Bool(false));
        case NullToken => r := Success(Null);
        case _ => r := Error;
      }
    }

    /** A value inside the one being read. */
    method ReadInner() returns (r: Result)
      requires Valid()
      modifies this
      ensures Valid() && current >= old(current) && (r != StackLimitExceeded ==> nodes == old(nodes))
      ensures Agrees(r, Rest(), JsonText.ReadValue(old(Rest()), old(nodes) + 1))
      ensures r.Success? ==> current > old(current)
      decreases |document| - current, 1
    {
      nodes := nodes + 1;
      r := ReadValue();
      if r != StackLimitExceeded {
        nodes := nodes - 1;
      }
    }

    /** After the opening bracket. */
    method ReadArray(ghost o: Outcome) returns (r: Result)
      requires Valid()
      requires var u := JsonText.SkipSpaces(Rest());
               if u != [] && u[0] == RIGHT_BRACKET then o == Done(Arr([]), u[1..]) else ItemsCome(u, nodes, [], o)
      modifies this
      ensures Valid() && current >= old(current) && (r != StackLimitExceeded ==> nodes == old(nodes))
      ensures Agrees(r, Rest(), o)
      decreases |document| - current, 3
    {
      SkipSpaces();
      if current < |document| && document[current] == RIGHT_BRACKET {
        current := current + 1;
        return Success(Arr([]));
      }
      var items: seq<Value> := [];
      while true
        invariant Valid() && current >= old(current) && nodes == old(nodes)
        invariant ItemsCome(Rest(), nodes, items, o)
        decreases |document| - current
      {
        var more, result := ReadItem(items, o);
        if !more {
          return result;
        }
        items := items + [result.value];
      }
    }

    /** One item and the token behind it; `more` says that it is a comma. */
    method ReadItem(items: seq<Value>, ghost o: Outcome) returns (more: bool, r: Result)
      requires Valid() && ItemsCome(Rest(), nodes, items, o)
      modifies this
      ensures Valid() && current >= old(current) && (r != StackLimitExceeded ==> nodes == old(nodes))
      ensures more ==> r.Success? && current > old(current) && ItemsCome(Rest(), nodes, items + [r.value], o)
      ensures !more ==> Agrees(r, Rest(), o)
      decreases |document| - current, 2
    {
      ghost var s := Rest();
      ItemFails(s, nodes, items, o);
      r := ReadInner();
      if !r.Success? {
        return false, r;
      }
      ItemIsRead(s, nodes, items, r.value, Rest(), o);
      var kind, _, _ := ReadToken();
      if kind == ArrayEnd {
        return false, Success(Arr(items + [r.value]));
      }
      if kind != ArraySeparator {
        return false, Error;
      }
      more := true;
    }

    /** After the opening brace. */
    method ReadObject(ghost o: Outcome) returns (r: Result)
      requires Valid() && MembersCome(Rest(), nodes, [], true, o)
      modifies this
      ensures Valid() && current >= old(current) && (r != StackLimitExceeded ==> nodes == old(nodes))
      ensures Agrees(r, Rest(), o)
      decreases |document| - current, 3
    {
      var members: seq<Member> := [];
      var emptyName := true;
      while true
        invariant Valid() && current >= old(current) && nodes == old(nodes)
        invariant MembersCome(Rest(), nodes, members, emptyName, o)
        decreases |document| - current
      {
        var more, name, result := ReadMember(members, emptyName, o);
        if !more {
          return result;
        }
        members := Put(members, name, result.value);
        emptyName := name == [];
      }
    }

    /** One member, or the end of the object, and the token behind it. */
    method ReadMember(members: seq<Member>, emptyName: bool, ghost o: Outcome)
      returns (more: bool, name: seq<byte>, r: Result)
      requires Valid() && MembersCome(Rest(), nodes, members, emptyName, o)
      modifies this
      ensures Valid() && current >= old(current) && (r != StackLimitExceeded ==> nodes == old(nodes))
      ensures more ==>
                && r.Success? && current > old(current)
                && MembersCome(Rest(), nodes, Put(members, name, r.value), name == [], o)
      ensures !more ==> Agrees(r, Rest(), o)
      decreases |document| - current, 2
    {
      more, name := false, [];
      ghost var s := Rest();
      NoMember(s, nodes, members, emptyName, o);
      var kind, start, end := ReadToken();
      if kind == ObjectEnd && emptyName {
        return more, name, Success(Obj(members));
      }
      if kind != Kind.StringToken {
        return more, name, Error;
      }
      var decoded := DecodeText(document[start + 1..end - 1]);
      if decoded.None? {
        return more, name, Error;
      }
      name := decoded.value;
      kind, start, end := ReadToken();
      if kind != MemberSeparator {
        return more, name, Error;
      }
      MemberBegins(s, name, Rest(), nodes, members, emptyName, o);
      more, r := ReadMemberValue(name, members, o);
    }

    method ReadMemberValue(name: seq<byte>, members: seq<Member>, ghost o: Outcome) returns (more: bool, r: Result)
      requires Valid() && ValueComes(Rest(), name, nodes, members, o)
      modifies this
      ensures Valid() && current >= old(current) && (r != StackLimitExceeded ==> nodes == old(nodes))
      ensures more ==>
                && r.Success? && current > old(current)
                && MembersCome(Rest(), nodes, Put(members, name, r.value), name == [], o)
      ensures !more ==> Agrees(r, Rest(), o)
      decreases |document| - current, 2
    {
      r := ReadInner();
      if !r.Success? {
        return false, r;
      }
      var kind, _, _ := ReadToken();
      if kind == ObjectEnd {
        return false, Success(Obj(Put(members, name, r.value)));
      }
      if kind != ArraySeparator {
        return false, Error;
      }
      more := true;
    }
  }

  method ParseDocument(document: seq<byte>) returns (r: Result)
    ensures match Parse(document)
            case Done(v, _) => r == Success(v)
            case Failed => r == Error
            case Exceeded => r == StackLimitExceeded
  {
    var reader := new Reader(document);
    assert reader.Rest() == document;
    r := reader.ReadValue();
  }
}
