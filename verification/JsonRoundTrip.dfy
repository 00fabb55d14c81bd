/** Reading what the compact writer wrote gives back the value. */
module JsonRoundTrip {
  import opened Bytes
  import opened JsonNumbers
  import opened JsonStrings
  import opened Wrappers
  import opened JsonText
  import Utf8

  // ------------------------------------------------------------- the values in question

  /** The names of an object are those of a map: in strict order. */
  predicate Ascending(members: seq<Member>) {
    forall i, j :: 0 <= i < j < |members| ==> Less(members[i].name, members[j].name)
  }

  /** Integers of 64 bits, well-formed strings and no numbers with a fraction. */
  predicate Plain(v: Value) {
    match v
    case Null => true
    case Bool(_) => true
    case Int(i) => MIN_LARGEST_INT <= i <= MAX_LARGEST_INT
    case UInt(u) => u <= MAX_LARGEST_UINT
    case Real(_) => false
    case Str(s) => Utf8.Valid(s)
    case Arr(items) => forall k :: 0 <= k < |items| ==> Plain(items[k])
    case Obj(members) => Ascending(members) && forall k :: 0 <= k < |members| ==>
      Utf8.Valid(members[k].name) && Plain(members[k].value)
  }

  /** The same value, its integers of the signed kind up to 2^31 - 1 and of the
      unsigned kind above. */
  function Canonical(v: Value): Value {
    match v
    case Int(i) => if i <= MAX_INT then v else Value.UInt(i)
    case UInt(u) => if u <= MAX_INT then Value.Int(u) else v
    case Arr(items) => Arr(CanonicalItems(items))
    case Obj(members) => Obj(CanonicalMembers(members))
    case _ => v
  }

  function CanonicalItems(items: seq<Value>): (r: seq<Value>)
    ensures |r| == |items| && forall k :: 0 <= k < |r| ==> r[k] == Canonical(items[k])
  {
    if items == [] then [] else [Canonical(items[0])] + CanonicalItems(items[1..])
  }

  function CanonicalMembers(members: seq<Member>): (r: seq<Member>)
    ensures |r| == |members| && forall k :: 0 <= k < |r| ==>
              r[k] == Member(members[k].name, Canonical(members[k].value))
  {
    if members == [] then []
    else [Member(members[0].name, Canonical(members[0].value))] + CanonicalMembers(members[1..])
  }

  /** How many values are open at once while this one is read. */
  function Depth(v: Value): nat {
    match v
    case Arr(items) => 1 + Largest(Depths(items))
    case Obj(members) => 1 + Largest(MemberDepths(members))
    case _ => 1
  }

  function Depths(items: seq<Value>): (r: seq<nat>)
    ensures |r| == |items| && forall k :: 0 <= k < |r| ==> r[k] == Depth(items[k])
  {
    if items == [] then [] else [Depth(items[0])] + Depths(items[1..])
  }

  function MemberDepths(members: seq<Member>): (r: seq<nat>)
    ensures |r| == |members| && forall k :: 0 <= k < |r| ==> r[k] == Depth(members[k].value)
  {
    if members == [] then [] else [Depth(members[0].value)] + MemberDepths(members[1..])
  }

  function Max(a: nat, b: nat): nat {
    if a < b then b else a
  }

  function Largest(s: seq<nat>): nat {
    if s == [] then 0 else Max(s[0], Largest(s[1..]))
  }

  // ------------------------------------------------------------- tokens of written text

  /** What may follow a value in written text. */
  predicate Ends(post: seq<byte>) {
    post == [] || post[0] == COMMA || post[0] == RIGHT_BRACKET || post[0] == RIGHT_BRACE || post[0] == NEWLINE
  }

  lemma {:induction false} DigitsAreCounted(s: seq<byte>, post: seq<byte>)
    requires AllDigits(s) && (post == [] || !IsDigit(post[0]))
    ensures CountDigits(s + post) == |s|
  {
    if s == [] {
      assert s + post == post;
    } else {
      assert (s + post)[1..] == s[1..] + post;
      DigitsAreCounted(s[1..], post);
    }
  }

  lemma NumberIsCounted(s: seq<byte>, post: seq<byte>)
    requires AllDigits(s) && Ends(post)
    ensures CountNumber(s + post) == |s|
  {
    DigitsAreCounted(s, post);
    assert (s + post)[|s|..] == post;
  }

  lemma NumberToken(t: seq<byte>, post: seq<byte>)
    requires t != [] && (IsDigit(t[0]) || t[0] == MINUS) && AllDigits(t[1..]) && Ends(post)
    ensures ReadToken(t + post) == Token(Kind.NumberToken, t, post)
  {
    var s := t + post;
    assert s[1..] == t[1..] + post;
    NumberIsCounted(t[1..], post);
    assert s[..|t|] == t && s[|t|..] == post;
  }

  lemma StringToken(e: seq<byte>, post: seq<byte>)
    requires Passes(e)
    ensures ReadToken([QUOTE] + e + [QUOTE] + post) == Token(Kind.StringToken, e, post)
  {
    var s := [QUOTE] + e + [QUOTE] + post;
    assert s[1..] == e + ([QUOTE] + post);
    assert ScanString([QUOTE] + post) == Some(1);
    assert s[1..|e| + 1] == e && s[1 + (|e| + 1)..] == post;
  }

  /** Punctuation and the first letters of words. */
  lemma Punctuation(b: byte, post: seq<byte>)
    ensures b == COMMA ==> ReadToken([b] + post) == Token(ArraySeparator, [b], post)
    ensures b == COLON ==> ReadToken([b] + post) == Token(MemberSeparator, [b], post)
    ensures b == LEFT_BRACKET ==> ReadToken([b] + post) == Token(ArrayBegin, [b], post)
    ensures b == RIGHT_BRACKET ==> ReadToken([b] + post) == Token(ArrayEnd, [b], post)
    ensures b == LEFT_BRACE ==> ReadToken([b] + post) == Token(ObjectBegin, [b], post)
    ensures b == RIGHT_BRACE ==> ReadToken([b] + post) == Token(ObjectEnd, [b], post)
  {
    assert ([b] + post)[1..] == post && ([b] + post)[..1] == [b];
  }

  lemma WordToken(b: byte, post: seq<byte>)
    ensures b == 116 ==> ReadToken(TEXT_TRUE + post) == Token(TrueToken, TEXT_TRUE, post)
    ensures b == 102 ==> ReadToken(TEXT_FALSE + post) == Token(FalseToken, TEXT_FALSE, post)
    ensures b == 110 ==> ReadToken(TEXT_NULL + post) == Token(NullToken, TEXT_NULL, post)
  {
    if b == 116 {
      WordIsRead(TrueToken, TEXT_TRUE, post);
    } else if b == 102 {
      WordIsRead(FalseToken, TEXT_FALSE, post);
    } else if b == 110 {
      WordIsRead(NullToken, TEXT_NULL, post);
    }
  }

  lemma WordIsRead(kind: Kind, word: seq<byte>, post: seq<byte>)
    requires word != []
    ensures Word(kind, word, word + post) == Token(kind, word, post)
  {
    var s := word + post;
    assert s[1..][..|word| - 1] == word[1..] && s[|word|..] == post;
  }

  // ------------------------------------------------------------- names

  lemma {:induction false} LessIsTotal(a: seq<byte>, b: seq<byte>)
    ensures !(Less(a, b) && Less(b, a)) && !Less(a, a)
  {
    if a != [] && b != [] && a[0] == b[0] {
      LessIsTotal(a[1..], b[1..]);
    }
    if a != [] {
      LessIsTotal(a[1..], a[1..]);
    }
  }

  /** A name above all others goes to the end. */
  lemma {:induction false} PutLast(members: seq<Member>, name: seq<byte>, v: Value)
    requires forall k :: 0 <= k < |members| ==> Less(members[k].name, name)
    ensures Put(members, name, v) == members + [Member(name, v)]
  {
    if members != [] {
      LessIsTotal(members[0].name, name);
      LessIsTotal(name, name);
      PutLast(members[1..], name, v);
    }
  }

  // ------------------------------------------------------------- reading parts

  /** What reading at a given depth comes to: a value that opens `n` values at once is
      read if that many fit, and otherwise the exception is thrown. */
  function Expected(v: Value, depth: nat, n: nat, post: seq<byte>): Outcome {
    if depth + n <= STACK_LIMIT + 1 then Done(v, post) else Exceeded
  }

  /** Wherever the text `t` is met, it is read whole and nothing else is, and it gives
      `v`, opening `n` values at once. */
  ghost predicate Gives(t: seq<byte>, v: Value, n: nat) {
    forall post, depth {:trigger ReadValue(t + post, depth)} ::
      Ends(post) ==> ReadValue(t + post, depth) == Expected(v, depth, n, post)
  }

  ghost predicate Begins(t: seq<byte>) {
    t != [] && !IsSpace(t[0]) && t[0] != RIGHT_BRACKET
  }

  /** The texts of the items of an array. */
  ghost predicate AllGive(texts: seq<seq<byte>>, values: seq<Value>, depths: seq<nat>) {
    && |texts| == |values| == |depths|
    && (forall k {:trigger Gives(texts[k], values[k], depths[k])} :: 0 <= k < |texts| ==>
        Gives(texts[k], values[k], depths[k]))
    && forall k {:trigger Begins(texts[k])} :: 0 <= k < |texts| ==> Begins(texts[k])
  }

  /** Whatever was read before, at `s` the reader adds the items `tail`. */
  ghost predicate ItemsGive(s: seq<byte>, depth: nat, tail: seq<Value>, n: nat, post: seq<byte>) {
    forall before {:trigger ReadItems(s, depth, before)} ::
      ReadItems(s, depth, before) == Expected(Arr(before + tail), depth, n, post)
  }

  lemma ItemsGoOn(s: seq<byte>, v: Value, rest: seq<byte>, depth: nat, items: seq<Value>)
    requires ReadValue(s, depth + 1) == Done(v, [COMMA] + rest)
    ensures ReadItems(s, depth, items) == ReadItems(rest, depth, items + [v])
  {
    Punctuation(COMMA, rest);
  }

  lemma ItemsEnd(s: seq<byte>, v: Value, post: seq<byte>, depth: nat, items: seq<Value>)
    requires ReadValue(s, depth + 1) == Done(v, [RIGHT_BRACKET] + post)
    ensures ReadItems(s, depth, items) == Done(Arr(items + [v]), post)
  {
    Punctuation(RIGHT_BRACKET, post);
  }

  lemma NextItem(s: seq<byte>, t: seq<byte>, v: Value, d: nat, rest: seq<byte>, tail: seq<Value>, n: nat,
                 post: seq<byte>, depth: nat)
    requires s == t + ([COMMA] + rest) && Gives(t, v, d) && ItemsGive(rest, depth, tail, 1 + n, post)
    ensures ItemsGive(s, depth, [v] + tail, 1 + Max(d, n), post)
  {
    forall before
      ensures ReadItems(s, depth, before) == Expected(Arr(before + ([v] + tail)), depth, 1 + Max(d, n), post)
    {
      if depth + 1 + d <= STACK_LIMIT + 1 {
        ItemsGoOn(s, v, rest, depth, before);
        assert before + [v] + tail == before + ([v] + tail);
      }
    }
  }

  lemma LastItem(s: seq<byte>, t: seq<byte>, v: Value, d: nat, post: seq<byte>, depth: nat)
    requires s == t + ([RIGHT_BRACKET] + post) && Gives(t, v, d)
    ensures ItemsGive(s, depth, [v], 1 + d, post)
  {
    forall before
      ensures ReadItems(s, depth, before) == Expected(Arr(before + [v]), depth, 1 + d, post)
    {
      if depth + 1 + d <= STACK_LIMIT + 1 {
        ItemsEnd(s, v, post, depth, before);
      }
    }
  }

  lemma RestGives(texts: seq<seq<byte>>, values: seq<Value>, depths: seq<nat>)
    requires texts != [] && AllGive(texts, values, depths)
    ensures Gives(texts[0], values[0], depths[0]) && AllGive(texts[1..], values[1..], depths[1..])
  {
    forall k | 0 <= k < |texts| - 1
      ensures Gives(texts[1..][k], values[1..][k], depths[1..][k]) && Begins(texts[1..][k])
    {
      assert Gives(texts[k + 1], values[k + 1], depths[k + 1]) && Begins(texts[k + 1]);
    }
  }

  lemma {:induction false} ItemsAreRead(s: seq<byte>, texts: seq<seq<byte>>, values: seq<Value>, depths: seq<nat>,
                                        post: seq<byte>, depth: nat)
    requires texts != [] && s == Joined(texts) + ([RIGHT_BRACKET] + post) && AllGive(texts, values, depths)
    ensures ItemsGive(s, depth, values, 1 + Largest(depths), post)
    decreases |texts|
  {
    var t, v, d := texts[0], values[0], depths[0];
    if |texts| == 1 {
      assert values == [v] && Largest(depths) == d;
      RestGives(texts, values, depths);
      LastItem(s, t, v, d, post, depth);
    } else {
      var rest := Joined(texts[1..]) + ([RIGHT_BRACKET] + post);
      Regroup(t, Joined(texts[1..]), [RIGHT_BRACKET] + post);
      assert values == [v] + values[1..];
      RestGives(texts, values, depths);
      ItemsAreRead(rest, texts[1..], values[1..], depths[1..], post, depth);
      NextItem(s, t, v, d, rest, values[1..], Largest(depths[1..]), post, depth);
    }
  }

  lemma ArrayBegins(s: seq<byte>, u: seq<byte>, depth: nat)
    requires s == [LEFT_BRACKET] + u && depth <= STACK_LIMIT && Begins(u)
    ensures ReadValue(s, depth) == ReadItems(u, depth, [])
  {
    Punctuation(LEFT_BRACKET, u);
  }

  lemma EmptyArray(s: seq<byte>, post: seq<byte>, depth: nat)
    requires s == [LEFT_BRACKET] + ([RIGHT_BRACKET] + post) && depth <= STACK_LIMIT
    ensures ReadValue(s, depth) == Done(Arr([]), post)
  {
    var u := [RIGHT_BRACKET] + post;
    Punctuation(LEFT_BRACKET, u);
    assert u[1..] == post;
  }

  lemma Bracketed(a: seq<byte>, post: seq<byte>)
    ensures [LEFT_BRACKET] + a + [RIGHT_BRACKET] + post == [LEFT_BRACKET] + (a + ([RIGHT_BRACKET] + post))
  {
  }

  lemma FirstBegins(texts: seq<seq<byte>>, values: seq<Value>, depths: seq<nat>, post: seq<byte>)
    requires texts != [] && AllGive(texts, values, depths)
    ensures Begins(Joined(texts) + post)
  {
    assert Begins(texts[0]);
  }

  lemma ArrayIsReadAt(s: seq<byte>, texts: seq<seq<byte>>, values: seq<Value>, depths: seq<nat>, post: seq<byte>,
                      depth: nat)
    requires s == [LEFT_BRACKET] + Joined(texts) + [RIGHT_BRACKET] + post
    requires AllGive(texts, values, depths) && depth <= STACK_LIMIT
    ensures ReadValue(s, depth) == Expected(Arr(values), depth, 1 + Largest(depths), post)
  {
    if texts == [] {
      EmptyArray(s, post, depth);
    } else {
      var u := Joined(texts) + ([RIGHT_BRACKET] + post);
      Bracketed(Joined(texts), post);
      FirstBegins(texts, values, depths, [RIGHT_BRACKET] + post);
      ArrayBegins(s, u, depth);
      ItemsAreRead(u, texts, values, depths, post, depth);
      assert [] + values == values;
    }
  }

  lemma ArrayIsRead(texts: seq<seq<byte>>, values: seq<Value>, depths: seq<nat>)
    requires AllGive(texts, values, depths)
    ensures Gives([LEFT_BRACKET] + Joined(texts) + [RIGHT_BRACKET], Arr(values), 1 + Largest(depths))
  {
    var t := [LEFT_BRACKET] + Joined(texts) + [RIGHT_BRACKET];
    forall post, depth: nat | Ends(post)
      ensures ReadValue(t + post, depth) == Expected(Arr(values), depth, 1 + Largest(depths), post)
    {
      if depth <= STACK_LIMIT {
        ArrayIsReadAt(t + post, texts, values, depths, post, depth);
      }
    }
  }

  // ------------------------------------------------------------- reading members

  /** A member: its name, quoted, and its value. */
  datatype Part = Part(name: seq<byte>, quoted: seq<byte>, text: seq<byte>, value: Value, depth: nat)

  /** What the reader needs to know of the text of a member. */
  ghost predicate PartGives(p: Part) {
    && Gives(p.text, p.value, p.depth)
    && exists e {:trigger Passes(e)} ::
         p.quoted == [QUOTE] + e + [QUOTE] && Passes(e) && DecodeString(e) == Some(p.name)
  }

  lemma ColonIsFound(p: Part, u: seq<byte>)
    requires PartGives(p)
    ensures var t := ReadToken(p.quoted + ([COLON] + u));
            t.kind == Kind.StringToken && DecodeString(t.text) == Some(p.name) &&
            ReadToken(t.rest) == Token(MemberSeparator, [COLON], u)
  {
    var e :| p.quoted == [QUOTE] + e + [QUOTE] && Passes(e) && DecodeString(e) == Some(p.name);
    StringToken(e, [COLON] + u);
    Punctuation(COLON, u);
  }

  lemma MemberFails(p: Part, u: seq<byte>, depth: nat, members: seq<Member>, emptyName: bool)
    requires PartGives(p) && !ReadValue(u, depth + 1).Done?
    ensures ReadMembers(p.quoted + ([COLON] + u), depth, members, emptyName) == ReadValue(u, depth + 1)
  {
    ColonIsFound(p, u);
  }

  lemma MembersStep(s: seq<byte>, name: seq<byte>, u: seq<byte>, v: Value, w: seq<byte>, rest: seq<byte>, depth: nat,
                    members: seq<Member>, emptyName: bool)
    requires var t := ReadToken(s);
             t.kind == Kind.StringToken && DecodeString(t.text) == Some(name) &&
             ReadToken(t.rest) == Token(MemberSeparator, [COLON], u)
    requires ReadValue(u, depth + 1) == Done(v, w) && ReadToken(w) == Token(ArraySeparator, [COMMA], rest)
    ensures ReadMembers(s, depth, members, emptyName) == ReadMembers(rest, depth, Put(members, name, v), name == [])
  {
  }

  lemma MembersGoOn(p: Part, u: seq<byte>, rest: seq<byte>, depth: nat, members: seq<Member>, emptyName: bool)
    requires PartGives(p) && ReadValue(u, depth + 1) == Done(p.value, [COMMA] + rest)
    ensures ReadMembers(p.quoted + ([COLON] + u), depth, members, emptyName)
         == ReadMembers(rest, depth, Put(members, p.name, p.value), p.name == [])
  {
    ColonIsFound(p, u);
    Punctuation(COMMA, rest);
    MembersStep(p.quoted + ([COLON] + u), p.name, u, p.value, [COMMA] + rest, rest, depth, members, emptyName);
  }

  lemma MembersEnd(p: Part, u: seq<byte>, post: seq<byte>, depth: nat, members: seq<Member>, emptyName: bool)
    requires PartGives(p) && ReadValue(u, depth + 1) == Done(p.value, [RIGHT_BRACE] + post)
    ensures ReadMembers(p.quoted + ([COLON] + u), depth, members, emptyName) ==
              Done(Obj(Put(members, p.name, p.value)), post)
  {
    ColonIsFound(p, u);
    Punctuation(RIGHT_BRACE, post);
  }

  function PartText(p: Part): seq<byte> {
    MemberText(p.quoted, p.text)
  }

  function PartTexts(parts: seq<Part>): (r: seq<seq<byte>>)
    ensures |r| == |parts| && forall k :: 0 <= k < |r| ==> r[k] == PartText(parts[k])
  {
    if parts == [] then [] else [PartText(parts[0])] + PartTexts(parts[1..])
  }

  function PartMembers(parts: seq<Part>): (r: seq<Member>)
    ensures |r| == |parts| && forall k :: 0 <= k < |r| ==> r[k] == Member(parts[k].name, parts[k].value)
  {
    if parts == [] then [] else [Member(parts[0].name, parts[0].value)] + PartMembers(parts[1..])
  }

  function PartDepths(parts: seq<Part>): (r: seq<nat>)
    ensures |r| == |parts| && forall k :: 0 <= k < |r| ==> r[k] == parts[k].depth
  {
    if parts == [] then [] else [parts[0].depth] + PartDepths(parts[1..])
  }

  /** The names read before are below those to come, which ascend. */
  ghost predicate InOrder(before: seq<Member>, parts: seq<Part>) {
    && (forall k, j :: 0 <= k < |before| && 0 <= j < |parts| ==> Less(before[k].name, parts[j].name))
    && (forall i, j :: 0 <= i < j < |parts| ==> Less(parts[i].name, parts[j].name))
  }

  ghost predicate AllPartsGive(parts: seq<Part>) {
    forall k {:trigger PartGives(parts[k])} :: 0 <= k < |parts| ==> PartGives(parts[k])
  }

  /** With the members `before`, at `s` the reader comes to `r`. */
  ghost predicate MembersGive(s: seq<byte>, depth: nat, before: seq<Member>, r: Outcome) {
    forall e {:trigger ReadMembers(s, depth, before, e)} :: ReadMembers(s, depth, before, e) == r
  }

  /** The members from `p` on come to `r`, unless its value nests too deep. */
  lemma MemberThen(s: seq<byte>, p: Part, rest: seq<byte>, before: seq<Member>, r: Outcome, depth: nat)
    requires s == PartText(p) + ([COMMA] + rest) && PartGives(p)
    requires MembersGive(rest, depth, Put(before, p.name, p.value), r)
    ensures MembersGive(s, depth, before, if depth + p.depth > STACK_LIMIT then Exceeded else r)
  {
    var u := p.text + ([COMMA] + rest);
    assert s == p.quoted + ([COLON] + u);
    forall e
      ensures ReadMembers(s, depth, before, e) == if depth + p.depth > STACK_LIMIT then Exceeded else r
    {
      if depth + p.depth <= STACK_LIMIT {
        MembersGoOn(p, u, rest, depth, before, e);
      } else {
        MemberFails(p, u, depth, before, e);
      }
    }
  }

  lemma NextMember(s: seq<byte>, p: Part, rest: seq<byte>, before: seq<Member>, v: Value, n: nat, post: seq<byte>,
                   depth: nat)
    requires s == PartText(p) + ([COMMA] + rest) && PartGives(p)
    requires forall k :: 0 <= k < |before| ==> Less(before[k].name, p.name)
    requires MembersGive(rest, depth, before + [Member(p.name, p.value)], Expected(v, depth, 1 + n, post))
    ensures MembersGive(s, depth, before, Expected(v, depth, 1 + Max(p.depth, n), post))
  {
    PutLast(before, p.name, p.value);
    MemberThen(s, p, rest, before, Expected(v, depth, 1 + n, post), depth);
  }

  lemma LastMember(s: seq<byte>, p: Part, before: seq<Member>, post: seq<byte>, depth: nat)
    requires s == PartText(p) + ([RIGHT_BRACE] + post) && PartGives(p)
    requires forall k :: 0 <= k < |before| ==> Less(before[k].name, p.name)
    ensures MembersGive(s, depth, before, Expected(Obj(before + [Member(p.name, p.value)]), depth, 1 + p.depth, post))
  {
    var u := p.text + ([RIGHT_BRACE] + post);
    assert s == p.quoted + ([COLON] + u);
    PutLast(before, p.name, p.value);
    forall e
      ensures ReadMembers(s, depth, before, e) ==
                Expected(Obj(before + [Member(p.name, p.value)]), depth, 1 + p.depth, post)
    {
      if depth + 1 + p.depth <= STACK_LIMIT + 1 {
        MembersEnd(p, u, post, depth, before, e);
      } else {
        MemberFails(p, u, depth, before, e);
      }
    }
  }

  lemma FirstPart(parts: seq<Part>)
    requires |parts| > 1
    ensures Joined(PartTexts(parts)) == PartText(parts[0]) + ([COMMA] + Joined(PartTexts(parts[1..])))
    ensures Largest(PartDepths(parts)) == Max(parts[0].depth, Largest(PartDepths(parts[1..])))
  {
    assert PartTexts(parts)[1..] == PartTexts(parts[1..]);
    FirstDepth(parts);
  }

  lemma FirstDepth(parts: seq<Part>)
    requires parts != []
    ensures Largest(PartDepths(parts)) == Max(parts[0].depth, Largest(PartDepths(parts[1..])))
  {
    assert PartDepths(parts)[1..] == PartDepths(parts[1..]);
  }

  lemma PartsBehind(parts: seq<Part>, before: seq<Member>)
    requires parts != [] && InOrder(before, parts) && AllPartsGive(parts)
    ensures InOrder(before + [Member(parts[0].name, parts[0].value)], parts[1..]) && AllPartsGive(parts[1..])
  {
  }

  lemma PartMembersBehind(parts: seq<Part>, before: seq<Member>)
    requires parts != []
    ensures before + PartMembers(parts) == before + [Member(parts[0].name, parts[0].value)] + PartMembers(parts[1..])
  {
  }

  lemma {:induction false} MembersAreRead(s: seq<byte>, parts: seq<Part>, before: seq<Member>, all: seq<Member>,
                                          post: seq<byte>, depth: nat)
    requires parts != [] && s == Joined(PartTexts(parts)) + ([RIGHT_BRACE] + post) && AllPartsGive(parts) &&
             InOrder(before, parts)
    requires all == before + PartMembers(parts)
    ensures MembersGive(s, depth, before, Expected(Obj(all), depth, 1 + Largest(PartDepths(parts)), post))
    decreases |parts|
  {
    var p, more := parts[0], parts[1..];
    if |parts| == 1 {
      assert all == before + [Member(p.name, p.value)] && Largest(PartDepths(parts)) == p.depth;
      LastMember(s, p, before, post, depth);
    } else {
      var rest := Joined(PartTexts(more)) + ([RIGHT_BRACE] + post);
      FirstPart(parts);
      PartsBehind(parts, before);
      PartMembersBehind(parts, before);
      assert s == PartText(p) + ([COMMA] + rest);
      MembersAreRead(rest, more, before + [Member(p.name, p.value)], all, post, depth);
      NextMember(s, p, rest, before, Obj(all), Largest(PartDepths(more)), post, depth);
    }
  }

  lemma ObjectBegins(s: seq<byte>, u: seq<byte>, depth: nat, r: Outcome)
    requires s == [LEFT_BRACE] + u && depth <= STACK_LIMIT && MembersGive(u, depth, [], r)
    ensures ReadValue(s, depth) == r
  {
    Punctuation(LEFT_BRACE, u);
  }

  lemma EmptyObject(s: seq<byte>, post: seq<byte>, depth: nat)
    requires s == [LEFT_BRACE] + ([RIGHT_BRACE] + post) && depth <= STACK_LIMIT
    ensures ReadValue(s, depth) == Done(Obj([]), post)
  {
    Punctuation(LEFT_BRACE, [RIGHT_BRACE] + post);
    Punctuation(RIGHT_BRACE, post);
  }

  lemma PartsAreRead(u: seq<byte>, parts: seq<Part>, post: seq<byte>, depth: nat)
    requires u == Joined(PartTexts(parts)) + ([RIGHT_BRACE] + post)
    requires parts != [] && AllPartsGive(parts) && InOrder([], parts)
    ensures MembersGive(u, depth, [], Expected(Obj(PartMembers(parts)), depth, 1 + Largest(PartDepths(parts)), post))
  {
    var all := PartMembers(parts);
    assert all == [] + PartMembers(parts);
    MembersAreRead(u, parts, [], all, post, depth);
  }

  lemma ObjectIsRead(parts: seq<Part>)
    requires AllPartsGive(parts) && InOrder([], parts)
    ensures Gives([LEFT_BRACE] + Joined(PartTexts(parts)) + [RIGHT_BRACE], Obj(PartMembers(parts)),
                  1 + Largest(PartDepths(parts)))
  {
    var t := [LEFT_BRACE] + Joined(PartTexts(parts)) + [RIGHT_BRACE];
    forall post, depth: nat | Ends(post)
      ensures ReadValue(t + post, depth) ==
                Expected(Obj(PartMembers(parts)), depth, 1 + Largest(PartDepths(parts)), post)
    {
      if depth <= STACK_LIMIT {
        if parts == [] {
          EmptyObject(t + post, post, depth);
        } else {
          var u := Joined(PartTexts(parts)) + ([RIGHT_BRACE] + post);
          PartsAreRead(u, parts, post, depth);
          ObjectBegins(t + post, u, depth,
                       Expected(Obj(PartMembers(parts)), depth, 1 + Largest(PartDepths(parts)), post));
        }
      }
    }
  }

  // ------------------------------------------------------------- a comma too many

  /** The map after members in any order, names repeated or not. */
  function PutAll(before: seq<Member>, parts: seq<Part>): seq<Member>
    decreases |parts|
  {
    if parts == [] then before else PutAll(Put(before, parts[0].name, parts[0].value), parts[1..])
  }

  /** What comes of members with a comma behind the last one: the object, as if the
      comma were not there, exactly when the last name is empty. */
  function WithComma(parts: seq<Part>, before: seq<Member>, post: seq<byte>, depth: nat): Outcome
    requires parts != []
  {
    CommaOutcome(depth + Largest(PartDepths(parts)), parts[|parts| - 1].name, PutAll(before, parts), post)
  }

  function CommaOutcome(deepest: nat, last: seq<byte>, members: seq<Member>, post: seq<byte>): Outcome {
    if deepest > STACK_LIMIT then Exceeded else if last == [] then Done(Obj(members), post) else Failed
  }

  lemma BraceAfterComma(post: seq<byte>, depth: nat, members: seq<Member>, emptyName: bool)
    ensures ReadMembers([RIGHT_BRACE] + post, depth, members, emptyName)
         == if emptyName then Done(Obj(members), post) else Failed
  {
    Punctuation(RIGHT_BRACE, post);
  }

  lemma LastThenComma(s: seq<byte>, p: Part, before: seq<Member>, post: seq<byte>, depth: nat)
    requires s == PartText(p) + ([COMMA] + ([RIGHT_BRACE] + post)) && PartGives(p)
    ensures MembersGive(s, depth, before, WithComma([p], before, post, depth))
  {
    var u := p.text + ([COMMA] + ([RIGHT_BRACE] + post));
    assert s == p.quoted + ([COLON] + u);
    assert [p][1..] == [] && Largest(PartDepths([p])) == p.depth;
    assert PutAll(Put(before, p.name, p.value), []) == Put(before, p.name, p.value);
    forall e
      ensures ReadMembers(s, depth, before, e) == WithComma([p], before, post, depth)
    {
      if depth + p.depth <= STACK_LIMIT {
        MembersGoOn(p, u, [RIGHT_BRACE] + post, depth, before, e);
        BraceAfterComma(post, depth, Put(before, p.name, p.value), p.name == []);
      } else {
        MemberFails(p, u, depth, before, e);
      }
    }
  }

  lemma {:induction false} CommaAfterMembers(s: seq<byte>, parts: seq<Part>, before: seq<Member>, post: seq<byte>,
                                             depth: nat)
    requires parts != [] && s == Joined(PartTexts(parts)) + ([COMMA] + ([RIGHT_BRACE] + post)) && AllPartsGive(parts)
    ensures MembersGive(s, depth, before, WithComma(parts, before, post, depth))
    decreases |parts|
  {
    var p, more := parts[0], parts[1..];
    if |parts| == 1 {
      assert parts == [p];
      LastThenComma(s, p, before, post, depth);
    } else {
      var after := Put(before, p.name, p.value);
      var rest := Joined(PartTexts(more)) + ([COMMA] + ([RIGHT_BRACE] + post));
      FirstPart(parts);
      Regroup(PartText(p), Joined(PartTexts(more)), [COMMA] + ([RIGHT_BRACE] + post));
      CommaAfterMembers(rest, more, after, post, depth);
      MemberThen(s, p, rest, before, WithComma(more, after, post, depth), depth);
      CommaGoesOn(parts, before, post, depth);
    }
  }

  lemma Regroup(a: seq<byte>, b: seq<byte>, c: seq<byte>)
    ensures a + ([COMMA] + b) + c == a + ([COMMA] + (b + c))
  {
  }

  lemma CommaGoesOn(parts: seq<Part>, before: seq<Member>, post: seq<byte>, depth: nat)
    requires |parts| > 1
    ensures var p := parts[0];
            WithComma(parts, before, post, depth)
            == if depth + p.depth > STACK_LIMIT then Exceeded
               else WithComma(parts[1..], Put(before, p.name, p.value), post, depth)
  {
    FirstDepth(parts);
    DeepestOf(depth, parts[0].depth, Largest(PartDepths(parts[1..])), parts[|parts| - 1].name, PutAll(before, parts),
              post);
  }

  lemma DeepestOf(depth: nat, d: nat, e: nat, last: seq<byte>, members: seq<Member>, post: seq<byte>)
    ensures CommaOutcome(depth + Max(d, e), last, members, post)
         == if depth + d > STACK_LIMIT then Exceeded else CommaOutcome(depth + e, last, members, post)
  {
  }

  /** An object of written members that ends in a comma is read exactly when its last
      name is empty, and then as if the comma were not there; it throws when a value
      nests too deep. The members may come in any order. */
  lemma {:induction false} TrailingComma(members: seq<Member>)
    requires members != [] && forall k :: 0 <= k < |members| ==> Utf8.Valid(members[k].name) && Plain(members[k].value)
    ensures var r := Parse([LEFT_BRACE] + Joined(MemberTexts(members)) + [COMMA, RIGHT_BRACE]);
            && (r == Exceeded <==> 1 + Largest(MemberDepths(members)) > STACK_LIMIT)
            && (r.Done? <==> r != Exceeded && members[|members| - 1].name == [])
            && (r.Done? ==> r == Done(Obj(PutAll([], PartsOf(members))), []))
  {
    var parts := PartsOf(members);
    forall k | 0 <= k < |members|
      ensures PartGives(PartOf(members[k]))
    {
      ReadBack(members[k].value);
      NameIsRead(members[k]);
    }
    PartsAreMembers(members);
    var u := Joined(PartTexts(parts)) + ([COMMA] + ([RIGHT_BRACE] + []));
    CommaAfterMembers(u, parts, [], [], 1);
    ObjectBegins([LEFT_BRACE] + u, u, 1, WithComma(parts, [], [], 1));
    EndsInComma([LEFT_BRACE], Joined(MemberTexts(members)));
  }

  lemma EndsInComma(a: seq<byte>, b: seq<byte>)
    ensures a + b + [COMMA, RIGHT_BRACE] == a + (b + ([COMMA] + ([RIGHT_BRACE] + [])))
  {
  }

  /** A member with a one-letter name, or none, and the value one, with a comma behind. */
  lemma CommaBehindOne(name: seq<byte>, text: seq<byte>)
    requires name == [] || name == [97]
    requires text == [LEFT_BRACE] + ([QUOTE] + name + [QUOTE] + [COLON, 49]) + [COMMA, RIGHT_BRACE]
    ensures Parse(text) == if name == [] then Done(Obj([Member(name, Value.Int(1))]), []) else Failed
  {
    var m := Member(name, Value.Int(1));
    assert Utf8.Valid(name) by {
      assert name != [] ==> Utf8.CharLength(name) == 1 && name[1..] == [];
    }
    TrailingComma([m]);
    assert Escape(name, false) == name && IntText(1) == [49] && Canonical(m.value) == m.value;
    assert MemberTexts([m])[0] == [QUOTE] + name + [QUOTE] + [COLON, 49];
    assert Largest(MemberDepths([m])) == 1;
    assert PartsOf([m]) == [PartOf(m)] && [PartOf(m)][1..] == [];
    assert PutAll([m], []) == [m];
  }

  lemma CommaBehindEmptyName()
    ensures Parse([LEFT_BRACE, 34, 34, COLON, 49, COMMA, RIGHT_BRACE]) == Done(Obj([Member([], Value.Int(1))]), [])
    ensures Parse([LEFT_BRACE, 34, 97, 34, COLON, 49, COMMA, RIGHT_BRACE]) == Failed
  {
    CommaBehindOne([], [LEFT_BRACE, 34, 34, COLON, 49, COMMA, RIGHT_BRACE]);
    CommaBehindOne([97], [LEFT_BRACE, 34, 97, 34, COLON, 49, COMMA, RIGHT_BRACE]);
  }

  /** A minus without digits is a number token, and is read as zero. */
  lemma LoneMinus(post: seq<byte>, depth: nat)
    requires Ends(post) && depth <= STACK_LIMIT
    ensures ReadValue([MINUS] + post, depth) == Done(Value.Int(0), post)
  {
    NumberToken([MINUS], post);
    assert NumberOf([MINUS], MAX_INT) == Number.Int(0);
  }

  // ------------------------------------------------------------- numbers that are none

  /** Section 6 of RFC 8259: an integer part without needless zeros, a fraction and an
      exponent. */
  predicate IntPart(s: seq<byte>) {
    s != [] && AllDigits(s) && (s[0] == 48 ==> |s| == 1)
  }

  predicate FracPart(s: seq<byte>) {
    s == [] || (|s| > 1 && s[0] == POINT && AllDigits(s[1..]))
  }

  predicate ExpPart(s: seq<byte>) {
    || s == []
    || ((s[0] == 101 || s[0] == 69)
        && (var k := if |s| > 1 && (s[1] == 43 || s[1] == MINUS) then 2 else 1; |s| > k && AllDigits(s[k..])))
  }

  ghost predicate Parts(s: seq<byte>, n: nat, m: nat) {
    n <= m <= |s| && IntPart(s[..n]) && FracPart(s[n..m]) && ExpPart(s[m..])
  }

  ghost predicate IsNumber(t: seq<byte>) {
    exists n, m :: Parts(Tail(t), n, m)
  }

  predicate NeedlessZero(t: seq<byte>) {
    |Tail(t)| > 1 && Tail(t)[0] == 48
  }

  /** The number tokens that are read as integers although they are no numbers: just the
      lone minus and those with a needless zero in front. */
  lemma LenientIntegers(t: seq<byte>, limit: nat)
    requires t != []
    ensures !NumberOf(t, limit).Double? ==> (!IsNumber(t) <==> t == [MINUS] || NeedlessZero(t))
  {
    var s := Tail(t);
    if AllDigits(s) {
      if n, m :| Parts(s, n, m) {
        DigitsHaveNoTail(s, n, m);
      }
      if s != [] && !NeedlessZero(t) {
        assert s[..|s|] == s && s[|s|..|s|] == [] && Parts(s, |s|, |s|);
      }
    }
  }

  lemma DigitsHaveNoTail(s: seq<byte>, n: nat, m: nat)
    requires AllDigits(s) && Parts(s, n, m)
    ensures n == m == |s| && IntPart(s)
  {
    assert s[..|s|] == s;
  }

  lemma {:induction false} ZeroInFront(s: seq<byte>)
    requires AllDigits(s)
    ensures AllDigits([48] + s) && ValueOf([48] + s) == ValueOf(s)
  {
    var t := [48] + s;
    if s == [] {
      assert t[..0] == [];
    } else {
      ZeroInFront(s[..|s| - 1]);
      assert t[..|t| - 1] == [48] + s[..|s| - 1];
    }
  }

  /** The needless zero does not count. */
  lemma ZeroIsSkipped(t: seq<byte>, limit: nat)
    requires NeedlessZero(t) && !NumberOf(t, limit).Double?
    ensures NumberOf(t, limit) == NumberOf((if Negative(t) then [MINUS] else []) + Tail(t)[1..], limit)
  {
    var s := Tail(t)[1..];
    assert Tail(t) == [48] + s;
    ZeroInFront(s);
    var u := (if Negative(t) then [MINUS] else []) + s;
    assert s != [] && IsDigit(s[0]);
    assert Negative(u) == Negative(t) && Tail(u) == s;
    NumberByValue(t, u, limit);
  }

  lemma NumberByValue(t: seq<byte>, u: seq<byte>, limit: nat)
    requires AllDigits(Tail(t)) && AllDigits(Tail(u)) && ValueOf(Tail(t)) == ValueOf(Tail(u))
    requires Negative(t) == Negative(u) && Fits(t)
    ensures NumberOf(t, limit) == NumberOf(u, limit)
  {
  }

  // ------------------------------------------------------------- reading leaves

  lemma TextBegins(v: Value)
    requires Plain(v)
    ensures Begins(Text(v))
  {
    match v {
      case Int(i) => assert IntText(i) != [];
      case UInt(u) => assert IntText(u) != [];
      case _ =>
    }
  }

  lemma IntIsRead(i: int)
    requires InRange(i)
    ensures Gives(IntText(i), if i <= MAX_INT then Value.Int(i) else Value.UInt(i), 1)
  {
    var t, v := IntText(i), if i <= MAX_INT then Value.Int(i) else Value.UInt(i);
    IntTextIsNumber(i);
    ReadBackInt(i, MAX_INT);
    assert NumberValue(t) == v;
    forall post, depth: nat | Ends(post) && depth <= STACK_LIMIT
      ensures ReadValue(t + post, depth) == Done(v, post)
    {
      NumberToken(t, post);
      NumberIsRead(t + post, t, post, depth);
    }
  }

  lemma IntTextIsNumber(i: int)
    ensures var t := IntText(i); t != [] && (IsDigit(t[0]) || t[0] == MINUS) && AllDigits(t[1..])
  {
  }

  lemma NumberIsRead(s: seq<byte>, t: seq<byte>, post: seq<byte>, depth: nat)
    requires ReadToken(s) == Token(Kind.NumberToken, t, post) && depth <= STACK_LIMIT
    ensures ReadValue(s, depth) == Done(NumberValue(t), post)
  {
  }

  lemma StrIsRead(b: seq<byte>)
    requires Utf8.Valid(b)
    ensures Gives(Quoted(b, false), Str(b), 1)
  {
    QuotingIsRead(b, false);
    RoundTrip(b, false);
    forall post, depth: nat | depth <= STACK_LIMIT
      ensures ReadValue(Quoted(b, false) + post, depth) == Done(Str(b), post)
    {
      StringToken(Escape(b, false), post);
      StringIsRead(Quoted(b, false) + post, Escape(b, false), b, post, depth);
    }
  }

  lemma StringIsRead(s: seq<byte>, e: seq<byte>, b: seq<byte>, post: seq<byte>, depth: nat)
    requires ReadToken(s) == Token(Kind.StringToken, e, post) && DecodeString(e) == Some(b) && depth <= STACK_LIMIT
    ensures ReadValue(s, depth) == Done(Str(b), post)
  {
  }

  lemma WordsAreRead(v: Value)
    requires v.Null? || v.Bool?
    ensures Gives(Text(v), v, 1)
  {
    forall post, depth: nat | depth <= STACK_LIMIT
      ensures ReadValue(Text(v) + post, depth) == Done(v, post)
    {
      WordToken(Text(v)[0], post);
    }
  }

  // ------------------------------------------------------------- the round trip

  function PartOf(m: Member): Part {
    Part(m.name, Quoted(m.name, false), Text(m.value), Canonical(m.value), Depth(m.value))
  }

  function PartsOf(members: seq<Member>): (r: seq<Part>)
    ensures |r| == |members| && forall k :: 0 <= k < |r| ==> r[k] == PartOf(members[k])
  {
    if members == [] then [] else [PartOf(members[0])] + PartsOf(members[1..])
  }

  lemma NameIsRead(m: Member)
    requires Utf8.Valid(m.name) && Gives(Text(m.value), Canonical(m.value), Depth(m.value))
    ensures PartGives(PartOf(m))
  {
    QuotingIsRead(m.name, false);
    RoundTrip(m.name, false);
    assert Passes(Escape(m.name, false));
  }

  lemma PartsAreMembers(members: seq<Member>)
    ensures var parts := PartsOf(members);
            PartTexts(parts) == MemberTexts(members) && PartMembers(parts) == CanonicalMembers(members) &&
            PartDepths(parts) == MemberDepths(members)
  {
  }

  /** Wherever a written value is met, it is read whole and nothing else is. */
  lemma {:induction false} ReadBack(v: Value)
    requires Plain(v)
    ensures Gives(Text(v), Canonical(v), Depth(v))
  {
    match v {
      case Null => WordsAreRead(v);
      case Bool(_) => WordsAreRead(v);
      case Int(i) => IntIsRead(i);
      case UInt(u) => IntIsRead(u);
      case Str(b) => StrIsRead(b);
      case Arr(items) =>
        forall k | 0 <= k < |items|
          ensures Gives(Text(items[k]), Canonical(items[k]), Depth(items[k])) && Begins(Text(items[k]))
        {
          ReadBack(items[k]);
          TextBegins(items[k]);
        }
        ArrayIsRead(Texts(items), CanonicalItems(items), Depths(items));
      case Obj(members) =>
        forall k | 0 <= k < |members|
          ensures PartGives(PartOf(members[k]))
        {
          ReadBack(members[k].value);
          NameIsRead(members[k]);
        }
        PartsAreMembers(members);
        ObjectIsRead(PartsOf(members));
    }
  }

  // ------------------------------------------------------------- the law

  /** Parsing the compact text of a value, with or without the ending line feed, gives
      the value back with its integers in their canonical kinds, provided no more than
      the permitted number of values are open at once; otherwise parsing throws. */
  lemma ParseWritten(v: Value, lineFeed: bool)
    requires Plain(v)
    ensures Parse(Text(v) + if lineFeed then [NEWLINE] else [])
         == if Depth(v) <= STACK_LIMIT then Done(Canonical(v), if lineFeed then [NEWLINE] else []) else Exceeded
  {
    ReadBack(v);
    assert Ends(if lineFeed then [NEWLINE] else []);
  }

  /** `n` arrays in one another, around an empty one. */
  function Nested(n: nat): Value {
    if n == 0 then Arr([]) else Arr([Nested(n - 1)])
  }

  lemma {:induction false} DepthOfNested(n: nat)
    ensures Depth(Nested(n)) == n + 1 && Plain(Nested(n))
  {
    if n > 0 {
      DepthOfNested(n - 1);
      assert Depths([Nested(n - 1)]) == [Depth(Nested(n - 1))];
      assert Largest([n]) == n;
    }
  }

  /** Up to a thousand arrays in one another are read, and more are not. */
  lemma NestedTooDeep(n: nat)
    ensures Parse(Text(Nested(n))) == if n < 1000 then Done(Canonical(Nested(n)), []) else Exceeded
  {
    DepthOfNested(n);
    ParseWritten(Nested(n), false);
    assert Text(Nested(n)) + [] == Text(Nested(n));
  }

  /** The same value up to the kinds of its integers. */
  predicate Same(v: Value, w: Value) {
    match (v, w)
    case (Int(i), Int(j)) => i == j
    case (Int(i), UInt(u)) => i == u
    case (UInt(u), Int(i)) => i == u
    case (UInt(u), UInt(t)) => u == t
    case (Arr(a), Arr(b)) => |a| == |b| && forall k :: 0 <= k < |a| ==> Same(a[k], b[k])
    case (Obj(a), Obj(b)) => |a| == |b| && forall k :: 0 <= k < |a| ==>
      a[k].name == b[k].name && Same(a[k].value, b[k].value)
    case _ => v == w
  }

  lemma {:induction false} CanonicalIsSame(v: Value)
    ensures Same(v, Canonical(v))
  {
    match v {
      case Arr(items) => CanonicalItemsAreSame(items);
      case Obj(members) => CanonicalMembersAreSame(members);
      case _ =>
    }
  }

  lemma {:induction false} CanonicalItemsAreSame(items: seq<Value>)
    ensures forall k :: 0 <= k < |items| ==> Same(items[k], CanonicalItems(items)[k])
  {
    if items != [] {
      CanonicalIsSame(items[0]);
      CanonicalItemsAreSame(items[1..]);
    }
  }

  lemma {:induction false} CanonicalMembersAreSame(members: seq<Member>)
    ensures forall k :: 0 <= k < |members| ==>
              CanonicalMembers(members)[k].name == members[k].name &&
              Same(members[k].value, CanonicalMembers(members)[k].value)
  {
    if members != [] {
      CanonicalIsSame(members[0].value);
      CanonicalMembersAreSame(members[1..]);
    }
  }
}
