/** What the reader makes of texts that the writer never writes: white space, fractions
    and exponents, and all the escapes of RFC 8259. */
module JsonGrammar {
  import opened Bytes
  import opened JsonNumbers
  import opened JsonStrings
  import opened JsonText
  import opened JsonRoundTrip
  import opened Wrappers
  import Utf8

  // ------------------------------------------------------------- white space

  /** Section 2 of RFC 8259: space, tab, line feed and carriage return. */
  predicate White(w: seq<byte>) {
    forall i :: 0 <= i < |w| ==> w[i] in {0x20, 0x09, 0x0A, 0x0D}
  }

  lemma {:induction false} WhiteIsSkipped(w: seq<byte>, s: seq<byte>)
    requires White(w)
    ensures SkipSpaces(w + s) == SkipSpaces(s)
  {
    if w == [] {
      assert w + s == s;
    } else {
      assert (w + s)[1..] == w[1..] + s;
      WhiteIsSkipped(w[1..], s);
    }
  }

  /** White space in front of a token, a value, an item or a member makes no difference. */
  lemma WhiteMakesNoDifference(w: seq<byte>, s: seq<byte>, depth: nat, items: seq<Value>, members: seq<Member>,
                               emptyName: bool)
    requires White(w)
    ensures ReadToken(w + s) == ReadToken(s) && Parse(w + s) == Parse(s)
    ensures ReadValue(w + s, depth) == ReadValue(s, depth)
    ensures ReadItems(w + s, depth, items) == ReadItems(s, depth, items)
    ensures ReadMembers(w + s, depth, members, emptyName) == ReadMembers(s, depth, members, emptyName)
  {
    WhiteIsSkipped(w, s);
    TokenDecides(w + s, s, depth, items, members, emptyName);
    TokenDecides(w + s, s, 1, items, members, emptyName);
  }

  lemma TokenDecides(s: seq<byte>, t: seq<byte>, depth: nat, items: seq<Value>, members: seq<Member>, emptyName: bool)
    requires ReadToken(s) == ReadToken(t)
    ensures ReadValue(s, depth) == ReadValue(t, depth)
    ensures ReadItems(s, depth, items) == ReadItems(t, depth, items)
    ensures ReadMembers(s, depth, members, emptyName) == ReadMembers(t, depth, members, emptyName)
  {
    ValueDecides(s, t, depth);
    ValueDecides(s, t, depth + 1);
  }

  lemma ValueDecides(s: seq<byte>, t: seq<byte>, depth: nat)
    requires ReadToken(s) == ReadToken(t)
    ensures ReadValue(s, depth) == ReadValue(t, depth)
  {
  }

  lemma NothingElseIsSkipped(s: seq<byte>)
    requires s != [] && !White(s[..1])
    ensures SkipSpaces(s) == s
  {
  }

  // ------------------------------------------------------------- numbers

  /** What follows a number: no digit, no point and no exponent. */
  predicate EndsNumber(post: seq<byte>) {
    post == [] || (!IsDigit(post[0]) && post[0] != POINT && post[0] != 101 && post[0] != 69)
  }

  lemma FractionIsCounted(f: seq<byte>, post: seq<byte>)
    requires FracPart(f) && (post == [] || (!IsDigit(post[0]) && post[0] != POINT))
    ensures CountFraction(f + post) == |f|
  {
    if f == [] {
      assert f + post == post;
    } else {
      assert (f + post)[1..] == f[1..] + post;
      DigitsAreCounted(f[1..], post);
    }
  }

  lemma ExponentIsCounted(x: seq<byte>, post: seq<byte>)
    requires ExpPart(x) && EndsNumber(post)
    ensures CountExponent(x + post) == |x|
  {
    if x == [] {
      assert x + post == post;
    } else {
      var k := if |x| > 1 && (x[1] == 43 || x[1] == MINUS) then 2 else 1;
      assert (x + post)[k..] == x[k..] + post;
      DigitsAreCounted(x[k..], post);
    }
  }

  lemma PartsAreCounted(d: seq<byte>, f: seq<byte>, x: seq<byte>, post: seq<byte>)
    requires AllDigits(d) && FracPart(f) && ExpPart(x) && EndsNumber(post)
    ensures CountNumber(d + (f + (x + post))) == |d| + |f| + |x|
  {
    var s := d + (f + (x + post));
    DigitsAreCounted(d, f + (x + post));
    FractionIsCounted(f, x + post);
    ExponentIsCounted(x, post);
    assert s[|d|..] == f + (x + post) && s[|d| + |f|..] == x + post;
  }

  lemma TokenOfLength(t: seq<byte>, post: seq<byte>)
    requires t != [] && (IsDigit(t[0]) || t[0] == MINUS) && CountNumber(t[1..] + post) == |t| - 1
    ensures ReadToken(t + post) == Token(Kind.NumberToken, t, post)
  {
    var s := t + post;
    assert s[1..] == t[1..] + post;
    assert s[..|t|] == t && s[|t|..] == post;
    NumberTokenAt(s, |t|);
  }

  lemma NumberTokenAt(s: seq<byte>, n: nat)
    requires s != [] && (IsDigit(s[0]) || s[0] == MINUS) && n == 1 + CountNumber(s[1..])
    ensures ReadToken(s) == Token(Kind.NumberToken, s[..n], s[n..])
  {
  }

  lemma TokenOfParts(t: seq<byte>, d: seq<byte>, f: seq<byte>, x: seq<byte>, post: seq<byte>)
    requires t != [] && (IsDigit(t[0]) || t[0] == MINUS) && t[1..] == d + (f + x)
    requires AllDigits(d) && FracPart(f) && ExpPart(x) && EndsNumber(post)
    ensures ReadToken(t + post) == Token(Kind.NumberToken, t, post)
  {
    PartsAreCounted(d, f, x, post);
    Regrouped(d, f, x, post);
    TokenOfLength(t, post);
  }

  lemma Regrouped(d: seq<byte>, f: seq<byte>, x: seq<byte>, post: seq<byte>)
    ensures d + (f + x) + post == d + (f + (x + post))
  {
  }

  /** What of the integer part comes after the first character of the token. */
  lemma IntegerPart(t: seq<byte>, n: nat, m: nat) returns (d: seq<byte>)
    requires Parts(Tail(t), n, m)
    ensures t != [] && (IsDigit(t[0]) || t[0] == MINUS) && AllDigits(d)
    ensures t[1..] == d + (Tail(t)[n..m] + Tail(t)[m..])
  {
    var s := Tail(t);
    SplitAt(s, n, m);
    assert s[..n][0] == s[0];
    d := if Negative(t) then s[..n] else s[1..n];
    assert !Negative(t) ==> forall i :: 0 <= i < |d| ==> d[i] == s[..n][i + 1];
  }

  lemma SplitAt(s: seq<byte>, n: nat, m: nat)
    requires n <= m <= |s|
    ensures s == s[..n] + (s[n..m] + s[m..])
    ensures n > 0 ==> s[1..] == s[1..n] + (s[n..m] + s[m..])
  {
  }

  /** Every number of section 6 of RFC 8259 is one token. */
  lemma NumbersAreTokens(t: seq<byte>, post: seq<byte>)
    requires IsNumber(t) && EndsNumber(post)
    ensures ReadToken(t + post) == Token(Kind.NumberToken, t, post)
  {
    var n: nat, m: nat :| Parts(Tail(t), n, m);
    var d := IntegerPart(t, n, m);
    TokenOfParts(t, d, Tail(t)[n..m], Tail(t)[m..], post);
  }

  /** A number is read whole: one that spells an integer of the 64-bit range as that
      integer, every other one as text left to floating-point conversion. */
  lemma NumbersAreRead(t: seq<byte>, post: seq<byte>, depth: nat)
    requires IsNumber(t) && EndsNumber(post) && depth <= STACK_LIMIT
    ensures ReadValue(t + post, depth).Done? && ReadValue(t + post, depth).rest == post
    ensures var v := ReadValue(t + post, depth).value;
            if AllDigits(Tail(t)) && ValueOf(Tail(t)) <= (if Negative(t) then 0x8000_0000_0000_0000
                                                         else 0xFFFF_FFFF_FFFF_FFFF) then
              v == if Negative(t) then Value.Int(0 - ValueOf(Tail(t)))
                   else if ValueOf(Tail(t)) <= 0x7FFF_FFFF then Value.Int(ValueOf(Tail(t)))
                   else Value.UInt(ValueOf(Tail(t)))
            else v == Real(t)
  {
    NumbersAreTokens(t, post);
    NumberIsRead(t + post, t, post, depth);
  }

  // ------------------------------------------------------------- escapes

  /** Hexadecimal digits of both cases, and nothing else. */
  lemma HexDigits(b: byte)
    ensures forall d: nat :: d < 10 && b == 0x30 + d ==> HexValue(b) == Some(d)
    ensures forall d: nat :: 10 <= d < 16 && (b == 0x41 + (d - 10) || b == 0x61 + (d - 10)) ==> HexValue(b) == Some(d)
    ensures HexValue(b).Some? <==> 0x30 <= b <= 0x39 || 0x41 <= b <= 0x46 || 0x61 <= b <= 0x66
  {
  }

  /** The escapes of section 7 of RFC 8259: quotation mark, reverse solidus, solidus,
      backspace, form feed, line feed, carriage return and tab; others are errors. */
  lemma EscapesMean(b: byte, rest: seq<byte>)
    ensures b == 0x22 ==> DecodeString([0x5C, b] + rest) == Prepend([0x22], DecodeString(rest))
    ensures b == 0x5C ==> DecodeString([0x5C, b] + rest) == Prepend([0x5C], DecodeString(rest))
    ensures b == 0x2F ==> DecodeString([0x5C, b] + rest) == Prepend([0x2F], DecodeString(rest))
    ensures b == 0x62 ==> DecodeString([0x5C, b] + rest) == Prepend([0x08], DecodeString(rest))
    ensures b == 0x66 ==> DecodeString([0x5C, b] + rest) == Prepend([0x0C], DecodeString(rest))
    ensures b == 0x6E ==> DecodeString([0x5C, b] + rest) == Prepend([0x0A], DecodeString(rest))
    ensures b == 0x72 ==> DecodeString([0x5C, b] + rest) == Prepend([0x0D], DecodeString(rest))
    ensures b == 0x74 ==> DecodeString([0x5C, b] + rest) == Prepend([0x09], DecodeString(rest))
    ensures b !in {0x22, 0x5C, 0x2F, 0x62, 0x66, 0x6E, 0x72, 0x74, 0x75} ==> DecodeString([0x5C, b] + rest) == None
  {
    var s := [0x5C, b] + rest;
    assert s[1..] == [b] + rest;
    if b in {0x22, 0x5C, 0x2F, 0x62, 0x66, 0x6E, 0x72, 0x74} {
      var text := DecodeEscape([b] + rest).value.text;
      EscapeDecodes(s, Chunk(text, 1));
      assert s[2..] == rest;
    }
  }

  /** A code unit in four digits is read as its code point, unless it is a high surrogate:
      that and the code unit escaped behind it are a pair, and alone it is an error. */
  lemma UnicodeEscapesMean(h: seq<byte>, rest: seq<byte>)
    requires |h| == 4
    ensures DecodeHex(h).None? ==> DecodeString([0x5C, 0x75] + (h + rest)) == None
    ensures DecodeHex(h).Some? && !(0xD800 <= DecodeHex(h).value <= 0xDBFF) ==>
              DecodeString([0x5C, 0x75] + (h + rest)) ==
                Prepend(Utf8.CodePointToUTF8(DecodeHex(h).value), DecodeString(rest))
    ensures DecodeHex(h).Some? && 0xD800 <= DecodeHex(h).value <= 0xDBFF &&
            (|rest| < 6 || rest[..2] != [0x5C, 0x75]) ==>
              DecodeString([0x5C, 0x75] + (h + rest)) == None
  {
    var s := [0x5C, 0x75] + (h + rest);
    assert s[2..] == h + rest && s[6..] == rest;
    CodeUnit(h, rest);
    if DecodeUnicodeCodePoint(h + rest).None? {
      BadUnicodeEscape(s);
    } else if !(0xD800 <= DecodeHex(h).value <= 0xDBFF) {
      UnicodeEscape(s, DecodeHex(h).value, 4);
    }
  }

  lemma CodeUnit(h: seq<byte>, rest: seq<byte>)
    requires |h| == 4
    ensures var u, r := DecodeHex(h), DecodeUnicodeCodePoint(h + rest);
            && (u.None? ==> r.None?)
            && (u.Some? && !(0xD800 <= u.value <= 0xDBFF) ==> r == Some(Utf8.Step(u.value, 4)))
            && (u.Some? && 0xD800 <= u.value <= 0xDBFF && (|rest| < 6 || rest[..2] != [0x5C, 0x75]) ==> r.None?)
  {
    var s := h + rest;
    assert DecodeHex(s) == DecodeHex(h);
    if |rest| >= 6 && rest[..2] != [0x5C, 0x75] {
      assert s[4] == rest[..2][0] && s[5] == rest[..2][1];
    }
  }

  lemma BadUnicodeEscape(s: seq<byte>)
    requires |s| >= 2 && s[0] == 0x5C && s[1] == 0x75 && DecodeUnicodeCodePoint(s[2..]).None?
    ensures DecodeString(s) == None
  {
    assert s[1..][1..] == s[2..];
  }

  // ------------------------------------------------------------- members

  /** Up to `k` the names agree; there `a` ends or has the smaller byte. */
  predicate DecidedAt(a: seq<byte>, b: seq<byte>, k: nat) {
    k <= |a| && k < |b| && a[..k] == b[..k] && (k == |a| || a[k] < b[k])
  }

  lemma FirstDecides(a: seq<byte>, b: seq<byte>, k: nat)
    requires DecidedAt(a, b, k)
    ensures b != [] && (k == 0 ==> a == [] || a[0] < b[0]) && (k > 0 ==> a != [] && a[0] == b[0])
  {
    assert k > 0 ==> a[..k][0] == b[..k][0];
  }

  /** Names are ordered by their first different byte, and a name in front of its extensions. */
  lemma {:induction false} LessMeans(a: seq<byte>, b: seq<byte>)
    ensures Less(a, b) <==> exists k: nat :: DecidedAt(a, b, k)
  {
    if a != [] && b != [] && a[0] == b[0] {
      LessMeans(a[1..], b[1..]);
      if k: nat :| DecidedAt(a[1..], b[1..], k) {
        assert a[..k + 1] == [a[0]] + a[1..][..k] && b[..k + 1] == [b[0]] + b[1..][..k];
        assert DecidedAt(a, b, k + 1);
      }
      if k: nat :| DecidedAt(a, b, k) {
        assert k > 0 && a[1..][..k - 1] == a[..k][1..] && b[1..][..k - 1] == b[..k][1..];
        assert DecidedAt(a[1..], b[1..], k - 1);
      }
    } else if b != [] && (a == [] || a[0] < b[0]) {
      assert DecidedAt(a, b, 0);
    } else if k: nat :| DecidedAt(a, b, k) {
      FirstDecides(a, b, k);
    }
  }

  lemma {:induction false} LessIsTransitive(a: seq<byte>, b: seq<byte>, c: seq<byte>)
    requires Less(a, b) && Less(b, c)
    ensures Less(a, c)
  {
    if a != [] && a[0] == c[0] {
      LessIsTransitive(a[1..], b[1..], c[1..]);
    }
  }

  lemma {:induction false} LessOrEqual(a: seq<byte>, b: seq<byte>)
    ensures Less(a, b) || Less(b, a) || a == b
  {
    if a != [] && b != [] && a[0] == b[0] {
      LessOrEqual(a[1..], b[1..]);
      assert a == [a[0]] + a[1..] && b == [b[0]] + b[1..];
    }
  }

  /** A member takes the place of one with the same name; the others and their order stay. */
  lemma {:induction false} PutSets(members: seq<Member>, name: seq<byte>, v: Value)
    requires Ascending(members)
    ensures var after := Put(members, name, v);
            && Ascending(after)
            && forall x, w :: Member(x, w) in after <==> if x == name then w == v else Member(x, w) in members
  {
    if members != [] {
      var first, rest := members[0], members[1..];
      assert members == [first] + rest;
      PutSets(rest, name, v);
      LessIsTotal(name, first.name);
      LessOrEqual(name, first.name);
      forall k | 0 <= k < |rest|
        ensures Less(first.name, rest[k].name) && first.name != rest[k].name
        ensures Less(name, first.name) ==> Less(name, rest[k].name) && name != rest[k].name
      {
        assert rest[k] == members[k + 1];
        LessIsTotal(first.name, rest[k].name);
        if Less(name, first.name) {
          LessIsTransitive(name, first.name, rest[k].name);
          LessIsTotal(name, rest[k].name);
        }
      }
    }
  }

  // ------------------------------------------------------------- samples

  /** Section 7 of RFC 3629: U+0391, U+2262 and U+233B4. */
  lemma SampleCharacters()
    ensures Utf8.CodePointToUTF8(0x391) == [0xCE, 0x91]
    ensures Utf8.CodePointToUTF8(0x2262) == [0xE2, 0x89, 0xA2]
    ensures Utf8.CodePointToUTF8(0x233B4) == [0xF0, 0xA3, 0x8E, 0xB4]
  {
  }

  /** Section 2.1 of RFC 2781: a code point beyond the basic plane is written as its pair. */
  lemma PairIsWritten(cp: nat, high: nat, low: nat)
    requires 0xD800 <= high <= 0xDBFF && 0xDC00 <= low <= 0xDFFF
    requires cp == 0x1_0000 + (high - 0xD800) * 0x400 + (low - 0xDC00)
    ensures HexOrRaw(cp) == AppendHex(high) + AppendHex(low)
  {
    TakeTen(cp - 0x1_0000, high - 0xD800, low - 0xDC00);
  }

  lemma TakeTen(x: nat, h: nat, l: nat)
    requires h < 0x400 && l < 0x400 && x == h * 0x400 + l
    ensures x / 0x400 % 0x400 == h && x % 0x400 == l
  {
    assert x / 0x400 == h;
  }

  /** The digits of D808 and DF45, the pair of U+12345 in section 5 of RFC 2781. */
  lemma SampleUnits(high: nat, low: nat)
    requires high == 0xD808 && low == 0xDF45
    ensures AppendHex(high) == [0x5C, 0x75, 0x64, 0x38, 0x30, 0x38]
    ensures AppendHex(low) == [0x5C, 0x75, 0x64, 0x66, 0x34, 0x35]
  {
    TwoBytesOf(high, 0xD8, 0x08);
    TwoBytesOf(low, 0xDF, 0x45);
  }

  lemma SampleItems()
    ensures Text(Arr([Value.Int(1), Bool(true), Null])) == [91, 49, 44, 116, 114, 117, 101, 44, 110, 117, 108, 108, 93]
  {
    assert [Value.Int(1), Bool(true), Null][1..] == [Bool(true), Null] && [Bool(true), Null][1..] == [Null];
    var texts := Texts([Value.Int(1), Bool(true), Null]);
    assert texts == [[49], TEXT_TRUE, TEXT_NULL];
    assert texts[1..] == [TEXT_TRUE, TEXT_NULL] && [TEXT_TRUE, TEXT_NULL][1..] == [TEXT_NULL];
  }

  lemma SampleStrings()
    ensures Quoted([97], false) == [34, 97, 34] && Quoted([98], false) == [34, 98, 34]
    ensures Quoted([120, 10], false) == [34, 120, 92, 110, 34]
  {
    NothingToEscape([97], false);
    NothingToEscape([98], false);
    assert [120, 10][1..] == [10] && [10][1..] == [];
    HarmlessOne([120, 10], false);
    assert EscapeOne([10], false) == Chunk([92, 110], 1);
    assert Escape([10], false) == [92, 110];
  }

  /** {"a":t,"b":u} */
  lemma SampleObject(first: Member, second: Member, t: seq<byte>, u: seq<byte>)
    requires first.name == [97] && second.name == [98] && t == Text(first.value) && u == Text(second.value)
    ensures Text(Obj([first, second])) == [123, 34, 97, 34, 58] + t + ([44, 34, 98, 34, 58] + u) + [125]
  {
    SampleStrings();
    var a, b := MemberText([34, 97, 34], t), MemberText([34, 98, 34], u);
    var texts := MemberTexts([first, second]);
    assert texts == [a, b] && texts[1..] == [b];
    assert Joined(texts) == a + ([44] + b);
    SampleJoins(t, u, a, b);
  }

  lemma SampleJoins(t: seq<byte>, u: seq<byte>, a: seq<byte>, b: seq<byte>)
    requires a == [34, 97, 34] + ([58] + t) && b == [34, 98, 34] + ([58] + u)
    ensures [123] + (a + ([44] + b)) == [123, 34, 97, 34, 58] + t + ([44, 34, 98, 34, 58] + u)
  {
    assert a == [34, 97, 34, 58] + t && [44] + b == [44, 34, 98, 34, 58] + u;
    assert [123] + (a + ([44] + b)) == [123, 34, 97, 34, 58] + t + ([44] + b);
  }
}
