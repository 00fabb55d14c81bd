/** UTF-8, as section 4 of RFC 3629 defines it and as the JSON code computes with it. */
module Utf8 {
  import opened Bytes

  const REPLACEMENT_CHARACTER: nat := 0xFFFD

  /** Code points that have an encoding: all but the surrogates. */
  predicate Scalar(cp: nat) {
    cp < 0xD800 || 0xE000 <= cp <= 0x10FFFF
  }

  predicate Continuation(b: byte) {
    0x80 <= b <= 0xBF
  }

  /** The length of the well-formed character that `s` begins with, or zero. */
  function CharLength(s: seq<byte>): (n: nat)
    ensures n <= 4 && n <= |s|
  {
    if |s| >= 1 && s[0] <= 0x7F then 1
    else if |s| >= 2 && 0xC2 <= s[0] <= 0xDF && Continuation(s[1]) then 2
    else if |s| >= 3 && 0xE0 <= s[0] <= 0xEF && Continuation(s[1]) && Continuation(s[2])
            && (s[0] == 0xE0 ==> s[1] >= 0xA0) && (s[0] == 0xED ==> s[1] <= 0x9F) then 3
    else if |s| >= 4 && 0xF0 <= s[0] <= 0xF4 && Continuation(s[1]) && Continuation(s[2]) && Continuation(s[3])
            && (s[0] == 0xF0 ==> s[1] >= 0x90) && (s[0] == 0xF4 ==> s[1] <= 0x8F) then 4
    else 0
  }

  predicate Valid(s: seq<byte>) {
    s == [] || (CharLength(s) > 0 && Valid(s[CharLength(s)..]))
  }

  /** A continuation byte with the low six bits of `x`. */
  function Tail(x: nat): byte {
    0x80 + x % 0x40
  }

  /** The encoding of a code point; nothing beyond the last one. */
  function CodePointToUTF8(cp: nat): seq<byte> {
    if cp <= 0x7F then [cp as byte]
    else if cp <= 0x7FF then [0xC0 + cp / 0x40 % 0x20, Tail(cp)]
    else if cp <= 0xFFFF then [0xE0 + cp / 0x1000 % 0x10, Tail(cp / 0x40), Tail(cp)]
    else if cp <= 0x10FFFF then [0xF0 + cp / 0x40000 % 8, Tail(cp / 0x1000), Tail(cp / 0x40), Tail(cp)]
    else []
  }

  /** A code point and the number of bytes it took. */
  datatype Step = Step(cp: nat, used: nat)

  function OrReplacement(cp: nat, least: nat): nat {
    if cp < least || 0xD800 <= cp <= 0xDFFF then REPLACEMENT_CHARACTER else cp
  }

  function Six(b: byte): nat {
    b % 0x40
  }

  /** The next code point. Bytes after the first one are taken for continuations
      without a look at their high bits. */
  function Utf8ToCodepoint(s: seq<byte>): (r: Step)
    requires s != []
    ensures 1 <= r.used <= |s|
  {
    var first: nat := s[0];
    if first < 0x80 then Step(first, 1)
    else if first < 0xE0 then
      if |s| < 2 then Step(REPLACEMENT_CHARACTER, 1)
      else Step(OrReplacement(first % 0x20 * 0x40 + Six(s[1]), 0x80), 2)
    else if first < 0xF0 then
      if |s| < 3 then Step(REPLACEMENT_CHARACTER, 1)
      else Step(OrReplacement(first % 0x10 * 0x1000 + Six(s[1]) * 0x40 + Six(s[2]), 0x800), 3)
    else if first < 0xF8 then
      if |s| < 4 then Step(REPLACEMENT_CHARACTER, 1)
      else Step(OrReplacement(first % 8 * 0x40000 + Six(s[1]) * 0x1000 + Six(s[2]) * 0x40 + Six(s[3]), 0x10000), 4)
    else Step(REPLACEMENT_CHARACTER, 1)
  }

  /** Digits of base 64 can be taken off one by one. */
  lemma TakeSix(x: nat, low: nat)
    requires low < 0x40
    ensures (x * 0x40 + low) / 0x40 == x && (x * 0x40 + low) % 0x40 == low
  {
  }

  lemma TwoBytes(a: nat, b: nat)
    requires 2 <= a < 0x20 && b < 0x40
    ensures var cp := a * 0x40 + b; 0x80 <= cp <= 0x7FF && CodePointToUTF8(cp) == [0xC0 + a, 0x80 + b]
  {
    TakeSix(a, b);
  }

  lemma ThreeBytes(a: nat, b: nat, c: nat)
    requires a < 0x10 && b < 0x40 && c < 0x40 && (a == 0 ==> b >= 0x20) && (a == 0xD ==> b < 0x20)
    ensures var cp := a * 0x1000 + b * 0x40 + c;
            0x800 <= cp <= 0xFFFF && Scalar(cp) &&
            CodePointToUTF8(cp) == [0xE0 + a, 0x80 + b, 0x80 + c]
  {
    TakeSix(a * 0x40 + b, c);
    TakeSix(a, b);
  }

  lemma FourBytes(a: nat, b: nat, c: nat, d: nat)
    requires a <= 4 && b < 0x40 && c < 0x40 && d < 0x40 && (a == 0 ==> b >= 0x10) && (a == 4 ==> b < 0x10)
    ensures var cp := a * 0x40000 + b * 0x1000 + c * 0x40 + d;
            0x10000 <= cp <= 0x10FFFF && CodePointToUTF8(cp) == [0xF0 + a, 0x80 + b, 0x80 + c, 0x80 + d]
  {
    var x, y := a * 0x1000 + b * 0x40 + c, a * 0x40 + b;
    TakeSix(x, d);
    TakeSix(y, c);
    TakeSix(a, b);
    FourAssembled(a * 0x40000 + b * 0x1000 + c * 0x40 + d, x, y, a, b, c, d);
  }

  lemma FourAssembled(cp: nat, x: nat, y: nat, a: nat, b: nat, c: nat, d: nat)
    requires 0x10000 <= cp <= 0x10FFFF && a < 8
    requires cp == x * 0x40 + d && x == y * 0x40 + c && y == a * 0x40 + b && b < 0x40 && c < 0x40 && d < 0x40
    ensures CodePointToUTF8(cp) == [0xF0 + a, 0x80 + b, 0x80 + c, 0x80 + d]
  {
    Quotients(cp, x, y, a, b, c, d);
    assert cp % 0x40 == d && x % 0x40 == c && y % 0x40 == b;
  }

  lemma Quotients(cp: nat, x: nat, y: nat, a: nat, b: nat, c: nat, d: nat)
    requires cp == x * 0x40 + d && x == y * 0x40 + c && y == a * 0x40 + b && b < 0x40 && c < 0x40 && d < 0x40
    ensures cp / 0x40 == x && cp / 0x1000 == y && cp / 0x40000 == a
  {
    assert cp == y * 0x1000 + (c * 0x40 + d);
    assert cp == a * 0x40000 + (b * 0x1000 + c * 0x40 + d);
  }

  lemma SplitSix(x: nat) returns (a: nat, b: nat, c: nat, d: nat)
    ensures x == a * 0x40000 + b * 0x1000 + c * 0x40 + d && b < 0x40 && c < 0x40 && d < 0x40
  {
    d := x % 0x40;
    c := x / 0x40 % 0x40;
    b := x / 0x40 / 0x40 % 0x40;
    a := x / 0x40 / 0x40 / 0x40;
  }

  /** The encoding of a scalar value is a well-formed character. */
  lemma EncodingIsValid(cp: nat, rest: seq<byte>)
    requires Scalar(cp)
    ensures CodePointToUTF8(cp) != [] && CharLength(CodePointToUTF8(cp) + rest) == |CodePointToUTF8(cp)|
  {
    var a, b, c, d := SplitSix(cp);
    if 0x7F < cp <= 0x7FF {
      TwoBytes(c, d);
    } else if 0x7FF < cp <= 0xFFFF {
      ThreeBytes(b, c, d);
    } else if cp > 0xFFFF {
      FourBytes(a, b, c, d);
    }
  }

  /** A well-formed character is read as the scalar value that it encodes. */
  lemma ValidIsRead(s: seq<byte>)
    requires CharLength(s) > 0
    ensures var r := Utf8ToCodepoint(s); r.used == CharLength(s) && Scalar(r.cp) && CodePointToUTF8(r.cp) == s[..r.used]
  {
    match CharLength(s) {
      case 1 =>
      case 2 => TwoAreRead(s, s[0] - 0xC0);
      case 3 => ThreeAreRead(s, s[0] - 0xE0);
      case 4 => FourAreRead(s, s[0] - 0xF0);
    }
  }

  lemma TwoAreRead(s: seq<byte>, a: int)
    requires CharLength(s) == 2 && s[0] == 0xC0 + a
    ensures var r := Utf8ToCodepoint(s); r.used == 2 && Scalar(r.cp) && CodePointToUTF8(r.cp) == s[..2]
  {
    assert (0xC0 + a) % 0x20 == a;
    TwoBytes(a, Six(s[1]));
  }

  lemma ThreeAreRead(s: seq<byte>, a: int)
    requires CharLength(s) == 3 && s[0] == 0xE0 + a
    ensures var r := Utf8ToCodepoint(s); r.used == 3 && Scalar(r.cp) && CodePointToUTF8(r.cp) == s[..3]
  {
    assert (0xE0 + a) % 0x10 == a;
    assert 0x80 + Six(s[1]) == s[1] && 0x80 + Six(s[2]) == s[2];
    ThreeBytes(a, Six(s[1]), Six(s[2]));
  }

  lemma FourAreRead(s: seq<byte>, a: int)
    requires CharLength(s) == 4 && s[0] == 0xF0 + a
    ensures var r := Utf8ToCodepoint(s); r.used == 4 && Scalar(r.cp) && CodePointToUTF8(r.cp) == s[..4]
  {
    assert (0xF0 + a) % 8 == a;
    assert 0x80 + Six(s[1]) == s[1] && 0x80 + Six(s[2]) == s[2] && 0x80 + Six(s[3]) == s[3];
    FourBytes(a, Six(s[1]), Six(s[2]), Six(s[3]));
  }

  /** Whatever the bytes, no surrogate is ever read. */
  lemma NeverSurrogate(s: seq<byte>)
    requires s != []
    ensures var r := Utf8ToCodepoint(s); Scalar(r.cp) || 0x10FFFF < r.cp <= 0x1FFFFF
  {
  }
}
