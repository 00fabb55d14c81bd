/** Quoted JSON strings: escaping, finding the closing quote, and decoding. Section 7
    of RFC 8259; surrogate pairs as in section 2.1 of RFC 2781. */
module JsonStrings {
  import opened Bytes
  import opened Utf8
  import opened Wrappers

  const QUOTE: byte := 34
  const BACKSLASH: byte := 92
  const LETTER_U: byte := 117

  // ------------------------------------------------------------- hexadecimal

  function HexDigit(d: nat): byte
    requires d < 16
  {
    if d < 10 then 48 + d else 87 + d
  }

  function HexValue(b: byte): Option<nat> {
    if 48 <= b <= 57 then Some(b - 48)
    else if 97 <= b <= 102 then Some(b - 87)
    else if 65 <= b <= 70 then Some(b - 55)
    else None
  }

  function ToHex16Bit(x: nat): (h: seq<byte>)
    ensures |h| == 4
  {
    var hi, lo := x / 0x100 % 0x100, x % 0x100;
    [HexDigit(hi / 16), HexDigit(hi % 16), HexDigit(lo / 16), HexDigit(lo % 16)]
  }

  function AppendHex(x: nat): (h: seq<byte>)
    ensures |h| == 6
  {
    [BACKSLASH, LETTER_U] + ToHex16Bit(x)
  }

  /** Four hexadecimal digits. */
  function DecodeHex(s: seq<byte>): Option<nat> {
    if |s| < 4 then None
    else
      var a, b, c, d := HexValue(s[0]), HexValue(s[1]), HexValue(s[2]), HexValue(s[3]);
      if a.None? || b.None? || c.None? || d.None? then None
      else Some(((a.value * 16 + b.value) * 16 + c.value) * 16 + d.value)
  }

  lemma SplitByte(x: nat)
    requires x < 0x100
    ensures x / 16 < 16 && x / 16 * 16 + x % 16 == x
  {
  }

  lemma FourDigitsAreRead(a: nat, b: nat, c: nat, d: nat, rest: seq<byte>)
    requires a < 16 && b < 16 && c < 16 && d < 16
    ensures DecodeHex([HexDigit(a), HexDigit(b), HexDigit(c), HexDigit(d)] + rest) ==
              Some(((a * 16 + b) * 16 + c) * 16 + d)
  {
    HexDigitIsRead(a);
    HexDigitIsRead(b);
    HexDigitIsRead(c);
    HexDigitIsRead(d);
  }

  lemma TwoBytesOf(x: nat, hi: nat, lo: nat)
    requires hi < 0x100 && lo < 0x100 && x == hi * 0x100 + lo
    ensures x / 0x100 % 0x100 == hi && x % 0x100 == lo
  {
  }

  lemma BytesAreRead(x: nat, hi: nat, lo: nat, rest: seq<byte>)
    requires hi < 0x100 && lo < 0x100 && x == hi * 0x100 + lo
    ensures DecodeHex(ToHex16Bit(x) + rest) == Some(x)
  {
    TwoBytesOf(x, hi, lo);
    SplitByte(hi);
    SplitByte(lo);
    FourDigitsAreRead(hi / 16, hi % 16, lo / 16, lo % 16, rest);
  }

  lemma HexRoundTrip(x: nat, rest: seq<byte>)
    requires x < 0x1_0000
    ensures DecodeHex(ToHex16Bit(x) + rest) == Some(x)
  {
    BytesAreRead(x, x / 0x100, x % 0x100, rest);
  }

  lemma HexDigitIsRead(d: nat)
    requires d < 16
    ensures HexValue(HexDigit(d)) == Some(d) && HexDigit(d) != QUOTE && HexDigit(d) != BACKSLASH
  {
  }

  // ------------------------------------------------------------- writing

  /** Some output and the number of input bytes it stands for. */
  datatype Chunk = Chunk(text: seq<byte>, used: nat)

  /** The letter that follows the backslash in a short escape, or zero. */
  function ShortEscape(b: byte): byte {
    match b
    case 34 => 34
    case 92 => 92
    case 8 => 98
    case 12 => 102
    case 10 => 110
    case 13 => 114
    case 9 => 116
    case _ => 0
  }

  function HexOrRaw(cp: nat): seq<byte>
    requires cp < 0x20_0000
  {
    if cp < 0x20 then AppendHex(cp)
    else if cp < 0x80 then [cp as byte]
    else if cp < 0x1_0000 then AppendHex(cp)
    else
      var x := cp - 0x1_0000;
      AppendHex(0xD800 + x / 0x400 % 0x400) + AppendHex(0xDC00 + x % 0x400)
  }

  /** How the first character of `s` is written; in default mode it is taken as UTF-8. */
  function EscapeOne(s: seq<byte>, emitUTF8: bool): (r: Chunk)
    requires s != []
    ensures 1 <= r.used <= |s|
  {
    if ShortEscape(s[0]) != 0 then Chunk([BACKSLASH, ShortEscape(s[0])], 1)
    else if emitUTF8 then Chunk(if s[0] < 0x20 then AppendHex(s[0]) else [s[0]], 1)
    else
      NeverSurrogate(s);
      var r := Utf8ToCodepoint(s);
      Chunk(HexOrRaw(r.cp), r.used)
  }

  function Escape(s: seq<byte>, emitUTF8: bool): seq<byte> {
    if s == [] then [] else
      var r := EscapeOne(s, emitUTF8);
      r.text + Escape(s[r.used..], emitUTF8)
  }

  function Quoted(s: seq<byte>, emitUTF8: bool): seq<byte> {
    [QUOTE] + Escape(s, emitUTF8) + [QUOTE]
  }

  lemma Associative(a: seq<byte>, b: seq<byte>, c: seq<byte>)
    ensures a + (b + c) == a + b + c
  {
  }

  /** With `result` so far, escaping the rest of `s` from `c` on gives `goal`. */
  ghost predicate Escaping(s: seq<byte>, c: nat, emitUTF8: bool, result: seq<byte>, goal: seq<byte>) {
    c <= |s| && forall rest {:trigger Escape(rest, emitUTF8)} :: rest == s[c..] ==>
      result + Escape(rest, emitUTF8) == goal
  }

  lemma EscapingStarts(s: seq<byte>, emitUTF8: bool, start: seq<byte>)
    ensures Escaping(s, 0, emitUTF8, start, start + Escape(s, emitUTF8))
  {
    assert s[0..] == s;
  }

  method EscapeNext(s: seq<byte>, c: nat, emitUTF8: bool, ghost result: seq<byte>, ghost goal: seq<byte>)
    returns (r: Chunk)
    requires c < |s| && Escaping(s, c, emitUTF8, result, goal)
    ensures r.used >= 1 && Escaping(s, c + r.used, emitUTF8, result + r.text, goal)
  {
    r := EscapeOne(s[c..], emitUTF8);
    ghost var rest := s[c..];
    assert result + Escape(rest, emitUTF8) == goal && rest[r.used..] == s[c + r.used..];
    Associative(result, r.text, Escape(s[c + r.used..], emitUTF8));
  }

  lemma EscapingEnds(s: seq<byte>, emitUTF8: bool, result: seq<byte>, goal: seq<byte>)
    requires Escaping(s, |s|, emitUTF8, result, goal)
    ensures result == goal
  {
    assert result + Escape(s[|s|..], emitUTF8) == goal && result + [] == result;
  }

  predicate RequiresEscaping(b: byte) {
    b == BACKSLASH || b == QUOTE || b < 0x20 || b > 0x7F
  }

  /** The short cut for harmless strings gives what escaping would. */
  lemma {:induction false} NothingToEscape(s: seq<byte>, emitUTF8: bool)
    requires forall i :: 0 <= i < |s| ==> !RequiresEscaping(s[i])
    ensures Escape(s, emitUTF8) == s
  {
    if s != [] {
      NothingToEscape(s[1..], emitUTF8);
      Harmless(s, emitUTF8);
    }
  }

  lemma Harmless(s: seq<byte>, emitUTF8: bool)
    requires s != [] && !RequiresEscaping(s[0]) && Escape(s[1..], emitUTF8) == s[1..]
    ensures Escape(s, emitUTF8) == s
  {
    HarmlessOne(s, emitUTF8);
    assert [s[0]] + s[1..] == s;
  }

  lemma HarmlessOne(s: seq<byte>, emitUTF8: bool)
    requires s != [] && !RequiresEscaping(s[0])
    ensures EscapeOne(s, emitUTF8) == Chunk([s[0]], 1)
  {
    assert ShortEscape(s[0]) == 0 && Utf8ToCodepoint(s) == Step(s[0], 1);
  }

  method DoesAnyCharRequireEscaping(s: seq<byte>) returns (any: bool)
    ensures any <==> exists i :: 0 <= i < |s| && RequiresEscaping(s[i])
  {
    for i := 0 to |s|
      invariant forall k :: 0 <= k < i ==> !RequiresEscaping(s[k])
    {
      if RequiresEscaping(s[i]) {
        return true;
      }
    }
    return false;
  }

  method ValueToQuotedString(value: seq<byte>, emitUTF8: bool) returns (result: seq<byte>)
    ensures result == Quoted(value, emitUTF8)
  {
    var any := DoesAnyCharRequireEscaping(value);
    if !any {
      NothingToEscape(value, emitUTF8);
      return [QUOTE] + value + [QUOTE];
    }
    result := EscapeAll(value, emitUTF8, [QUOTE]);
    result := result + [QUOTE];
  }

  method EscapeAll(value: seq<byte>, emitUTF8: bool, start: seq<byte>) returns (result: seq<byte>)
    ensures result == start + Escape(value, emitUTF8)
  {
    result := start;
    var c := 0;
    ghost var goal := start + Escape(value, emitUTF8);
    EscapingStarts(value, emitUTF8, start);
    while c < |value|
      invariant Escaping(value, c, emitUTF8, result, goal)
    {
      var r := EscapeNext(value, c, emitUTF8, result, goal);
      result := result + r.text;
      c := c + r.used;
    }
    EscapingEnds(value, emitUTF8, result, goal);
  }

  // ------------------------------------------------------------- reading

  /** The number of bytes up to and including the closing quote. */
  function ScanString(s: seq<byte>): (r: Option<nat>)
    ensures r.Some? ==> 1 <= r.value <= |s|
  {
    if s == [] then None
    else if s[0] == QUOTE then Some(1)
    else
      var n := if s[0] == BACKSLASH then 2 else 1;
      if |s| < n then None else Advance(n, ScanString(s[n..]))
  }

  /** What an escape stands for, after its backslash. */
  function DecodeEscape(s: seq<byte>): (r: Option<Chunk>)
    ensures r.Some? ==> 1 <= r.value.used <= |s|
  {
    if s == [] then None
    else match s[0]
      case 34 => Some(Chunk([34], 1))
      case 47 => Some(Chunk([47], 1))
      case 92 => Some(Chunk([92], 1))
      case 98 => Some(Chunk([8], 1))
      case 102 => Some(Chunk([12], 1))
      case 110 => Some(Chunk([10], 1))
      case 114 => Some(Chunk([13], 1))
      case 116 => Some(Chunk([9], 1))
      case 117 =>
        var r := DecodeUnicodeCodePoint(s[1..]);
        if r.None? then None else Some(Chunk(CodePointToUTF8(r.value.cp), 1 + r.value.used))
      case _ => None
  }

  /** One or two escapes of four digits; a high surrogate needs a second one, whose
      low ten bits are used whatever they are. */
  function DecodeUnicodeCodePoint(s: seq<byte>): (r: Option<Step>)
    ensures r.Some? ==> 4 <= r.value.used <= |s|
  {
    var u := DecodeHex(s);
    if u.None? then None
    else if 0xD800 <= u.value <= 0xDBFF then
      if |s| < 10 || s[4] != BACKSLASH || s[5] != LETTER_U then None
      else
        var low := DecodeHex(s[6..]);
        if low.None? then None else Some(Step(0x1_0000 + u.value % 0x400 * 0x400 + low.value % 0x400, 10))
    else Some(Step(u.value, 4))
  }

  function DecodeString(s: seq<byte>): Option<seq<byte>> {
    if s == [] || s[0] == QUOTE then Some([])
    else if s[0] == BACKSLASH then
      var r := DecodeEscape(s[1..]);
      if r.None? then None else Prepend(r.value.text, DecodeString(s[1 + r.value.used..]))
    else Prepend([s[0]], DecodeString(s[1..]))
  }

  function Prepend(a: seq<byte>, r: Option<seq<byte>>): Option<seq<byte>> {
    if r.None? then None else Some(a + r.value)
  }

  // ------------------------------------------------------------- what survives

  /** The code point that is read back for `cp`: the same one, if it is one. */
  function Kept(cp: nat): nat {
    if cp < 0x1_0000 then cp else 0x1_0000 + (cp - 0x1_0000) % 0x10_0000
  }

  /** What the first character of `s` comes back as. */
  function RewriteOne(s: seq<byte>, emitUTF8: bool): (r: Chunk)
    requires s != []
    ensures 1 <= r.used <= |s|
  {
    if emitUTF8 || ShortEscape(s[0]) != 0 then Chunk([s[0]], 1)
    else
      var r := Utf8ToCodepoint(s);
      Chunk(CodePointToUTF8(Kept(r.cp)), r.used)
  }

  function Rewrite(s: seq<byte>, emitUTF8: bool): seq<byte> {
    if s == [] then [] else
      var r := RewriteOne(s, emitUTF8);
      r.text + Rewrite(s[r.used..], emitUTF8)
  }

  /** Wherever decoding meets `t`, it gives `m` and goes on behind it. */
  ghost predicate Reads(t: seq<byte>, m: seq<byte>) {
    forall rest {:trigger DecodeString(t + rest)} :: DecodeString(t + rest) == Prepend(m, DecodeString(rest))
  }

  function Advance(n: nat, r: Option<nat>): Option<nat> {
    if r.None? then None else Some(n + r.value)
  }

  /** The search for the closing quote passes over `t`. */
  ghost predicate Passes(t: seq<byte>) {
    forall rest {:trigger ScanString(t + rest)} :: ScanString(t + rest) == Advance(|t|, ScanString(rest))
  }

  lemma RawByte(b: byte)
    requires b != QUOTE && b != BACKSLASH
    ensures Reads([b], [b]) && Passes([b])
  {
    forall rest
      ensures DecodeString([b] + rest) == Prepend([b], DecodeString(rest)) &&
              ScanString([b] + rest) == Advance(1, ScanString(rest))
    {
      assert ([b] + rest)[1..] == rest;
    }
  }

  lemma EscapePasses(b: byte)
    ensures Passes([BACKSLASH, b])
  {
    forall rest
      ensures ScanString([BACKSLASH, b] + rest) == Advance(2, ScanString(rest))
    {
      assert ([BACKSLASH, b] + rest)[2..] == rest;
    }
  }

  lemma PassesOn(t: seq<byte>, u: seq<byte>)
    requires Passes(t) && Passes(u)
    ensures Passes(t + u)
  {
    forall rest
      ensures ScanString(t + u + rest) == Advance(|t + u|, ScanString(rest))
    {
      assert t + u + rest == t + (u + rest);
    }
  }

  lemma ShortEscapeIsRead(b: byte)
    requires ShortEscape(b) != 0
    ensures Reads([BACKSLASH, ShortEscape(b)], [b])
  {
    forall rest
      ensures DecodeString([BACKSLASH, ShortEscape(b)] + rest) == Prepend([b], DecodeString(rest))
    {
      var t := [BACKSLASH, ShortEscape(b)] + rest;
      assert t[1..][0] == ShortEscape(b) && t[2..] == rest;
      assert DecodeEscape(t[1..]) == Some(Chunk([b], 1));
    }
  }

  lemma HexIsPassed(x: nat)
    ensures Passes(AppendHex(x))
  {
    var h := ToHex16Bit(x);
    forall k | 0 <= k < 4
      ensures Passes([h[k]])
    {
      HexDigitIsRead(x / 0x100 % 0x100 / 16);
      HexDigitIsRead(x / 0x100 % 0x100 % 16);
      HexDigitIsRead(x % 0x100 / 16);
      HexDigitIsRead(x % 0x100 % 16);
      RawByte(h[k]);
    }
    EscapePasses(LETTER_U);
    PassesOn([BACKSLASH, LETTER_U], [h[0]]);
    PassesOn([BACKSLASH, LETTER_U] + [h[0]], [h[1]]);
    PassesOn([BACKSLASH, LETTER_U] + [h[0]] + [h[1]], [h[2]]);
    PassesOn([BACKSLASH, LETTER_U] + [h[0]] + [h[1]] + [h[2]], [h[3]]);
    assert AppendHex(x) == [BACKSLASH, LETTER_U] + [h[0]] + [h[1]] + [h[2]] + [h[3]];
  }

  lemma UnicodeEscape(s: seq<byte>, cp: nat, used: nat)
    requires |s| >= 2 && s[0] == BACKSLASH && s[1] == LETTER_U && DecodeUnicodeCodePoint(s[2..]) == Some(Step(cp, used))
    ensures DecodeString(s) == Prepend(CodePointToUTF8(cp), DecodeString(s[2 + used..]))
  {
    assert s[1..][1..] == s[2..];
    LetterU(s[1..], cp, used);
    EscapeDecodes(s, Chunk(CodePointToUTF8(cp), 1 + used));
  }

  lemma LetterU(s: seq<byte>, cp: nat, used: nat)
    requires s != [] && s[0] == LETTER_U && DecodeUnicodeCodePoint(s[1..]) == Some(Step(cp, used))
    ensures DecodeEscape(s) == Some(Chunk(CodePointToUTF8(cp), 1 + used))
  {
  }

  lemma EscapeDecodes(s: seq<byte>, r: Chunk)
    requires s != [] && s[0] == BACKSLASH && DecodeEscape(s[1..]) == Some(r)
    ensures DecodeString(s) == Prepend(r.text, DecodeString(s[1 + r.used..]))
  {
  }

  lemma HexEscapeIsRead(x: nat)
    requires x < 0x1_0000 && !(0xD800 <= x <= 0xDBFF)
    ensures Reads(AppendHex(x), CodePointToUTF8(x))
  {
    forall rest
      ensures DecodeString(AppendHex(x) + rest) == Prepend(CodePointToUTF8(x), DecodeString(rest))
    {
      var t := AppendHex(x) + rest;
      assert t[2..] == ToHex16Bit(x) + rest && t[6..] == rest;
      HexRoundTrip(x, rest);
      UnicodeEscape(t, x, 4);
    }
  }

  lemma PairDecodes(hi: nat, lo: nat, rest: seq<byte>)
    requires hi < 0x400 && lo < 0x400
    ensures DecodeUnicodeCodePoint(ToHex16Bit(0xD800 + hi) + (AppendHex(0xDC00 + lo) + rest))
         == Some(Step(0x1_0000 + hi * 0x400 + lo, 10))
  {
    var u := ToHex16Bit(0xD800 + hi) + (AppendHex(0xDC00 + lo) + rest);
    HexRoundTrip(0xD800 + hi, AppendHex(0xDC00 + lo) + rest);
    HexRoundTrip(0xDC00 + lo, rest);
    assert u[4] == BACKSLASH && u[5] == LETTER_U && u[6..] == ToHex16Bit(0xDC00 + lo) + rest;
    SurrogateBits(hi, lo);
  }

  lemma SurrogateBits(hi: nat, lo: nat)
    requires hi < 0x400 && lo < 0x400
    ensures (0xD800 + hi) % 0x400 == hi && (0xDC00 + lo) % 0x400 == lo
  {
  }

  lemma PairIsRead(hi: nat, lo: nat, cp: nat)
    requires hi < 0x400 && lo < 0x400 && cp == 0x1_0000 + hi * 0x400 + lo
    ensures Reads(AppendHex(0xD800 + hi) + AppendHex(0xDC00 + lo), CodePointToUTF8(cp))
  {
    var a, b := AppendHex(0xD800 + hi), AppendHex(0xDC00 + lo);
    forall rest
      ensures DecodeString(a + b + rest) == Prepend(CodePointToUTF8(cp), DecodeString(rest))
    {
      var t := a + b + rest;
      assert t[2..] == ToHex16Bit(0xD800 + hi) + (b + rest) && t[12..] == rest;
      PairDecodes(hi, lo, rest);
      UnicodeEscape(t, cp, 10);
    }
  }

  lemma CodePointIsRead(cp: nat)
    requires (Scalar(cp) || 0x10FFFF < cp <= 0x1FFFFF) && cp != 34 && cp != 92
    ensures Reads(HexOrRaw(cp), CodePointToUTF8(Kept(cp))) && Passes(HexOrRaw(cp))
  {
    if 0x20 <= cp < 0x80 {
      RawByte(cp as byte);
    } else if cp < 0x1_0000 {
      HexEscapeIsRead(cp);
      HexIsPassed(cp);
    } else {
      SupplementaryIsRead(cp);
    }
  }

  lemma SplitPair(cp: nat) returns (hi: nat, lo: nat)
    requires 0x1_0000 <= cp
    ensures var x := cp - 0x1_0000; hi == x / 0x400 % 0x400 && lo == x % 0x400 && Kept(cp) == 0x1_0000 + hi * 0x400 + lo
    ensures hi < 0x400 && lo < 0x400
  {
    var x := cp - 0x1_0000;
    hi, lo := x / 0x400 % 0x400, x % 0x400;
    KeepsPair(x, x / 0x400, x / 0x400 / 0x400, hi, lo);
  }

  lemma KeepsPair(x: nat, q: nat, p: nat, hi: nat, lo: nat)
    requires x == q * 0x400 + lo && q == p * 0x400 + hi && hi < 0x400 && lo < 0x400
    ensures Kept(0x1_0000 + x) == 0x1_0000 + hi * 0x400 + lo
  {
    assert x == p * 0x10_0000 + (hi * 0x400 + lo);
    Remainder(x, p, hi * 0x400 + lo);
  }

  lemma Remainder(x: nat, p: nat, r: nat)
    requires x == p * 0x10_0000 + r && r < 0x10_0000
    ensures x % 0x10_0000 == r
  {
  }

  lemma SupplementaryIsRead(cp: nat)
    requires 0x1_0000 <= cp <= 0x1FFFFF
    ensures Reads(HexOrRaw(cp), CodePointToUTF8(Kept(cp))) && Passes(HexOrRaw(cp))
  {
    var hi, lo := SplitPair(cp);
    assert HexOrRaw(cp) == AppendHex(0xD800 + hi) + AppendHex(0xDC00 + lo);
    PairIsRead(hi, lo, Kept(cp));
    PairIsPassed(hi, lo);
  }

  lemma PairIsPassed(hi: nat, lo: nat)
    ensures Passes(AppendHex(0xD800 + hi) + AppendHex(0xDC00 + lo))
  {
    HexIsPassed(0xD800 + hi);
    HexIsPassed(0xDC00 + lo);
    PassesOn(AppendHex(0xD800 + hi), AppendHex(0xDC00 + lo));
  }

  lemma ChunkIsRead(s: seq<byte>, emitUTF8: bool)
    requires s != []
    ensures var r := EscapeOne(s, emitUTF8);
            && r.used == RewriteOne(s, emitUTF8).used
            && Reads(r.text, RewriteOne(s, emitUTF8).text) && Passes(r.text)
  {
    if ShortEscape(s[0]) != 0 {
      ShortEscapeIsRead(s[0]);
      EscapePasses(ShortEscape(s[0]));
    } else if emitUTF8 {
      if s[0] < 0x20 {
        HexEscapeIsRead(s[0]);
        HexIsPassed(s[0]);
      } else {
        RawByte(s[0]);
      }
    } else {
      NeverSurrogate(s);
      CodePointIsRead(Utf8ToCodepoint(s).cp);
    }
  }

  /** Tokenising finds the closing quote, and decoding gives the rewritten string. */
  lemma {:induction false} QuotingIsRead(s: seq<byte>, emitUTF8: bool)
    ensures DecodeString(Escape(s, emitUTF8)) == Some(Rewrite(s, emitUTF8)) && Passes(Escape(s, emitUTF8))
  {
    if s != [] {
      var r := EscapeOne(s, emitUTF8);
      ChunkIsRead(s, emitUTF8);
      QuotingIsRead(s[r.used..], emitUTF8);
      PassesOn(r.text, Escape(s[r.used..], emitUTF8));
    } else {
      EmptyPasses();
    }
  }

  lemma EmptyPasses()
    ensures Passes([])
  {
    forall rest: seq<byte>
      ensures ScanString([] + rest) == Advance(0, ScanString(rest))
    {
      assert [] + rest == rest;
    }
  }

  /** Emitting UTF-8, every string of bytes survives. */
  lemma {:induction false} RewriteRaw(s: seq<byte>)
    ensures Rewrite(s, true) == s
  {
    if s != [] {
      RewriteRaw(s[1..]);
    }
  }

  lemma RewriteOneValid(s: seq<byte>)
    requires CharLength(s) > 0
    ensures RewriteOne(s, false) == Chunk(s[..CharLength(s)], CharLength(s))
  {
    ValidIsRead(s);
    KeptScalar(Utf8ToCodepoint(s).cp);
  }

  lemma KeptScalar(cp: nat)
    requires Scalar(cp)
    ensures Kept(cp) == cp
  {
  }

  /** In default mode well-formed UTF-8 survives. */
  lemma {:induction false} RewriteValid(s: seq<byte>)
    requires Valid(s)
    ensures Rewrite(s, false) == s
  {
    if s != [] {
      var n := CharLength(s);
      RewriteOneValid(s);
      RewriteValid(s[n..]);
      RewriteKeeps(s, n);
    }
  }

  lemma RewriteKeeps(s: seq<byte>, n: nat)
    requires s != [] && n <= |s| && RewriteOne(s, false) == Chunk(s[..n], n) && Rewrite(s[n..], false) == s[n..]
    ensures Rewrite(s, false) == s
  {
  }

  lemma KeptIsScalar(s: seq<byte>)
    requires s != []
    ensures Scalar(Kept(Utf8ToCodepoint(s).cp))
  {
    NeverSurrogate(s);
  }

  /** In default mode what comes back is always well-formed. */
  lemma {:induction false} RewriteIsValid(s: seq<byte>)
    ensures Valid(Rewrite(s, false))
  {
    if s != [] {
      var r := RewriteOne(s, false);
      var rest := Rewrite(s[r.used..], false);
      RewriteIsValid(s[r.used..]);
      var cp: nat := if ShortEscape(s[0]) != 0 then s[0] else Kept(Utf8ToCodepoint(s).cp);
      KeptIsScalar(s);
      EncodingIsValid(cp, rest);
      assert r.text == CodePointToUTF8(cp) && (r.text + rest)[|r.text|..] == rest;
    }
  }

  /** The round trip: with emitUTF8 for every string; in default mode exactly for the
      well-formed ones. */
  lemma RoundTrip(s: seq<byte>, emitUTF8: bool)
    ensures DecodeString(Escape(s, emitUTF8)) == Some(s) <==> emitUTF8 || Valid(s)
  {
    QuotingIsRead(s, emitUTF8);
    if emitUTF8 {
      RewriteRaw(s);
    } else {
      RewriteIsValid(s);
      if Valid(s) {
        RewriteValid(s);
      }
    }
  }

  /** A byte that begins no character does not come back in default mode. */
  lemma StrayByte()
    ensures DecodeString(Escape([0xFF], false)) != Some([0xFF]) && DecodeString(Escape([0xFF], true)) == Some([0xFF])
  {
    RoundTrip([0xFF], false);
    RoundTrip([0xFF], true);
  }
}
