/** Decimal integers of the JSON writer and readers. */
module JsonNumbers {
  import opened Bytes

  const MAX_INT: nat := 0x7FFF_FFFF
  const MAX_LARGEST_INT: nat := 0x7FFF_FFFF_FFFF_FFFF
  const MAX_LARGEST_UINT: nat := 0xFFFF_FFFF_FFFF_FFFF
  const MIN_LARGEST_INT: int := -0x8000_0000_0000_0000
  const MINUS: byte := 45

  /** What a number token stands for: an integer of a signed or an unsigned kind, or
      text left to floating-point conversion. */
  datatype Number = Int(i: int) | UInt(u: nat) | Double(text: seq<byte>)

  predicate IsDigit(b: byte) {
    48 <= b <= 57
  }

  predicate AllDigits(s: seq<byte>) {
    forall i :: 0 <= i < |s| ==> IsDigit(s[i])
  }

  /** The value of a row of digits, most significant first. */
  function ValueOf(s: seq<byte>): nat
    requires AllDigits(s)
  {
    if s == [] then 0 else ValueOf(s[..|s| - 1]) * 10 + (s[|s| - 1] - 48)
  }

  // ------------------------------------------------------------- writing

  function Digits(n: nat): (s: seq<byte>)
    ensures s != [] && AllDigits(s) && ValueOf(s) == n
  {
    if n < 10 then [(48 + n) as byte] else Digits(n / 10) + [(48 + n % 10) as byte]
  }

  /** The digits of a value, without a needless zero in front; 20 of them are enough. */
  lemma {:induction false} DigitsAreShort(n: nat, k: nat)
    requires n < Power(k) && k > 0
    ensures |Digits(n)| <= k && (n > 0 ==> Digits(n)[0] != 48)
  {
    if n >= 10 {
      assert n / 10 < Power(k - 1);
      DigitsAreShort(n / 10, k - 1);
    }
  }

  function Power(k: nat): nat {
    if k == 0 then 1 else 10 * Power(k - 1)
  }

  /** Digits from the last to the first; the buffer of 25 characters is never full. */
  method UintToString(value: nat) returns (text: seq<byte>)
    requires value <= MAX_LARGEST_UINT
    ensures text == Digits(value) && |text| <= 20
  {
    text := [];
    var rest := value;
    while rest >= 10
      invariant Digits(rest) + text == Digits(value)
    {
      text := [(48 + rest % 10) as byte] + text;
      rest := rest / 10;
    }
    text := [(48 + rest) as byte] + text;
    TwentyDigits();
    DigitsAreShort(value, 20);
  }

  lemma TwentyDigits()
    ensures Power(20) == 1_0000_0000_0000_0000_0000
  {
    assert Power(8) == 1_0000_0000;
    assert Power(16) == 1_0000_0000_0000_0000;
  }

  predicate InRange(i: int) {
    MIN_LARGEST_INT <= i <= MAX_LARGEST_UINT
  }

  function IntText(i: int): seq<byte> {
    if i < 0 then [MINUS] + Digits(-i) else Digits(i)
  }

  /** The text of a signed or unsigned 64-bit integer. The smallest one has no
      negative of its kind. */
  method ValueToString(value: int) returns (text: seq<byte>)
    requires InRange(value)
    ensures text == IntText(value) && |text| < 25
  {
    if value == MIN_LARGEST_INT {
      text := UintToString(MAX_LARGEST_INT + 1);
      text := [MINUS] + text;
    } else if value < 0 {
      text := UintToString(-value);
      text := [MINUS] + text;
    } else {
      text := UintToString(value);
    }
  }

  // ------------------------------------------------------------- reading

  /** A sign, if any, and the rest. */
  function Tail(token: seq<byte>): seq<byte> {
    if token != [] && token[0] == MINUS then token[1..] else token
  }

  predicate Negative(token: seq<byte>) {
    token != [] && token[0] == MINUS
  }

  function Largest(negative: bool): nat {
    if negative then MAX_LARGEST_INT + 1 else MAX_LARGEST_UINT
  }

  /** An optional minus and digits, and the integer they spell is in the 64-bit range:
      of the signed kind with the minus, of the unsigned one without. */
  predicate Fits(token: seq<byte>) {
    AllDigits(Tail(token)) && ValueOf(Tail(token)) <= Largest(Negative(token))
  }

  /** The meaning of a number token, where unsigned kinds begin above `limit`. */
  function NumberOf(token: seq<byte>, limit: nat): Number {
    if !Fits(token) then Double(token)
    else
      var v: int := ValueOf(Tail(token));
      if Negative(token) then Int(-v) else if v <= limit then Int(v) else UInt(v)
  }

  lemma {:induction false} LongerIsLarger(s: seq<byte>, k: nat)
    requires k <= |s| && AllDigits(s)
    ensures ValueOf(s[..k]) <= ValueOf(s) && (k < |s| ==> ValueOf(s[..k]) * 10 <= ValueOf(s))
  {
    if k == |s| {
      assert s[..k] == s;
    } else {
      LongerIsLarger(s[..|s| - 1], k);
      assert s[..|s| - 1][..k] == s[..k];
    }
  }

  /** The magnitude that the digits spell, or none when there is another character or
      it is larger than `max`. The accumulator stays within 64 bits. */
  method Accumulate(s: seq<byte>, max: nat) returns (ok: bool, value: nat)
    requires max <= MAX_LARGEST_UINT && max >= 10
    ensures ok <==> AllDigits(s) && ValueOf(s) <= max
    ensures ok ==> value == ValueOf(s)
  {
    var threshold := max / 10;
    value := 0;
    var current := 0;
    while current < |s|
      invariant current <= |s| && AllDigits(s[..current]) && value == ValueOf(s[..current]) && value <= max
    {
      var c := s[current];
      current := current + 1;
      if !IsDigit(c) {
        return false, value;
      }
      var digit := c - 48;
      assert s[..current][..current - 1] == s[..current - 1];
      assert ValueOf(s[..current]) == value * 10 + digit;
      if value >= threshold {
        if value > threshold || current != |s| || digit > max % 10 {
          if AllDigits(s) {
            LongerIsLarger(s, current);
            LongerIsLarger(s, current - 1);
          }
          return false, value;
        }
      }
      assert value * 10 + digit <= max;
      value := value * 10 + digit;
    }
    assert s[..|s|] == s;
    return true, value;
  }

  /** The deprecated reader: non-negative integers are unsigned above the 32-bit range. */
  method DecodeNumber(token: seq<byte>) returns (n: Number)
    ensures n == NumberOf(token, MAX_INT) && (!n.Double? <==> Fits(token))
  {
    var negative := token != [] && token[0] == MINUS;
    var max := if negative then MAX_LARGEST_INT + 1 else MAX_LARGEST_UINT;
    var ok, value := Accumulate(if negative then token[1..] else token, max);
    if !ok {
      n := Double(token);
    } else if negative && value == max {
      n := Int(MIN_LARGEST_INT);
    } else if negative {
      n := Int(-value);
    } else if value <= MAX_INT {
      n := Int(value);
    } else {
      n := UInt(value);
    }
  }

  /** The current reader: unsigned above the signed 64-bit range only. The negative
      value is put together from its last digit and the others. */
  method DecodeOurNumber(token: seq<byte>) returns (n: Number)
    ensures n == NumberOf(token, MAX_LARGEST_INT) && (!n.Double? <==> Fits(token))
  {
    var negative := token != [] && token[0] == MINUS;
    var max := if negative then MAX_LARGEST_INT + 1 else MAX_LARGEST_UINT;
    var ok, value := Accumulate(if negative then token[1..] else token, max);
    if !ok {
      n := Double(token);
    } else if negative {
      var lastDigit := value % 10;
      assert MIN_LARGEST_INT <= -(value / 10) * 10 - lastDigit;
      n := Int(-(value / 10) * 10 - lastDigit);
    } else if value <= MAX_LARGEST_INT {
      n := Int(value);
    } else {
      n := UInt(value);
    }
  }

  // ------------------------------------------------------------- together

  /** Both readers give back every 64-bit integer, the smallest included. */
  lemma ReadBackInt(i: int, limit: nat)
    requires InRange(i)
    ensures NumberOf(IntText(i), limit) == (if i <= limit then Int(i) else UInt(i))
  {
    if i < 0 {
      assert Tail(IntText(i)) == Digits(-i);
    } else {
      assert IsDigit(IntText(i)[0]);
    }
  }
}
