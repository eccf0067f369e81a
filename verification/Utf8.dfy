/** The number of bytes a text has in UTF-8. */
module Utf8 {
  /** The bytes of a character in UTF-8. */
  function Encoded(c: char): seq<int> {
    var n := c as int;
    if n < 0x80 then [n]
    else if n < 0x800 then [0xC0 + n / 64, 0x80 + n % 64]
    else if n < 0x10000 then [0xE0 + n / 4096, 0x80 + n / 64 % 64, 0x80 + n % 64]
    else [0xF0 + n / 262144, 0x80 + n / 4096 % 64, 0x80 + n / 64 % 64, 0x80 + n % 64]
  }

  function Utf8Length(s: string): nat {
    if s == [] then 0 else |Encoded(s[0])| + Utf8Length(s[1..])
  }

  function CodePoint(bytes: seq<int>): int
    requires 1 <= |bytes| <= 4
  {
    if |bytes| == 1 then bytes[0]
    else if |bytes| == 2 then (bytes[0] - 0xC0) * 64 + (bytes[1] - 0x80)
    else if |bytes| == 3 then ((bytes[0] - 0xE0) * 64 + (bytes[1] - 0x80)) * 64 + (bytes[2] - 0x80)
    else (((bytes[0] - 0xF0) * 64 + (bytes[1] - 0x80)) * 64 + (bytes[2] - 0x80)) * 64 + (bytes[3] - 0x80)
  }

  /** Section 4 of RFC 3629: the byte ranges, which leave no room for overlong forms. */
  predicate WellFormed(b: seq<int>) {
    || (|b| == 1 && b[0] <= 0x7F)
    || (|b| == 2 && 0xC2 <= b[0] <= 0xDF && Tail(b[1]))
    || (|b| == 3 && 0xE0 <= b[0] <= 0xEF && Tail(b[1]) && Tail(b[2]) && (b[0] == 0xE0 ==> b[1] >= 0xA0))
    || (|b| == 4 && 0xF0 <= b[0] <= 0xF4 && Tail(b[1]) && Tail(b[2]) && Tail(b[3]) && (b[0] == 0xF0 ==> b[1] >= 0x90))
  }

  predicate Tail(b: int) {
    0x80 <= b <= 0xBF
  }

  lemma {:induction false} Digits(n: nat)
    ensures n == n / 64 * 64 + n % 64 && 0 <= n % 64 < 64 && n / 64 / 64 == n / 4096 && n / 4096 / 64 == n / 262144
  {}

  lemma {:induction false} TwoBytes(c: char)
    requires 0x80 <= c as int < 0x800
    ensures WellFormed(Encoded(c)) && CodePoint(Encoded(c)) == c as int
  {
    Digits(c as int);
  }

  lemma {:induction false} ThreeBytes(c: char)
    requires 0x800 <= c as int < 0x10000
    ensures WellFormed(Encoded(c)) && CodePoint(Encoded(c)) == c as int
  {
    var n := c as int;
    Digits(n);
    Digits(n / 64);
    assert Encoded(c) == [0xE0 + n / 4096, 0x80 + n / 64 % 64, 0x80 + n % 64];
  }

  lemma {:induction false} FourBytes(c: char)
    requires 0x10000 <= c as int
    ensures WellFormed(Encoded(c)) && CodePoint(Encoded(c)) == c as int
  {
    var n := c as int;
    Digits(n);
    Digits(n / 64);
    Digits(n / 4096);
    assert Encoded(c) == [0xF0 + n / 262144, 0x80 + n / 4096 % 64, 0x80 + n / 64 % 64, 0x80 + n % 64];
  }

  /** The bytes that are counted are the UTF-8 form of the character. */
  lemma {:induction false} Utf8Exact(c: char)
    ensures WellFormed(Encoded(c)) && CodePoint(Encoded(c)) == c as int
  {
    var n := c as int;
    if 0x80 <= n < 0x800 {
      TwoBytes(c);
    } else if 0x800 <= n < 0x10000 {
      ThreeBytes(c);
    } else if 0x10000 <= n {
      FourBytes(c);
    }
  }
}
