/**
 base64url of section 5 of RFC 4648, built as the source builds it: the platform's
 `btoa` and `atob` with character replacements and padding around them. A binary
 string is modelled by the codes of its units.
 */
module Base64Url {
  import opened Option

  type Byte = b: int | 0 <= b < 256
  type Sextet = v: int | 0 <= v < 64

  // ---------- letters ----------

  function Letter(v: Sextet): char {
    if v < 26 then ('A' as int + v) as char
    else if v < 52 then ('a' as int + v - 26) as char
    else if v < 62 then ('0' as int + v - 52) as char
    else if v == 62 then '+'
    else '/'
  }

  predicate IsLetter(c: char) {
    'A' <= c <= 'Z' || 'a' <= c <= 'z' || '0' <= c <= '9' || c == '+' || c == '/'
  }

  function Bits(c: char): Sextet
    requires IsLetter(c)
  {
    if 'A' <= c <= 'Z' then c as int - 'A' as int
    else if 'a' <= c <= 'z' then c as int - 'a' as int + 26
    else if '0' <= c <= '9' then c as int - '0' as int + 52
    else if c == '+' then 62
    else 63
  }

  predicate IsAsciiSpace(c: char) {
    c == '\t' || c == '\n' || c == '\U{000C}' || c == '\r' || c == ' '
  }

  /** The 64 letters and the 64 values correspond one to one. */
  lemma {:induction false} LetterBits(v: Sextet)
    ensures IsLetter(Letter(v)) && Bits(Letter(v)) == v
  {}

  lemma {:induction false} BitsLetter(c: char)
    requires IsLetter(c)
    ensures Letter(Bits(c)) == c
  {}

  function LettersOf(vs: seq<Sextet>): (r: string)
    ensures |r| == |vs| && forall k :: 0 <= k < |r| ==> r[k] == Letter(vs[k])
  {
    seq(|vs|, k requires 0 <= k < |vs| => Letter(vs[k]))
  }

  predicate AllLetters(s: string) {
    forall k :: 0 <= k < |s| ==> IsLetter(s[k])
  }

  function BitsOf(s: string): (r: seq<Sextet>)
    requires AllLetters(s)
    ensures |r| == |s| && forall k :: 0 <= k < |r| ==> r[k] == Bits(s[k])
  {
    seq(|s|, k requires 0 <= k < |s| => Bits(s[k]))
  }

  // ---------- bytes in groups of six bits ----------

  /** Three bytes are 24 bits, cut into four sextets; a missing byte counts as zero. */
  function S0(x: Byte): Sextet { x / 4 }
  function S1(x: Byte, y: Byte): Sextet { x % 4 * 16 + y / 16 }
  function S2(y: Byte, z: Byte): Sextet { y % 16 * 4 + z / 64 }
  function S3(z: Byte): Sextet { z % 64 }

  function B0(p: Sextet, q: Sextet): Byte { p * 4 + q / 16 }
  function B1(q: Sextet, r: Sextet): Byte { q % 16 * 16 + r / 4 }
  function B2(r: Sextet, t: Sextet): Byte { r % 4 * 64 + t }

  lemma {:induction false} Divide4(q: int, r: int)
    requires 0 <= r < 4
    ensures (q * 4 + r) / 4 == q && (q * 4 + r) % 4 == r
  {}

  lemma {:induction false} Divide16(q: int, r: int)
    requires 0 <= r < 16
    ensures (q * 16 + r) / 16 == q && (q * 16 + r) % 16 == r
  {}

  lemma {:induction false} Divide64(q: int, r: int)
    requires 0 <= r < 64
    ensures (q * 64 + r) / 64 == q && (q * 64 + r) % 64 == r
  {}

  lemma {:induction false} GroupInverse(x: Byte, y: Byte, z: Byte)
    ensures B0(S0(x), S1(x, y)) == x && B1(S1(x, y), S2(y, z)) == y && B2(S2(y, z), S3(z)) == z
    ensures S1(x, 0) % 16 == 0 && S2(y, 0) % 4 == 0
  {
    Divide16(x % 4, y / 16);
    Divide4(y % 16, z / 64);
    Divide16(x % 4, 0);
    Divide4(y % 16, 0);
  }

  lemma {:induction false} UngroupInverse(p: Sextet, q: Sextet, r: Sextet, t: Sextet)
    ensures var x, y, z := B0(p, q), B1(q, r), B2(r, t);
      S0(x) == p && S1(x, y) == q && S2(y, z) == r && S3(z) == t
  {
    Divide4(p, q / 16);
    Divide16(q % 16, r / 4);
    Divide64(r % 4, t);
  }

  /** A sextet whose unused bits are zero needs no further byte. */
  lemma {:induction false} UngroupZeroTail(p: Sextet, q: Sextet)
    ensures q % 16 == 0 ==> S0(B0(p, q)) == p && S1(B0(p, q), 0) == q
    ensures q % 4 == 0 ==> S2(B1(p, q), 0) == q
  {
    Divide4(p, q / 16);
    Divide16(p % 16, q / 4);
  }

  function Sextets(s: seq<Byte>): seq<Sextet> {
    if |s| == 0 then []
    else if |s| == 1 then [S0(s[0]), S1(s[0], 0)]
    else if |s| == 2 then [S0(s[0]), S1(s[0], s[1]), S2(s[1], 0)]
    else [S0(s[0]), S1(s[0], s[1]), S2(s[1], s[2]), S3(s[2])] + Sextets(s[3..])
  }

  /** The bytes of the sextets; the bits left over at the end are discarded. */
  function Unsextets(v: seq<Sextet>): seq<Byte>
    requires |v| % 4 != 1
  {
    if |v| == 0 then []
    else if |v| == 2 then [B0(v[0], v[1])]
    else if |v| == 3 then [B0(v[0], v[1]), B1(v[1], v[2])]
    else [B0(v[0], v[1]), B1(v[1], v[2]), B2(v[2], v[3])] + Unsextets(v[4..])
  }

  /** Bits past the last whole byte are zero. */
  predicate ZeroTail(v: seq<Sextet>) {
    && (|v| % 4 == 2 ==> v[|v| - 1] % 16 == 0)
    && (|v| % 4 == 3 ==> v[|v| - 1] % 4 == 0)
  }

  lemma {:induction false} FourMore(n: nat)
    ensures (4 + n) % 4 == n % 4
  {}

  lemma {:induction false} UnsextetsUnfold(p: Sextet, q: Sextet, r: Sextet, t: Sextet, rest: seq<Sextet>)
    requires |rest| % 4 != 1
    ensures |[p, q, r, t] + rest| % 4 == |rest| % 4
    ensures Unsextets([p, q, r, t] + rest) == [B0(p, q), B1(q, r), B2(r, t)] + Unsextets(rest)
    ensures ZeroTail([p, q, r, t] + rest) <==> ZeroTail(rest)
  {
    var v := [p, q, r, t] + rest;
    assert v[4..] == rest;
    FourMore(|rest|);
  }

  lemma {:induction false} SextetsUnfold(x: Byte, y: Byte, z: Byte, rest: seq<Byte>)
    ensures Sextets([x, y, z] + rest) == [S0(x), S1(x, y), S2(y, z), S3(z)] + Sextets(rest)
  {
    var s := [x, y, z] + rest;
    assert s[3..] == rest;
  }

  lemma {:induction false} SextetsEnd(s: seq<Byte>)
    requires |s| < 3
    ensures |Sextets(s)| == if |s| == 0 then 0 else |s| + 1
    ensures Unsextets(Sextets(s)) == s && ZeroTail(Sextets(s))
  {
    if |s| == 1 {
      EndOfOne(s[0]);
      assert s == [s[0]];
    } else if |s| == 2 {
      EndOfTwo(s[0], s[1]);
      assert s == [s[0], s[1]];
    }
  }

  lemma {:induction false} EndOfOne(x: Byte)
    ensures |Sextets([x])| == 2 && Unsextets(Sextets([x])) == [x] && ZeroTail(Sextets([x]))
  {
    var p, q := S0(x), S1(x, 0);
    SextetsOne(x);
    UnsextetsTwo(p, q);
    GroupInverse(x, 0, 0);
  }

  lemma {:induction false} EndOfTwo(x: Byte, y: Byte)
    ensures |Sextets([x, y])| == 3 && Unsextets(Sextets([x, y])) == [x, y] && ZeroTail(Sextets([x, y]))
  {
    var p, q, r := S0(x), S1(x, y), S2(y, 0);
    SextetsTwo(x, y);
    UnsextetsThree(p, q, r);
    GroupInverse(x, y, 0);
  }

  lemma {:induction false} UnsextetsTwo(p: Sextet, q: Sextet)
    ensures Unsextets([p, q]) == [B0(p, q)]
    ensures ZeroTail([p, q]) <==> q % 16 == 0
  {}

  lemma {:induction false} UnsextetsThree(p: Sextet, q: Sextet, r: Sextet)
    ensures Unsextets([p, q, r]) == [B0(p, q), B1(q, r)]
    ensures ZeroTail([p, q, r]) <==> r % 4 == 0
  {}

  lemma {:induction false} EndFromTwo(p: Sextet, q: Sextet)
    requires q % 16 == 0
    ensures Sextets(Unsextets([p, q])) == [p, q]
  {
    UnsextetsTwo(p, q);
    SextetsOne(B0(p, q));
    UngroupZeroTail(p, q);
  }

  lemma {:induction false} SextetsOne(x: Byte)
    ensures Sextets([x]) == [S0(x), S1(x, 0)]
  {}

  lemma {:induction false} EndFromThree(p: Sextet, q: Sextet, r: Sextet)
    requires r % 4 == 0
    ensures Sextets(Unsextets([p, q, r])) == [p, q, r]
  {
    UnsextetsThree(p, q, r);
    SextetsTwo(B0(p, q), B1(q, r));
    UngroupInverse(p, q, r, 0);
    UngroupZeroTail(q, r);
  }

  lemma {:induction false} SextetsTwo(x: Byte, y: Byte)
    ensures Sextets([x, y]) == [S0(x), S1(x, y), S2(y, 0)]
  {}

  lemma {:induction false} UnsextetsEnd(v: seq<Sextet>)
    requires |v| < 4 && |v| != 1 && ZeroTail(v)
    ensures Sextets(Unsextets(v)) == v
  {
    if |v| == 2 {
      EndFromTwo(v[0], v[1]);
      assert v == [v[0], v[1]];
    } else if |v| == 3 {
      EndFromThree(v[0], v[1], v[2]);
      assert v == [v[0], v[1], v[2]];
    }
  }

  lemma {:induction false} SextetsStep(x: Byte, y: Byte, z: Byte, rest: seq<Byte>)
    requires |Sextets(rest)| % 4 != 1
    ensures var v := Sextets([x, y, z] + rest);
      |v| == |Sextets(rest)| + 4 && (ZeroTail(v) <==> ZeroTail(Sextets(rest))) &&
      Unsextets(v) == [x, y, z] + Unsextets(Sextets(rest))
  {
    SextetsUnfold(x, y, z, rest);
    UnsextetsUnfold(S0(x), S1(x, y), S2(y, z), S3(z), Sextets(rest));
    GroupInverse(x, y, z);
  }

  lemma {:induction false} UnsextetsStep(p: Sextet, q: Sextet, r: Sextet, t: Sextet, rest: seq<Sextet>)
    requires |rest| % 4 != 1
    ensures Sextets(Unsextets([p, q, r, t] + rest)) == [p, q, r, t] + Sextets(Unsextets(rest))
  {
    UnsextetsUnfold(p, q, r, t, rest);
    SextetsUnfold(B0(p, q), B1(q, r), B2(r, t), Unsextets(rest));
    UngroupInverse(p, q, r, t);
  }

  lemma {:induction false} SextetsLength(s: seq<Byte>)
    ensures |Sextets(s)| == |s| / 3 * 4 + if |s| % 3 == 0 then 0 else |s| % 3 + 1
    decreases |s|
  {
    if |s| >= 3 {
      SextetsLength(s[3..]);
    }
  }

  lemma {:induction false} LengthsModulo(n: nat)
    ensures (n / 3 * 4 + if n % 3 == 0 then 0 else n % 3 + 1) % 4 == if n % 3 == 0 then 0 else n % 3 + 1
  {}

  /** One or two bytes at the end make two or three sextets. */
  lemma {:induction false} SextetsEven(s: seq<Byte>)
    ensures |Sextets(s)| % 4 == if |s| % 3 == 0 then 0 else |s| % 3 + 1
  {
    SextetsLength(s);
    LengthsModulo(|s|);
  }

  lemma {:induction false} SextetsInverse(s: seq<Byte>)
    ensures |Sextets(s)| % 4 != 1 && Unsextets(Sextets(s)) == s && ZeroTail(Sextets(s))
    decreases |s|
  {
    SextetsEven(s);
    if |s| < 3 {
      SextetsEnd(s);
    } else {
      SextetsEven(s[3..]);
      SextetsInverse(s[3..]);
      SextetsStep(s[0], s[1], s[2], s[3..]);
      assert s == [s[0], s[1], s[2]] + s[3..];
    }
  }

  lemma {:induction false} UnsextetsInverse(v: seq<Sextet>)
    requires |v| % 4 != 1 && ZeroTail(v)
    ensures Sextets(Unsextets(v)) == v
    decreases |v|
  {
    if |v| < 4 {
      UnsextetsEnd(v);
    } else {
      UnsextetsInverse(v[4..]);
      UnsextetsStep(v[0], v[1], v[2], v[3], v[4..]);
      assert v == [v[0], v[1], v[2], v[3]] + v[4..];
    }
  }

  // ---------- btoa and atob ----------

  /** `btoa`, section 4 of RFC 4648: letters, and padding for the bytes missing from the last group. */
  function Btoa(s: seq<Byte>): string {
    LettersOf(Sextets(s)) + if |s| % 3 == 1 then "==" else if |s| % 3 == 2 then "=" else ""
  }

  function DropSpaces(s: string): string {
    if s == [] then [] else (if IsAsciiSpace(s[0]) then [] else [s[0]]) + DropSpaces(s[1..])
  }

  /** Removes one or two trailing "=" from a text whose length is a multiple of four. */
  function DropPadding(s: string): string {
    if |s| == 0 || |s| % 4 != 0 || s[|s| - 1] != '=' then s
    else if s[|s| - 2] == '=' then s[..|s| - 2]
    else s[..|s| - 1]
  }

  /** `atob`: the forgiving decoder of the platform; None where it throws. */
  function Atob(s: string): Option<seq<Byte>> {
    var t := DropPadding(DropSpaces(s));
    if |t| % 4 == 1 || !AllLetters(t) then None else Some(Unsextets(BitsOf(t)))
  }

  // ---------- the two functions of the source ----------

  function Replace(s: string, from: char, to: char): (r: string)
    ensures |r| == |s| && forall k :: 0 <= k < |r| ==> r[k] == if s[k] == from then to else s[k]
  {
    seq(|s|, k requires 0 <= k < |s| => if s[k] == from then to else s[k])
  }

  function ToUrl(s: string): string {
    Replace(Replace(s, '+', '-'), '/', '_')
  }

  function FromUrl(s: string): string {
    Replace(Replace(s, '-', '+'), '_', '/')
  }

  /** `.replace(/=+$/, "")`. */
  function StripEquals(s: string): string {
    if s != [] && s[|s| - 1] == '=' then StripEquals(s[..|s| - 1]) else s
  }

  function Repeat(c: char, n: nat): (r: string)
    ensures |r| == n && forall k :: 0 <= k < n ==> r[k] == c
  {
    seq(n, _ => c)
  }

  function Encode(bytes: seq<Byte>): string {
    StripEquals(ToUrl(Btoa(bytes)))
  }

  function Padded(str: string): string {
    FromUrl(str) + Repeat('=', (4 - |str| % 4) % 4)
  }

  /** None where the source throws. */
  function Decode(str: string): Option<seq<Byte>> {
    Atob(Padded(str))
  }

  method Base64UrlEncode(bytes: seq<Byte>) returns (r: string)
    ensures r == Encode(bytes)
  {
    var binary: seq<Byte> := [];
    for i := 0 to |bytes|
      invariant binary == bytes[..i]
    {
      binary := binary + [bytes[i]];
    }
    assert bytes[..|bytes|] == bytes;
    r := StripEquals(Replace(Replace(Btoa(binary), '+', '-'), '/', '_'));
  }

  method Base64UrlDecode(str: string) returns (r: Option<seq<Byte>>)
    ensures r == Decode(str)
  {
    var padded := Replace(Replace(str, '-', '+'), '_', '/');
    var binary := Atob(padded + Repeat('=', (4 - |padded| % 4) % 4));
    if binary.None? {
      return None;
    }
    var bytes := new Byte[|binary.value|];
    for i := 0 to |binary.value|
      invariant bytes[..i] == binary.value[..i]
    {
      bytes[i] := binary.value[i];
    }
    assert binary.value[..|binary.value|] == binary.value == bytes[..];
    return Some(bytes[..]);
  }

  // ---------- round trip ----------

  /** The padding the decoder recomputes from the length. */
  function Padding(n: nat): string {
    if n % 4 == 0 then "" else if n % 4 == 3 then "=" else if n % 4 == 2 then "==" else "==="
  }

  lemma {:induction false} RepeatIsPadding(n: nat)
    ensures Repeat('=', (4 - n % 4) % 4) == Padding(n)
  {}

  /** The padding `btoa` adds is the padding the decoder recomputes. */
  lemma {:induction false} BtoaIsPadded(s: seq<Byte>)
    ensures Btoa(s) == LettersOf(Sextets(s)) + Padding(|Sextets(s)|)
  {
    SextetsEven(s);
  }

  /** Letters in the URL alphabet hold no replacement, padding, separator or space. */
  lemma {:induction false} UrlLetter(c: char)
    requires IsLetter(c)
    ensures var u := if c == '+' then '-' else if c == '/' then '_' else c;
      u !in "+/=:" && (if u == '-' then '+' else if u == '_' then '/' else u) == c
    ensures c !in "=-_:" && !IsAsciiSpace(c)
  {}

  lemma {:induction false} UrlLetters(s: string)
    requires AllLetters(s)
    ensures FromUrl(ToUrl(s)) == s && |ToUrl(s)| == |s|
    ensures forall k :: 0 <= k < |s| ==> ToUrl(s)[k] !in "+/=:"
  {
    forall k | 0 <= k < |s| ensures ToUrl(s)[k] !in "+/=:" && FromUrl(ToUrl(s))[k] == s[k] {
      UrlLetter(s[k]);
    }
  }

  lemma {:induction false} LettersAreLetters(vs: seq<Sextet>)
    ensures AllLetters(LettersOf(vs)) && BitsOf(LettersOf(vs)) == vs
  {
    forall k | 0 <= k < |vs| ensures IsLetter(LettersOf(vs)[k]) && Bits(LettersOf(vs)[k]) == vs[k] {
      LetterBits(vs[k]);
    }
  }

  lemma {:induction false} StripRepeat(s: string, n: nat)
    requires forall k :: 0 <= k < |s| ==> s[k] != '='
    ensures StripEquals(s + Repeat('=', n)) == s
    decreases n
  {
    var t := s + Repeat('=', n);
    if n == 0 {
      assert t == s;
    } else {
      assert t[..|t| - 1] == s + Repeat('=', n - 1);
      StripRepeat(s, n - 1);
    }
  }

  /** The encoder's output is the unpadded letters in the URL alphabet. */
  lemma {:induction false} EncodeIsLetters(bytes: seq<Byte>)
    ensures Encode(bytes) == ToUrl(LettersOf(Sextets(bytes)))
  {
    var letters := LettersOf(Sextets(bytes));
    BtoaIsPadded(bytes);
    LettersAreLetters(Sextets(bytes));
    StripPadding(letters);
  }

  lemma {:induction false} StripPadding(letters: string)
    requires AllLetters(letters)
    ensures StripEquals(ToUrl(letters + Padding(|letters|))) == ToUrl(letters)
  {
    var n := (4 - |letters| % 4) % 4;
    RepeatIsPadding(|letters|);
    UrlLetters(letters);
    var url := ToUrl(letters);
    assert ToUrl(letters + Repeat('=', n)) == url + Repeat('=', n);
    forall k | 0 <= k < |url| ensures url[k] != '=' {
      assert url[k] !in "+/=:";
    }
    StripRepeat(url, n);
  }

  lemma {:induction false} DropSpacesNone(s: string)
    requires forall k :: 0 <= k < |s| ==> !IsAsciiSpace(s[k])
    ensures DropSpaces(s) == s
    decreases s
  {
    if s != [] {
      DropSpacesNone(s[1..]);
    }
  }

  lemma {:induction false} DropPaddingExact(letters: string)
    requires |letters| % 4 != 1 && forall k :: 0 <= k < |letters| ==> letters[k] != '='
    ensures DropPadding(letters + Padding(|letters|)) == letters
  {
    var t := letters + Padding(|letters|);
    if |letters| % 4 == 0 {
      assert t == letters;
    } else if |letters| % 4 == 3 {
      assert t[|t| - 2] == letters[|letters| - 1] && t[..|t| - 1] == letters;
    } else {
      assert t[..|t| - 2] == letters;
    }
  }

  /** `atob` on letters with the right padding decodes the letters. */
  lemma {:induction false} AtobPadded(letters: string)
    requires AllLetters(letters) && |letters| % 4 != 1
    ensures Atob(letters + Padding(|letters|)) == Some(Unsextets(BitsOf(letters)))
  {
    var t := letters + Padding(|letters|);
    forall k | 0 <= k < |letters| ensures letters[k] != '=' && !IsAsciiSpace(letters[k]) {
      UrlLetter(letters[k]);
    }
    forall k | 0 <= k < |t| ensures !IsAsciiSpace(t[k]) {
      assert k >= |letters| ==> t[k] == '=';
    }
    DropSpacesNone(t);
    DropPaddingExact(letters);
  }

  /** Decoding reads the letters, whatever the length the padding is recomputed from. */
  lemma {:induction false} DecodeLetters(str: string)
    requires AllLetters(FromUrl(str)) && |str| % 4 != 1
    ensures Decode(str) == Some(Unsextets(BitsOf(FromUrl(str))))
  {
    RepeatIsPadding(|str|);
    AtobPadded(FromUrl(str));
  }

  /** base64UrlDecode undoes base64UrlEncode on every byte sequence. */
  lemma {:induction false} DecodeEncode(bytes: seq<Byte>)
    ensures Decode(Encode(bytes)) == Some(bytes)
  {
    EncodeIsLetters(bytes);
    SextetsInverse(bytes);
    LettersAreLetters(Sextets(bytes));
    UrlLetters(LettersOf(Sextets(bytes)));
    DecodeLetters(Encode(bytes));
  }

  /** Encoded text holds none of "+", "/", "=" and ":". */
  lemma {:induction false} EncodeAlphabet(bytes: seq<Byte>)
    ensures forall c :: c in Encode(bytes) ==> c !in "+/=:"
  {
    EncodeIsLetters(bytes);
    LettersAreLetters(Sextets(bytes));
    UrlLetters(LettersOf(Sextets(bytes)));
  }

  // ---------- which texts are encodings ----------

  /**
   Only letters of section 5 of RFC 4648, never a single letter over, and zero bits
   where the last group is cut short.
   */
  ghost predicate Canonical(str: string) {
    && (forall k :: 0 <= k < |str| ==> str[k] != '+' && str[k] != '/')
    && AllLetters(FromUrl(str)) && |str| % 4 != 1
    && ZeroTail(BitsOf(FromUrl(str)))
  }

  lemma {:induction false} EncodeIsCanonical(bytes: seq<Byte>)
    ensures Canonical(Encode(bytes))
  {
    var letters := LettersOf(Sextets(bytes));
    EncodeIsLetters(bytes);
    SextetsInverse(bytes);
    LettersAreLetters(Sextets(bytes));
    UrlLetters(letters);
    forall k | 0 <= k < |letters| ensures ToUrl(letters)[k] != '+' && ToUrl(letters)[k] != '/' {
      assert ToUrl(letters)[k] !in "+/=:";
    }
  }

  lemma {:induction false} CanonicalReencodes(str: string)
    requires Canonical(str)
    ensures Decode(str).Some? && Encode(Decode(str).value) == str
  {
    DecodeLetters(str);
    LettersReencode(FromUrl(str));
    ToFromUrl(str);
  }

  lemma {:induction false} LettersReencode(letters: string)
    requires AllLetters(letters) && |letters| % 4 != 1 && ZeroTail(BitsOf(letters))
    ensures Encode(Unsextets(BitsOf(letters))) == ToUrl(letters)
  {
    UnsextetsInverse(BitsOf(letters));
    EncodeIsLetters(Unsextets(BitsOf(letters)));
    LettersOfBits(letters);
  }

  lemma {:induction false} LettersOfBits(s: string)
    requires AllLetters(s)
    ensures LettersOf(BitsOf(s)) == s
  {
    forall k | 0 <= k < |s| ensures LettersOf(BitsOf(s))[k] == s[k] {
      BitsLetter(s[k]);
    }
  }

  lemma {:induction false} ToFromUrl(str: string)
    requires forall k :: 0 <= k < |str| ==> str[k] != '+' && str[k] != '/'
    ensures ToUrl(FromUrl(str)) == str
  {}

  /** A text re-encodes to itself, and is the encoding of some bytes, exactly when it is canonical. */
  lemma {:induction false} EncodeDecodeIff(str: string)
    ensures Canonical(str) <==> Decode(str).Some? && Encode(Decode(str).value) == str
    ensures Canonical(str) <==> exists bytes :: Encode(bytes) == str
  {
    if Canonical(str) {
      CanonicalReencodes(str);
    }
    forall bytes | Encode(bytes) == str ensures Canonical(str) {
      EncodeIsCanonical(bytes);
    }
  }

  // ---------- the text of an encoding ----------

  /** The alphabet of section 5 of RFC 4648. */
  function UrlAlphabet(v: Sextet): char {
    if v <= 25 then (65 + v) as char
    else if v <= 51 then (97 + (v - 26)) as char
    else if v <= 61 then (48 + (v - 52)) as char
    else if v == 62 then '-'
    else '_'
  }

  lemma {:induction false} EncodeLetters(bytes: seq<Byte>)
    ensures |Encode(bytes)| == |Sextets(bytes)|
    ensures forall k :: 0 <= k < |Encode(bytes)| ==> Encode(bytes)[k] == UrlAlphabet(Sextets(bytes)[k])
  {
    EncodeIsLetters(bytes);
  }

  /** The letters of 24 bits, from the top. */
  function Letters(n: nat): (r: string)
    requires n < 0x100_0000
    ensures |r| == 4
  {
    [UrlAlphabet(n / 262144), UrlAlphabet(n / 4096 % 64), UrlAlphabet(n / 64 % 64), UrlAlphabet(n % 64)]
  }

  lemma {:induction false} Divide4096(q: int, r: int)
    requires 0 <= r < 4096
    ensures (q * 4096 + r) / 4096 == q
  {}

  lemma {:induction false} Divide262144(q: int, r: int)
    requires 0 <= r < 262144
    ensures (q * 262144 + r) / 262144 == q
  {}

  lemma {:induction false} GroupNumber(x: Byte, y: Byte, z: Byte)
    ensures var n := x * 65536 + y * 256 + z;
      n < 0x100_0000 && S0(x) == n / 262144 && S1(x, y) == n / 4096 % 64 && S2(y, z) == n / 64 % 64 && S3(z) == n % 64
  {
    var n := x * 65536 + y * 256 + z;
    assert n == (x / 4) * 262144 + ((x % 4) * 65536 + y * 256 + z);
    Divide262144(x / 4, (x % 4) * 65536 + y * 256 + z);
    assert n == (x * 16 + y / 16) * 4096 + (y % 16 * 256 + z);
    Divide4096(x * 16 + y / 16, y % 16 * 256 + z);
    assert x * 16 + y / 16 == (x / 4) * 64 + S1(x, y);
    Divide64(x / 4, S1(x, y));
    assert n == (x * 1024 + y * 4 + z / 64) * 64 + z % 64;
    Divide64(x * 1024 + y * 4 + z / 64, z % 64);
    assert x * 1024 + y * 4 + z / 64 == (x * 16 + y / 16) * 64 + S2(y, z);
    Divide64(x * 16 + y / 16, S2(y, z));
  }

  lemma {:induction false} EncodeOne(x: Byte)
    ensures Encode([x]) == Letters(x * 65536)[..2]
  {
    EncodeLetters([x]);
    SextetsOne(x);
    GroupNumber(x, 0, 0);
  }

  lemma {:induction false} EncodeTwo(x: Byte, y: Byte)
    ensures Encode([x, y]) == Letters(x * 65536 + y * 256)[..3]
  {
    EncodeLetters([x, y]);
    SextetsTwo(x, y);
    GroupNumber(x, y, 0);
  }

  lemma {:induction false} EncodeThree(x: Byte, y: Byte, z: Byte, rest: seq<Byte>)
    ensures Encode([x, y, z] + rest) == Letters(x * 65536 + y * 256 + z) + Encode(rest)
  {
    EncodeLetters([x, y, z] + rest);
    EncodeLetters(rest);
    SextetsUnfold(x, y, z, rest);
    GroupNumber(x, y, z);
  }

  /** Section 4 of RFC 4648: four letters for every three bytes, and two or three, zero bits added, for the rest. */
  lemma {:induction false} EncodeExact(x: Byte, y: Byte, z: Byte, rest: seq<Byte>)
    ensures Encode([]) == ""
    ensures Encode([x]) == Letters(x * 65536)[..2]
    ensures Encode([x, y]) == Letters(x * 65536 + y * 256)[..3]
    ensures Encode([x, y, z] + rest) == Letters(x * 65536 + y * 256 + z) + Encode(rest)
  {
    EncodeLetters([]);
    EncodeOne(x);
    EncodeTwo(x, y);
    EncodeThree(x, y, z, rest);
  }

  /** A text that comes down to two letters. */
  lemma {:induction false} TwoLetters(str: string, c: char, d: char)
    requires IsLetter(c) && IsLetter(d) && DropPadding(DropSpaces(Padded(str))) == [c, d]
    ensures Decode(str) == Some([B0(Bits(c), Bits(d))])
  {
    assert BitsOf([c, d]) == [Bits(c), Bits(d)];
    UnsextetsTwo(Bits(c), Bits(d));
  }

  lemma {:induction false} DropSpacesCons(c: char, s: string)
    ensures DropSpaces([c] + s) == (if IsAsciiSpace(c) then [] else [c]) + DropSpaces(s)
  {
    assert ([c] + s)[1..] == s;
  }

  lemma {:induction false} ReadsPadded(str: string, c: char, d: char)
    requires IsLetter(c) && IsLetter(d) && Padded(str) == [c, d] + "=="
    ensures Decode(str) == Some([B0(Bits(c), Bits(d))])
  {
    DropSpacesNone([c, d] + "==");
    DropPaddingExact([c, d]);
    assert Padding(2) == "==";
    TwoLetters(str, c, d);
  }

  lemma {:induction false} ReadsSpaced(str: string)
    requires Padded(str) == "Z g\n"
    ensures Decode(str) == Some([102])
  {
    DropSpacesCons('Z', " g\n");
    DropSpacesCons(' ', "g\n");
    DropSpacesCons('g', "\n");
    DropSpacesCons('\n', "");
    assert ['Z'] + " g\n" == "Z g\n" && [' '] + "g\n" == " g\n" && ['g'] + "\n" == "g\n" && ['\n'] + "" == "\n";
    assert DropSpaces("Z g\n") == ['Z', 'g'];
    TwoLetters(str, 'Z', 'g');
  }

  lemma {:induction false} LoneLetterRefused(str: string)
    requires Padded(str) == "Z==="
    ensures Decode(str).None?
  {
    DropSpacesNone("Z===");
    assert DropPadding("Z===") == "Z=" && !IsLetter("Z="[1]);
  }

  lemma {:induction false} PaddedExamples()
    ensures Padded("Zg") == "Zg==" && Padded("Zg==") == "Zg==" && Padded("Zh") == "Zh=="
    ensures Padded("Z g\n") == "Z g\n" && Padded("Z") == "Z==="
  {
  }

  lemma {:induction false} ReadsOneByte(str: string, d: char)
    requires d == 'g' || d == 'h'
    requires Padded(str) == ['Z', d] + "=="
    ensures Decode(str) == Some([102])
  {
    ReadsPadded(str, 'Z', d);
    assert B0(25, 32) == 102 && B0(25, 33) == 102;
  }

  /** The decoder forgives spaces, padding that is there already, and bits left over; it refuses a letter on its own. */
  lemma {:induction false} ForgivingExamples()
    ensures Decode("Zg") == Some([102]) && Decode("Zg==") == Some([102]) && Decode("Zh") == Some([102])
    ensures Decode("Z g\n") == Some([102])
    ensures Decode("Z").None?
  {
    PaddedExamples();
    ReadsOneByte("Zg", 'g');
    ReadsOneByte("Zg==", 'g');
    ReadsOneByte("Zh", 'h');
    ReadsSpaced("Z g\n");
    LoneLetterRefused("Z");
  }
}
