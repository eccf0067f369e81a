/** Vector ids `path:line`: decimal line numbers, and why ids of different paths never collide. */
module VectorIds {
  /** `String(n)` of a natural number. */
  function Decimal(n: nat): string {
    if n < 10 then [Digit(n)] else Decimal(n / 10) + [Digit(n % 10)]
  }

  function Digit(d: nat): (c: char)
    requires d < 10
  {
    "0123456789"[d]
  }

  lemma {:induction false} DecimalDigits(n: nat)
    ensures Decimal(n) != [] && (|Decimal(n)| == 1 <==> n < 10)
    ensures forall c :: c in Decimal(n) ==> c in "0123456789"
  {
    if n >= 10 {
      DecimalDigits(n / 10);
    }
  }

  lemma {:induction false} DigitInjective(d: nat, e: nat)
    requires d < 10 && e < 10 && Digit(d) == Digit(e)
    ensures d == e
  {}

  lemma {:induction false} DecimalInjective(m: nat, n: nat)
    requires Decimal(m) == Decimal(n)
    ensures m == n
    decreases m
  {
    var a, b := Decimal(m), Decimal(n);
    DecimalDigits(m);
    DecimalDigits(n);
    assert a[|a| - 1] == Digit(m % 10) && b[|b| - 1] == Digit(n % 10);
    DigitInjective(m % 10, n % 10);
    if m >= 10 {
      assert a[..|a| - 1] == Decimal(m / 10) && b[..|b| - 1] == Decimal(n / 10);
      DecimalInjective(m / 10, n / 10);
    }
  }

  function VectorId(path: string, line: nat): string {
    path + ":" + Decimal(line)
  }

  /** A separator colon with no colon after it is the last one. */
  lemma {:induction false} LastColonNotLater(p: string, d: string, q: string, e: string)
    requires p + ":" + d == q + ":" + e && ':' !in d
    ensures |q| <= |p|
  {
    var a := p + ":" + d;
    assert forall k :: |p| < k < |a| ==> a[k] == d[k - |p| - 1] && a[k] in d;
    assert (q + ":" + e)[|q|] == ':';
  }

  /** Paths may contain colons and digits, but the last colon of an id is always the separator. */
  lemma {:induction false} VectorIdInjective(p: string, m: nat, q: string, n: nat)
    requires VectorId(p, m) == VectorId(q, n)
    ensures p == q && m == n
  {
    var d, e := Decimal(m), Decimal(n);
    DecimalDigits(m);
    DecimalDigits(n);
    LastColonNotLater(p, d, q, e);
    LastColonNotLater(q, e, p, d);
    var a := p + ":" + d;
    assert a[..|p|] == p && (q + ":" + e)[..|q|] == q;
    assert a[|p| + 1..] == d && (q + ":" + e)[|q| + 1..] == e;
    DecimalInjective(m, n);
  }

  // ---------- what an id says ----------

  /** The number a text of digits denotes. */
  function Denoted(s: string): int {
    if s == [] then 0 else Denoted(s[..|s| - 1]) * 10 + (s[|s| - 1] as int - '0' as int)
  }

  /** The decimal numeral of `n`: digits, no leading zero. */
  ghost predicate IsNumeral(s: string, n: nat) {
    && s != "" && (forall k :: 0 <= k < |s| ==> '0' <= s[k] <= '9')
    && (|s| > 1 ==> s[0] != '0') && Denoted(s) == n
  }

  lemma {:induction false} DecimalExact(n: nat)
    ensures IsNumeral(Decimal(n), n)
    decreases n
  {
    if n >= 10 {
      DecimalExact(n / 10);
      var s := Decimal(n);
      assert s[..|s| - 1] == Decimal(n / 10);
      assert n / 10 < 10 ==> Decimal(n / 10) == [Digit(n / 10)];
    } else {
      assert Decimal(n) == [Digit(n)] && [Digit(n)][..0] == [];
    }
  }

  /** An id is the path, a colon and the line number. */
  lemma {:induction false} VectorIdExact(path: string, line: nat)
    ensures |path| < |VectorId(path, line)|
    ensures VectorId(path, line)[..|path|] == path && VectorId(path, line)[|path|] == ':'
    ensures IsNumeral(VectorId(path, line)[|path| + 1..], line)
  {
    DecimalExact(line);
  }
}
