/**
 The canonical JSON printer that compares tool-call arguments: object keys are
 printed in sorted order. Two values print alike exactly when they are equal up to
 the order of object keys.
 */
module StableStringify {
  import opened Option
  import opened Text
  import opened KeyOrder
  import opened Sequences

  predicate IsNumberChar(c: char) {
    c in "0123456789+-.eE"
  }

  /** The text JSON.stringify prints for a finite number; the number is identified by it. */
  predicate IsNumberText(s: string) {
    s != [] && (s[0] == '-' || '0' <= s[0] <= '9') && forall k :: 0 <= k < |s| ==> IsNumberChar(s[k])
  }

  type NumberText = s: string | IsNumberText(s) witness "0"

  /** A JSON value, or `undefined`; an object lists its keys in insertion order. */
  datatype Json =
    | JUndefined
    | JNull
    | JBool(b: bool)
    | JNumber(text: NumberText)
    | JString(s: string)
    | JArray(items: seq<Json>)
    | JObject(keys: seq<string>, vals: seq<Json>)

  /** Objects have one value per key and no key twice, all the way down. */
  ghost predicate WellFormed(v: Json) {
    match v
    case JArray(items) => forall i :: 0 <= i < |items| ==> WellFormed(items[i])
    case JObject(keys, vals) =>
      |keys| == |vals| && Distinct(keys) && forall i :: 0 <= i < |vals| ==> WellFormed(vals[i])
    case _ => true
  }

  /** Equal up to the order of object keys. */
  ghost predicate Same(a: Json, b: Json)
    decreases a
  {
    match (a, b)
    case (JArray(xs), JArray(ys)) =>
      |xs| == |ys| && forall i :: 0 <= i < |xs| ==> Same(xs[i], ys[i])
    case (JObject(ks, vs), JObject(ls, ws)) =>
      |ks| == |vs| && |ls| == |ws| && (forall k :: k in ks <==> k in ls) &&
      forall i :: 0 <= i < |vs| ==> ks[i] in ls && Same(vs[i], ws[Position(ls, ks[i])])
    case (_, _) => a == b
  }

  // ---------- printing ----------

  function HexDigit(d: nat): char
    requires d < 16
  {
    "0123456789abcdef"[d]
  }

  /** One unit of a quoted JSON string. */
  function Escape(c: char): string {
    if c == '"' then "\\\""
    else if c == '\\' then "\\\\"
    else if c == '\U{0008}' then "\\b"
    else if c == '\t' then "\\t"
    else if c == '\n' then "\\n"
    else if c == '\U{000C}' then "\\f"
    else if c == '\r' then "\\r"
    else if c < ' ' then "\\u00" + [HexDigit(c as int / 16), HexDigit(c as int % 16)]
    else [c]
  }

  function EscapeAll(s: string): string {
    if s == [] then "" else Escape(s[0]) + EscapeAll(s[1..])
  }

  function Quote(s: string): string {
    ['"'] + EscapeAll(s) + ['"']
  }

  function Stringify(v: Json): string
    requires WellFormed(v)
    decreases v, 1, 0
  {
    match v
    case JUndefined => "undefined"
    case JNull => "null"
    case JBool(b) => if b then "true" else "false"
    case JNumber(text) => text
    case JString(s) => Quote(s)
    case JArray(items) => ['['] + Elements(items) + [']']
    case JObject(keys, vals) => ['{'] + Members(keys, vals, Sort(keys)) + ['}']
  }

  function Elements(items: seq<Json>): string
    requires forall i :: 0 <= i < |items| ==> WellFormed(items[i])
    decreases items, 0, 0
  {
    if items == [] then ""
    else if |items| == 1 then Stringify(items[0])
    else Stringify(items[0]) + "," + Elements(items[1..])
  }

  /** The members of an object in the order of the given keys. */
  function Members(keys: seq<string>, vals: seq<Json>, order: seq<string>): string
    requires |keys| == |vals| && forall i :: 0 <= i < |vals| ==> WellFormed(vals[i])
    requires forall k :: k in order ==> k in keys
    decreases vals, 0, |order|
  {
    if order == [] then ""
    else
      var part := Quote(order[0]) + ":" + Stringify(vals[Position(keys, order[0])]);
      if |order| == 1 then part else part + "," + Members(keys, vals, order[1..])
  }

  // ---------- strings read back ----------

  lemma {:induction false} EscapePrefixFree(c: char, d: char, u: string, v: string)
    requires Escape(c) + u == Escape(d) + v
    ensures c == d && u == v
  {
    var a, b := Escape(c) + u, Escape(d) + v;
    assert a[0] == Escape(c)[0] && b[0] == Escape(d)[0];
    if Escape(c)[0] == '\\' {
      assert a[1] == Escape(c)[1] && b[1] == Escape(d)[1];
      if Escape(c)[1] == 'u' {
        assert a[4] == Escape(c)[4] && b[4] == Escape(d)[4];
        assert a[5] == Escape(c)[5] && b[5] == Escape(d)[5];
        HexInjective(c as int / 16, d as int / 16);
        HexInjective(c as int % 16, d as int % 16);
      }
    }
    assert a[|Escape(c)|..] == u && b[|Escape(d)|..] == v;
  }

  lemma {:induction false} HexInjective(m: nat, n: nat)
    requires m < 16 && n < 16
    ensures HexDigit(m) == HexDigit(n) ==> m == n
  {}

  lemma {:induction false} EscapedHead(s: string, x: string)
    ensures Closed(s, x)[0] == '"' <==> s == []
  {
    if s != [] {
      assert Closed(s, x)[0] == Escape(s[0])[0];
    }
  }

  /** The escaped text, its closing quote, and what follows. */
  function Closed(s: string, x: string): (r: string)
    ensures r != []
  {
    EscapeAll(s) + ['"'] + x
  }

  lemma {:induction false} ClosedCons(s: string, x: string)
    requires s != []
    ensures Closed(s, x) == Escape(s[0]) + Closed(s[1..], x)
  {}

  lemma {:induction false} EscapedReadable(s: string, t: string, x: string, y: string)
    requires Closed(s, x) == Closed(t, y)
    ensures s == t && x == y
    decreases |s| + |t|
  {
    EscapedHead(s, x);
    EscapedHead(t, y);
    if s == [] {
      assert Closed(s, x)[1..] == x && Closed(t, y)[1..] == y;
    } else {
      ClosedCons(s, x);
      ClosedCons(t, y);
      EscapePrefixFree(s[0], t[0], Closed(s[1..], x), Closed(t[1..], y));
      EscapedReadable(s[1..], t[1..], x, y);
      assert s == [s[0]] + s[1..] && t == [t[0]] + t[1..];
    }
  }

  lemma {:induction false} QuoteReadable(s: string, t: string, x: string, y: string)
    requires Quote(s) + x == Quote(t) + y
    ensures s == t && x == y
  {
    assert (Quote(s) + x)[1..] == Closed(s, x);
    assert (Quote(t) + y)[1..] == Closed(t, y);
    EscapedReadable(s, t, x, y);
  }

  // ---------- values read back ----------

  /** What can follow a printed value: nothing, a comma or a closing bracket. */
  ghost predicate Delimited(x: string) {
    x == [] || x[0] == ',' || x[0] == ']' || x[0] == '}'
  }

  lemma {:induction false} NumberNotLonger(m: string, n: string, x: string, y: string)
    requires forall k :: 0 <= k < |n| ==> IsNumberChar(n[k])
    requires Delimited(x) && m + x == n + y
    ensures |n| <= |m|
  {
    assert forall k :: 0 <= k < |n| ==> (n + y)[k] == n[k];
    assert x != [] ==> (m + x)[|m|] == x[0];
  }

  lemma {:induction false} NumberReadable(m: string, n: string, x: string, y: string)
    requires (forall k :: 0 <= k < |m| ==> IsNumberChar(m[k])) && forall k :: 0 <= k < |n| ==> IsNumberChar(n[k])
    requires Delimited(x) && Delimited(y) && m + x == n + y
    ensures m == n && x == y
  {
    NumberNotLonger(m, n, x, y);
    NumberNotLonger(n, m, y, x);
    assert (m + x)[..|m|] == m && (n + y)[..|n|] == n;
    assert (m + x)[|m|..] == x && (n + y)[|n|..] == y;
  }

  /** The first unit printed for a value tells its kind. */
  function Head(v: Json): char {
    match v
    case JUndefined => 'u'
    case JNull => 'n'
    case JBool(b) => if b then 't' else 'f'
    case JNumber(text) => text[0]
    case JString(_) => '"'
    case JArray(_) => '['
    case JObject(_, _) => '{'
  }

  lemma {:induction false} HeadPrinted(v: Json, x: string)
    requires WellFormed(v)
    ensures (Stringify(v) + x)[0] == Head(v) && Stringify(v) != []
    ensures Head(v) !in "]},"
  {}

  lemma {:induction false} HeadTellsKind(a: Json, b: Json)
    requires Head(a) == Head(b)
    ensures match a
      case JUndefined | JNull | JBool(_) => b == a
      case JNumber(_) => b.JNumber?
      case JString(_) => b.JString?
      case JArray(_) => b.JArray?
      case JObject(_, _) => b.JObject?
  {}

  /** Unique readability: a printed value followed by a delimiter determines the value and what follows. */
  lemma {:induction false} Readable(a: Json, b: Json, x: string, y: string)
    requires WellFormed(a) && WellFormed(b) && Delimited(x) && Delimited(y)
    requires Stringify(a) + x == Stringify(b) + y
    ensures Same(a, b) && x == y
    decreases a, 1, 0
  {
    HeadPrinted(a, x);
    HeadPrinted(b, y);
    HeadTellsKind(a, b);
    match a
    case JUndefined | JNull | JBool(_) =>
      assert (Stringify(a) + x)[|Stringify(a)|..] == x && (Stringify(a) + y)[|Stringify(a)|..] == y;
    case JNumber(text) => NumberReadable(text, b.text, x, y);
    case JString(s) => QuoteReadable(s, b.s, x, y);
    case JArray(items) =>
      Unwrap('[', Elements(items), ']', x, Elements(b.items), y);
      ElementsReadable(items, b.items, x, y);
    case JObject(keys, vals) =>
      Unwrap('{', Members(keys, vals, Sort(keys)), '}', x, Members(b.keys, b.vals, Sort(b.keys)), y);
      MembersReadable(keys, vals, Sort(keys), b.keys, b.vals, Sort(b.keys), x, y);
      SameMembers(keys, vals, b.keys, b.vals);
  }

  lemma {:induction false} Unwrap(open: char, u: string, close: char, x: string, v: string, y: string)
    requires [open] + u + [close] + x == [open] + v + [close] + y
    ensures u + [close] + x == v + [close] + y
  {
    assert ([open] + u + [close] + x)[1..] == u + [close] + x;
    assert ([open] + v + [close] + y)[1..] == v + [close] + y;
  }

  /** The text after the first element of a list that closes with `close`. */
  function AfterFirst(single: bool, rest: string, close: char, x: string): (r: string)
    ensures r != [] && r[0] == if single then close else ','
  {
    (if single then "" else "," + rest) + [close] + x
  }

  lemma {:induction false} SplitFirst(first: string, single: bool, rest: string, close: char, x: string)
    ensures (if single then first else first + "," + rest) + [close] + x == first + AfterFirst(single, rest, close, x)
  {}

  lemma {:induction false} ElementsSplit(items: seq<Json>, x: string)
    requires forall i :: 0 <= i < |items| ==> WellFormed(items[i])
    ensures (Elements(items) + [']'] + x)[0] == ']' <==> items == []
    ensures items != [] ==>
      Elements(items) + [']'] + x == Stringify(items[0]) + AfterFirst(|items| == 1, Elements(items[1..]), ']', x)
  {
    if items != [] {
      var tail := AfterFirst(|items| == 1, Elements(items[1..]), ']', x);
      HeadPrinted(items[0], tail);
      SplitFirst(Stringify(items[0]), |items| == 1, Elements(items[1..]), ']', x);
    }
  }

  /** Equal texts after the first element close together or continue together. */
  lemma {:induction false} AfterFirstReadable(s: bool, u: string, t: bool, v: string, close: char, x: string, y: string)
    requires close != ',' && AfterFirst(s, u, close, x) == AfterFirst(t, v, close, y)
    ensures s == t
    ensures if s then x == y else u + [close] + x == v + [close] + y
  {
    var a, b := AfterFirst(s, u, close, x), AfterFirst(t, v, close, y);
    if s {
      assert a[1..] == x && b[1..] == y;
    } else {
      assert a[1..] == u + [close] + x && b[1..] == v + [close] + y;
    }
  }

  lemma {:induction false} ElementsReadable(xs: seq<Json>, ys: seq<Json>, x: string, y: string)
    requires forall i :: 0 <= i < |xs| ==> WellFormed(xs[i])
    requires forall i :: 0 <= i < |ys| ==> WellFormed(ys[i])
    requires Elements(xs) + [']'] + x == Elements(ys) + [']'] + y
    ensures |xs| == |ys| && (forall i :: 0 <= i < |xs| ==> Same(xs[i], ys[i])) && x == y
    decreases xs, 0, 0
  {
    ElementsSplit(xs, x);
    ElementsSplit(ys, y);
    if xs == [] {
      assert (Elements(xs) + [']'] + x)[1..] == x && (Elements(ys) + [']'] + y)[1..] == y;
    } else {
      var u, v := Elements(xs[1..]), Elements(ys[1..]);
      Readable(xs[0], ys[0], AfterFirst(|xs| == 1, u, ']', x), AfterFirst(|ys| == 1, v, ']', y));
      AfterFirstReadable(|xs| == 1, u, |ys| == 1, v, ']', x, y);
      if |xs| > 1 {
        ElementsReadable(xs[1..], ys[1..], x, y);
        forall i | 0 <= i < |xs| ensures Same(xs[i], ys[i]) {
          assert i > 0 ==> xs[i] == xs[1..][i - 1] && ys[i] == ys[1..][i - 1];
        }
      }
    }
  }

  /** What is printed for one member after its key. */
  function ValueText(keys: seq<string>, vals: seq<Json>, k: string): string
    requires |keys| == |vals| && (forall i :: 0 <= i < |vals| ==> WellFormed(vals[i])) && k in keys
  {
    Stringify(vals[Position(keys, k)])
  }

  lemma {:induction false} MembersSplit(keys: seq<string>, vals: seq<Json>, order: seq<string>, x: string)
    requires |keys| == |vals| && forall i :: 0 <= i < |vals| ==> WellFormed(vals[i])
    requires forall k :: k in order ==> k in keys
    ensures (Members(keys, vals, order) + ['}'] + x)[0] == '}' <==> order == []
    ensures order != [] ==>
      Members(keys, vals, order) + ['}'] + x ==
      Quote(order[0]) + ([':'] + (ValueText(keys, vals, order[0]) +
        AfterFirst(|order| == 1, Members(keys, vals, order[1..]), '}', x)))
  {
    if order != [] {
      var value, rest := ValueText(keys, vals, order[0]), Members(keys, vals, order[1..]);
      var first := Quote(order[0]) + ":" + value;
      SplitFirst(first, |order| == 1, rest, '}', x);
      MemberText(Quote(order[0]), value, AfterFirst(|order| == 1, rest, '}', x));
    }
  }

  lemma {:induction false} MemberText(quoted: string, value: string, tail: string)
    requires quoted != [] && quoted[0] == '"'
    ensures (quoted + ":" + value) + tail == quoted + ([':'] + (value + tail))
    ensures ((quoted + ":" + value) + tail)[0] == '"'
  {}

  lemma {:induction false} KeyReadable(a: string, b: string, u: string, v: string)
    requires Quote(a) + ([':'] + u) == Quote(b) + ([':'] + v)
    ensures a == b && u == v
  {
    QuoteReadable(a, b, [':'] + u, [':'] + v);
    assert ([':'] + u)[1..] == u && ([':'] + v)[1..] == v;
  }

  lemma {:induction false} MembersReadable(
      ka: seq<string>, va: seq<Json>, oa: seq<string>, kb: seq<string>, vb: seq<Json>, ob: seq<string>,
      x: string, y: string)
    requires |ka| == |va| && (forall i :: 0 <= i < |va| ==> WellFormed(va[i])) && forall k :: k in oa ==> k in ka
    requires |kb| == |vb| && (forall i :: 0 <= i < |vb| ==> WellFormed(vb[i])) && forall k :: k in ob ==> k in kb
    requires Members(ka, va, oa) + ['}'] + x == Members(kb, vb, ob) + ['}'] + y
    ensures oa == ob && x == y
    ensures forall k :: k in oa ==> Same(va[Position(ka, k)], vb[Position(kb, k)])
    decreases va, 0, |oa|
  {
    MembersSplit(ka, va, oa, x);
    MembersSplit(kb, vb, ob, y);
    if oa == [] {
      assert (Members(ka, va, oa) + ['}'] + x)[1..] == x && (Members(kb, vb, ob) + ['}'] + y)[1..] == y;
    } else {
      var u, v := Members(ka, va, oa[1..]), Members(kb, vb, ob[1..]);
      var p, q := va[Position(ka, oa[0])], vb[Position(kb, ob[0])];
      var r, t := AfterFirst(|oa| == 1, u, '}', x), AfterFirst(|ob| == 1, v, '}', y);
      KeyReadable(oa[0], ob[0], Stringify(p) + r, Stringify(q) + t);
      Readable(p, q, r, t);
      AfterFirstReadable(|oa| == 1, u, |ob| == 1, v, '}', x, y);
      if |oa| > 1 {
        MembersReadable(ka, va, oa[1..], kb, vb, ob[1..], x, y);
      }
      assert oa == [oa[0]] + oa[1..] && ob == [ob[0]] + ob[1..];
    }
  }

  lemma {:induction false} SameMembers(ka: seq<string>, va: seq<Json>, kb: seq<string>, vb: seq<Json>)
    requires |ka| == |va| && |kb| == |vb| && Distinct(ka) && Distinct(kb) && Sort(ka) == Sort(kb)
    requires forall k :: k in Sort(ka) ==> Same(va[Position(ka, k)], vb[Position(kb, k)])
    ensures Same(JObject(ka, va), JObject(kb, vb))
  {
    SortCanonical(ka, kb);
    forall i | 0 <= i < |va| ensures ka[i] in kb && Same(va[i], vb[Position(kb, ka[i])]) {
      assert ka[i] in Sort(ka);
      assert Position(ka, ka[i]) == i;
    }
  }

  // ---------- equal values print alike ----------

  lemma {:induction false} SamePrintsAlike(a: Json, b: Json)
    requires WellFormed(a) && WellFormed(b) && Same(a, b)
    ensures Stringify(a) == Stringify(b)
    decreases a, 1, 0
  {
    match a
    case JArray(items) => ElementsAlike(items, b.items);
    case JObject(keys, vals) =>
      SortCanonical(keys, b.keys);
      MembersAlike(keys, vals, b.keys, b.vals, Sort(keys));
    case _ =>
  }

  lemma {:induction false} ElementsAlike(xs: seq<Json>, ys: seq<Json>)
    requires |xs| == |ys|
    requires forall i :: 0 <= i < |xs| ==> WellFormed(xs[i]) && WellFormed(ys[i]) && Same(xs[i], ys[i])
    ensures Elements(xs) == Elements(ys)
    decreases xs, 0, 0
  {
    if xs != [] {
      SamePrintsAlike(xs[0], ys[0]);
      ElementsAlike(xs[1..], ys[1..]);
    }
  }

  lemma {:induction false} MembersAlike(
      ka: seq<string>, va: seq<Json>, kb: seq<string>, vb: seq<Json>, order: seq<string>)
    requires |ka| == |va| && |kb| == |vb| && Distinct(ka) && Distinct(kb)
    requires forall i :: 0 <= i < |va| ==> WellFormed(va[i])
    requires forall i :: 0 <= i < |vb| ==> WellFormed(vb[i])
    requires forall k :: k in order ==> k in ka && k in kb
    requires forall i :: 0 <= i < |va| ==> ka[i] in kb && Same(va[i], vb[Position(kb, ka[i])])
    ensures Members(ka, va, order) == Members(kb, vb, order)
    decreases va, 0, |order|
  {
    if order != [] {
      var k := order[0];
      assert Same(va[Position(ka, k)], vb[Position(kb, k)]);
      SamePrintsAlike(va[Position(ka, k)], vb[Position(kb, k)]);
      MembersAlike(ka, va, kb, vb, order[1..]);
    }
  }

  /** The printer is canonical: equal signatures are equal values up to key order, and conversely. */
  lemma {:induction false} StringifyCanonical(a: Json, b: Json)
    requires WellFormed(a) && WellFormed(b)
    ensures Stringify(a) == Stringify(b) <==> Same(a, b)
  {
    if Stringify(a) == Stringify(b) {
      assert Stringify(a) + "" == Stringify(b) + "";
      Readable(a, b, "", "");
    }
    if Same(a, b) {
      SamePrintsAlike(a, b);
    }
  }

  // ---------- the text itself ----------

  /** `values.map(stableStringify)`. */
  function Printed(items: seq<Json>): (r: seq<string>)
    requires forall i :: 0 <= i < |items| ==> WellFormed(items[i])
    ensures |r| == |items| && forall i :: 0 <= i < |r| ==> r[i] == Stringify(items[i])
  {
    seq(|items|, i requires 0 <= i < |items| => Stringify(items[i]))
  }

  /** The members in the order of the keys: quoted key, colon, value. */
  function PrintedMembers(keys: seq<string>, vals: seq<Json>, order: seq<string>): (r: seq<string>)
    requires |keys| == |vals| && forall i :: 0 <= i < |vals| ==> WellFormed(vals[i])
    requires forall k :: k in order ==> k in keys
    ensures |r| == |order|
    ensures forall i :: 0 <= i < |r| ==>
      order[i] in keys && r[i] == Quote(order[i]) + ":" + Stringify(vals[Position(keys, order[i])])
  {
    seq(|order|, i requires 0 <= i < |order| => Quote(order[i]) + ":" + Stringify(vals[Position(keys, order[i])]))
  }

  lemma {:induction false} ElementsJoined(items: seq<Json>)
    requires forall i :: 0 <= i < |items| ==> WellFormed(items[i])
    ensures Elements(items) == Join(Printed(items), ",")
    decreases |items|
  {
    if |items| > 1 {
      ElementsJoined(items[1..]);
      assert Printed(items)[1..] == Printed(items[1..]);
    }
  }

  lemma {:induction false} MembersJoined(keys: seq<string>, vals: seq<Json>, order: seq<string>)
    requires |keys| == |vals| && forall i :: 0 <= i < |vals| ==> WellFormed(vals[i])
    requires forall k :: k in order ==> k in keys
    ensures Members(keys, vals, order) == Join(PrintedMembers(keys, vals, order), ",")
    decreases |order|
  {
    if |order| > 1 {
      MembersJoined(keys, vals, order[1..]);
      assert PrintedMembers(keys, vals, order)[1..] == PrintedMembers(keys, vals, order[1..]);
    }
  }

  /**
   The printed text: brackets around the elements joined by commas; braces around the
   members joined by commas, the keys ascending and each value the one under its key.
   */
  lemma {:induction false} TextExact(v: Json)
    requires WellFormed(v)
    ensures v.JUndefined? ==> Stringify(v) == "undefined"
    ensures v.JNull? ==> Stringify(v) == "null"
    ensures v.JBool? ==> Stringify(v) == if v.b then "true" else "false"
    ensures v.JNumber? ==> Stringify(v) == v.text
    ensures v.JString? ==> Stringify(v) == Quote(v.s)
    ensures v.JArray? ==> Stringify(v) == "[" + Join(Printed(v.items), ",") + "]"
    ensures v.JObject? ==>
      exists order :: Ascending(order) && (forall k :: k in order <==> k in v.keys) &&
                      Stringify(v) == "{" + Join(PrintedMembers(v.keys, v.vals, order), ",") + "}"
  {
    match v
    case JArray(items) => ElementsJoined(items);
    case JObject(keys, vals) =>
      SortAscending(keys);
      MembersJoined(keys, vals, Sort(keys));
    case _ =>
  }

  // ---------- strings, as a JSON reader takes them ----------

  /** The character an escape stands for, section 7 of RFC 8259. */
  function Unescaped(c: char): char {
    match c
    case 'b' => '\U{0008}'
    case 't' => '\U{0009}'
    case 'n' => '\U{000A}'
    case 'f' => '\U{000C}'
    case 'r' => '\U{000D}'
    case _ => c
  }

  function HexValue(c: char): int {
    if '0' <= c <= '9' then c as int - '0' as int
    else if 'a' <= c <= 'f' then c as int - 'a' as int + 10
    else if 'A' <= c <= 'F' then c as int - 'A' as int + 10
    else -1
  }

  /** Reads up to the closing quote; None where the text is not the inside of a JSON string. */
  function ReadString(s: string): (r: Option<(string, string)>)
    decreases |s|
  {
    if s == [] || s[0] < ' ' then None
    else if s[0] == '"' then Some(("", s[1..]))
    else if s[0] != '\\' then Prepend(s[0], ReadString(s[1..]))
    else if |s| < 2 then None
    else if s[1] in "\"\\/bfnrt" then Prepend(Unescaped(s[1]), ReadString(s[2..]))
    else if s[1] == 'u' && |s| >= 6 && s[2] == '0' && s[3] == '0' && HexValue(s[4]) >= 0 && HexValue(s[5]) >= 0
    then Prepend((HexValue(s[4]) * 16 + HexValue(s[5])) as char, ReadString(s[6..]))
    else None
  }

  function Prepend(c: char, r: Option<(string, string)>): Option<(string, string)> {
    if r.None? then None else Some(([c] + r.value.0, r.value.1))
  }

  lemma {:induction false} ReadEscape(c: char, t: string)
    ensures ReadString(Escape(c) + t) == Prepend(c, ReadString(t))
  {
    if |Escape(c)| == 6 {
      ReadHex(c, c as int / 16, c as int % 16, t);
    } else if |Escape(c)| == 2 {
      ReadShort(Escape(c)[1], t);
    } else {
      assert ([c] + t)[1..] == t;
    }
  }

  lemma {:induction false} ReadShort(e: char, t: string)
    requires e in "\"\\/bfnrt"
    ensures ReadString(['\\', e] + t) == Prepend(Unescaped(e), ReadString(t))
  {
    assert (['\\', e] + t)[2..] == t;
  }

  lemma {:induction false} ReadHex(c: char, hi: nat, lo: nat, t: string)
    requires hi < 16 && lo < 16 && c as int == hi * 16 + lo
    ensures ReadString("\\u00" + [HexDigit(hi), HexDigit(lo)] + t) == Prepend(c, ReadString(t))
  {
    HexDigits(hi);
    HexDigits(lo);
    assert ("\\u00" + [HexDigit(hi), HexDigit(lo)] + t)[6..] == t;
  }

  lemma {:induction false} HexDigits(d: nat)
    requires d < 16
    ensures HexValue(HexDigit(d)) == d
  {}

  lemma {:induction false} ClosedReads(s: string, x: string)
    ensures ReadString(Closed(s, x)) == Some((s, x))
    decreases s
  {
    if s == [] {
      assert Closed(s, x) == "\"" + x && ("\"" + x)[1..] == x;
    } else {
      ClosedReads(s[1..], x);
      ClosedCons(s, x);
      ReadEscape(s[0], Closed(s[1..], x));
      assert [s[0]] + s[1..] == s;
    }
  }

  /** A quoted string, read by the rules of JSON after its opening quote, is the string. */
  lemma {:induction false} QuoteReads(s: string, x: string)
    ensures (Quote(s) + x)[0] == '"' && ReadString((Quote(s) + x)[1..]) == Some((s, x))
  {
    ClosedReads(s, x);
    assert (Quote(s) + x)[1..] == Closed(s, x);
  }
}
