/** Lexicographic order of strings and sorting of distinct keys, as `Object.keys(v).sort()` does. */
module KeyOrder {
  import opened Sequences

  predicate Less(a: string, b: string) {
    if b == [] then false
    else if a == [] then true
    else a[0] < b[0] || (a[0] == b[0] && Less(a[1..], b[1..]))
  }

  lemma {:induction false} LessTotal(a: string, b: string)
    ensures a == b || Less(a, b) || Less(b, a)
    decreases a
  {
    if a != [] && b != [] && a[0] == b[0] {
      LessTotal(a[1..], b[1..]);
      assert a[1..] == b[1..] ==> a == [a[0]] + b[1..] == b;
    }
  }

  lemma {:induction false} LessAsymmetric(a: string, b: string)
    requires Less(a, b)
    ensures !Less(b, a) && a != b
    decreases a
  {
    if a != [] && a[0] == b[0] {
      LessAsymmetric(a[1..], b[1..]);
    }
  }

  lemma {:induction false} LessTransitive(a: string, b: string, c: string)
    requires Less(a, b) && Less(b, c)
    ensures Less(a, c)
    decreases a
  {
    if a != [] && a[0] == b[0] == c[0] {
      LessTransitive(a[1..], b[1..], c[1..]);
    }
  }

  ghost predicate Ascending(ks: seq<string>) {
    forall i, j :: 0 <= i < j < |ks| ==> Less(ks[i], ks[j])
  }

  function Insert(k: string, ks: seq<string>): (r: seq<string>)
    ensures forall x :: x in r <==> x == k || x in ks
    ensures |r| == |ks| + 1
  {
    if ks == [] || Less(k, ks[0]) then [k] + ks
    else
      assert forall x :: x in ks <==> x == ks[0] || x in ks[1..];
      [ks[0]] + Insert(k, ks[1..])
  }

  function Sort(ks: seq<string>): (r: seq<string>)
    ensures forall x :: x in r <==> x in ks
    ensures |r| == |ks|
  {
    if ks == [] then []
    else
      assert forall x :: x in ks <==> x == ks[0] || x in ks[1..];
      Insert(ks[0], Sort(ks[1..]))
  }

  lemma {:induction false} InsertAscending(k: string, ks: seq<string>)
    requires Ascending(ks) && k !in ks
    ensures Ascending(Insert(k, ks))
    decreases ks
  {
    if ks != [] {
      LessTotal(k, ks[0]);
      if Less(k, ks[0]) {
        forall j | 0 < j < |ks| ensures Less(k, ks[j]) {
          LessTransitive(k, ks[0], ks[j]);
        }
      } else {
        assert ks[0] in ks;
        InsertAscending(k, ks[1..]);
        var rest := Insert(k, ks[1..]);
        forall j | 0 <= j < |rest| ensures Less(ks[0], rest[j]) {
          assert rest[j] in rest;
        }
      }
    }
  }

  lemma {:induction false} SortAscending(ks: seq<string>)
    requires Distinct(ks)
    ensures Ascending(Sort(ks))
    decreases ks
  {
    if ks != [] {
      SortAscending(ks[1..]);
      InsertAscending(ks[0], Sort(ks[1..]));
    }
  }

  /** Two ascending lists of the same keys are the same list. */
  lemma {:induction false} AscendingUnique(a: seq<string>, b: seq<string>)
    requires Ascending(a) && Ascending(b) && forall k :: k in a <==> k in b
    ensures a == b
    decreases a
  {
    if a == [] {
      assert forall i :: 0 <= i < |b| ==> b[i] in b;
    } else {
      assert a[0] in a && a[0] in b;
      assert b[0] in b && b[0] in a;
      SameHead(a, b);
      TailKeys(a);
      TailKeys(b);
      AscendingUnique(a[1..], b[1..]);
      assert a == [a[0]] + a[1..] && b == [b[0]] + b[1..];
    }
  }

  lemma {:induction false} SameHead(a: seq<string>, b: seq<string>)
    requires a != [] && b != [] && Ascending(a) && Ascending(b) && a[0] in b && b[0] in a
    ensures a[0] == b[0]
  {
    var i :| 0 <= i < |b| && b[i] == a[0];
    var j :| 0 <= j < |a| && a[j] == b[0];
    if i > 0 && j > 0 {
      assert Less(b[0], a[0]) && Less(a[0], b[0]);
      LessAsymmetric(a[0], b[0]);
    }
  }

  lemma {:induction false} TailKeys(a: seq<string>)
    requires a != [] && Ascending(a)
    ensures Ascending(a[1..]) && forall k :: k in a[1..] <==> k in a && k != a[0]
  {
    forall j | 0 < j < |a| ensures a[j] != a[0] {
      LessAsymmetric(a[0], a[j]);
    }
  }

  /** Sorting forgets the order in which distinct keys were given. */
  lemma {:induction false} SortCanonical(a: seq<string>, b: seq<string>)
    requires Distinct(a) && Distinct(b)
    ensures Sort(a) == Sort(b) <==> forall k :: k in a <==> k in b
  {
    SortAscending(a);
    SortAscending(b);
    if forall k :: k in a <==> k in b {
      AscendingUnique(Sort(a), Sort(b));
    }
    if Sort(a) == Sort(b) {
      forall k ensures k in a <==> k in b {
        assert k in Sort(a) <==> k in Sort(b);
      }
    }
  }

  ghost predicate ProperPrefix(a: string, b: string) {
    |a| < |b| && a == b[..|a|]
  }

  /** The texts are the same up to position `k`, where the first one has the smaller character. */
  ghost predicate DiffersAt(a: string, b: string, k: int) {
    0 <= k < |a| && k < |b| && a[..k] == b[..k] && a[k] < b[k]
  }

  lemma {:induction false} ConsEqual(c: char, a: string, d: char, b: string)
    ensures [c] + a == [d] + b <==> c == d && a == b
  {
    if [c] + a == [d] + b {
      assert ([c] + a)[0] == ([d] + b)[0] && ([c] + a)[1..] == a && ([d] + b)[1..] == b;
    }
  }

  lemma {:induction false} PrefixCons(c: char, a: string, d: char, b: string)
    ensures ProperPrefix([c] + a, [d] + b) <==> c == d && ProperPrefix(a, b)
  {
    if |a| < |b| {
      assert ([d] + b)[..|[c] + a|] == [d] + b[..|a|];
      ConsEqual(c, a, d, b[..|a|]);
    }
  }

  lemma {:induction false} DiffersCons(c: char, a: string, d: char, b: string, k: nat)
    ensures DiffersAt([c] + a, [d] + b, k + 1) <==> c == d && DiffersAt(a, b, k)
  {
    if k < |a| && k < |b| {
      assert ([c] + a)[..k + 1] == [c] + a[..k] && ([d] + b)[..k + 1] == [d] + b[..k];
      ConsEqual(c, a[..k], d, b[..k]);
    }
  }

  /** The order is that of the first difference, or of the lengths when one text starts the other. */
  lemma {:induction false} LessIff(a: string, b: string)
    ensures Less(a, b) <==> ProperPrefix(a, b) || exists k :: DiffersAt(a, b, k)
    decreases a
  {
    if a != [] && b != [] {
      LessIff(a[1..], b[1..]);
      assert a == [a[0]] + a[1..] && b == [b[0]] + b[1..];
      PrefixCons(a[0], a[1..], b[0], b[1..]);
      DiffersLater(a, b);
    }
  }

  lemma {:induction false} DiffersLater(a: string, b: string)
    requires a != [] && b != []
    ensures (exists k :: DiffersAt(a, b, k)) <==>
      a[0] < b[0] || (a[0] == b[0] && exists k :: DiffersAt(a[1..], b[1..], k))
  {
    assert a == [a[0]] + a[1..] && b == [b[0]] + b[1..];
    if a[0] < b[0] {
      assert DiffersAt(a, b, 0);
    }
    if k :| DiffersAt(a, b, k) {
      if k > 0 {
        DiffersCons(a[0], a[1..], b[0], b[1..], k - 1);
      }
    }
    if k :| a[0] == b[0] && DiffersAt(a[1..], b[1..], k) {
      DiffersCons(a[0], a[1..], b[0], b[1..], k);
    }
  }
}
