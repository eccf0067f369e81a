/**
 The documented meaning of glob patterns, and exactly when the compiler keeps it: a
 "/" after `**` is skipped, and `**` does not take line terminators.
 */
module GlobDocs {
  import opened Regex
  import opened Glob

  /** The four documented rules: after `**`, which stands for any characters at all, a "/" is a "/". */
  ghost predicate DocMatch(p: string, s: string)
    decreases p
  {
    if p == [] then s == []
    else if StartsWithGlobstar(p) then
      exists k :: 0 <= k <= |s| && DocMatch(p[2..], s[k..])
    else if p[0] == '*' then
      exists k :: 0 <= k <= |s| && NoSlash(s[..k]) && DocMatch(p[1..], s[k..])
    else if p[0] == '?' then s != [] && s[0] != '/' && DocMatch(p[1..], s[1..])
    else s != [] && s[0] == p[0] && DocMatch(p[1..], s[1..])
  }

  /** Some `**`, as the compiler's loop reads the pattern, is followed by a "/". */
  predicate SkipsSlash(p: string)
    decreases p
  {
    if p == [] then false
    else if StartsWithGlobstar(p) then (|p| > 2 && p[2] == '/') || SkipsSlash(p[2..])
    else SkipsSlash(p[1..])
  }

  predicate UsesGlobstar(p: string) {
    exists i :: 0 <= i < |p| - 1 && p[i] == '*' && p[i + 1] == '*'
  }

  lemma {:induction false} UsesGlobstarStep(p: string)
    requires p != []
    ensures UsesGlobstar(p) <==> StartsWithGlobstar(p) || UsesGlobstar(p[1..])
  {
    if UsesGlobstar(p) && !StartsWithGlobstar(p) {
      var i :| 0 <= i < |p| - 1 && p[i] == '*' && p[i + 1] == '*';
      assert p[1..][i - 1] == '*' && p[1..][i - 1 + 1] == '*';
    }
    if UsesGlobstar(p[1..]) {
      var i :| 0 <= i < |p[1..]| - 1 && p[1..][i] == '*' && p[1..][i + 1] == '*';
      assert p[i + 1] == '*' && p[i + 1 + 1] == '*';
    }
  }

  // ---------- what a text needs to have to be matched ----------

  function Slashes(s: string): nat {
    if s == [] then 0 else (if s[0] == '/' then 1 else 0) + Slashes(s[1..])
  }

  lemma {:induction false} SlashesConcat(a: string, b: string)
    ensures Slashes(a + b) == Slashes(a) + Slashes(b)
    decreases a
  {
    if a == [] {
      assert a + b == b;
    } else {
      assert (a + b)[1..] == a[1..] + b;
      SlashesConcat(a[1..], b);
    }
  }

  lemma {:induction false} SlashesFrom(s: string, k: nat)
    requires k <= |s|
    ensures Slashes(s[k..]) <= Slashes(s)
  {
    SlashesConcat(s[..k], s[k..]);
    assert s[..k] + s[k..] == s;
  }

  lemma {:induction false} SlashesAfterStars(p: string)
    requires StartsWithGlobstar(p)
    ensures Slashes(p) == Slashes(p[2..])
  {
    assert p[1..][1..] == p[2..];
  }

  /** By the documented rules every "/" of the pattern takes one of the text. */
  lemma {:induction false} DocSlashes(p: string, s: string)
    requires DocMatch(p, s)
    ensures Slashes(p) <= Slashes(s)
    decreases p
  {
    if p != [] {
      if StartsWithGlobstar(p) {
        var k :| 0 <= k <= |s| && DocMatch(p[2..], s[k..]);
        DocSlashes(p[2..], s[k..]);
        SlashesFrom(s, k);
        SlashesAfterStars(p);
      } else if p[0] == '*' {
        var k :| 0 <= k <= |s| && NoSlash(s[..k]) && DocMatch(p[1..], s[k..]);
        DocSlashes(p[1..], s[k..]);
        SlashesFrom(s, k);
      } else {
        DocSlashes(p[1..], s[1..]);
      }
    }
  }

  /** A "/" before a line feed: no single piece of a compiled pattern takes both. */
  function Breaks(s: string): nat {
    if |s| < 2 then 0 else (if s[0] == '/' && s[1] == '\n' then 1 else 0) + Breaks(s[1..])
  }

  lemma {:induction false} BreaksConcat(a: string, b: string)
    ensures Breaks(a) + Breaks(b) <= Breaks(a + b) <= Breaks(a) + 1 + Breaks(b)
    decreases a
  {
    if a == [] {
      assert a + b == b;
    } else {
      assert (a + b)[1..] == a[1..] + b;
      BreaksConcat(a[1..], b);
    }
  }

  lemma {:induction false} NoBreaks(s: string)
    requires NoSlash(s) || NoLineTerminator(s)
    ensures Breaks(s) == 0
    decreases s
  {
    if |s| >= 2 {
      assert IsLineTerminator('\n');
      NoBreaks(s[1..]);
    }
  }

  lemma {:induction false} BreaksTaken(s: string, k: nat)
    requires k <= |s| && (NoSlash(s[..k]) || NoLineTerminator(s[..k]))
    ensures Breaks(s) <= 1 + Breaks(s[k..])
  {
    NoBreaks(s[..k]);
    BreaksConcat(s[..k], s[k..]);
    assert s[..k] + s[k..] == s;
  }

  /** A compiled pattern bridges at most one break per character. */
  lemma {:induction false} GlobBreaks(p: string, s: string)
    requires GlobMatch(p, s)
    ensures Breaks(s) <= |p|
    decreases |p|
  {
    if p != [] {
      if StartsWithGlobstar(p) {
        var k :| 0 <= k <= |s| && NoLineTerminator(s[..k]) && GlobMatch(AfterGlobstar(p), s[k..]);
        GlobBreaks(AfterGlobstar(p), s[k..]);
        BreaksTaken(s, k);
      } else if p[0] == '*' {
        var k :| 0 <= k <= |s| && NoSlash(s[..k]) && GlobMatch(p[1..], s[k..]);
        GlobBreaks(p[1..], s[k..]);
        BreaksTaken(s, k);
      } else {
        GlobBreaks(p[1..], s[1..]);
      }
    }
  }

  // ---------- texts made from a pattern ----------

  /** A text the documented rules accept, with `fill` for every `**`. */
  function Filled(p: string, fill: string): string
    decreases p
  {
    if p == [] then []
    else if StartsWithGlobstar(p) then fill + Filled(p[2..], fill)
    else if p[0] == '*' then Filled(p[1..], fill)
    else (if p[0] == '?' then "x" else [p[0]]) + Filled(p[1..], fill)
  }

  lemma {:induction false} FilledMatches(p: string, fill: string)
    ensures DocMatch(p, Filled(p, fill))
    decreases p
  {
    var s := Filled(p, fill);
    if p != [] {
      if StartsWithGlobstar(p) {
        FilledMatches(p[2..], fill);
        assert s[|fill|..] == Filled(p[2..], fill);
      } else if p[0] == '*' {
        FilledMatches(p[1..], fill);
        assert s[0..] == Filled(p[1..], fill) && NoSlash(s[..0]);
      } else {
        FilledMatches(p[1..], fill);
        assert s[1..] == Filled(p[1..], fill);
      }
    }
  }

  lemma {:induction false} FilledBreaks(p: string, fill: string)
    requires UsesGlobstar(p)
    ensures Breaks(fill) <= Breaks(Filled(p, fill))
    decreases p
  {
    UsesGlobstarStep(p);
    if StartsWithGlobstar(p) {
      BreaksConcat(fill, Filled(p[2..], fill));
    } else {
      FilledBreaks(p[1..], fill);
      if p[0] != '*' {
        BreaksConcat(if p[0] == '?' then "x" else [p[0]], Filled(p[1..], fill));
      }
    }
  }

  function ManyBreaks(n: nat): (r: string)
  {
    if n == 0 then "" else "/\n" + ManyBreaks(n - 1)
  }

  lemma {:induction false} ManyBreaksCount(n: nat)
    ensures Breaks(ManyBreaks(n)) >= n
    decreases n
  {
    if n > 0 {
      ManyBreaksCount(n - 1);
      assert Breaks("/\n") == 1 by { assert "/\n"[1..] == "\n"; }
      BreaksConcat("/\n", ManyBreaks(n - 1));
    }
  }

  /** A text the compiled pattern accepts, with nothing for every `**` and the "/" after it. */
  function Bare(p: string): string
    decreases |p|
  {
    if p == [] then []
    else if p[0] == '*' then Bare(AfterToken(p))
    else (if p[0] == '?' then "x" else [p[0]]) + Bare(p[1..])
  }

  lemma {:induction false} BareMatches(p: string)
    ensures GlobMatch(p, Bare(p))
    decreases |p|
  {
    var s := Bare(p);
    if p != [] {
      BareMatches(AfterToken(p));
      if p[0] == '*' {
        assert s[0..] == s && NoLineTerminator(s[..0]) && NoSlash(s[..0]);
      } else {
        assert s[1..] == Bare(p[1..]);
      }
    }
  }

  lemma {:induction false} BareSlashes(p: string)
    ensures Slashes(Bare(p)) <= Slashes(p)
    ensures SkipsSlash(p) ==> Slashes(Bare(p)) < Slashes(p)
    decreases |p|
  {
    if p != [] {
      BareSlashes(AfterToken(p));
      if StartsWithGlobstar(p) {
        SlashesAfterStars(p);
        if |p| > 2 && p[2] == '/' {
          assert p[2..][1..] == p[3..] && Slashes(p[2..]) == 1 + Slashes(p[3..]);
          assert AfterToken(p) == p[3..];
        }
      } else if p[0] != '*' {
        SlashesConcat(if p[0] == '?' then "x" else [p[0]], Bare(p[1..]));
      }
    }
  }

  // ---------- when the compiler keeps the documented meaning ----------

  lemma {:induction false} GlobImpliesDoc(p: string, s: string)
    requires !SkipsSlash(p) && GlobMatch(p, s)
    ensures DocMatch(p, s)
    decreases |p|
  {
    if p != [] {
      if StartsWithGlobstar(p) {
        var k :| 0 <= k <= |s| && NoLineTerminator(s[..k]) && GlobMatch(AfterGlobstar(p), s[k..]);
        GlobImpliesDoc(p[2..], s[k..]);
      } else if p[0] == '*' {
        var k :| 0 <= k <= |s| && NoSlash(s[..k]) && GlobMatch(p[1..], s[k..]);
        GlobImpliesDoc(p[1..], s[k..]);
      } else {
        GlobImpliesDoc(p[1..], s[1..]);
      }
    }
  }

  lemma {:induction false} DocImpliesGlob(p: string, s: string)
    requires !UsesGlobstar(p) && DocMatch(p, s)
    ensures GlobMatch(p, s)
    decreases |p|
  {
    if p != [] {
      UsesGlobstarStep(p);
      if p[0] == '*' {
        var k :| 0 <= k <= |s| && NoSlash(s[..k]) && DocMatch(p[1..], s[k..]);
        DocImpliesGlob(p[1..], s[k..]);
      } else {
        DocImpliesGlob(p[1..], s[1..]);
      }
    }
  }

  /** A compiled pattern accepts only what is documented exactly when no `**` is followed by a "/". */
  lemma {:induction false} NothingExtraIff(p: string)
    ensures (forall s :: GlobMatch(p, s) ==> DocMatch(p, s)) <==> !SkipsSlash(p)
  {
    if SkipsSlash(p) {
      BareMatches(p);
      BareSlashes(p);
      assert !DocMatch(p, Bare(p)) by {
        if DocMatch(p, Bare(p)) {
          DocSlashes(p, Bare(p));
        }
      }
    } else {
      forall s | GlobMatch(p, s) ensures DocMatch(p, s) {
        GlobImpliesDoc(p, s);
      }
    }
  }

  /** It accepts everything documented exactly when it has no `**`, because `**` stops at line terminators. */
  lemma {:induction false} NothingMissedIff(p: string)
    ensures (forall s :: DocMatch(p, s) ==> GlobMatch(p, s)) <==> !UsesGlobstar(p)
  {
    if UsesGlobstar(p) {
      var fill := ManyBreaks(|p| + 1);
      var s := Filled(p, fill);
      ManyBreaksCount(|p| + 1);
      FilledMatches(p, fill);
      FilledBreaks(p, fill);
      assert !GlobMatch(p, s) by {
        if GlobMatch(p, s) {
          GlobBreaks(p, s);
        }
      }
    } else {
      forall s | DocMatch(p, s) ensures GlobMatch(p, s) {
        DocImpliesGlob(p, s);
      }
    }
  }

  // ---------- one pattern and one text ----------

  /** The pattern without the slashes that the compiler skips. */
  function Thinned(p: string): string
    decreases |p|
  {
    if p == [] then []
    else if StartsWithGlobstar(p) then "**" + Thinned(AfterGlobstar(p))
    else [p[0]] + Thinned(p[1..])
  }

  /** The documented rules accept the text with these runs for the occurrences of `**`, in order. */
  ghost predicate Takes(p: string, s: string, runs: seq<string>)
    decreases p
  {
    if p == [] then s == [] && runs == []
    else if StartsWithGlobstar(p) then runs != [] && runs[0] <= s && Takes(p[2..], s[|runs[0]|..], runs[1..])
    else if p[0] == '*' then exists k :: 0 <= k <= |s| && NoSlash(s[..k]) && Takes(p[1..], s[k..], runs)
    else if p[0] == '?' then s != [] && s[0] != '/' && Takes(p[1..], s[1..], runs)
    else s != [] && s[0] == p[0] && Takes(p[1..], s[1..], runs)
  }

  predicate WithinLines(runs: seq<string>) {
    forall i :: 0 <= i < |runs| ==> forall k :: 0 <= k < |runs[i]| ==> !IsLineTerminator(runs[i][k])
  }

  lemma {:induction false} ThinnedHead(p: string)
    requires p != []
    ensures Thinned(p) != [] && Thinned(p)[0] == p[0]
    ensures StartsWithGlobstar(Thinned(p)) <==> StartsWithGlobstar(p)
    ensures if StartsWithGlobstar(p) then Thinned(p)[2..] == Thinned(AfterGlobstar(p))
            else Thinned(p)[1..] == Thinned(p[1..])
  {
    if !StartsWithGlobstar(p) && |p| > 1 {
      assert Thinned(p[1..])[0] == p[1];
      assert Thinned(p)[1] == p[1];
    }
  }

  lemma {:induction false} DocTakes(p: string, s: string) returns (runs: seq<string>)
    requires DocMatch(p, s)
    ensures Takes(p, s, runs)
    decreases p
  {
    if p == [] {
      runs := [];
    } else if StartsWithGlobstar(p) {
      var k :| 0 <= k <= |s| && DocMatch(p[2..], s[k..]);
      var rest := DocTakes(p[2..], s[k..]);
      runs := [s[..k]] + rest;
      assert runs[1..] == rest && s[|runs[0]|..] == s[k..];
    } else if p[0] == '*' {
      var k :| 0 <= k <= |s| && NoSlash(s[..k]) && DocMatch(p[1..], s[k..]);
      runs := DocTakes(p[1..], s[k..]);
    } else {
      runs := DocTakes(p[1..], s[1..]);
    }
  }

  lemma {:induction false} TakesDoc(p: string, s: string, runs: seq<string>)
    requires Takes(p, s, runs)
    ensures DocMatch(p, s)
    decreases p
  {
    if p == [] {
    } else if StartsWithGlobstar(p) {
      TakesDoc(p[2..], s[|runs[0]|..], runs[1..]);
    } else if p[0] == '*' {
      var k :| 0 <= k <= |s| && NoSlash(s[..k]) && Takes(p[1..], s[k..], runs);
      TakesDoc(p[1..], s[k..], runs);
    } else {
      TakesDoc(p[1..], s[1..], runs);
    }
  }

  lemma {:induction false} DocReading(p: string, s: string)
    ensures DocMatch(p, s) <==> exists runs :: Takes(p, s, runs)
  {
    if DocMatch(p, s) {
      var runs := DocTakes(p, s);
      assert Takes(p, s, runs);
    }
    forall runs | Takes(p, s, runs) ensures DocMatch(p, s) {
      TakesDoc(p, s, runs);
    }
  }

  lemma {:induction false} GlobTakes(p: string, s: string) returns (runs: seq<string>)
    requires GlobMatch(p, s)
    ensures Takes(Thinned(p), s, runs) && WithinLines(runs)
    decreases |p|
  {
    if p == [] {
      runs := [];
    } else {
      ThinnedHead(p);
      if StartsWithGlobstar(p) {
        var k :| 0 <= k <= |s| && NoLineTerminator(s[..k]) && GlobMatch(AfterGlobstar(p), s[k..]);
        var rest := GlobTakes(AfterGlobstar(p), s[k..]);
        runs := [s[..k]] + rest;
        assert runs[1..] == rest && s[|runs[0]|..] == s[k..];
      } else if p[0] == '*' {
        var k :| 0 <= k <= |s| && NoSlash(s[..k]) && GlobMatch(p[1..], s[k..]);
        runs := GlobTakes(p[1..], s[k..]);
      } else {
        runs := GlobTakes(p[1..], s[1..]);
      }
    }
  }

  lemma {:induction false} TakesGlob(p: string, s: string, runs: seq<string>)
    requires Takes(Thinned(p), s, runs) && WithinLines(runs)
    ensures GlobMatch(p, s)
    decreases |p|
  {
    if p != [] {
      ThinnedHead(p);
      if StartsWithGlobstar(p) {
        var k := |runs[0]|;
        assert s[..k] == runs[0];
        TakesGlob(AfterGlobstar(p), s[k..], runs[1..]);
      } else if p[0] == '*' {
        var k :| 0 <= k <= |s| && NoSlash(s[..k]) && Takes(Thinned(p)[1..], s[k..], runs);
        TakesGlob(p[1..], s[k..], runs);
      } else {
        TakesGlob(p[1..], s[1..], runs);
      }
    }
  }

  /**
   The compiled pattern means, by the documented rules, the pattern without the "/"
   after each `**`, with every `**` kept from taking a line terminator.
   */
  lemma {:induction false} CompiledReading(p: string, s: string)
    ensures GlobMatch(p, s) <==> exists runs :: Takes(Thinned(p), s, runs) && WithinLines(runs)
  {
    if GlobMatch(p, s) {
      var runs := GlobTakes(p, s);
      assert Takes(Thinned(p), s, runs) && WithinLines(runs);
    }
    forall runs | Takes(Thinned(p), s, runs) && WithinLines(runs) ensures GlobMatch(p, s) {
      TakesGlob(p, s, runs);
    }
  }

  lemma {:induction false} RunsAreParts(p: string, s: string, runs: seq<string>)
    requires Takes(p, s, runs) && NoLineTerminator(s)
    ensures WithinLines(runs)
    decreases p
  {
    if p == [] {
    } else if StartsWithGlobstar(p) {
      assert s[..|runs[0]|] == runs[0];
      RunsAreParts(p[2..], s[|runs[0]|..], runs[1..]);
      assert forall i :: 0 < i < |runs| ==> runs[i] == runs[1..][i - 1];
    } else if p[0] == '*' {
      var k :| 0 <= k <= |s| && NoSlash(s[..k]) && Takes(p[1..], s[k..], runs);
      RunsAreParts(p[1..], s[k..], runs);
    } else {
      RunsAreParts(p[1..], s[1..], runs);
    }
  }

  /** Dropping the slashes only lets more texts through. */
  lemma {:induction false} ThinnedLoosens(p: string, s: string)
    requires DocMatch(p, s)
    ensures DocMatch(Thinned(p), s)
    decreases |p|
  {
    if p != [] {
      ThinnedHead(p);
      if StartsWithGlobstar(p) {
        var k :| 0 <= k <= |s| && DocMatch(p[2..], s[k..]);
        if |p| > 2 && p[2] == '/' {
          assert p[2..][1..] == p[3..] && s[k..][1..] == s[k + 1..];
          ThinnedLoosens(p[3..], s[k + 1..]);
        } else {
          ThinnedLoosens(p[2..], s[k..]);
        }
      } else if p[0] == '*' {
        var k :| 0 <= k <= |s| && NoSlash(s[..k]) && DocMatch(p[1..], s[k..]);
        ThinnedLoosens(p[1..], s[k..]);
      } else {
        ThinnedLoosens(p[1..], s[1..]);
      }
    }
  }

  lemma {:induction false} ThinnedSame(p: string)
    requires !SkipsSlash(p)
    ensures Thinned(p) == p
    decreases |p|
  {
    if p != [] {
      ThinnedSame(AfterToken(p));
    }
  }

  /**
   On a text without line terminators, pattern and compiled pattern agree unless the
   documented rules need a "/" after some `**` to reject the text.
   */
  lemma {:induction false} SlashAgreeIff(p: string, s: string)
    requires NoLineTerminator(s)
    ensures (DocMatch(p, s) <==> GlobMatch(p, s)) <==> (DocMatch(Thinned(p), s) ==> DocMatch(p, s))
  {
    CompiledReading(p, s);
    DocReading(Thinned(p), s);
    forall runs | Takes(Thinned(p), s, runs) ensures WithinLines(runs) {
      RunsAreParts(Thinned(p), s, runs);
    }
    if DocMatch(p, s) {
      ThinnedLoosens(p, s);
    }
  }

  /**
   For a pattern with no "/" after a `**`, they agree unless every way to accept the
   text has some `**` take a line terminator.
   */
  lemma {:induction false} LineAgreeIff(p: string, s: string)
    requires !SkipsSlash(p)
    ensures (DocMatch(p, s) <==> GlobMatch(p, s)) <==>
      (DocMatch(p, s) ==> exists runs :: Takes(p, s, runs) && WithinLines(runs))
  {
    ThinnedSame(p);
    DocReading(p, s);
    CompiledReading(p, s);
  }

  /** The two causes, each with nothing else wrong: a skipped "/", and a line feed. */
  lemma {:induction false} DisagreementExamples()
    ensures GlobMatch("**/b", "xb") && !DocMatch("**/b", "xb")
    ensures DocMatch("**", "\n") && !GlobMatch("**", "\n")
  {
    var p, s := "**/b", "xb";
    assert AfterGlobstar(p) == "b" && s[1..] == "b" && "b"[1..] == "" && s[..1] == "x";
    assert GlobMatch("b", "b");
    assert GlobMatch("b", s[1..]) && NoLineTerminator(s[..1]);
    assert !DocMatch(p, s) by {
      assert Slashes(p) >= 1 by { assert p[1..][1..] == "/b"; }
      assert Slashes(s) == 0 by { assert s[1..] == "b"; }
      if DocMatch(p, s) {
        DocSlashes(p, s);
      }
    }
    var any, feed := "**", "\n";
    assert any[2..] == "" && feed[1..] == "" && AfterGlobstar(any) == "";
    assert DocMatch("", feed[1..]);
    forall k | 0 <= k <= 1 ensures !(NoLineTerminator(feed[..k]) && GlobMatch("", feed[k..])) {
      if k == 1 {
        assert IsLineTerminator(feed[..k][0]);
      }
    }
    assert !GlobMatch(any, feed);
  }
}
