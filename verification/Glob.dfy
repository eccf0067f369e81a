/**
 Glob compilation: the loop that emits regular-expression text, and the proof that
 the text always parses and that the parsed expression accepts exactly the texts a
 direct glob matcher accepts.
 */
module Glob {
  import opened Option
  import opened Regex

  /** The characters the compiler escapes. */
  predicate IsSpecial(c: char) {
    c in ".+^${}()|[]\\"
  }

  function EscapeRegexChar(c: char): string {
    if IsSpecial(c) then ['\\', c] else [c]
  }

  predicate StartsWithGlobstar(p: string) {
    |p| >= 2 && p[0] == '*' && p[1] == '*'
  }

  /** What follows a leading `**`, with a slash right after it skipped. */
  function AfterGlobstar(p: string): (r: string)
    requires StartsWithGlobstar(p)
    ensures |r| < |p|
  {
    if |p| > 2 && p[2] == '/' then p[3..] else p[2..]
  }

  /** The text emitted for the first token of a pattern. */
  function Token(p: string): string
    requires p != []
  {
    if StartsWithGlobstar(p) then
      if |p| > 2 && p[2] == '/' then ".*" + "(?:.+/)?" else ".*"
    else if p[0] == '*' then "[^/]*"
    else if p[0] == '?' then "[^/]"
    else EscapeRegexChar(p[0])
  }

  function AfterToken(p: string): (r: string)
    requires p != []
    ensures |r| < |p|
  {
    if StartsWithGlobstar(p) then AfterGlobstar(p) else p[1..]
  }

  /** The text emitted for a pattern. */
  function Emit(p: string): string
    decreases |p|
  {
    if p == [] then "" else Token(p) + Emit(AfterToken(p))
  }

  lemma {:induction false} EmitOne(done: string, piece: string, p: string, rest: string)
    requires p != [] && piece == Token(p) && rest == AfterToken(p)
    ensures (done + piece) + Emit(rest) == done + Emit(p)
  {}

  /** The source's loop over the pattern. */
  method GlobToRegex(pattern: string) returns (text: string)
    ensures text == "^" + Emit(pattern) + "$"
  {
    var regexStr := "";
    var i := 0;
    while i < |pattern|
      invariant 0 <= i <= |pattern|
      invariant regexStr + Emit(pattern[i..]) == Emit(pattern)
    {
      var c := pattern[i];
      ghost var p, done := pattern[i..], regexStr;
      if c == '*' && i + 1 < |pattern| && pattern[i + 1] == '*' {
        regexStr := regexStr + ".*";
        i := i + 2;
        if i < |pattern| && pattern[i] == '/' {
          regexStr := regexStr + "(?:.+/)?";
          i := i + 1;
          assert (done + ".*") + "(?:.+/)?" == done + Token(p);
        }
      } else if c == '*' {
        regexStr := regexStr + "[^/]*";
        i := i + 1;
      } else if c == '?' {
        regexStr := regexStr + "[^/]";
        i := i + 1;
      } else {
        regexStr := regexStr + EscapeRegexChar(c);
        i := i + 1;
      }
      assert regexStr == done + Token(p);
      assert pattern[i..] == AfterToken(p);
      EmitOne(done, Token(p), p, pattern[i..]);
    }
    text := "^" + regexStr + "$";
  }

  // ---------- the direct matcher ----------

  ghost predicate NoLineTerminator(s: string) {
    forall k :: 0 <= k < |s| ==> !IsLineTerminator(s[k])
  }

  ghost predicate NoSlash(s: string) {
    forall k :: 0 <= k < |s| ==> s[k] != '/'
  }

  /** What a pattern means, read off the pattern itself. */
  ghost predicate GlobMatch(p: string, s: string)
    decreases p
  {
    if p == [] then s == []
    else if StartsWithGlobstar(p) then
      exists k :: 0 <= k <= |s| && NoLineTerminator(s[..k]) && GlobMatch(AfterGlobstar(p), s[k..])
    else if p[0] == '*' then
      exists k :: 0 <= k <= |s| && NoSlash(s[..k]) && GlobMatch(p[1..], s[k..])
    else if p[0] == '?' then s != [] && s[0] != '/' && GlobMatch(p[1..], s[1..])
    else s != [] && s[0] == p[0] && GlobMatch(p[1..], s[1..])
  }

  // ---------- the text parses ----------

  const NOT_SLASH := Class(true, {'/'})
  const DIRECTORIES := Opt(Cat(Plus(Dot), Cat(Literal('/'), Empty)))

  /** The tree of the emitted text followed by "$". */
  function TreeOf(p: string): Re {
    if p == [] then Cat(End, Empty)
    else if StartsWithGlobstar(p) then
      var rest := TreeOf(AfterGlobstar(p));
      Cat(Star(Dot), if |p| > 2 && p[2] == '/' then Cat(DIRECTORIES, rest) else rest)
    else if p[0] == '*' then Cat(Star(NOT_SLASH), TreeOf(p[1..]))
    else if p[0] == '?' then Cat(NOT_SLASH, TreeOf(p[1..]))
    else Cat(Literal(p[0]), TreeOf(p[1..]))
  }

  /** Emitted text never begins with a quantifier, a "|" or a ")". */
  lemma {:induction false} EmitHead(p: string)
    ensures var t := Emit(p) + "$"; t[0] !in "*+?|)"
  {
    if p != [] {
      assert Token(p) != [] && Token(p)[0] !in "*+?|)";
      assert (Emit(p) + "$")[0] == Token(p)[0];
    }
  }

  lemma {:induction false} ParseGlobstar(t: string)
    requires t != [] && t[0] != '?'
    ensures ParseTerm(".*" + t) == Some((Star(Dot), t))
  {
    var s := ".*" + t;
    assert s[1..] == "*" + t && ("*" + t)[1..] == t;
  }

  lemma {:induction false} ParseNotSlash(t: string)
    ensures ParseAtom("[^/]" + t) == Some((NOT_SLASH, t))
  {
    var s := "[^/]" + t;
    assert s[1..] == "^/]" + t;
    assert ("^/]" + t)[1..] == "/]" + t;
    assert ("/]" + t)[1..] == "]" + t;
    assert ("]" + t)[1..] == t;
    assert {} + {'/'} == {'/'};
    assert ParseMembers("]" + t, true, {'/'}) == Some((NOT_SLASH, t));
  }

  lemma {:induction false} ParseNotSlashTerm(t: string)
    requires t != [] && t[0] !in "*+?"
    ensures ParseTerm("[^/]" + t) == Some((NOT_SLASH, t))
  {
    ParseNotSlash(t);
  }

  lemma {:induction false} ParseNotSlashStar(t: string)
    requires t != [] && t[0] != '?'
    ensures ParseTerm("[^/]*" + t) == Some((Star(NOT_SLASH), t))
  {
    ParseNotSlash("*" + t);
    assert "[^/]*" + t == "[^/]" + ("*" + t);
    assert ("*" + t)[1..] == t;
  }

  /** Inside the group: one or more units and a slash, up to the ")". */
  lemma {:induction false} ParseGroupBody(u: string)
    requires u != [] && u[0] == ')'
    ensures ParseDisjunction(".+/" + u) == Some((Cat(Plus(Dot), Cat(Literal('/'), Empty)), u))
  {
    var slash := "/" + u;
    assert slash[1..] == u;
    assert ParseTerm(slash) == Some((Literal('/'), u));
    assert ParseAlternative(u) == Some((Empty, u));
    assert ParseAlternative(slash) == Some((Cat(Literal('/'), Empty), u));
    var body := ".+/" + u;
    assert body[1..] == "+" + slash && ("+" + slash)[1..] == slash;
    assert ParseTerm(body) == Some((Plus(Dot), slash));
  }

  lemma {:induction false} ParseGroup(s: string, u: string)
    requires |s| > 3 && s[0] == '(' && s[1] == '?' && s[2] == ':' && s[3..] == ".+/" + u
    requires u != [] && u[0] == ')'
    ensures ParseAtom(s) == Some((Cat(Plus(Dot), Cat(Literal('/'), Empty)), u[1..]))
  {
    ParseGroupBody(u);
  }

  lemma {:induction false} ParseDirectories(t: string)
    requires t != [] && t[0] != '?'
    ensures ParseTerm("(?:.+/)?" + t) == Some((DIRECTORIES, t))
  {
    var s, u := "(?:.+/)?" + t, ")?" + t;
    assert s[3..] == ".+/" + u;
    assert s[0] == '(' && s[1] == '?' && s[2] == ':';
    ParseGroup(s, u);
    OptionalTerm(s, Cat(Plus(Dot), Cat(Literal('/'), Empty)), u[1..], t);
  }

  lemma {:induction false} OptionalTerm(s: string, atom: Re, u: string, t: string)
    requires s != [] && s[0] != '^' && s[0] != '$' && ParseAtom(s) == Some((atom, u))
    requires u == "?" + t && t != [] && t[0] != '?'
    ensures ParseTerm(s) == Some((Opt(atom), t))
  {
    assert u[1..] == t;
  }

  lemma {:induction false} ParseEscaped(c: char, t: string)
    requires c != '*' && c != '?'
    requires t != [] && t[0] !in "*+?"
    ensures ParseTerm(EscapeRegexChar(c) + t) == Some((Literal(c), t))
  {
    var s := EscapeRegexChar(c) + t;
    if IsSpecial(c) {
      assert s[2..] == t;
    } else {
      assert s[1..] == t;
    }
  }

  lemma {:induction false} ParseStep(s: string, first: Re, t: string, rest: Re)
    requires s != [] && s[0] !in "|)"
    requires ParseTerm(s) == Some((first, t)) && ParseAlternative(t) == Some((rest, ""))
    ensures ParseAlternative(s) == Some((Cat(first, rest), ""))
  {}

  lemma {:induction false} EmitParses(p: string)
    ensures ParseAlternative(Emit(p) + "$") == Some((TreeOf(p), ""))
    decreases |p|
  {
    if p == [] {
      assert "$"[1..] == "" && Emit(p) + "$" == "$";
      assert ParseTerm("$") == Some((End, ""));
      assert ParseAlternative("") == Some((Empty, ""));
    } else {
      var t := Emit(AfterToken(p)) + "$";
      EmitParses(AfterToken(p));
      EmitHead(AfterToken(p));
      EmitHead(p);
      assert Emit(p) + "$" == Token(p) + t;
      TokenParses(p, t, TreeOf(AfterToken(p)));
    }
  }

  lemma {:induction false} GlobstarParses(slash: bool, t: string, rest: Re)
    requires t != [] && t[0] !in "*+?|)" && ParseAlternative(t) == Some((rest, ""))
    ensures ParseAlternative((if slash then ".*" + "(?:.+/)?" else ".*") + t) ==
      Some((Cat(Star(Dot), if slash then Cat(DIRECTORIES, rest) else rest), ""))
  {
    if slash {
      var group := "(?:.+/)?" + t;
      ParseDirectories(t);
      ParseStep(group, DIRECTORIES, t, rest);
      assert (".*" + "(?:.+/)?") + t == ".*" + group;
      ParseGlobstar(group);
      ParseStep(".*" + group, Star(Dot), group, Cat(DIRECTORIES, rest));
    } else {
      ParseGlobstar(t);
      ParseStep(".*" + t, Star(Dot), t, rest);
    }
  }

  lemma {:induction false} TokenParses(p: string, t: string, rest: Re)
    requires p != [] && t != [] && t[0] !in "*+?|)"
    requires ParseAlternative(t) == Some((rest, "")) && rest == TreeOf(AfterToken(p))
    ensures ParseAlternative(Token(p) + t) == Some((TreeOf(p), ""))
  {
    if StartsWithGlobstar(p) {
      GlobstarParses(|p| > 2 && p[2] == '/', t, rest);
    } else if p[0] == '*' {
      ParseNotSlashStar(t);
      ParseStep("[^/]*" + t, Star(NOT_SLASH), t, rest);
    } else if p[0] == '?' {
      ParseNotSlashTerm(t);
      ParseStep("[^/]" + t, NOT_SLASH, t, rest);
    } else {
      ParseEscaped(p[0], t);
      ParseStep(Token(p) + t, Literal(p[0]), t, rest);
    }
  }

  // ---------- the tree means what the pattern means ----------

  lemma {:induction false} CatSplit(a: Re, b: Re, s: string, i: nat, j: nat) returns (k: nat)
    requires Match(Cat(a, b), s, i, j)
    ensures i <= k <= j && Match(a, s, i, k) && Match(b, s, k, j)
  {
    k :| i <= k <= j && Match(a, s, i, k) && Match(b, s, k, j);
  }

  lemma {:induction false} CatJoin(a: Re, b: Re, s: string, i: nat, k: nat, j: nat)
    requires i <= k <= j && Match(a, s, i, k) && Match(b, s, k, j)
    ensures Match(Cat(a, b), s, i, j)
  {}

  predicate UnitMatches(body: Re, c: char)
    requires body.Dot? || body.Class?
  {
    if body.Dot? then !IsLineTerminator(c) else (c in body.members) != body.negated
  }

  /** A run of single-unit matches is a stretch of units that each match. */
  lemma {:induction false} ManyUnits(body: Re, s: string, i: nat, j: nat)
    requires body.Dot? || body.Class?
    requires i <= j <= |s|
    ensures Many(body, s, i, j) <==> forall k :: i <= k < j ==> UnitMatches(body, s[k])
    decreases j - i
  {
    if i < j {
      ManyUnits(body, s, i + 1, j);
      assert UnitMatches(body, s[i]) <==> Match(body, s, i, i + 1);
      assert Match(body, s, i, i + 1) && Many(body, s, i + 1, j) ==> Many(body, s, i, j);
    }
  }

  lemma {:induction false} SliceUnits(body: Re, s: string, i: nat, j: nat)
    requires body.Dot? || body.Class?
    requires i <= j <= |s|
    ensures (forall k :: i <= k < j ==> UnitMatches(body, s[k])) <==>
      var u := s[i..][..j - i]; forall k :: 0 <= k < |u| ==> UnitMatches(body, u[k])
  {
    var u := s[i..][..j - i];
    assert forall k :: 0 <= k < |u| ==> u[k] == s[i + k];
    forall k | i <= k < j ensures s[k] == u[k - i] {}
  }

  lemma {:induction false} ManyDots(s: string, i: nat, j: nat)
    requires i <= j <= |s|
    ensures Match(Star(Dot), s, i, j) <==> NoLineTerminator(s[i..][..j - i])
  {
    ManyUnits(Dot, s, i, j);
    SliceUnits(Dot, s, i, j);
    var u := s[i..][..j - i];
    assert forall k :: 0 <= k < |u| ==> (UnitMatches(Dot, u[k]) <==> !IsLineTerminator(u[k]));
  }

  lemma {:induction false} ManyNotSlash(s: string, i: nat, j: nat)
    requires i <= j <= |s|
    ensures Match(Star(NOT_SLASH), s, i, j) <==> NoSlash(s[i..][..j - i])
  {
    ManyUnits(NOT_SLASH, s, i, j);
    SliceUnits(NOT_SLASH, s, i, j);
    var u := s[i..][..j - i];
    assert forall k :: 0 <= k < |u| ==> (UnitMatches(NOT_SLASH, u[k]) <==> u[k] != '/');
  }

  /** The optional group after a globstar is absorbed by the globstar. */
  lemma {:induction false} DirectoriesAbsorbed(s: string, i: nat, k: nat, m: nat)
    requires i <= k && Match(Star(Dot), s, i, k) && Match(DIRECTORIES, s, k, m)
    ensures Match(Star(Dot), s, i, m)
  {
    ManyUnits(Dot, s, i, k);
    if k < m {
      var e := CatSplit(Plus(Dot), Cat(Literal('/'), Empty), s, k, m);
      var m' := CatSplit(Literal('/'), Empty, s, e, m);
      assert m == e + 1 && s[e] == '/';
      var f: nat :| k <= f <= e && Match(Dot, s, k, f) && Many(Dot, s, f, e);
      ManyUnits(Dot, s, f, e);
      assert UnitMatches(Dot, s[k]) && UnitMatches(Dot, s[e]);
      ManyUnits(Dot, s, i, m);
    }
  }

  /** The tree after the first token. */
  function Tail(p: string): Re
    requires p != []
  {
    TreeOf(AfterToken(p))
  }

  lemma {:induction false} TreeEndsAtEnd(p: string, s: string, i: nat, j: nat)
    requires Match(TreeOf(p), s, i, j)
    ensures j == |s|
    decreases |p|
  {
    var k := CatSplit(TreeOf(p).first, TreeOf(p).rest, s, i, j);
    if p == [] {
    } else if StartsWithGlobstar(p) && |p| > 2 && p[2] == '/' {
      var m := CatSplit(DIRECTORIES, Tail(p), s, k, j);
      TreeEndsAtEnd(AfterToken(p), s, m, j);
    } else {
      TreeEndsAtEnd(AfterToken(p), s, k, j);
    }
  }

  /** A globstar or star that takes `k` units, then the rest of the pattern. */
  lemma {:induction false} StarThenTail(p: string, s: string, i: nat, k: nat)
    requires p != [] && p[0] == '*' && i + k <= |s| && Match(Tail(p), s, i + k, |s|)
    requires if StartsWithGlobstar(p) then NoLineTerminator(s[i..][..k]) else NoSlash(s[i..][..k])
    ensures Match(TreeOf(p), s, i, |s|)
  {
    var n := |s|;
    if StartsWithGlobstar(p) {
      ManyDots(s, i, i + k);
      if |p| > 2 && p[2] == '/' {
        CatJoin(DIRECTORIES, Tail(p), s, i + k, i + k, n);
      }
      CatJoin(Star(Dot), TreeOf(p).rest, s, i, i + k, n);
    } else {
      ManyNotSlash(s, i, i + k);
      CatJoin(Star(NOT_SLASH), Tail(p), s, i, i + k, n);
    }
  }

  lemma {:induction false} GlobImpliesTree(p: string, s: string, i: nat)
    requires i <= |s| && GlobMatch(p, s[i..])
    ensures Match(TreeOf(p), s, i, |s|)
    decreases |p|
  {
    var n := |s|;
    if p == [] {
      CatJoin(End, Empty, s, n, n, n);
    } else if p[0] == '*' {
      var k :| 0 <= k <= n - i && GlobMatch(AfterToken(p), s[i..][k..]) &&
               if StartsWithGlobstar(p) then NoLineTerminator(s[i..][..k]) else NoSlash(s[i..][..k]);
      assert s[i..][k..] == s[i + k..];
      GlobImpliesTree(AfterToken(p), s, i + k);
      StarThenTail(p, s, i, k);
    } else {
      assert s[i..][1..] == s[i + 1..];
      GlobImpliesTree(p[1..], s, i + 1);
      CatJoin(TreeOf(p).first, Tail(p), s, i, i + 1, n);
    }
  }

  lemma {:induction false} TreeImpliesGlob(p: string, s: string, i: nat)
    requires i <= |s| && Match(TreeOf(p), s, i, |s|)
    ensures GlobMatch(p, s[i..])
    decreases |p|
  {
    var n := |s|;
    var k := CatSplit(TreeOf(p).first, TreeOf(p).rest, s, i, n);
    if p == [] {
      assert s[i..] == [];
    } else if StartsWithGlobstar(p) {
      var m := k;
      if |p| > 2 && p[2] == '/' {
        m := CatSplit(DIRECTORIES, Tail(p), s, k, n);
        DirectoriesAbsorbed(s, i, k, m);
      }
      ManyDots(s, i, m);
      TreeImpliesGlob(AfterGlobstar(p), s, m);
      assert s[i..][m - i..] == s[m..];
    } else if p[0] == '*' {
      ManyNotSlash(s, i, k);
      TreeImpliesGlob(p[1..], s, k);
      assert s[i..][k - i..] == s[k..];
    } else {
      TreeImpliesGlob(p[1..], s, k);
      assert s[i..][1..] == s[k..];
    }
  }

  /** The compiled text is a regular expression that accepts exactly what the pattern means. */
  lemma {:induction false} CompiledGlobIsExact(pattern: string, s: string)
    ensures var re := Parse("^" + Emit(pattern) + "$");
      re.Some? && (Test(re.value, s) <==> GlobMatch(pattern, s))
  {
    var text := "^" + Emit(pattern) + "$";
    var tail := Emit(pattern) + "$";
    assert text == "^" + tail && text[1..] == tail;
    EmitParses(pattern);
    var tree := TreeOf(pattern);
    assert ParseTerm(text) == Some((Begin, tail));
    assert ParseAlternative(text) == Some((Cat(Begin, tree), ""));
    assert Parse(text) == Some(Cat(Begin, tree));
    var re := Cat(Begin, tree);
    assert s[0..] == s;
    if Test(re, s) {
      var i: nat, j: nat :| Match(re, s, i, j);
      var k := CatSplit(Begin, tree, s, i, j);
      TreeEndsAtEnd(pattern, s, k, j);
      TreeImpliesGlob(pattern, s, 0);
    }
    if GlobMatch(pattern, s) {
      GlobImpliesTree(pattern, s, 0);
      CatJoin(Begin, tree, s, 0, 0, |s|);
    }
  }
}
